/** Percent-escapes in urls, as the client writes them and as the server's two decoders
    read them. */
module Urls {
  import opened Wrappers

  // ------------------------------------------------- percent-escapes

  predicate Unreserved(c: char) {
    'a' <= c <= 'z' || 'A' <= c <= 'Z' || '0' <= c <= '9' || c == '-' || c == '.' || c == '_' || c == '~' || c == '/'
  }

  function HexChar(d: nat): (c: char)
    requires d < 16
  {
    if d < 10 then '0' + d as char else 'A' + (d - 10) as char
  }

  function HexValue(c: char): Option<nat> {
    if '0' <= c <= '9' then Some((c - '0') as nat)
    else if 'a' <= c <= 'f' then Some((c - 'a') as nat + 10)
    else if 'A' <= c <= 'F' then Some((c - 'A') as nat + 10)
    else None
  }

  /** Names are strings of bytes. */
  predicate IsBytes(s: string) {
    forall k :: 0 <= k < |s| ==> s[k] as nat < 256
  }

  function EscapeChar(c: char): string {
    if Unreserved(c) then [c] else ['%', HexChar(c as nat / 16 % 16), HexChar(c as nat % 16)]
  }

  function Escape(s: string): string {
    if s == "" then "" else EscapeChar(s[0]) + Escape(s[1..])
  }

  /** The character that two hexadecimal digits stand for. */
  function Hex(a: char, b: char): Option<char> {
    var x :- HexValue(a);
    var y :- HexValue(b);
    if x < 16 && y < 16 then Some((16 * x + y) as char) else None
  }

  /** urlunescape: None is a throw. */
  function Unescape(s: string): Option<string> {
    if s == "" then Some("")
    else if s[0] == '%' then
      if |s| < 3 then None
      else
        var c :- Hex(s[1], s[2]);
        var rest :- Unescape(s[3..]);
        Some([c] + rest)
    else
      var rest :- Unescape(s[1..]);
      Some([s[0]] + rest)
  }

  predicate IsEscape(s: string) {
    |s| >= 3 && s[0] == '%' && Hex(s[1], s[2]).Some?
  }

  /** evhttp_uridecode: what is no escape stays as it is. */
  function Decode(s: string): string {
    if s == "" then ""
    else if IsEscape(s) then [Hex(s[1], s[2]).value] + Decode(s[3..])
    else [s[0]] + Decode(s[1..])
  }

  method UrlEscape(s: string) returns (r: string)
    ensures r == Escape(s)
  {
    hide HexChar, Unreserved;
    r := "";
    assert s[0..] == s && "" + Escape(s) == Escape(s);
    for i := 0 to |s|
      invariant r + Escape(s[i..]) == Escape(s)
    {
      var c := s[i];
      EscapeStep(s, i, r);
      ghost var before := r;
      if Unreserved(c) {
        r := r + [c];
      } else {
        r := r + ['%'];
        r := r + [HexChar(c as nat / 16 % 16)];
        r := r + [HexChar(c as nat % 16)];
      }
      assert r == before + EscapeChar(c);
    }
    assert s[|s|..] == "";
    assert r + "" == r;
  }

  lemma EscapeStep(s: string, i: nat, r: string)
    requires i < |s|
    ensures r + Escape(s[i..]) == r + EscapeChar(s[i]) + Escape(s[i + 1..])
  {
    hide EscapeChar;
    assert s[i..][1..] == s[i + 1..];
    assert r + (EscapeChar(s[i]) + Escape(s[i + 1..])) == r + EscapeChar(s[i]) + Escape(s[i + 1..]);
  }

  method UrlUnescape(s: string) returns (r: Option<string>)
    ensures r == Unescape(s)
  {
    var done := "";
    var i := 0;
    assert s[0..] == s;
    assert Unescape(s).Some? ==> "" + Unescape(s).value == Unescape(s).value;
    while i < |s|
      invariant i <= |s|
      invariant Unescape(s) == Prepend(done, Unescape(s[i..]))
    {
      var c := s[i];
      if c == '%' {
        if i + 2 >= |s| {
          return None;
        }
        var h := Hex(s[i + 1], s[i + 2]);
        if h.None? {
          return None;
        }
        assert s[i..][3..] == s[i + 3..];
        PrependTwice(done, [h.value], Unescape(s[i + 3..]));
        done := done + [h.value];
        i := i + 3;
      } else {
        assert s[i..][1..] == s[i + 1..];
        PrependTwice(done, [c], Unescape(s[i + 1..]));
        done := done + [c];
        i := i + 1;
      }
    }
    assert s[i..] == "" && done + "" == done;
    return Some(done);
  }

  function Prepend(a: string, r: Option<string>): Option<string> {
    if r.None? then None else Some(a + r.value)
  }

  lemma PrependTwice(a: string, b: string, r: Option<string>)
    ensures Prepend(a, Prepend(b, r)) == Prepend(a + b, r)
  {
    if r.Some? {
      assert a + (b + r.value) == (a + b) + r.value;
    }
  }

  lemma HexOfByte(c: char)
    requires c as nat < 256
    ensures Hex(HexChar(c as nat / 16 % 16), HexChar(c as nat % 16)) == Some(c)
  {
    HexOfDigit(c as nat / 16 % 16);
    HexOfDigit(c as nat % 16);
    assert 16 * (c as nat / 16 % 16) + c as nat % 16 == c as nat;
  }

  lemma HexOfDigit(d: nat)
    requires d < 16
    ensures HexValue(HexChar(d)) == Some(d)
  {
  }

  lemma DecodeStep(c: char, tail: string)
    requires c as nat < 256
    ensures Decode(EscapeChar(c) + tail) == [c] + Decode(tail)
    ensures Unescape(EscapeChar(c) + tail) == Prepend([c], Unescape(tail))
  {
    HexOfByte(c);
    var e := EscapeChar(c);
    var s := e + tail;
    assert !Unreserved('%');
    hide Hex, HexChar, HexValue;
    assert s[|e|..] == tail;
    if !Unreserved(c) {
      assert s[0] == '%' && s[1] == HexChar(c as nat / 16 % 16) && s[2] == HexChar(c as nat % 16);
      assert Decode(s) == [c] + Decode(s[3..]);
    }
  }

  lemma DecodeNothing(rest: string)
    ensures "" + rest == rest && "" + Decode(rest) == Decode(rest)
    ensures Prepend("", Unescape(rest)) == Unescape(rest)
  {
    hide Decode, Unescape;
    assert Unescape(rest).Some? ==> "" + Unescape(rest).value == Unescape(rest).value;
  }

  lemma EscapeFirst(s: string)
    requires s != ""
    ensures Escape(s) == EscapeChar(s[0]) + Escape(s[1..])
  {
    hide EscapeChar;
  }

  lemma EscapeNothing()
    ensures Escape("") == ""
  {
  }

  /** Both decoders undo the escaping, whatever comes after it. */
  lemma {:induction false} DecodeEscape(s: string, rest: string)
    requires IsBytes(s)
    ensures Decode(Escape(s) + rest) == s + Decode(rest)
    ensures Unescape(Escape(s) + rest) == Prepend(s, Unescape(rest))
  {
    hide Escape, EscapeChar, Decode, Unescape, Prepend;
    if s == "" {
      EscapeNothing();
      DecodeNothing(rest);
    } else {
      DecodeEscape(s[1..], rest);
      EscapeFirst(s);
      var tail := Escape(s[1..]) + rest;
      DecodeStep(s[0], tail);
      assert EscapeChar(s[0]) + Escape(s[1..]) + rest == EscapeChar(s[0]) + tail;
      assert [s[0]] + (s[1..] + Decode(rest)) == s + Decode(rest);
      PrependTwice([s[0]], s[1..], Unescape(rest));
      assert [s[0]] + s[1..] == s;
    }
  }

  /** Text without escapes decodes to itself. */
  lemma {:induction false} DecodePlain(a: string, rest: string)
    requires '%' !in a
    ensures Decode(a + rest) == a + Decode(rest)
    ensures Unescape(a + rest) == Prepend(a, Unescape(rest))
  {
    if a == "" {
      assert a + rest == rest;
      assert "" + Decode(rest) == Decode(rest);
      assert Unescape(rest).Some? ==> "" + Unescape(rest).value == Unescape(rest).value;
    } else {
      hide IsEscape, Hex;
      DecodePlain(a[1..], rest);
      PlainFirst(a[0], a[1..] + rest);
      hide Decode, Unescape, Prepend;
      assert a + rest == [a[0]] + (a[1..] + rest);
      assert (a + rest)[1..] == a[1..] + rest;
      assert [a[0]] + (a[1..] + Decode(rest)) == a + Decode(rest);
      PrependTwice([a[0]], a[1..], Unescape(rest));
      assert [a[0]] + a[1..] == a;
    }
  }

  lemma PlainFirst(c: char, tail: string)
    requires c != '%'
    ensures Decode([c] + tail) == [c] + Decode(tail)
    ensures Unescape([c] + tail) == Prepend([c], Unescape(tail))
  {
    assert ([c] + tail)[1..] == tail;
  }

  /** Where the first percent sign is no escape, urlunescape throws. */
  lemma MalformedThrows(a: string, rest: string)
    requires '%' !in a && rest != "" && rest[0] == '%' && !IsEscape(rest)
    ensures Unescape(a + rest) == None
  {
    DecodePlain(a, rest);
    assert Unescape(rest) == None;
  }

  /** A character that no escape can reach over, such as a slash or a question mark. */
  predicate NonHex(c: char) {
    HexValue(c).None?
  }

  /** Text before such a character decodes on its own. */
  lemma {:induction false} DecodeBeforeNonHex(a: string, rest: string)
    requires rest != "" && NonHex(rest[0])
    ensures Decode(a + rest) == Decode(a) + Decode(rest)
    decreases |a|
  {
    hide Hex, Decode;
    if a == "" {
      DecodeNothing(rest);
      DecodeEmpty();
    } else if IsEscape(a) {
      DecodeBeforeNonHex(a[3..], rest);
      assert (a + rest)[3..] == a[3..] + rest;
      DecodeFirst(a);
      DecodeFirst(a + rest);
      var h := [Hex(a[1], a[2]).value];
      assert h + (Decode(a[3..]) + Decode(rest)) == (h + Decode(a[3..])) + Decode(rest);
    } else {
      DecodeBeforeNonHex(a[1..], rest);
      assert (a + rest)[1..] == a[1..] + rest;
      NonHexEndsNoEscape(a, rest);
      DecodeFirst(a);
      DecodeFirst(a + rest);
      assert [a[0]] + (Decode(a[1..]) + Decode(rest)) == ([a[0]] + Decode(a[1..])) + Decode(rest);
    }
  }

  lemma DecodeEmpty()
    ensures Decode("") == ""
  {
  }

  lemma DecodeFirst(s: string)
    requires s != ""
    ensures Decode(s) == if IsEscape(s) then [Hex(s[1], s[2]).value] + Decode(s[3..]) else [s[0]] + Decode(s[1..])
  {
    hide Hex;
  }

  lemma NonHexEndsNoEscape(a: string, rest: string)
    requires a != "" && rest != "" && NonHex(rest[0])
    requires !IsEscape(a)
    ensures !IsEscape(a + rest)
  {
    hide HexValue;
    assert (a + rest)[|a|] == rest[0];
  }

  /** Escaped text has none of the characters that mean something in a url. */
  lemma {:induction false} EscapedIsSafe(s: string)
    ensures forall k :: 0 <= k < |Escape(s)| ==> Unreserved(Escape(s)[k]) || Escape(s)[k] == '%'
  {
    if s != "" {
      EscapedIsSafe(s[1..]);
      assert Unreserved(HexChar(s[0] as nat / 16 % 16)) && Unreserved(HexChar(s[0] as nat % 16));
    }
  }

  // ------------------------------------------------- finding

  predicate Occurs(s: string, part: string, j: nat) {
    j + |part| <= |s| && s[j..j + |part|] == part
  }

  /** The first occurrence of `part` from `i` on. */
  function Find(s: string, part: string, i: nat): (r: Option<nat>)
    ensures r.Some? ==> i <= r.value && Occurs(s, part, r.value)
    ensures forall j: nat :: i <= j && Occurs(s, part, j) ==> r.Some? && r.value <= j
    decreases |s| - i
  {
    if i + |part| > |s| then None
    else if Occurs(s, part, i) then Some(i)
    else Find(s, part, i + 1)
  }

  function FindChar(s: string, c: char, i: nat): (r: Option<nat>)
    ensures r.Some? ==> i <= r.value < |s| && s[r.value] == c
    ensures forall j :: i <= j < |s| && s[j] == c ==> r.Some? && r.value <= j
    decreases |s| - i
  {
    if i >= |s| then None
    else if s[i] == c then Some(i)
    else FindChar(s, c, i + 1)
  }
}
