/** Decimal numbers, integer scanning and netstrings: the shared pieces of every
    text that fs123 prints and parses. */
module Wire {
  import opened Wrappers

  const U64_MAX: nat := 0xFFFF_FFFF_FFFF_FFFF
  const UINT_MAX: nat := 0xFFFF_FFFF
  const INT_MAX: nat := 0x7FFF_FFFF

  predicate IsDigit(c: char) {
    '0' <= c <= '9'
  }

  predicate IsSpace(c: char) {
    c == ' ' || c == '\n' || c == '\t' || c == '\r' || c == '\U{000C}'
  }

  /** Text `part` occurs in `s` at offset `i`. */
  ghost predicate At(s: string, i: nat, part: string) {
    i + |part| <= |s| && s[i..i + |part|] == part
  }

  /** Nothing at offset `i` of `s` continues a decimal number. */
  predicate NumberEnds(s: string, i: nat) {
    i < |s| ==> !IsDigit(s[i])
  }

  lemma AtSplit(s: string, i: nat, a: string, b: string)
    requires At(s, i, a + b)
    ensures At(s, i, a) && At(s, i + |a|, b)
  {
    assert (a + b)[..|a|] == a && (a + b)[|a|..] == b;
    assert s[i..i + |a + b|][..|a|] == s[i..i + |a|];
    assert s[i..i + |a + b|][|a|..] == s[i + |a|..i + |a| + |b|];
  }

  /** Two pieces, each closed by one character. */
  lemma AtClosedPieces(s: string, i: nat, a: string, x: char, b: string, y: char)
    requires At(s, i, a + [x] + b + [y])
    ensures At(s, i, a) && At(s, i + |a| + 1, b)
    ensures i + |a| + |b| + 1 < |s| && s[i + |a|] == x && s[i + |a| + 1 + |b|] == y
  {
    AtSplit(s, i, a + [x] + b, [y]);
    AtSplit(s, i, a + [x], b);
    AtSplit(s, i, a, [x]);
    AtChar(s, i + |a|, [x]);
    AtChar(s, i + |a| + 1 + |b|, [y]);
  }

  lemma AtChar(s: string, i: nat, part: string)
    requires At(s, i, part) && |part| > 0
    ensures i < |s| && s[i] == part[0]
  {
    assert s[i] == s[i..i + |part|][0];
  }

  lemma AtHere(pre: string, part: string, post: string)
    ensures At(pre + part + post, |pre|, part)
  {
  }

  // ---------------------------------------------------------------- printing

  function DigitChar(d: nat): (c: char)
    requires d < 10
    ensures IsDigit(c) && c as int == '0' as int + d
  {
    ('0' as int + d) as char
  }

  /** std::to_string of an unsigned value. */
  function ToDec(n: nat): (s: string)
    ensures |s| > 0 && forall k :: 0 <= k < |s| ==> IsDigit(s[k])
    ensures s[0] == '0' <==> n == 0
    ensures n == 0 ==> |s| == 1
  {
    if n < 10 then [DigitChar(n)] else ToDec(n / 10) + [DigitChar(n % 10)]
  }

  function Netstring(s: string): string {
    ToDec(|s|) + ":" + s + ","
  }

  // ---------------------------------------------------------------- scanning

  /** The value of a digit in the given base, or the base itself for a non-digit. */
  function DigitValue(c: char, base: nat): (v: nat)
    requires base == 8 || base == 10 || base == 16
    ensures v <= base
  {
    if '0' <= c <= '9' && c as int - '0' as int < base then c as int - '0' as int
    else if base <= 10 then base
    else if 'a' <= c <= 'f' then c as int - 'a' as int + 10
    else if 'A' <= c <= 'F' then c as int - 'A' as int + 10
    else base
  }

  function SkipWhite(s: string, i: nat): (j: nat)
    ensures j >= i && (i <= |s| ==> j <= |s|)
    ensures i <= |s| && (i < |s| ==> !IsSpace(s[i])) ==> j == i
    ensures j < |s| ==> !IsSpace(s[j])
    decreases |s| - i
  {
    if i < |s| && IsSpace(s[i]) then SkipWhite(s, i + 1) else i
  }

  /** The digit loop: None when the number would exceed `max`. */
  function ScanDigits(s: string, base: nat, max: nat, i: nat, acc: nat): (r: Option<(nat, nat)>)
    requires base == 8 || base == 10 || base == 16
    ensures r.Some? ==> i <= r.value.1 && (i <= |s| ==> r.value.1 <= |s|)
    decreases |s| - i
  {
    if i >= |s| || DigitValue(s[i], base) == base then
      Some((acc, i))
    else
      var digit := DigitValue(s[i], base);
      if acc > max / base || (acc == max / base && digit > max % base) then None
      else ScanDigits(s, base, max, i + 1, acc * base + digit)
  }

  function ScanUint(s: string, base: nat, max: nat, i: nat): (r: Option<(nat, nat)>)
    requires base == 8 || base == 10 || base == 16
    ensures r.Some? ==> i < r.value.1 <= |s|
  {
    if i >= |s| || DigitValue(s[i], base) == base then None
    else
      var d := ScanDigits(s, base, max, i, 0);
      if d.Some? && d.value.1 == i then None else d
  }

  /** scanint with base 0 and no leading white space: a leading 0 or 0x selects
      octal or hexadecimal. */
  function ScanPrefixed(s: string, max: nat, i: nat): (r: Option<(nat, nat)>)
    ensures r.Some? ==> i < r.value.1 <= |s|
  {
    if i >= |s| then None
    else if s[i] == '0' then
      if i + 1 == |s| then Some((0, i + 1))
      else if s[i + 1] == 'x' || s[i + 1] == 'X' then
        if i + 2 == |s| || DigitValue(s[i + 2], 16) == 16 then Some((0, i + 1))
        else ScanUint(s, 16, max, i + 2)
      else if DigitValue(s[i + 1], 8) == 8 then Some((0, i + 1))
      else ScanUint(s, 8, max, i + 1)
    else ScanUint(s, 10, max, i)
  }

  /** svscan of an unsigned integer. */
  function ScanUnsigned(s: string, max: nat, start: nat): (r: Option<(nat, nat)>)
    ensures r.Some? ==> start < r.value.1 <= |s|
  {
    ScanPrefixed(s, max, SkipWhite(s, start))
  }

  /** svscan of a signed integer whose unsigned counterpart holds up to `umax`: an
      optional minus sign before the digits. */
  function ScanSigned(s: string, umax: nat, start: nat): (r: Option<(int, nat)>)
    ensures r.Some? ==> start < r.value.1 <= |s|
  {
    var i := SkipWhite(s, start);
    if i >= |s| then None
    else
      var neg := if s[i] == '-' then 1 else 0;
      var (u, next) :- ScanPrefixed(s, umax, i + neg);
      if u == 0 then Some((0, next))
      else if u - neg > umax / 2 then None
      else Some((if neg == 1 then -(u as int) else u as int, next))
  }

  /** svto: a whole string holding one number and otherwise only white space. */
  function ParseUnsigned(s: string, max: nat): Option<nat> {
    var (v, next) :- ScanUnsigned(s, max, 0);
    if SkipWhite(s, next) == |s| then Some(v) else None
  }

  function ParseSigned(s: string, umax: nat): Option<int> {
    var (v, next) :- ScanSigned(s, umax, 0);
    if SkipWhite(s, next) == |s| then Some(v) else None
  }

  function ParseInt(s: string): Option<int> {
    ParseSigned(s, UINT_MAX)
  }

  /** svscan_netstring: the payload and the offset just after its comma. */
  function ScanNetstring(s: string, skipWhite: bool, start: nat): (r: Option<(string, nat)>)
    ensures r.Some? ==> start < r.value.1 <= |s|
  {
    var i := if skipWhite then SkipWhite(s, start) else start;
    var (len, colon) :- ScanUint(s, 10, U64_MAX, i);
    if s[i] == '0' && (len != 0 || colon - i != 1) then None
    else if colon >= |s| || s[colon] != ':' then None
    else if colon + len + 1 >= |s| || s[colon + len + 1] != ',' then None
    else Some((s[colon + 1..colon + 1 + len], colon + len + 2))
  }

  // ---------------------------------------------------------------- what scanners accept

  /** The number that the digits from i to j denote. */
  function ValueOf(s: string, base: nat, i: nat, j: nat): nat
    requires base == 8 || base == 10 || base == 16
    requires i <= j <= |s|
    decreases j
  {
    if i == j then 0 else ValueOf(s, base, i, j - 1) * base + DigitValue(s[j - 1], base)
  }

  predicate IsRun(s: string, base: nat, i: nat, j: nat)
    requires base == 8 || base == 10 || base == 16
    requires i <= j <= |s|
  {
    && (forall k :: i <= k < j ==> DigitValue(s[k], base) < base)
    && (j < |s| ==> DigitValue(s[j], base) == base)
  }

  /** One more digit takes the number beyond the maximum just when the check says so. */
  lemma Exceeds(acc: nat, base: nat, digit: nat, max: nat)
    requires 0 < base && digit < base
    ensures acc > max / base || (acc == max / base && digit > max % base) <==> acc * base + digit > max
  {
    var q, r := max / base, max % base;
    assert max == q * base + r;
    if acc > q {
      assert acc * base >= (q + 1) * base == q * base + base;
    } else if acc < q {
      assert q * base >= (acc + 1) * base == acc * base + base;
    }
  }

  lemma {:induction false} ValueGrows(s: string, base: nat, i: nat, k: nat, j: nat)
    requires base == 8 || base == 10 || base == 16
    requires i <= k <= j <= |s|
    ensures ValueOf(s, base, i, k) <= ValueOf(s, base, i, j)
    decreases j
  {
    if k < j {
      ValueGrows(s, base, i, k, j - 1);
    }
  }

  /** The digit loop reads the whole run of digits, if its number is not too great. */
  lemma {:induction false} ScanDigitsFrom(s: string, base: nat, max: nat, i: nat, k: nat, j: nat)
    requires base == 8 || base == 10 || base == 16
    requires i <= k <= j <= |s| && IsRun(s, base, i, j) && ValueOf(s, base, i, k) <= max
    ensures ScanDigits(s, base, max, k, ValueOf(s, base, i, k))
            == if ValueOf(s, base, i, j) <= max then Some((ValueOf(s, base, i, j), j)) else None
    decreases j - k
  {
    if k < j {
      var acc, digit := ValueOf(s, base, i, k), DigitValue(s[k], base);
      hide DigitValue;
      Exceeds(acc, base, digit, max);
      ValueGrows(s, base, i, k + 1, j);
      if acc * base + digit <= max {
        ScanDigitsFrom(s, base, max, i, k + 1, j);
      }
    }
  }

  /** A number is scanned to the end of its digits, and refused if and only if there are
      none or it is beyond the maximum. */
  lemma ScanUintExactly(s: string, base: nat, max: nat, i: nat, j: nat)
    requires base == 8 || base == 10 || base == 16
    requires i <= j <= |s| && IsRun(s, base, i, j)
    ensures ScanUint(s, base, max, i)
            == if i < j && ValueOf(s, base, i, j) <= max then Some((ValueOf(s, base, i, j), j)) else None
  {
    hide DigitValue;
    ScanDigitsFrom(s, base, max, i, i, j);
  }

  /** What is taken for a netstring is one: digits, a colon, the payload that they count,
      and a comma. */
  lemma NetstringExactly(s: string, i: nat, j: nat)
    requires i <= j <= |s| && IsRun(s, 10, i, j)
    ensures var n := ValueOf(s, 10, i, j);
            var r := ScanNetstring(s, false, i);
            && (r.Some? <==> && i < j && n <= U64_MAX && (s[i] == '0' ==> j == i + 1)
                             && j + n + 1 < |s| && s[j] == ':' && s[j + n + 1] == ',')
            && (r.Some? ==> r.value == (s[j + 1..j + 1 + n], j + n + 2))
  {
    ScanUintExactly(s, 10, U64_MAX, i, j);
    if i < j && s[i] == '0' {
      FirstZero(s, i, j);
    }
    hide DigitValue, ScanUint, ValueOf, IsRun;
  }

  lemma FirstZero(s: string, i: nat, j: nat)
    requires i < j <= |s| && s[i] == '0'
    ensures j == i + 1 ==> ValueOf(s, 10, i, j) == 0
  {
    assert ValueOf(s, 10, i, i) == 0;
  }

  // ---------------------------------------------------------------- inverses

  lemma {:induction false} ScanDigitsOfDec(s: string, i: nat, n: nat, max: nat)
    requires At(s, i, ToDec(n)) && n <= max
    ensures ScanDigits(s, 10, max, i, 0) == ScanDigits(s, 10, max, i + |ToDec(n)|, n)
  {
    var t := ToDec(n);
    if n < 10 {
      assert s[i..i + |t|][0] == s[i];
      assert 0 < max / 10 || n <= max % 10;
    } else {
      var front, last := ToDec(n / 10), [DigitChar(n % 10)];
      AtSplit(s, i, front, last);
      ScanDigitsOfDec(s, i, n / 10, max);
      var j := i + |front|;
      assert s[j..j + 1][0] == s[j];
      assert n / 10 <= max / 10;
      assert n / 10 == max / 10 ==> n % 10 <= max % 10;
    }
  }

  /** Scanning a printed number in base 10 gives it back and stops right after it. */
  lemma ScanUintOfDec(s: string, i: nat, n: nat, max: nat)
    requires At(s, i, ToDec(n)) && NumberEnds(s, i + |ToDec(n)|) && n <= max
    ensures ScanUint(s, 10, max, i) == Some((n, i + |ToDec(n)|))
  {
    ScanDigitsOfDec(s, i, n, max);
    assert s[i..i + |ToDec(n)|][0] == s[i];
  }

  /** The same for the base-detecting scanners, which never mistake a printed
      number for octal or hexadecimal. White space in front is skipped. */
  lemma ScanPrefixedOfDec(s: string, i: nat, n: nat, max: nat)
    requires At(s, i, ToDec(n)) && NumberEnds(s, i + |ToDec(n)|) && n <= max
    requires i + |ToDec(n)| < |s| ==> s[i + |ToDec(n)|] != 'x' && s[i + |ToDec(n)|] != 'X'
    ensures ScanPrefixed(s, max, i) == Some((n, i + |ToDec(n)|))
  {
    AtChar(s, i, ToDec(n));
    if n != 0 {
      ScanUintOfDec(s, i, n, max);
    }
  }

  lemma ScanUnsignedOfDec(s: string, start: nat, i: nat, n: nat, max: nat)
    requires At(s, i, ToDec(n)) && NumberEnds(s, i + |ToDec(n)|) && n <= max
    requires i + |ToDec(n)| < |s| ==> s[i + |ToDec(n)|] != 'x' && s[i + |ToDec(n)|] != 'X'
    requires SkipWhite(s, start) == i
    ensures ScanUnsigned(s, max, start) == Some((n, i + |ToDec(n)|))
  {
    ScanPrefixedOfDec(s, i, n, max);
  }

  lemma ScanSignedOfDec(s: string, umax: nat, start: nat, i: nat, n: nat)
    requires At(s, i, ToDec(n)) && NumberEnds(s, i + |ToDec(n)|) && n <= umax / 2
    requires i + |ToDec(n)| < |s| ==> s[i + |ToDec(n)|] != 'x' && s[i + |ToDec(n)|] != 'X'
    requires SkipWhite(s, start) == i
    ensures ScanSigned(s, umax, start) == Some((n as int, i + |ToDec(n)|))
  {
    AtChar(s, i, ToDec(n));
    ScanPrefixedOfDec(s, i, n, umax);
  }

  lemma ParseOfDec(n: nat, max: nat)
    requires n <= max
    ensures ParseUnsigned(ToDec(n), max) == Some(n)
    ensures n <= max / 2 ==> ParseSigned(ToDec(n), max) == Some(n as int)
  {
    var s := ToDec(n);
    AtChar(s, 0, s);
    ScanUnsignedOfDec(s, 0, 0, n, max);
    if n <= max / 2 {
      ScanSignedOfDec(s, max, 0, 0, n);
    }
  }

  function Pow10(k: nat): (p: nat)
    ensures p > 0
  {
    if k == 0 then 1 else 10 * Pow10(k - 1)
  }

  lemma SomePowers()
    ensures Pow10(3) == 1_000 && Pow10(10) == 10_000_000_000 && Pow10(20) == 100_000_000_000_000_000_000
  {
    assert Pow10(5) == 100_000;
    assert Pow10(10) == 10_000_000_000;
    assert Pow10(15) == 1_000_000_000_000_000;
  }

  lemma {:induction false} DecLength(n: nat, k: nat)
    requires k > 0 && n < Pow10(k)
    ensures |ToDec(n)| <= k
  {
    if n >= 10 {
      DecLength(n / 10, k - 1);
    }
  }

  /** Scanning a printed netstring gives back its payload whatever bytes it holds. */
  lemma ScanNetstringOfNetstring(s: string, i: nat, payload: string, skipWhite: bool)
    requires At(s, i, Netstring(payload)) && |payload| <= U64_MAX
    ensures ScanNetstring(s, skipWhite, i) == Some((payload, i + |Netstring(payload)|))
  {
    var len := ToDec(|payload|);
    assert Netstring(payload) == len + [':'] + payload + [','];
    AtClosedPieces(s, i, len, ':', payload, ',');
    AtChar(s, i, len);
    ScanUintOfDec(s, i, |payload|, U64_MAX);
  }
}
