/** Directory entries as text: what the server's add_dirent prints and what the
    client's readdir parses back. */
module Dirents {
  import opened Wrappers
  import opened Wire

  const NAME_MAX: nat := 255

  datatype Dirent = Dirent(name: string, dtype: int, cookie: nat)

  /** What add_dirent accepts (it throws otherwise) and a C int and uint64 can hold. */
  predicate Legal(e: Dirent) {
    0 < |e.name| <= NAME_MAX && 0 <= e.dtype <= INT_MAX && e.cookie <= U64_MAX
  }

  ghost predicate AllLegal(es: seq<Dirent>) {
    forall k :: 0 <= k < |es| ==> Legal(es[k])
  }

  function Encode(e: Dirent): (s: string)
    requires e.dtype >= 0
  {
    Netstring(e.name) + " " + ToDec(e.dtype) + " " + ToDec(e.cookie) + "\n"
  }

  ghost function EncodeAll(es: seq<Dirent>): string
    requires AllLegal(es)
  {
    if es == [] then "" else Encode(es[0]) + EncodeAll(es[1..])
  }

  /** For example. */
  lemma EncodedEntry()
    ensures Encode(Dirent("a.b", 8, 10)) == "3:a.b, 8 10\n"
  {
    assert ToDec(3) == "3" && ToDec(8) == "8" && ToDec(10) == "10";
  }

  /** One entry starting at `i`, and the offset of the next one. */
  function ParseDirent(s: string, i: nat): (r: Option<(Dirent, nat)>)
    ensures r.Some? ==> i < r.value.1 <= |s|
  {
    var (name, afterName) :- ScanNetstring(s, true, i);
    if |name| > NAME_MAX || |name| == 0 then None
    else
      var (dtype, afterType) :- ScanSigned(s, UINT_MAX, afterName);
      var (cookie, last) :- ScanUnsigned(s, U64_MAX, afterType);
      var next := SkipWhite(s, last);
      if next == last then None else Some((Dirent(name, dtype, cookie), next))
  }

  // ---------------------------------------------------------------- lemmas

  lemma SkipOneSpace(s: string, i: nat)
    requires i < |s| && IsSpace(s[i]) && (i + 1 < |s| ==> !IsSpace(s[i + 1]))
    ensures SkipWhite(s, i) == i + 1
  {
    assert SkipWhite(s, i) == SkipWhite(s, i + 1);
  }

  lemma EncodeShape(e: Dirent)
    requires Legal(e)
    ensures Encode(e) == (Netstring(e.name) + [' '] + ToDec(e.dtype) + [' ']) + (ToDec(e.cookie) + ['\n'])
    ensures |Encode(e)| > 0 && IsDigit(Encode(e)[0])
  {
    var n := ToDec(|e.name|);
    assert Encode(e)[0] == n[0];
  }

  /** The fields of a printed entry, each where the next scanner expects it. */
  ghost predicate FieldsAt(s: string, i: nat, e: Dirent, atType: nat, atCookie: nat, end: nat)
    requires Legal(e)
  {
    && i + |Netstring(e.name)| + 1 == atType && atType + |ToDec(e.dtype)| + 1 == atCookie
    && atCookie + |ToDec(e.cookie)| + 1 == end <= |s|
    && At(s, i, Netstring(e.name)) && s[atType - 1] == ' '
    && At(s, atType, ToDec(e.dtype)) && s[atCookie - 1] == ' '
    && At(s, atCookie, ToDec(e.cookie)) && s[end - 1] == '\n'
  }

  lemma FieldsOfEncode(s: string, i: nat, e: Dirent) returns (atType: nat, atCookie: nat)
    requires Legal(e) && At(s, i, Encode(e))
    ensures FieldsAt(s, i, e, atType, atCookie, i + |Encode(e)|)
  {
    hide Encode, Netstring, ToDec, At;
    var a, b, c := Netstring(e.name), ToDec(e.dtype), ToDec(e.cookie);
    EncodeShape(e);
    AtSplit(s, i, a + [' '] + b + [' '], c + ['\n']);
    AtClosedPieces(s, i, a, ' ', b, ' ');
    atType := i + |a| + 1;
    atCookie := atType + |b| + 1;
    AtSplit(s, atCookie, c, ['\n']);
    AtChar(s, atCookie + |c|, ['\n']);
  }

  lemma ParseCookie(s: string, e: Dirent, atCookie: nat, end: nat)
    requires Legal(e) && 0 < atCookie && atCookie + |ToDec(e.cookie)| + 1 == end <= |s|
    requires s[atCookie - 1] == ' ' && At(s, atCookie, ToDec(e.cookie)) && s[end - 1] == '\n'
    requires end < |s| ==> !IsSpace(s[end])
    ensures ScanUnsigned(s, U64_MAX, atCookie - 1) == Some((e.cookie, end - 1))
    ensures SkipWhite(s, end - 1) == end
  {
    AtChar(s, atCookie, ToDec(e.cookie));
    SkipOneSpace(s, atCookie - 1);
    ScanUnsignedOfDec(s, atCookie - 1, atCookie, e.cookie, U64_MAX);
    SkipOneSpace(s, end - 1);
  }

  lemma ParseType(s: string, e: Dirent, atType: nat, atCookie: nat)
    requires Legal(e) && 0 < atType && atType + |ToDec(e.dtype)| + 1 == atCookie <= |s|
    requires s[atType - 1] == ' ' && At(s, atType, ToDec(e.dtype)) && s[atCookie - 1] == ' '
    ensures ScanSigned(s, UINT_MAX, atType - 1) == Some((e.dtype, atCookie - 1))
  {
    AtChar(s, atType, ToDec(e.dtype));
    SkipOneSpace(s, atType - 1);
    ScanSignedOfDec(s, UINT_MAX, atType - 1, atType, e.dtype);
  }

  /** A printed entry is read back whole, and the offset returned is its end. */
  lemma ParseOfEncode(s: string, i: nat, e: Dirent)
    requires Legal(e) && At(s, i, Encode(e))
    requires i + |Encode(e)| < |s| ==> !IsSpace(s[i + |Encode(e)|])
    ensures ParseDirent(s, i) == Some((e, i + |Encode(e)|))
  {
    hide Encode, ScanNetstring, ScanSigned, ScanUnsigned, SkipWhite, Netstring, ToDec, At;
    var atType, atCookie := FieldsOfEncode(s, i, e);
    ScanNetstringOfNetstring(s, i, e.name, true);
    ParseType(s, e, atType, atCookie);
    ParseCookie(s, e, atCookie, i + |Encode(e)|);
  }

  lemma {:induction false} EncodeAllConcat(a: seq<Dirent>, b: seq<Dirent>)
    requires AllLegal(a) && AllLegal(b)
    ensures AllLegal(a + b) && EncodeAll(a + b) == EncodeAll(a) + EncodeAll(b)
  {
    hide Encode, Legal;
    if a == [] {
      assert a + b == b;
    } else {
      assert (a + b)[1..] == a[1..] + b;
      EncodeAllConcat(a[1..], b);
    }
  }

  lemma EncodeAllOne(e: Dirent)
    requires Legal(e)
    ensures AllLegal([e]) && EncodeAll([e]) == Encode(e)
  {
    assert [e][1..] == [];
    assert Encode(e) + "" == Encode(e);
  }

  lemma EncodeAllParts(es: seq<Dirent>, k: nat)
    requires AllLegal(es) && k < |es|
    ensures EncodeAll(es[..k + 1]) == EncodeAll(es[..k]) + Encode(es[k])
    ensures EncodeAll(es) == EncodeAll(es[..k]) + Encode(es[k]) + EncodeAll(es[k + 1..])
  {
    hide EncodeAll, Encode, Legal;
    EncodeAllOne(es[k]);
    assert es[..k + 1] == es[..k] + [es[k]];
    EncodeAllConcat(es[..k], [es[k]]);
    assert es == es[..k + 1] + es[k + 1..];
    EncodeAllConcat(es[..k + 1], es[k + 1..]);
  }

  /** Where entry `k` stands in the text of `es`. */
  lemma EncodeAllAt(es: seq<Dirent>, k: nat)
    requires AllLegal(es) && k < |es|
    ensures var i := |EncodeAll(es[..k])|;
            && At(EncodeAll(es), i, Encode(es[k])) && |Encode(es[k])| > 0
            && |EncodeAll(es[..k + 1])| == i + |Encode(es[k])| <= |EncodeAll(es)|
            && i < |EncodeAll(es)| && IsDigit(EncodeAll(es)[i])
  {
    EncodeAllParts(es, k);
    AtHere(EncodeAll(es[..k]), Encode(es[k]), EncodeAll(es[k + 1..]));
    EncodeShape(es[k]);
    AtChar(EncodeAll(es), |EncodeAll(es[..k])|, Encode(es[k]));
  }
}
