/** The body of a 7.3 reply: key/value records printed by the server around the
    content, and the client's parser for them. */
module Reply73 {
  import opened Wrappers
  import opened Wire
  import opened Spans

  const ERRNO := "errno"
  const CONTENT := "content"
  const REQUEST := "req123"
  const COOKIE := "estalecookie"
  const NEXTSTART := "nextstart"

  type Pair = (string, string)

  function Line(p: Pair): string {
    Netstring(p.0) + " " + Netstring(p.1) + "\n"
  }

  /** Records in front of the content; a record added later stands earlier. */
  function Lines(kvs: seq<Pair>): string {
    if kvs == [] then "" else Line(kvs[|kvs| - 1]) + Lines(kvs[..|kvs| - 1])
  }

  function ContentHeadOf(size: nat): string {
    Netstring(CONTENT) + " " + ToDec(size) + ":"
  }

  function ContentHead(content: string): string {
    ContentHeadOf(|content|)
  }

  function Print(kvs: seq<Pair>, content: string): string {
    Lines(kvs) + (ContentHead(content) + content + ",\n")
  }

  /** For example. */
  lemma PrintedReply()
    ensures Print([("errno", "0"), ("nextstart", "57")], "hi,") == "9:nextstart, 2:57,\n" + "5:errno, 1:0,\n" + "7:content, 3:hi,,\n"
  {
    var p, q := ("errno", "0"), ("nextstart", "57");
    FirstExample();
    SecondExample();
    ContentExample();
    hide Line, ContentHead;
    assert [p, q][..1] == [p] && [p][..0] == [];
    assert Lines([p]) == Line(p) + "" == Line(p);
    assert Lines([p, q]) == Line(q) + Lines([p]);
  }

  lemma FirstExample()
    ensures Line(("errno", "0")) == "5:errno, 1:0,\n"
  {
    assert ToDec(5) == "5" && ToDec(1) == "1";
    assert Netstring("errno") == "5:errno,";
    assert Netstring("0") == "1:0,";
  }

  lemma SecondExample()
    ensures Line(("nextstart", "57")) == "9:nextstart, 2:57,\n"
  {
    assert ToDec(9) == "9" && ToDec(2) == "2";
    assert Netstring("nextstart") == "9:nextstart,";
    assert Netstring("57") == "2:57,";
  }

  lemma ContentExample()
    ensures ContentHead("hi,") + "hi," + ",\n" == "7:content, 3:hi,,\n"
  {
    assert ToDec(7) == "7" && ToDec(3) == "3";
    assert Netstring("content") == "7:content,";
  }

  /** The part of a request that builds its reply. */
  class Req {
    var kvpairs: seq<Pair>
    const buf: Span<char>

    ghost predicate Valid()
      reads this, buf
    {
      buf.Valid()
    }

    constructor (buf: Span<char>, kvpairs: seq<Pair>)
      requires buf.Valid()
      ensures Valid() && this.buf == buf && this.kvpairs == kvpairs
    {
      this.buf := buf;
      this.kvpairs := kvpairs;
    }

    /** Prepends every record, in the order they were added. */
    method PrependPairs() returns (ok: bool)
      requires Valid()
      modifies buf, buf.box
      ensures Valid()
      ensures ok ==> buf.Contents() == Lines(kvpairs) + old(buf.Contents())
      ensures ok == (|Lines(kvpairs)| <= old(buf.AvailFront()))
    {
      hide Line, Lines, LinesBefore;
      ghost var body, room := buf.Contents(), buf.AvailFront();
      NoLines(kvpairs, body);
      ok := true;
      for i := 0 to |kvpairs|
        invariant Valid() && ok
        invariant buf.Contents() == LinesBefore(kvpairs, i, body)
        invariant buf.AvailFront() + |Lines(kvpairs[..i])| == room
      {
        LinesGrow(kvpairs, i, body);
        ok := PrependPair(i);
        if !ok {
          return;
        }
      }
      AllLines(kvpairs, body);
    }

    method PrependPair(i: nat) returns (ok: bool)
      requires Valid() && i < |kvpairs|
      modifies buf, buf.box
      ensures Valid() && ok == (|Line(kvpairs[i])| <= old(buf.AvailFront()))
      ensures ok ==> buf.Contents() == Line(kvpairs[i]) + old(buf.Contents())
      ensures ok ==> buf.AvailFront() == old(buf.AvailFront()) - |Line(kvpairs[i])|
    {
      ok := buf.Prepend(Line(kvpairs[i]));
    }

    /** Turns the content in the buffer into the whole reply body, in place. It
        fails (out_of_range) exactly when the records do not fit in front or the
        two closing bytes do not fit behind. */
    method CommonReply200() returns (ok: bool)
      requires Valid()
      modifies buf, buf.box
      ensures Valid()
      ensures ok ==> buf.Contents() == Print(kvpairs, old(buf.Contents()))
      ensures ok <==> && |Lines(kvpairs)| + |ContentHead(old(buf.Contents()))| <= old(buf.AvailFront())
                      && 2 <= old(buf.AvailBack())
    {
      hide Line, Lines, ContentHeadOf;
      var head := ContentHeadOf(buf.len);
      ok := buf.Prepend(head);
      if ok {
        ok := buf.Append(",\n");
      }
      if ok {
        ok := PrependPairs();
      }
    }
  }

  ghost function LinesBefore(kvs: seq<Pair>, i: nat, body: string): string
    requires i <= |kvs|
  {
    Lines(kvs[..i]) + body
  }

  lemma NoLines(kvs: seq<Pair>, body: string)
    ensures Lines(kvs[..0]) == "" && LinesBefore(kvs, 0, body) == body
  {
    assert "" + body == body;
  }

  lemma AllLines(kvs: seq<Pair>, body: string)
    ensures kvs[..|kvs|] == kvs && LinesBefore(kvs, |kvs|, body) == Lines(kvs) + body
  {
    hide Lines;
    assert kvs[..|kvs|] == kvs;
  }

  /** The next record goes in front of the earlier ones. */
  lemma LinesGrow(kvs: seq<Pair>, i: nat, body: string)
    requires i < |kvs|
    ensures LinesBefore(kvs, i + 1, body) == Line(kvs[i]) + LinesBefore(kvs, i, body)
    ensures |Lines(kvs[..i + 1])| == |Line(kvs[i])| + |Lines(kvs[..i])| <= |Lines(kvs)|
  {
    hide Line;
    assert kvs[..i + 1][..i] == kvs[..i];
    LinesLength(kvs, i + 1);
    assert Lines(kvs[..i + 1]) == Line(kvs[i]) + Lines(kvs[..i]);
    hide Lines;
    assert (Line(kvs[i]) + Lines(kvs[..i])) + body == Line(kvs[i]) + (Lines(kvs[..i]) + body);
  }

  lemma {:induction false} LinesLength(kvs: seq<Pair>, i: nat)
    requires i <= |kvs|
    ensures |Lines(kvs[..i])| <= |Lines(kvs)|
    decreases |kvs| - i
  {
    hide Line;
    if i < |kvs| {
      assert kvs[..i + 1][..i] == kvs[..i];
      LinesLength(kvs, i + 1);
    } else {
      assert kvs[..i] == kvs;
    }
  }

  // ---------------------------------------------------------------- parsing

  datatype Decoded = Decoded(eno: int, content: string, kvmap: map<string, string>)

  const BLANK := Decoded(0, "", map[])

  predicate Ordinary(k: string) {
    k != ERRNO && k != CONTENT && k != REQUEST
  }

  /** What one record does to the reply decoded so far; None for a throw. */
  function Absorb(d: Decoded, p: Pair): Option<Decoded> {
    if p.0 == ERRNO then
      var eno :- ParseInt(p.1);
      Some(d.(eno := eno))
    else if p.0 == CONTENT then Some(d.(content := p.1))
    else if p.0 == REQUEST then Some(d)
    else if p.0 in d.kvmap then None
    else Some(d.(kvmap := d.kvmap[p.0 := p.1]))
  }

  /** One record starting at `i`, and the offset after it. */
  function ScanLine(s: string, i: nat): (r: Option<(Pair, nat)>)
    ensures r.Some? ==> i < r.value.1 <= |s|
  {
    var (k, afterKey) :- ScanNetstring(s, false, i);
    if afterKey >= |s| || s[afterKey] != ' ' then None
    else
      var (v, afterValue) :- ScanNetstring(s, false, afterKey + 1);
      if afterValue >= |s| || s[afterValue] != '\n' then None
      else Some(((k, v), afterValue + 1))
  }

  /** A record is two netstrings, a blank between them and a newline after them. */
  lemma ScanLineExactly(s: string, i: nat)
    ensures var k := ScanNetstring(s, false, i);
            var v := if k.Some? then ScanNetstring(s, false, k.value.1 + 1) else None;
            && (ScanLine(s, i).Some? <==> && k.Some? && k.value.1 < |s| && s[k.value.1] == ' '
                                          && v.Some? && v.value.1 < |s| && s[v.value.1] == '\n')
            && (ScanLine(s, i).Some? ==> ScanLine(s, i).value == ((k.value.0, v.value.0), v.value.1 + 1))
  {
    hide ScanNetstring;
  }

  function DecodeFrom(s: string, i: nat, d: Decoded): Option<Decoded>
    requires i <= |s|
    decreases |s| - i
  {
    if i == |s| then Some(d)
    else
      var (p, next) :- ScanLine(s, i);
      var d' :- Absorb(d, p);
      DecodeFrom(s, next, d')
  }

  /** The decoded_reply constructor. */
  method Decode(plaintext: string) returns (r: Option<Decoded>)
    ensures r == DecodeFrom(plaintext, 0, BLANK)
  {
    var d := BLANK;
    var next := 0;
    while next < |plaintext|
      invariant next <= |plaintext|
      invariant DecodeFrom(plaintext, next, d) == DecodeFrom(plaintext, 0, BLANK)
    {
      var line := ScanLine(plaintext, next);
      if line.None? {
        return None;
      }
      var d' := Absorb(d, line.value.0);
      if d'.None? {
        return None;
      }
      d, next := d'.value, line.value.1;
    }
    return Some(d);
  }

  // ---------------------------------------------------------------- round trip

  ghost predicate Sized(kvs: seq<Pair>) {
    forall i :: 0 <= i < |kvs| ==> |kvs[i].0| <= U64_MAX && |kvs[i].1| <= U64_MAX
  }

  lemma ScanLineOfLine(s: string, i: nat, p: Pair)
    requires At(s, i, Line(p)) && |p.0| <= U64_MAX && |p.1| <= U64_MAX
    ensures ScanLine(s, i) == Some((p, i + |Line(p)|))
  {
    hide ScanNetstring, Netstring, ToDec, At;
    var k, v := Netstring(p.0), Netstring(p.1);
    assert Line(p) == k + [' '] + v + ['\n'];
    AtClosedPieces(s, i, k, ' ', v, '\n');
    ScanNetstringOfNetstring(s, i, p.0, false);
    ScanNetstringOfNetstring(s, i + |k| + 1, p.1, false);
  }

  /** The records of `kvs` absorbed from the last to the first, the order in which
      they stand in the text. */
  function AbsorbAll(d: Decoded, kvs: seq<Pair>): Option<Decoded>
    decreases |kvs|
  {
    if kvs == [] then Some(d)
    else
      var d' :- Absorb(d, kvs[|kvs| - 1]);
      AbsorbAll(d', kvs[..|kvs| - 1])
  }

  lemma LinesLast(kvs: seq<Pair>)
    requires kvs != []
    ensures Lines(kvs) == Line(kvs[|kvs| - 1]) + Lines(kvs[..|kvs| - 1])
  {
    hide Line;
  }

  lemma DecodeStep(s: string, i: nat, p: Pair, next: nat, d: Decoded)
    requires i < |s| && ScanLine(s, i) == Some((p, next))
    ensures i < next <= |s|
    ensures DecodeFrom(s, i, d) == if Absorb(d, p).Some? then DecodeFrom(s, next, Absorb(d, p).value) else None
  {
    hide ScanLine, Absorb;
  }

  lemma AbsorbAllStep(d: Decoded, kvs: seq<Pair>)
    requires kvs != []
    ensures var p, rest := kvs[|kvs| - 1], kvs[..|kvs| - 1];
            AbsorbAll(d, kvs) == if Absorb(d, p).Some? then AbsorbAll(Absorb(d, p).value, rest) else None
  {
    hide Absorb;
  }

  lemma DecodeNone(s: string, d: Decoded)
    ensures Lines([]) == "" && DecodeFrom(s, |s|, d) == Some(d) && AbsorbAll(d, []) == Some(d)
  {
  }

  lemma FewerSized(kvs: seq<Pair>)
    requires Sized(kvs) && kvs != []
    ensures Sized(kvs[..|kvs| - 1]) && |kvs[|kvs| - 1].0| <= U64_MAX && |kvs[|kvs| - 1].1| <= U64_MAX
  {
  }

  lemma {:induction false} DecodeOfLines(s: string, i: nat, kvs: seq<Pair>, d: Decoded)
    requires At(s, i, Lines(kvs)) && i + |Lines(kvs)| == |s| && Sized(kvs)
    ensures DecodeFrom(s, i, d) == AbsorbAll(d, kvs)
    decreases |kvs|
  {
    hide *;
    if kvs == [] {
      DecodeNone(s, d);
    } else {
      var p, rest := kvs[|kvs| - 1], kvs[..|kvs| - 1];
      LinesLast(kvs);
      FewerSized(kvs);
      AtSplit(s, i, Line(p), Lines(rest));
      ScanLineOfLine(s, i, p);
      DecodeStep(s, i, p, i + |Line(p)|, d);
      AbsorbAllStep(d, kvs);
      if Absorb(d, p).Some? {
        DecodeOfLines(s, i + |Line(p)|, rest, Absorb(d, p).value);
      }
    }
  }

  lemma PrintNone(content: string)
    ensures Print([], content) == Line((CONTENT, content)) == Lines([(CONTENT, content)])
  {
    hide Netstring, ToDec;
    var all := [(CONTENT, content)];
    assert all[..0] == [];
    assert Lines(all) == Line(all[0]) + "" == Line(all[0]);
    OwnNetstring(content);
    assert "" + (ContentHead(content) + content + ",\n") == Line(all[0]);
  }

  lemma OwnNetstring(content: string)
    ensures ToDec(|content|) + ":" + content + "," == Netstring(content)
  {
  }

  lemma PrintStep(kvs: seq<Pair>, content: string)
    requires kvs != []
    ensures Print(kvs, content) == Line(kvs[|kvs| - 1]) + Print(kvs[..|kvs| - 1], content)
  {
    hide Line, Lines, ContentHead;
    LinesLast(kvs);
    var a, b, c := Line(kvs[|kvs| - 1]), Lines(kvs[..|kvs| - 1]), ContentHead(content) + content + ",\n";
    assert (a + b) + c == a + (b + c);
  }

  /** The content record is printed like any other, nearest to the end. */
  lemma {:induction false} PrintIsLines(kvs: seq<Pair>, content: string)
    ensures Print(kvs, content) == Lines([(CONTENT, content)] + kvs)
  {
    hide *;
    var all := [(CONTENT, content)] + kvs;
    if kvs == [] {
      PrintNone(content);
      assert all == [(CONTENT, content)];
    } else {
      assert all[..|all| - 1] == [(CONTENT, content)] + kvs[..|kvs| - 1];
      PrintIsLines(kvs[..|kvs| - 1], content);
      LinesLast(all);
      PrintStep(kvs, content);
    }
  }

  function OrdinaryPairs(kvs: seq<Pair>): map<string, string> {
    if kvs == [] then map[]
    else
      var last := kvs[|kvs| - 1];
      var m := OrdinaryPairs(kvs[..|kvs| - 1]);
      if Ordinary(last.0) then m[last.0 := last.1] else m
  }

  /** The errno the client ends with: the record nearest the content, or 0. */
  function FinalErrno(kvs: seq<Pair>, default: int): int {
    if kvs == [] then default
    else if kvs[0].0 == ERRNO && ParseInt(kvs[0].1).Some? then ParseInt(kvs[0].1).value
    else FinalErrno(kvs[1..], default)
  }

  ghost predicate OrdinaryKeysDistinct(kvs: seq<Pair>) {
    forall i, j :: 0 <= i < j < |kvs| && Ordinary(kvs[i].0) ==> kvs[i].0 != kvs[j].0
  }

  ghost predicate ErrnosReadable(kvs: seq<Pair>) {
    forall i :: 0 <= i < |kvs| && kvs[i].0 == ERRNO ==> ParseInt(kvs[i].1).Some?
  }

  ghost predicate Acceptable(kvs: seq<Pair>) {
    OrdinaryKeysDistinct(kvs) && ErrnosReadable(kvs)
  }

  predicate HasKey(kvs: seq<Pair>, k: string) {
    exists i :: 0 <= i < |kvs| && kvs[i].0 == k
  }

  lemma HasKeyStep(kvs: seq<Pair>, k: string)
    requires kvs != []
    ensures HasKey(kvs, k) <==> kvs[|kvs| - 1].0 == k || HasKey(kvs[..|kvs| - 1], k)
  {
    var n := |kvs| - 1;
    if HasKey(kvs[..n], k) {
      var i :| 0 <= i < n && kvs[..n][i].0 == k;
      assert kvs[i].0 == k;
    }
    if i :| 0 <= i < n && kvs[i].0 == k {
      assert kvs[..n][i].0 == k;
    }
  }

  lemma {:induction false} OrdinaryPairsKeys(kvs: seq<Pair>, k: string)
    ensures k in OrdinaryPairs(kvs) <==> Ordinary(k) && HasKey(kvs, k)
  {
    if kvs == [] {
      return;
    }
    OrdinaryPairsStep(kvs);
    hide *;
    OrdinaryPairsKeys(kvs[..|kvs| - 1], k);
    HasKeyStep(kvs, k);
  }

  lemma OrdinaryPairsStep(kvs: seq<Pair>)
    requires kvs != []
    ensures var last, m := kvs[|kvs| - 1], OrdinaryPairs(kvs[..|kvs| - 1]);
            OrdinaryPairs(kvs) == if Ordinary(last.0) then m[last.0 := last.1] else m
  {
    hide Ordinary;
  }

  lemma {:induction false} FinalErrnoStep(kvs: seq<Pair>, d: int)
    requires kvs != [] && Acceptable(kvs)
    ensures var n := |kvs| - 1;
            var d' := if kvs[n].0 == ERRNO then ParseInt(kvs[n].1).value else d;
            FinalErrno(kvs, d) == FinalErrno(kvs[..n], d')
  {
    hide ParseInt;
    var n := |kvs| - 1;
    if n > 0 && kvs[0].0 != ERRNO {
      assert kvs[..n][1..] == kvs[1..][..n - 1];
      FinalErrnoStep(kvs[1..], d);
    }
  }

  /** Absorbing every record succeeds exactly when no ordinary key repeats and every
      errno is a number, and then keeps all of them. */
  lemma {:induction false} AbsorbAllResult(d: Decoded, kvs: seq<Pair>)
    ensures var r := AbsorbAll(d, kvs);
            && (r.Some? <==> Acceptable(kvs) && d.kvmap.Keys !! OrdinaryPairs(kvs).Keys)
            && (r.Some? ==> && r.value.kvmap == d.kvmap + OrdinaryPairs(kvs)
                            && r.value.eno == FinalErrno(kvs, d.eno)
                            && (kvs == [] ==> r.value.content == d.content)
                            && (kvs != [] && kvs[0].0 == CONTENT ==> r.value.content == kvs[0].1))
    decreases |kvs|
  {
    if kvs != [] {
      AbsorbAllStep(d, kvs);
      OrdinaryPairsStep(kvs);
      hide ParseInt, Acceptable, FinalErrno, AbsorbAll, OrdinaryPairs, HasKey;
      var n := |kvs| - 1;
      var p, rest := kvs[n], kvs[..n];
      OrdinaryPairsKeys(rest, p.0);
      AcceptableStep(kvs);
      if Absorb(d, p).Some? {
        AbsorbAllResult(Absorb(d, p).value, rest);
        if Acceptable(kvs) {
          FinalErrnoStep(kvs, d.eno);
        }
      }
    }
  }

  lemma AcceptableStep(kvs: seq<Pair>)
    requires kvs != []
    ensures var n := |kvs| - 1;
            Acceptable(kvs) <==>
              && Acceptable(kvs[..n])
              && (kvs[n].0 == ERRNO ==> ParseInt(kvs[n].1).Some?)
              && kvs[n].0 !in OrdinaryPairs(kvs[..n])
  {
    hide ParseInt, OrdinaryPairs;
    var n := |kvs| - 1;
    OrdinaryPairsKeys(kvs[..n], kvs[n].0);
    assert forall i :: 0 <= i < n ==> kvs[..n][i] == kvs[i];
  }

  /** A printed reply parses exactly when its ordinary keys are distinct and its
      errnos are numbers; the content comes back whatever bytes it holds, and so do
      the errno and every ordinary pair. */
  lemma RoundTrip(kvs: seq<Pair>, content: string)
    requires Sized(kvs) && |content| <= U64_MAX
    ensures var r := DecodeFrom(Print(kvs, content), 0, BLANK);
            && (r.Some? <==> Acceptable(kvs))
            && (r.Some? ==> r.value == Decoded(FinalErrno(kvs, 0), content, OrdinaryPairs(kvs)))
  {
    hide DecodeFrom, Print, Lines, AbsorbAll, Acceptable, ParseInt, OrdinaryPairs;
    var all := [(CONTENT, content)] + kvs;
    PrintIsLines(kvs, content);
    var s := Print(kvs, content);
    assert s[0..0 + |Lines(all)|] == Lines(all);
    DecodeOfLines(s, 0, all, BLANK);
    AbsorbAllResult(BLANK, all);
    assert all[1..] == kvs;
    FrontContent(kvs, content);
    FrontContentAcceptable(kvs, content);
  }

  lemma FrontContentAcceptable(kvs: seq<Pair>, content: string)
    ensures Acceptable([(CONTENT, content)] + kvs) <==> Acceptable(kvs)
  {
    hide ParseInt;
    var all := [(CONTENT, content)] + kvs;
    assert all[1..] == kvs;
    assert forall i :: 0 < i < |all| ==> all[i] == kvs[i - 1];
    assert forall i :: 0 <= i < |kvs| ==> kvs[i] == all[i + 1];
    if Acceptable(all) {
      forall i, j | 0 <= i < j < |kvs| && Ordinary(kvs[i].0) ensures kvs[i].0 != kvs[j].0 {
        assert all[i + 1].0 != all[j + 1].0;
      }
    }
  }

  lemma {:induction false} FrontContent(kvs: seq<Pair>, content: string)
    ensures OrdinaryPairs([(CONTENT, content)] + kvs) == OrdinaryPairs(kvs)
  {
    var all := [(CONTENT, content)] + kvs;
    if kvs == [] {
      assert all[..0] == [];
    } else {
      assert all[..|kvs|] == [(CONTENT, content)] + kvs[..|kvs| - 1];
      FrontContent(kvs[..|kvs| - 1], content);
    }
  }
}
