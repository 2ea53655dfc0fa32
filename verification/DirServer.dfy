/** The export server's directory listing: exportd_handler::d, add_dirent and d_reply. */
module DirServer {
  import opened Wrappers
  import opened Wire
  import opened Spans
  import opened Dirents
  import opened Chunking
  import opened Reply73
  import Readdir

  const ULONG_MAX: nat := U64_MAX

  /** An entry of the exported directory and its d_off, the position after it. */
  datatype Entry = Entry(dirent: Dirent, doff: nat)

  datatype Reply = Listing(content: string, next: string) | HttpError(status: nat)

  /** A directory the server can list: names it does not refuse, and distinct
      positions that fit in the long that seekdir takes. */
  ghost predicate Listable(dir: seq<Entry>) {
    && (forall k :: 0 <= k < |dir| ==> Legal(dir[k].dirent) && dir[k].doff <= ULONG_MAX / 2)
    && (forall j, k :: 0 <= j < k < |dir| ==> dir[j].doff != dir[k].doff)
  }

  ghost function Entries(dir: seq<Entry>): (es: seq<Dirent>)
    ensures |es| == |dir|
  {
    seq(|dir|, k requires 0 <= k < |dir| => dir[k].dirent)
  }

  /** seekdir: the stream goes on after the entry with that position. */
  function Seek(dir: seq<Entry>, doff: int): (pos: nat)
    ensures pos <= |dir|
  {
    if dir == [] || dir[0].doff == doff then (if dir == [] then 0 else 1)
    else 1 + Seek(dir[1..], doff)
  }

  /** How many entries from `pos` on fit in `room` bytes. */
  function Fit(dir: seq<Entry>, pos: nat, room: nat): (k: nat)
    requires pos <= |dir| && TypesFit(dir)
    ensures pos + k <= |dir|
    decreases |dir| - pos
  {
    if pos == |dir| || |Encode(dir[pos].dirent)| > room then 0
    else 1 + Fit(dir, pos + 1, room - |Encode(dir[pos].dirent)|)
  }

  /** The token sent with the entries before `end`: empty at the end of the directory. */
  function NextStart(dir: seq<Entry>, end: nat): string
    requires end <= |dir|
  {
    if end == |dir| || end == 0 then "" else ToDec(dir[end - 1].doff)
  }

  ghost function ReplyFrom(dir: seq<Entry>, pos: nat, room: nat): Reply
    requires Listable(dir) && pos <= |dir|
  {
    TypesAreNat(dir);
    var k := Fit(dir, pos, room);
    if k == 0 && pos < |dir| then HttpError(500)
    else
      LegalSlice(dir, pos, pos + k);
      Listing(EncodeAll(Entries(dir)[pos..pos + k]), NextStart(dir, pos + k))
  }

  ghost function ReplyTo(dir: seq<Entry>, start: string, room: nat): Reply
    requires Listable(dir)
  {
    if start == "" then ReplyFrom(dir, 0, room)
    else
      match ParseSigned(start, ULONG_MAX)
      case None => HttpError(400)
      case Some(istart) => ReplyFrom(dir, Seek(dir, istart), room)
  }

  /** A /d request under construction: entries are appended to the buffer as long as
      `reserve` bytes stay free behind them. */
  class DirReq {
    const buf: Span<char>
    const reserve: nat

    constructor (buf: Span<char>, reserve: nat)
      ensures this.buf == buf && this.reserve == reserve
    {
      this.buf, this.reserve := buf, reserve;
    }

    ghost predicate Valid()
      reads this, buf
    {
      buf.Valid() && reserve <= buf.AvailBack()
    }

    function SpaceAvail(): nat
      requires Valid()
      reads this, buf
    {
      buf.AvailBack() - reserve
    }

    /** add_dirent, for an entry it does not refuse. */
    method AddDirent(e: Dirent) returns (added: bool)
      requires Valid() && Legal(e)
      modifies buf, buf.box
      ensures Valid() && added == (|Encode(e)| <= old(SpaceAvail()))
      ensures added ==> buf.Contents() == old(buf.Contents()) + Encode(e)
                        && SpaceAvail() == old(SpaceAvail()) - |Encode(e)|
      ensures !added ==> buf.Contents() == old(buf.Contents()) && SpaceAvail() == old(SpaceAvail())
    {
      var entry := Encode(e);
      if |entry| > SpaceAvail() {
        return false;
      }
      added := buf.Append(entry);
    }

    /** The loop of exportd_handler::d: appends entries until one does not fit. */
    method Fill(dir: seq<Entry>, from: nat) returns (pos: nat, lastOff: nat)
      requires Valid() && Listable(dir) && buf.len == 0 && from <= |dir|
      modifies buf, buf.box
      ensures Valid() && TypesFit(dir) && pos == from + Fit(dir, from, old(SpaceAvail()))
      ensures AllLegal(Entries(dir)[from..pos]) && buf.Contents() == EncodeAll(Entries(dir)[from..pos])
      ensures pos > from ==> lastOff == dir[pos - 1].doff && buf.len > 0
      ensures pos == from ==> lastOff == 0 && buf.len == 0
    {
      hide Encode, Legal, Listable, Entries;
      pos, lastOff := from, 0;
      TypesAreNat(dir);
      LegalSlice(dir, from, from);
      ghost var room := SpaceAvail();
      assert Entries(dir)[from..from] == [];
      while pos < |dir|
        invariant Valid() && from <= pos <= |dir|
        invariant Fit(dir, from, room) == pos - from + Fit(dir, pos, SpaceAvail())
        invariant AllLegal(Entries(dir)[from..pos]) && buf.Contents() == EncodeAll(Entries(dir)[from..pos])
        invariant pos > from ==> lastOff == dir[pos - 1].doff && buf.len > 0
        invariant pos == from ==> lastOff == 0 && buf.len == 0
      {
        LegalAt(dir, pos);
        NextEntry(dir, from, pos);
        var added := AddDirent(dir[pos].dirent);
        if !added {
          break;
        }
        lastOff, pos := dir[pos].doff, pos + 1;
      }
    }

    /** exportd_handler::d and d_reply: the entries after `start` that fit. */
    method D(dir: seq<Entry>, start: string) returns (r: Reply)
      requires Valid() && Listable(dir) && buf.len == 0
      modifies buf, buf.box
      ensures Valid() && r == ReplyTo(dir, start, old(SpaceAvail()))
      ensures r.Listing? ==> buf.Contents() == r.content
    {
      hide Encode, Legal, Listable, Entries, ParseSigned, Seek, Fit, EncodeAll;
      var from := 0;
      if start != "" {
        var istart := ParseSigned(start, ULONG_MAX);
        if istart.None? {
          return HttpError(400);
        }
        from := Seek(dir, istart.value);
      }
      var pos, lastOff := Fill(dir, from);
      var next := if pos == |dir| then "" else ToDec(lastOff);
      if buf.len == 0 && next != "" {
        return HttpError(500);
      }
      return Listing(buf.box[buf.off..buf.off + buf.len], next);
    }
  }

  ghost predicate TypesFit(dir: seq<Entry>) {
    forall k :: 0 <= k < |dir| ==> dir[k].dirent.dtype >= 0
  }

  lemma LegalAt(dir: seq<Entry>, k: nat)
    requires Listable(dir) && k < |dir|
    ensures Legal(dir[k].dirent)
  {
  }

  lemma LegalSlice(dir: seq<Entry>, i: nat, j: nat)
    requires Listable(dir) && i <= j <= |dir|
    ensures AllLegal(Entries(dir)[i..j])
  {
  }

  lemma NextEntry(dir: seq<Entry>, from: nat, pos: nat)
    requires Listable(dir) && from <= pos < |dir|
    ensures AllLegal(Entries(dir)[from..pos]) && AllLegal(Entries(dir)[from..pos + 1])
    ensures EncodeAll(Entries(dir)[from..pos + 1]) == EncodeAll(Entries(dir)[from..pos]) + Encode(dir[pos].dirent)
    ensures |Encode(dir[pos].dirent)| > 0
  {
    var e := Entries(dir)[pos];
    EncodeShape(e);
    EncodeAllOne(e);
    assert Entries(dir)[from..pos + 1] == Entries(dir)[from..pos] + [e];
    hide Encode, Legal;
    EncodeAllConcat(Entries(dir)[from..pos], [e]);
  }

  // ------------------------------------------------- the server lists everything

  /** A buffer that takes any entry: /d requests ask for at least one KiB. */
  const ENOUGH: nat := 320

  lemma AnyEntryFits(e: Dirent)
    requires Legal(e)
    ensures |Encode(e)| <= ENOUGH
  {
    SomePowers();
    DecLength(|e.name|, 3);
    DecLength(e.dtype, 10);
    DecLength(e.cookie, 20);
    EncodeShape(e);
    hide ToDec, Encode;
  }

  /** The chunks that following the tokens yields, from entry `pos` on. */
  ghost function Cut(dir: seq<Entry>, pos: nat, room: nat): (cks: seq<Chunk>)
    requires Listable(dir) && pos <= |dir| && room >= ENOUGH
    decreases |dir| - pos
  {
    TypesAreNat(dir);
    var k := Fit(dir, pos, room);
    var es := Entries(dir)[pos..pos + k];
    if pos + k == |dir| then [Chunk(es, "")]
    else
      FitsSome(dir, pos, room);
      [Chunk(es, NextStart(dir, pos + k))] + Cut(dir, pos + k, room)
  }

  lemma FitsSome(dir: seq<Entry>, pos: nat, room: nat)
    requires Listable(dir) && pos <= |dir| && room >= ENOUGH && TypesFit(dir)
    ensures Fit(dir, pos, room) > 0 || pos == |dir|
  {
    if pos < |dir| {
      AnyEntryFits(dir[pos].dirent);
    }
    hide Encode;
  }

  lemma {:induction false} SeekFinds(dir: seq<Entry>, k: nat)
    requires Listable(dir) && k < |dir|
    ensures Seek(dir, dir[k].doff) == k + 1
  {
    if k > 0 {
      assert dir[0].doff != dir[k].doff;
      SeekFinds(dir[1..], k - 1);
    }
  }

  /** The token asks for the entries from `pos` on. */
  ghost predicate Resumes(dir: seq<Entry>, start: string, pos: nat) {
    if start == "" then pos == 0
    else 0 < pos <= |dir| && ParseSigned(start, ULONG_MAX) == Some(dir[pos - 1].doff as int)
  }

  lemma ReplyResumes(dir: seq<Entry>, start: string, pos: nat, room: nat)
    requires Listable(dir) && pos <= |dir| && Resumes(dir, start, pos)
    ensures ReplyTo(dir, start, room) == ReplyFrom(dir, pos, room)
  {
    hide ParseSigned, Fit, EncodeAll, Entries;
    if start != "" {
      SeekFinds(dir, pos - 1);
    }
  }

  lemma {:induction false} SeekNowhere(dir: seq<Entry>, doff: int)
    requires forall k :: 0 <= k < |dir| ==> dir[k].doff != doff
    ensures Seek(dir, doff) == |dir|
  {
    if dir != [] {
      SeekNowhere(dir[1..], doff);
    }
  }

  /** The text of entries pos, pos + 1, ..., end - 1. */
  ghost function TextOf(dir: seq<Entry>, pos: nat, end: nat): string
    requires Listable(dir) && pos <= end <= |dir|
  {
    LegalSlice(dir, pos, end);
    EncodeAll(Entries(dir)[pos..end])
  }

  /** As many entries fit as can: the next one would be too much. */
  lemma {:induction false} FitIsLongest(dir: seq<Entry>, pos: nat, room: nat)
    requires Listable(dir) && pos <= |dir| && TypesFit(dir)
    ensures var end := pos + Fit(dir, pos, room);
            && |TextOf(dir, pos, end)| <= room
            && (end < |dir| ==> |TextOf(dir, pos, end + 1)| > room)
    decreases |dir| - pos
  {
    hide Encode, Legal, Listable, TextOf;
    if pos < |dir| {
      var e := |Encode(dir[pos].dirent)|;
      NoText(dir, pos);
      TextStep(dir, pos, pos + 1);
      if e <= room {
        FitIsLongest(dir, pos + 1, room - e);
        var end := pos + Fit(dir, pos, room);
        TextStep(dir, pos, end);
        if end < |dir| {
          TextStep(dir, pos, end + 1);
        }
      }
    } else {
      NoText(dir, pos);
    }
  }

  lemma NoText(dir: seq<Entry>, pos: nat)
    requires Listable(dir) && pos <= |dir|
    ensures TextOf(dir, pos, pos) == ""
  {
    assert Entries(dir)[pos..pos] == [];
  }

  lemma TextStep(dir: seq<Entry>, pos: nat, end: nat)
    requires Listable(dir) && pos < end <= |dir|
    ensures TextOf(dir, pos, end) == Encode(dir[pos].dirent) + TextOf(dir, pos + 1, end)
  {
    hide Encode, Legal;
    LegalSlice(dir, pos, end);
    LegalSlice(dir, pos + 1, end);
    var es := Entries(dir)[pos..end];
    assert es[1..] == Entries(dir)[pos + 1..end];
    assert es[0] == dir[pos].dirent;
  }

  /** A reply, in words: a token that is no number is refused; otherwise the listing goes
      on after the entry with that position (with nothing if there is none), as far as
      there is room, with the position of the last entry as the next token unless the
      directory ends there; an entry that does not fit at all is an error. */
  lemma ReplyExactly(dir: seq<Entry>, start: string, room: nat) returns (pos: nat, end: nat)
    requires Listable(dir)
    ensures pos <= end <= |dir|
    ensures var r, token := ReplyTo(dir, start, room), ParseSigned(start, ULONG_MAX);
            && (start != "" && token.None? <==> r == HttpError(400))
            && (start == "" ==> pos == 0)
            && (start != "" && token.Some? ==>
                  || (pos > 0 && dir[pos - 1].doff as int == token.value)
                  || (pos == |dir| && forall k :: 0 <= k < |dir| ==> dir[k].doff as int != token.value))
            && (r != HttpError(400) ==>
                  && |TextOf(dir, pos, end)| <= room && (end < |dir| ==> |TextOf(dir, pos, end + 1)| > room)
                  && (if pos == end < |dir| then r == HttpError(500)
                      else r == Listing(TextOf(dir, pos, end), if end == |dir| then "" else ToDec(dir[end - 1].doff))))
  {
    hide *;
    pos := StartsAt(dir, start, room);
    end := FromExactly(dir, pos, room);
    NotBadRequest(dir, pos, room);
  }

  lemma StartsAt(dir: seq<Entry>, start: string, room: nat) returns (pos: nat)
    requires Listable(dir)
    ensures pos <= |dir|
    ensures var token := ParseSigned(start, ULONG_MAX);
            && ReplyTo(dir, start, room) == (if start != "" && token.None? then HttpError(400) else ReplyFrom(dir, pos, room))
            && (start == "" ==> pos == 0)
            && (start != "" && token.Some? ==>
                  || (pos > 0 && dir[pos - 1].doff as int == token.value)
                  || (pos == |dir| && forall k :: 0 <= k < |dir| ==> dir[k].doff as int != token.value))
  {
    hide ParseSigned, ReplyFrom, Seek;
    var token := ParseSigned(start, ULONG_MAX);
    if start == "" || token.None? {
      pos := 0;
    } else {
      pos := Seek(dir, token.value);
      if k: nat :| k < |dir| && dir[k].doff as int == token.value {
        SeekFinds(dir, k);
      } else {
        SeekNowhere(dir, token.value);
      }
    }
  }

  lemma FromExactly(dir: seq<Entry>, pos: nat, room: nat) returns (end: nat)
    requires Listable(dir) && pos <= |dir|
    ensures pos <= end <= |dir|
    ensures |TextOf(dir, pos, end)| <= room && (end < |dir| ==> |TextOf(dir, pos, end + 1)| > room)
    ensures ReplyFrom(dir, pos, room)
            == if pos == end < |dir| then HttpError(500)
               else Listing(TextOf(dir, pos, end), if end == |dir| then "" else ToDec(dir[end - 1].doff))
  {
    hide EncodeAll, Entries, Encode, Legal, Fit, Listable;
    TypesAreNat(dir);
    end := pos + Fit(dir, pos, room);
    FitIsLongest(dir, pos, room);
  }

  lemma NotBadRequest(dir: seq<Entry>, pos: nat, room: nat)
    requires Listable(dir) && pos <= |dir|
    ensures ReplyFrom(dir, pos, room) != HttpError(400)
  {
    hide EncodeAll, Entries, Listable, Fit;
  }

  /** The first chunk is the server's reply, and its token resumes after it. */
  ghost predicate FirstChunk(dir: seq<Entry>, pos: nat, room: nat, ck: Chunk, rest: seq<Chunk>)
    requires Listable(dir) && pos <= |dir| && room >= ENOUGH
  {
    var k := |ck.entries|;
    && AllLegal(ck.entries) && ReplyFrom(dir, pos, room) == Listing(EncodeAll(ck.entries), ck.next)
    && pos + k <= |dir| && ck.entries == Entries(dir)[pos..pos + k]
    && (pos + k == |dir| ==> ck.next == "" && rest == [])
    && (pos + k < |dir| ==> k > 0 && rest == Cut(dir, pos + k, room)
                            && ck.next != "" && Resumes(dir, ck.next, pos + k))
  }

  lemma ReplyFromIs(dir: seq<Entry>, pos: nat, room: nat, k: nat)
    requires Listable(dir) && pos <= |dir| && TypesFit(dir) && k == Fit(dir, pos, room) && (k > 0 || pos == |dir|)
    ensures AllLegal(Entries(dir)[pos..pos + k])
    ensures ReplyFrom(dir, pos, room) == Listing(EncodeAll(Entries(dir)[pos..pos + k]), NextStart(dir, pos + k))
  {
    hide EncodeAll, AllLegal, Entries, Encode, Listable, Fit, NextStart;
    LegalSlice(dir, pos, pos + k);
  }

  lemma CutIs(dir: seq<Entry>, pos: nat, room: nat, k: nat)
    requires Listable(dir) && pos <= |dir| && TypesFit(dir) && room >= ENOUGH
    requires k == Fit(dir, pos, room) && (k > 0 || pos == |dir|)
    ensures Cut(dir, pos, room) == [Chunk(Entries(dir)[pos..pos + k], NextStart(dir, pos + k))] +
                                   if pos + k == |dir| then [] else Cut(dir, pos + k, room)
  {
    hide EncodeAll, Legal, Entries, Encode, Listable, Fit, ToDec;
  }

  lemma CutStep(dir: seq<Entry>, pos: nat, room: nat) returns (ck: Chunk, rest: seq<Chunk>)
    requires Listable(dir) && pos <= |dir| && room >= ENOUGH
    ensures Cut(dir, pos, room) == [ck] + rest && FirstChunk(dir, pos, room, ck, rest)
  {
    hide *;
    TypesAreNat(dir);
    FitsSome(dir, pos, room);
    var k := Fit(dir, pos, room);
    rest := if pos + k == |dir| then [] else Cut(dir, pos + k, room);
    ck := Chunk(Entries(dir)[pos..pos + k], NextStart(dir, pos + k));
    ReplyFromIs(dir, pos, room, k);
    CutIs(dir, pos, room, k);
    NextStartResumes(dir, pos + k);
    FirstChunkIntro(dir, pos, room, k, ck, rest);
  }

  lemma HeadTail<T>(head: T, tail: seq<T>)
    ensures ([head] + tail)[0] == head && ([head] + tail)[1..] == tail
  {
  }

  lemma FirstChunkIntro(dir: seq<Entry>, pos: nat, room: nat, k: nat, ck: Chunk, rest: seq<Chunk>)
    requires Listable(dir) && pos + k <= |dir| && (k > 0 || pos == |dir|) && room >= ENOUGH
    requires AllLegal(Entries(dir)[pos..pos + k])
    requires ck == Chunk(Entries(dir)[pos..pos + k], NextStart(dir, pos + k))
    requires ReplyFrom(dir, pos, room) == Listing(EncodeAll(ck.entries), ck.next)
    requires rest == if pos + k == |dir| then [] else Cut(dir, pos + k, room)
    requires if pos + k == |dir| then ck.next == "" else pos + k > 0 ==> ck.next != "" && Resumes(dir, ck.next, pos + k)
    ensures FirstChunk(dir, pos, room, ck, rest)
  {
    hide Cut, ReplyFrom, EncodeAll, Legal, Resumes, Entries, Listable, NextStart;
  }

  lemma TypesAreNat(dir: seq<Entry>)
    requires Listable(dir)
    ensures TypesFit(dir)
  {
  }

  lemma NextStartResumes(dir: seq<Entry>, end: nat)
    requires Listable(dir) && end <= |dir|
    ensures if end == |dir| then NextStart(dir, end) == ""
            else end > 0 ==> NextStart(dir, end) != "" && Resumes(dir, NextStart(dir, end), end)
  {
    if 0 < end < |dir| {
      TokenParses(dir, end - 1);
    }
  }

  lemma TokenParses(dir: seq<Entry>, k: nat)
    requires Listable(dir) && k < |dir|
    ensures ParseSigned(ToDec(dir[k].doff), ULONG_MAX) == Some(dir[k].doff as int)
  {
    ParseOfDec(dir[k].doff, ULONG_MAX);
  }

  /** What the token of chunk j resumes: exactly the chunks from j on. */
  lemma {:induction false} CutServed(dir: seq<Entry>, pos: nat, room: nat, start: string, j: nat)
    requires Listable(dir) && pos <= |dir| && room >= ENOUGH && Resumes(dir, start, pos)
    requires j < |Cut(dir, pos, room)|
    ensures var cks := Cut(dir, pos, room);
            var token := if j == 0 then start else cks[j - 1].next;
            AllLegal(cks[j].entries) && ReplyTo(dir, token, room) == Listing(EncodeAll(cks[j].entries), cks[j].next)
    decreases |dir| - pos
  {
    hide Cut, Legal, EncodeAll, ReplyTo, ReplyFrom, Resumes, Listable, Entries;
    var ck, rest := CutStep(dir, pos, room);
    var cks := Cut(dir, pos, room);
    HeadTail(ck, rest);
    if j == 0 {
      ReplyResumes(dir, start, pos, room);
    } else {
      CutServed(dir, pos + |ck.entries|, room, ck.next, j - 1);
      assert rest[j - 1] == cks[j];
      assert j > 1 ==> rest[j - 2] == cks[j - 1];
    }
  }

  lemma {:induction false} CutIsWhole(dir: seq<Entry>, pos: nat, room: nat)
    requires Listable(dir) && pos <= |dir| && room >= ENOUGH
    ensures WellChunked(Cut(dir, pos, room)) && Flat(Cut(dir, pos, room)) == Entries(dir)[pos..]
    decreases |dir| - pos
  {
    hide Cut, Legal, Entries, Encode, Resumes, ReplyFrom, EncodeAll, Listable;
    var ck, rest := CutStep(dir, pos, room);
    var cks := Cut(dir, pos, room);
    HeadTail(ck, rest);
    var k := |ck.entries|;
    if pos + k < |dir| {
      CutIsWhole(dir, pos + k, room);
      assert forall j :: 1 <= j < |cks| ==> cks[j] == rest[j - 1];
      assert Entries(dir)[pos..] == ck.entries + Entries(dir)[pos + k..];
    } else {
      assert Flat(rest) == [];
    }
  }

  /** The whole server as the client sees it: token to content and next token. */
  ghost function ServerOf(dir: seq<Entry>, room: nat): Server
    requires Listable(dir)
  {
    token =>
      match ReplyTo(dir, token, room)
      case Listing(content, next) => (content, next)
      case HttpError(_) => ("", "")
  }

  /** Whatever the buffer size, following the server's tokens lists the directory
      completely and in order, and every token is answered by its own chunk. */
  lemma ServesTheDirectory(dir: seq<Entry>, room: nat)
    requires Listable(dir) && room >= ENOUGH
    ensures var cks := Cut(dir, 0, room);
            && WellChunked(cks) && Serves(ServerOf(dir, room), cks) && Chunking.Listing(cks) == Entries(dir)
            && (forall j :: 0 <= j < |cks| ==> ReplyTo(dir, Token(cks, j), room).Listing?)
  {
    CutIsWhole(dir, 0, room);
    var cks := Cut(dir, 0, room);
    assert Entries(dir)[0..] == Entries(dir);
    hide WellChunked, EncodeAll, Cut, Entries, ReplyTo, Listable, Legal;
    forall j | 0 <= j < |cks|
      ensures AllLegal(cks[j].entries) && ReplyTo(dir, Token(cks, j), room) == Listing(EncodeAll(cks[j].entries), cks[j].next)
    {
      CutServed(dir, 0, room, "", j);
    }
  }

  /** From the exported directory to the kernel: a client that has opened the directory,
      and after any history of calls reads it to the end, with any server buffer and any
      kernel buffers, sees the special entries (in the root), then every entry once and in
      order. */
  lemma ListEndToEnd(root: bool, dir: seq<Entry>, room: nat, history: seq<Readdir.Call>, tries: seq<Readdir.Try>)
    requires Listable(dir) && room >= ENOUGH && Readdir.Roomy(tries)
    ensures var server := ServerOf(dir, room);
            var s := Readdir.AfterCalls(root, Readdir.NEW_HANDLE, server, history);
            var e := Readdir.Enumerated(root, s, server, 0, tries);
            && (Readdir.Faultless(tries) && |tries| > Readdir.Base(root) + |dir| ==> e.Some?)
            && (e.Some? ==> if root && s.eof && dir == [] then e.value.0 == [] else AllSeen(root, dir, e.value.0))
  {
    hide *;
    var server := ServerOf(dir, room);
    ServesTheDirectory(dir, room);
    var cks := Cut(dir, 0, room);
    WholeDirectory(root, cks, dir);
    NewHandle();
    var s := Readdir.AfterCalls(root, Readdir.NEW_HANDLE, server, history);
    Readdir.StartIsReachable(root, s, cks);
    RewoundIs(root, cks, dir, s.eof);
    Readdir.EveryHistoryReadsOn(root, server, history, tries, cks, 0);
  }

  lemma NewHandle()
    ensures Readdir.NEW_HANDLE.offsets != []
  {
  }

  lemma RewoundIs(root: bool, cks: seq<Chunk>, dir: seq<Entry>, eof: bool)
    requires WellChunked(cks) && Listable(dir) && Chunking.Listing(cks) == Entries(dir)
    ensures Readdir.Rewound(root, cks, eof, 0) <==> root && eof && dir == []
  {
    hide Chunking.Listing, WellChunked, Listable;
    assert |Entries(dir)| == |dir|;
  }

  /** The special entries, if any, and then the directory, whatever the offsets. */
  ghost predicate AllSeen(root: bool, dir: seq<Entry>, all: seq<Readdir.Record>) {
    var b := Readdir.Base(root);
    && |all| == b + |dir|
    && (forall k :: 0 <= k < b ==> all[k].ino == Readdir.Special(k + 2) && all[k].name == Readdir.SpecialName(k + 2) && all[k].off == k + 1)
    && (forall k :: 0 <= k < |dir| ==> Shows(all[b + k], dir[k].dirent))
  }

  /** The record shows the entry: "." and ".." as directories, anything else as it is. */
  predicate Shows(r: Readdir.Record, e: Dirent) {
    && r.name == e.name
    && (if e.name == "." then r.ino == Readdir.Self && r.dtype == Readdir.DT_DIR
        else if e.name == ".." then r.ino == Readdir.Parent && r.dtype == Readdir.DT_DIR
        else r.ino == Readdir.Generated(e.cookie) && r.dtype == e.dtype)
  }

  /** Every record of a directory's whole, special or exported. */
  lemma WholeDirectory(root: bool, cks: seq<Chunk>, dir: seq<Entry>)
    requires Listable(dir) && WellChunked(cks) && Chunking.Listing(cks) == Entries(dir)
    ensures var all := Readdir.Whole(root, cks);
            && |all| == Readdir.Base(root) + |dir| && all[0..] == all && AllSeen(root, dir, all)
  {
    hide WellChunked, Bytes, Chunking.Listing, Legal, Listable, Readdir.Whole, Encode, EncodeAll, Shows, Readdir.SpecialName;
    var all, b := Readdir.Whole(root, cks), Readdir.Base(root);
    forall k | 0 <= k < b
      ensures all[k].ino == Readdir.Special(k + 2) && all[k].name == Readdir.SpecialName(k + 2) && all[k].off == k + 1
    {
      assert root;
      Readdir.SpecialsInWhole(cks, k);
    }
    forall k | 0 <= k < |dir| ensures Shows(all[b + k], dir[k].dirent) {
      EntrySeen(root, cks, dir, k);
    }
  }

  lemma EntrySeen(root: bool, cks: seq<Chunk>, dir: seq<Entry>, k: nat)
    requires Listable(dir) && WellChunked(cks) && Chunking.Listing(cks) == Entries(dir) && k < |dir|
    ensures Shows(Readdir.Whole(root, cks)[Readdir.Base(root) + k], dir[k].dirent)
  {
    hide WellChunked, Bytes, Chunking.Listing, Legal, Listable, Readdir.Whole, Encode, EncodeAll;
    Readdir.WholeAt(root, cks, k);
  }

  // ------------------------------------------------- through the reply format

  /** The records d_reply adds to those of the request. */
  function DirPairs(request: string, cookie: nat, next: string): seq<Pair> {
    [(REQUEST, request), (COOKIE, ToDec(cookie)), (NEXTSTART, next)]
  }

  /** The client decodes the content and the next token that d_reply was given. */
  lemma DirReplyDecodes(request: string, cookie: nat, content: string, next: string)
    requires |request| <= U64_MAX && |next| <= U64_MAX && |content| <= U64_MAX && cookie <= U64_MAX
    ensures var r := DecodeFrom(Print(DirPairs(request, cookie, next), content), 0, BLANK);
            && r.Some? && r.value.content == content && r.value.eno == 0
            && NEXTSTART in r.value.kvmap && r.value.kvmap[NEXTSTART] == next
            && COOKIE in r.value.kvmap && ParseUnsigned(r.value.kvmap[COOKIE], U64_MAX) == Some(cookie)
  {
    var kvs := DirPairs(request, cookie, next);
    SomePowers();
    DecLength(cookie, 20);
    ParseOfDec(cookie, U64_MAX);
    assert COOKIE != NEXTSTART && Ordinary(COOKIE) && Ordinary(NEXTSTART);
    hide ParseUnsigned, DecodeFrom, Print, ToDec, Acceptable, FinalErrno, OrdinaryPairs, Ordinary;
    ThreePairs(request, COOKIE, ToDec(cookie), NEXTSTART, next);
    RoundTrip(kvs, content);
  }

  lemma ThreePairs(request: string, k: string, v: string, k': string, v': string)
    requires Ordinary(k) && Ordinary(k') && k != k'
    ensures var kvs := [(REQUEST, request), (k, v), (k', v')];
            Acceptable(kvs) && FinalErrno(kvs, 0) == 0 && OrdinaryPairs(kvs) == map[k := v, k' := v']
  {
    hide ParseInt;
    var p, q, r := (REQUEST, request), (k, v), (k', v');
    assert [p, q, r][..2] == [p, q] && [p, q][..1] == [p] && [p][..0] == [];
    assert OrdinaryPairs([p]) == map[];
    assert OrdinaryPairs([p, q]) == map[k := v];
    assert [p, q, r][1..] == [q, r] && [q, r][1..] == [r] && [r][1..] == [];
    assert FinalErrno([r], 0) == 0 && FinalErrno([q, r], 0) == 0;
  }
}
