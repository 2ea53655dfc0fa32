/** The client's readdir: kernel byte offsets mapped back onto server chunks. */
module Readdir {
  import opened Wrappers
  import opened Wire
  import opened Dirents
  import opened Chunking

  const EINVAL := 22
  const BUF_MAX: nat := 4096
  const DT_DIR := 4
  /** The special inos 2..5, present only in the root. */
  const MAX_SPECIAL_INO: nat := 5

  datatype Ino = Special(ino: nat) | Self | Parent | Generated(cookie: nat)

  /** One record handed to the kernel; `off` is the offset of the next record. */
  datatype Record = Record(name: string, dtype: int, ino: Ino, off: nat)

  datatype Result = Records(rs: seq<Record>) | Failed(errno: int)

  function SpecialName(ino: nat): (name: string)
    requires 2 <= ino <= MAX_SPECIAL_INO
    ensures |name| <= NAME_MAX
  {
    if ino == 2 then ".fs123_statistics"
    else if ino == 3 then ".fs123_ioctl"
    else if ino == 4 then ".fs123_config"
    else ".fs123_server_statistics"
  }

  function SpecialRecord(k: nat): Record
    requires k < MAX_SPECIAL_INO - 1
  {
    Record(SpecialName(k + 2), 0, Special(k + 2), k + 1)
  }

  /** "." and ".." are directories whose inos are known; all others get a hash. */
  function RecordOf(e: Dirent, off: nat): Record {
    if e.name == "." then Record(e.name, DT_DIR, Self, off)
    else if e.name == ".." then Record(e.name, DT_DIR, Parent, off)
    else Record(e.name, e.dtype, Generated(e.cookie), off)
  }

  /** Bytes a record takes in the kernel's buffer: a 24-byte header and the name,
      rounded up to a multiple of 8. */
  function Needed(name: string): nat {
    (24 + |name| + 7) / 8 * 8
  }

  /** Bytes that records take together. */
  function SizeOf(rs: seq<Record>): nat {
    if rs == [] then 0 else Needed(rs[0].name) + SizeOf(rs[1..])
  }

  lemma {:induction false} SizeOfConcat(a: seq<Record>, b: seq<Record>)
    ensures SizeOf(a + b) == SizeOf(a) + SizeOf(b)
  {
    hide Needed;
    if a == [] {
      assert a + b == b;
    } else {
      assert (a + b)[1..] == a[1..] + b;
      SizeOfConcat(a[1..], b);
    }
  }

  /** How many of the sorted offsets are at most x: std::upper_bound. */
  function UpperBound(offsets: seq<(nat, string)>, x: nat): (k: nat)
    ensures k <= |offsets|
    ensures forall i :: 0 <= i < k ==> offsets[i].0 <= x
    ensures k < |offsets| ==> x < offsets[k].0
  {
    if offsets == [] || x < offsets[0].0 then 0 else 1 + UpperBound(offsets[1..], x)
  }

  // ------------------------------------------------- the parse-and-emit loop

  /** The records parsed from `s` at `pos` until one does not fit; None when the
      text does not parse. */
  function Emit(s: string, first: nat, pos: nat, room: nat): Option<seq<Record>>
    decreases |s| - pos
  {
    if pos >= |s| then Some([])
    else
      var (e, next) :- ParseDirent(s, pos);
      if Needed(e.name) > room then Some([])
      else
        var rest :- Emit(s, first, next, room - Needed(e.name));
        Some([RecordOf(e, first + next)] + rest)
  }

  method EmitLoop(s: string, first: nat, start: nat, room: nat) returns (r: Option<seq<Record>>)
    ensures r == Emit(s, first, start, room)
  {
    hide ParseDirent, RecordOf, Needed;
    var pos: nat, left: nat, out: seq<Record> := start, room, [];
    assert var all := Emit(s, first, start, room); all.Some? ==> [] + all.value == all.value;
    while pos < |s|
      invariant match Emit(s, first, pos, left)
                case None => Emit(s, first, start, room).None?
                case Some(rest) => Emit(s, first, start, room) == Some(out + rest)
      decreases |s| - pos
    {
      var parsed := ParseDirent(s, pos);
      if parsed.None? {
        return None;
      }
      var (e, next) := parsed.value;
      if Needed(e.name) > left {
        break;
      }
      ghost var rest := Emit(s, first, next, left - Needed(e.name));
      if rest.Some? {
        assert out + ([RecordOf(e, first + next)] + rest.value) == (out + [RecordOf(e, first + next)]) + rest.value;
      }
      out, left, pos := out + [RecordOf(e, first + next)], left - Needed(e.name), next;
    }
    assert Emit(s, first, pos, left) == Some([]) && out + [] == out;
    return Some(out);
  }

  /** Record k of a chunk whose text starts at offset `first`. */
  ghost function ChunkRecord(C: seq<Dirent>, first: nat, k: nat): Record
    requires AllLegal(C) && k < |C|
  {
    RecordOf(C[k], first + |EncodeAll(C[..k + 1])|)
  }

  ghost predicate EmitsFrom(rs: seq<Record>, C: seq<Dirent>, first: nat, k: nat, room: nat)
    requires AllLegal(C)
  {
    && k + |rs| <= |C|
    && (forall m :: 0 <= m < |rs| ==> rs[m] == ChunkRecord(C, first, k + m))
    && SizeOf(rs) <= room && (k + |rs| < |C| ==> SizeOf(rs) + Needed(C[k + |rs|].name) > room)
  }

  /** From the offset of entry k of a chunk the loop emits entries k, k+1, ... of
      that chunk, as many as fit. */
  lemma {:induction false} EmitOfChunk(C: seq<Dirent>, first: nat, k: nat, room: nat)
    requires AllLegal(C) && k <= |C|
    ensures var r := Emit(EncodeAll(C), first, |EncodeAll(C[..k])|, room);
            r.Some? && EmitsFrom(r.value, C, first, k, room)
    decreases |C| - k
  {
    hide *;
    LegalFront(C, k);
    var s, pos := EncodeAll(C), |EncodeAll(C[..k])|;
    if k == |C| {
      EmitNothing(C, first, room);
      return;
    }
    LegalFront(C, k + 1);
    var next := |EncodeAll(C[..k + 1])|;
    ParseAt(C, k);
    if Needed(C[k].name) > room {
      EmitNone(s, first, pos, room, C[k], next);
      EmitsNone(C, first, k, room);
    } else {
      EmitOfChunk(C, first, k + 1, room - Needed(C[k].name));
      var rest := Emit(s, first, next, room - Needed(C[k].name)).value;
      EmitOne(s, first, pos, room, C[k], next);
      EmitsMore(C, first, k, room, rest);
    }
  }

  /** Entry k of a chunk is parsed at its offset. */
  lemma ParseAt(C: seq<Dirent>, k: nat)
    requires AllLegal(C) && k < |C|
    ensures AllLegal(C[..k]) && AllLegal(C[..k + 1])
    ensures var pos, next := |EncodeAll(C[..k])|, |EncodeAll(C[..k + 1])|;
            pos < |EncodeAll(C)| && ParseDirent(EncodeAll(C), pos) == Some((C[k], next))
  {
    hide ParseDirent, Encode, EncodeAll, Legal;
    EncodeAllAt(C, k);
    if k + 1 < |C| {
      EncodeAllAt(C, k + 1);
    } else {
      assert C[..k + 1] == C;
    }
    ParseOfEncode(EncodeAll(C), |EncodeAll(C[..k])|, C[k]);
  }

  lemma EmitNothing(C: seq<Dirent>, first: nat, room: nat)
    requires AllLegal(C)
    ensures C[..|C|] == C && Emit(EncodeAll(C), first, |EncodeAll(C)|, room) == Some([])
    ensures EmitsFrom([], C, first, |C|, room)
  {
    hide EncodeAll, ParseDirent;
    assert C[..|C|] == C;
  }

  lemma EmitNone(s: string, first: nat, pos: nat, room: nat, e: Dirent, next: nat)
    requires pos < |s| && ParseDirent(s, pos) == Some((e, next)) && Needed(e.name) > room
    ensures Emit(s, first, pos, room) == Some([])
  {
    hide ParseDirent, Needed;
  }

  lemma EmitsNone(C: seq<Dirent>, first: nat, k: nat, room: nat)
    requires AllLegal(C) && k < |C| && Needed(C[k].name) > room
    ensures EmitsFrom([], C, first, k, room)
  {
    hide EncodeAll, Needed;
  }

  lemma EmitOne(s: string, first: nat, pos: nat, room: nat, e: Dirent, next: nat)
    requires pos < |s| && ParseDirent(s, pos) == Some((e, next)) && Needed(e.name) <= room
    ensures var rest := Emit(s, first, next, room - Needed(e.name));
            Emit(s, first, pos, room) == if rest.Some? then Some([RecordOf(e, first + next)] + rest.value) else None
  {
    hide ParseDirent, Needed, RecordOf;
  }

  lemma EmitsMore(C: seq<Dirent>, first: nat, k: nat, room: nat, rest: seq<Record>)
    requires AllLegal(C) && k < |C| && Needed(C[k].name) <= room
    requires EmitsFrom(rest, C, first, k + 1, room - Needed(C[k].name))
    ensures AllLegal(C[..k + 1])
    ensures EmitsFrom([RecordOf(C[k], first + |EncodeAll(C[..k + 1])|)] + rest, C, first, k, room)
  {
    hide EncodeAll, Needed, RecordOf, SizeOf, Legal, ChunkRecord;
    LegalFront(C, k + 1);
    var off := first + |EncodeAll(C[..k + 1])|;
    OneMore(C[k], off, rest);
    var rs := [RecordOf(C[k], off)] + rest;
    FirstRecord(C, first, k);
    forall m | 0 <= m < |rs| ensures rs[m] == ChunkRecord(C, first, k + m) {
      if m > 0 {
        assert rest[m - 1] == ChunkRecord(C, first, k + 1 + (m - 1));
      }
    }
  }

  lemma FirstRecord(C: seq<Dirent>, first: nat, k: nat)
    requires AllLegal(C) && k < |C|
    ensures AllLegal(C[..k + 1]) && ChunkRecord(C, first, k) == RecordOf(C[k], first + |EncodeAll(C[..k + 1])|)
  {
    hide EncodeAll, RecordOf, Legal;
  }

  lemma OneMore(e: Dirent, off: nat, rest: seq<Record>)
    ensures SizeOf([RecordOf(e, off)] + rest) == Needed(e.name) + SizeOf(rest)
  {
    hide Needed;
    assert ([RecordOf(e, off)] + rest)[1..] == rest;
  }

  // ------------------------------------------------- what the kernel should see

  function Base(root: bool): nat {
    if root then MAX_SPECIAL_INO - 1 else 0
  }

  /** Everything readdir has to deliver, in order, each record with its offset. */
  ghost function Whole(root: bool, cks: seq<Chunk>): (w: seq<Record>)
    requires WellChunked(cks)
    ensures |w| == Base(root) + |Listing(cks)|
  {
    seq(Base(root), k requires 0 <= k < Base(root) => SpecialRecord(k)) +
    seq(|Listing(cks)|, i requires 0 <= i < |Listing(cks)| =>
      RecordOf(Listing(cks)[i], Base(root) + Bytes(cks, i + 1)))
  }

  /** The offset from which records g, g+1, ... are still to be read. */
  ghost function OffsetOf(root: bool, cks: seq<Chunk>, g: nat): nat
    requires WellChunked(cks) && g <= |Whole(root, cks)|
  {
    if g == 0 then 0 else Whole(root, cks)[g - 1].off
  }

  lemma OffsetOfIs(root: bool, cks: seq<Chunk>, g: nat)
    requires WellChunked(cks) && g <= |Whole(root, cks)|
    ensures g <= Base(root) ==> OffsetOf(root, cks, g) == g
    ensures g >= Base(root) ==> OffsetOf(root, cks, g) == Base(root) + Bytes(cks, g - Base(root))
  {
    hide WellChunked, Listing, Bytes;
    NoBytesBefore(cks);
  }

  lemma NoBytesBefore(cks: seq<Chunk>)
    requires WellChunked(cks)
    ensures Bytes(cks, 0) == 0
  {
    hide Listing;
    assert Listing(cks)[..0] == [];
  }

  lemma OffsetsGrow(root: bool, cks: seq<Chunk>, g: nat, h: nat)
    requires WellChunked(cks) && g < h <= |Whole(root, cks)|
    ensures OffsetOf(root, cks, g) < OffsetOf(root, cks, h)
  {
    hide *;
    OffsetOfIs(root, cks, g);
    OffsetOfIs(root, cks, h);
    var b := Base(root);
    if g >= b {
      BytesMonotone(cks, g - b, h - b);
    }
  }

  /** The root of a server that lists nothing, read again from a special entry after
      its end of file is known. */
  ghost predicate Rewound(root: bool, cks: seq<Chunk>, eof: bool, g: nat)
    requires WellChunked(cks)
  {
    root && eof && Listing(cks) == [] && g < Base(root)
  }

  /** The bytes that special entries k, k + 1, ... take together. */
  function SpecialBytes(k: nat): (n: nat)
    ensures k < MAX_SPECIAL_INO - 1 ==> n >= Needed(SpecialName(k + 2))
    decreases MAX_SPECIAL_INO - k
  {
    if k < MAX_SPECIAL_INO - 1 then Needed(SpecialName(k + 2)) + SpecialBytes(k + 1) else 0
  }

  /** The one place where the kernel is told less than everything: such a read with
      room for all the special entries from g on. */
  ghost predicate LosesSpecials(root: bool, cks: seq<Chunk>, eof: bool, g: nat, size: nat)
    requires WellChunked(cks)
  {
    Rewound(root, cks, eof, g) && SpecialBytes(g) <= BufferSize(size)
  }

  /** Record g is the first of a chunk, or there is none. */
  ghost predicate ChunkStarts(root: bool, cks: seq<Chunk>, g: nat) {
    exists j: nat :: j <= |cks| && g == Base(root) + First(cks, j)
  }

  /** A reply read from record g on is right: the next records unchanged and in
      order, at least one when there is one and it fits, no more than fit, no fewer than
      fit except where a chunk ends, and every offset in it is one the handle will
      accept. */
  ghost predicate Delivers(root: bool, cks: seq<Chunk>, g: nat, room: nat, rs: seq<Record>, limit: nat)
    requires WellChunked(cks)
  {
    var w := Whole(root, cks);
    && g + |rs| <= |w| && rs == w[g..g + |rs|]
    && (g < |w| && Needed(w[g].name) <= room ==> rs != [])
    && SizeOf(rs) <= room
    && (g + |rs| < |w| ==> SizeOf(rs) + Needed(w[g + |rs|].name) > room || ChunkStarts(root, cks, g + |rs|))
    && (rs != [] ==> rs[|rs| - 1].off <= limit)
  }

  lemma WholeAt(root: bool, cks: seq<Chunk>, i: nat)
    requires WellChunked(cks) && i < |Listing(cks)|
    ensures Whole(root, cks)[Base(root) + i] == RecordOf(Listing(cks)[i], Base(root) + Bytes(cks, i + 1))
  {
    hide RecordOf, Bytes, Listing, WellChunked;
  }

  lemma RecordKeepsOffset(e: Dirent, off: nat)
    ensures RecordOf(e, off).off == off
  {
  }

  lemma EntryAt(cks: seq<Chunk>, j: nat, k: nat)
    requires WellChunked(cks) && j < |cks| && k < |cks[j].entries|
    ensures First(cks, j) + k < |Listing(cks)| && Listing(cks)[First(cks, j) + k] == cks[j].entries[k]
  {
    FirstNext(cks, j);
    hide *;
    var f := First(cks, j);
    assert Listing(cks)[f..First(cks, j + 1)][k] == Listing(cks)[f + k];
  }

  lemma ChunkRecordInWhole(root: bool, cks: seq<Chunk>, j: nat, k: nat)
    requires WellChunked(cks) && j < |cks| && AllLegal(cks[j].entries) && k < |cks[j].entries|
    ensures var g := Base(root) + First(cks, j) + k;
            && g < |Whole(root, cks)|
            && Whole(root, cks)[g] == ChunkRecord(cks[j].entries, Base(root) + Start(cks, j), k)
  {
    hide EncodeAll, Start, WellChunked, RecordOf, Whole, Legal, First;
    var b, C, s := Base(root), cks[j].entries, Start(cks, j);
    assert ChunkRecord(C, b + s, k) == RecordOf(C[k], b + s + |EncodeAll(C[..k + 1])|);
    hide *;
    EntryAt(cks, j, k);
    BytesInChunk(cks, j, k + 1);
    WholeAt(root, cks, First(cks, j) + k);
  }

  /** The records of chunk j are the records of the whole from its first entry on. */
  lemma ChunkRecordsInWhole(root: bool, cks: seq<Chunk>, j: nat, k: nat, rs: seq<Record>)
    requires WellChunked(cks) && j < |cks| && AllLegal(cks[j].entries) && k + |rs| <= |cks[j].entries|
    requires forall m :: 0 <= m < |rs| ==> rs[m] == ChunkRecord(cks[j].entries, Base(root) + Start(cks, j), k + m)
    ensures var g := Base(root) + First(cks, j) + k;
            g + |rs| <= |Whole(root, cks)| && rs == Whole(root, cks)[g..g + |rs|]
  {
    hide *;
    FirstNext(cks, j);
    var g, w := Base(root) + First(cks, j) + k, Whole(root, cks);
    forall m | 0 <= m < |rs| ensures rs[m] == w[g + m] {
      ChunkRecordInWhole(root, cks, j, k + m);
    }
  }

  // ------------------------------------------------- the open directory

  /** fh_state: what an open directory remembers between calls. */
  datatype Handle = Handle(contents: string, first: nat, offsets: seq<(nat, string)>, eof: bool)

  /** One call: the size and offset asked for and the error, if any, with which the
      server answers it. */
  datatype Call = Call(size: nat, off: int, neterr: int)

  const NEW_HANDLE := Handle("", 0, [(0, "")], false)

  /** Largest offset the handle accepts. */
  function Limit(s: Handle): nat
    requires s.offsets != []
  {
    s.offsets[|s.offsets| - 1].0
  }

  function BufferSize(size: nat): nat {
    if size < BUF_MAX then size else BUF_MAX
  }

  /** Special entries k, k + 1, ... until one does not fit. */
  function Specials(k: nat, room: nat): seq<Record>
    decreases MAX_SPECIAL_INO - k
  {
    if k < MAX_SPECIAL_INO - 1 && Needed(SpecialName(k + 2)) <= room
    then [SpecialRecord(k)] + Specials(k + 1, room - Needed(SpecialName(k + 2)))
    else []
  }

  lemma SpecialsStep(k: nat, room: nat)
    requires k < MAX_SPECIAL_INO - 1
    ensures SpecialBytes(k) == Needed(SpecialName(k + 2)) + SpecialBytes(k + 1)
    ensures Specials(k, room)
            == if Needed(SpecialName(k + 2)) > room then []
               else [SpecialRecord(k)] + Specials(k + 1, room - Needed(SpecialName(k + 2)))
  {
    hide Needed, SpecialName, SpecialRecord;
  }

  lemma Regroup<T>(a: seq<T>, x: T, b: seq<T>)
    ensures a + ([x] + b) == a + [x] + b
  {
  }

  lemma NoSpecials(k: nat, room: nat)
    requires k >= MAX_SPECIAL_INO - 1
    ensures Specials(k, room) == [] && SpecialBytes(k) == 0
  {
  }

  /** Which chunk to retrieve before reading from `nextoff`; none if it is in hand. */
  function Wanted(s: Handle, nextoff: nat): (k: nat)
    ensures k <= |s.offsets|
  {
    if nextoff < s.first || nextoff >= s.first + |s.contents| then UpperBound(s.offsets, nextoff) else 0
  }

  /** Retrieving the chunk named by offsets[k - 1] also tells where the next one starts,
      if that was not known yet. */
  function Fetched(s: Handle, k: nat, server: Server): (t: Handle)
    requires 0 < k <= |s.offsets|
    ensures |t.offsets| >= |s.offsets|
  {
    var (at, token) := s.offsets[k - 1];
    var (content, next) := server(token);
    var t := s.(contents := content, first := at);
    if k == |s.offsets| then t.(offsets := s.offsets + [(at + |content|, next)], eof := next == "") else t
  }

  function Located(s: Handle, nextoff: nat, server: Server): (t: Handle)
    ensures |t.offsets| >= |s.offsets|
  {
    if Wanted(s, nextoff) == 0 then s else Fetched(s, Wanted(s, nextoff), server)
  }

  /** What is parsed and emitted from the chunk in hand. */
  function FromChunk(s: Handle, nextoff: nat, room: nat): Result {
    var pos := if nextoff < s.first then |s.contents| else nextoff - s.first;
    var start := if pos < |s.contents| then SkipWhite(s.contents, pos) else pos;
    match Emit(s.contents, s.first, start, room)
    case None => Failed(EINVAL)
    case Some(rs) => Records(rs)
  }

  /** What follows the special entries `rs`, into a buffer with `room` left. */
  function ServerPart(s: Handle, nextoff: nat, rs: seq<Record>, room: nat, server: Server, neterr: int): (p: (Handle, Result))
    requires s.offsets != []
    ensures p.0.offsets != []
  {
    if nextoff > Limit(s) then (s, Failed(EINVAL))
    else if nextoff == Limit(s) && s.eof then (s, Records([]))
    else if Wanted(s, nextoff) > 0 && neterr != 0 then (s, Failed(neterr))
    else
      var t := Located(s, nextoff, server);
      match FromChunk(t, nextoff, room)
      case Failed(e) => (t, Failed(e))
      case Records(more) => (t, Records(rs + more))
  }

  /** The first chunk of the root starts after the special entries. */
  function PastSpecials(s: Handle): Handle
    requires s.offsets != []
  {
    s.(offsets := s.offsets[0 := (MAX_SPECIAL_INO - 1, s.offsets[0].1)])
  }

  /** What one fs123_readdir makes of the handle, and its reply. */
  function Reading(root: bool, s: Handle, server: Server, c: Call): (p: (Handle, Result))
    requires s.offsets != []
    ensures p.0.offsets != []
  {
    var bufsz := BufferSize(c.size);
    if c.off < 0 then (s, Failed(EINVAL))
    else if !root then ServerPart(s, c.off, [], bufsz, server, c.neterr)
    else if bufsz < SpecialBytes(c.off) then (s, Records(Specials(c.off, bufsz)))
    else
      ServerPart(PastSpecials(s), if c.off < MAX_SPECIAL_INO - 1 then MAX_SPECIAL_INO - 1 else c.off,
                 Specials(c.off, bufsz), bufsz - SpecialBytes(c.off), server, c.neterr)
  }

  /** The handle after a history of calls. */
  function AfterCalls(root: bool, s: Handle, server: Server, history: seq<Call>): (t: Handle)
    requires s.offsets != []
    ensures t.offsets != []
  {
    if history == [] then s
    else Reading(root, AfterCalls(root, s, server, history[..|history| - 1]), server, history[|history| - 1]).0
  }

  /** One try of the kernel: its buffer's size, and the error, if any, with which the
      server answers. */
  datatype Try = Try(size: nat, neterr: int)

  /** The kernel's loop: it reads from an offset, continues from the last offset received,
      and stops at the first empty reply. None if a call fails or there is none left. */
  function Enumerated(root: bool, s: Handle, server: Server, off: nat, tries: seq<Try>): (r: Option<(seq<Record>, Handle)>)
    requires s.offsets != []
    ensures r.Some? ==> r.value.1.offsets != []
    decreases |tries|
  {
    if tries == [] then None
    else
      match Reading(root, s, server, Call(tries[0].size, off, tries[0].neterr))
      case (_, Failed(_)) => None
      case (t, Records(rs)) =>
        if rs == [] then Some(([], t))
        else
          var (rest, u) :- Enumerated(root, t, server, rs[|rs| - 1].off, tries[1..]);
          Some((rs + rest, u))
  }

  /** The methods do what the functions say. */
  class DirHandle {
    const root: bool
    var contents: string
    var first: nat
    var offsets: seq<(nat, string)>
    var eof: bool

    function Now(): Handle
      reads this
    {
      Handle(contents, first, offsets, eof)
    }

    constructor (root: bool)
      ensures this.root == root && Now() == NEW_HANDLE
    {
      this.root := root;
      contents, first, offsets, eof := "", 0, [(0, "")], false;
    }

    /** Makes `contents` the chunk that holds offset `nextoff`, fetching it when it
        is not the one in hand. */
    method Locate(nextoff: nat, server: Server, neterr: int) returns (err: int)
      modifies this
      ensures err == if Wanted(old(Now()), nextoff) > 0 then neterr else 0
      ensures Now() == if err == 0 then Located(old(Now()), nextoff, server) else old(Now())
    {
      err := 0;
      var mustBegetchunk := 0;
      if nextoff < first || nextoff >= first + |contents| {
        mustBegetchunk := UpperBound(offsets, nextoff);
      }
      if mustBegetchunk > 0 {
        err := Fetch(mustBegetchunk, server, neterr);
      }
    }

    /** Retrieves the chunk named by offsets[k - 1]. */
    method Fetch(k: nat, server: Server, neterr: int) returns (err: int)
      requires 0 < k <= |offsets|
      modifies this
      ensures err == neterr
      ensures Now() == if err == 0 then Fetched(old(Now()), k, server) else old(Now())
    {
      if neterr != 0 {
        return neterr;
      }
      var (byteNextOffset, chunkNextStart) := offsets[k - 1];
      var (content, next) := server(chunkNextStart);
      if k == |offsets| {
        offsets := offsets + [(byteNextOffset + |content|, next)];
        eof := next == "";
      }
      contents, first := content, byteNextOffset;
      return 0;
    }

    /** Entries for the special inos of the root, from offset `off` on. */
    method ReadSpecials(bufsz: nat, off: nat) returns (rs: seq<Record>, used: nat, next: nat)
      requires off < Base(true)
      ensures rs == Specials(off, bufsz) && next == off + |rs| <= Base(true)
      ensures used <= bufsz && used + SpecialBytes(next) == SpecialBytes(off)
      ensures next == Base(true) <==> SpecialBytes(off) <= bufsz
    {
      hide Needed, SpecialName, SpecialRecord, Specials, SpecialBytes;
      rs, used, next := [], 0, off;
      while next < MAX_SPECIAL_INO - 1
        invariant off <= next <= Base(true) && used <= bufsz && used + SpecialBytes(next) == SpecialBytes(off)
        invariant next == off + |rs| && Specials(off, bufsz) == rs + Specials(next, bufsz - used)
      {
        SpecialsStep(next, bufsz - used);
        var needed := Needed(SpecialName(next + 2));
        if needed > bufsz - used {
          assert rs + [] == rs;
          return;
        }
        Regroup(rs, SpecialRecord(next), Specials(next + 1, bufsz - used - needed));
        rs, used, next := rs + [SpecialRecord(next)], used + needed, next + 1;
      }
      assert rs + [] == rs;
      NoSpecials(next, bufsz - used);
    }

    /** The rest of the chunk that holds `nextoff`. */
    method ReadChunk(nextoff: nat, rs: seq<Record>, room: nat, server: Server, neterr: int) returns (r: Result)
      requires offsets != [] && nextoff <= Limit(Now()) && !(nextoff == Limit(Now()) && eof)
      modifies this
      ensures (Now(), r) == ServerPart(old(Now()), nextoff, rs, room, server, neterr)
    {
      hide Emit, Located, UpperBound;
      var err := Locate(nextoff, server, neterr);
      if err != 0 {
        return Failed(err);
      }
      var pos := if nextoff < first then |contents| else nextoff - first;
      if pos < |contents| {
        pos := SkipWhite(contents, pos);
      }
      var more := EmitLoop(contents, first, pos, room);
      return if more.None? then Failed(EINVAL) else Records(rs + more.value);
    }

    /** fs123_readdir. */
    method Read(size: nat, off: int, server: Server, neterr: int) returns (r: Result)
      requires offsets != []
      modifies this
      ensures (Now(), r) == Reading(root, old(Now()), server, Call(size, off, neterr))
    {
      hide SpecialName, Needed, FromChunk, Located, UpperBound;
      if off < 0 {
        return Failed(EINVAL);
      }
      var bufsz := BufferSize(size);
      hide BufferSize;
      var rs, used, nextoff: nat := [], 0, off;
      if root {
        if nextoff < MAX_SPECIAL_INO - 1 {
          rs, used, nextoff := ReadSpecials(bufsz, nextoff);
          if nextoff < MAX_SPECIAL_INO - 1 {
            return Records(rs);
          }
        }
        offsets := offsets[0 := (MAX_SPECIAL_INO - 1, offsets[0].1)];
      }
      if nextoff > Limit(Now()) {
        return Failed(EINVAL);
      }
      if nextoff == Limit(Now()) && eof {
        return Records([]);
      }
      r := ReadChunk(nextoff, rs, bufsz - used, server, neterr);
    }
  }

  // ------------------------------------------------- what every call keeps

  /** The contents are chunk j, and where it ends is known. */
  ghost predicate InHand(root: bool, s: Handle, cks: seq<Chunk>, j: nat)
    requires WellChunked(cks)
  {
    && j < |s.offsets| - 1 && j < |cks| && s.contents == EncodeAll(cks[j].entries)
    && s.first == Base(root) + Start(cks, j)
  }

  ghost predicate Valid(root: bool, s: Handle, cks: seq<Chunk>)
    requires WellChunked(cks)
    ensures Valid(root, s, cks) ==> s.offsets != []
  {
    && 1 <= |s.offsets| <= |cks| + 1
    && (forall j :: 1 <= j < |s.offsets| ==> s.offsets[j] == (Base(root) + Start(cks, j), Token(cks, j)))
    && s.offsets[0].1 == "" && (s.offsets[0].0 == Base(root) || (s.offsets[0].0 == 0 && |s.offsets| == 1))
    && (s.eof <==> |s.offsets| == |cks| + 1)
    && (s.contents != "" ==> exists j: nat :: InHand(root, s, cks, j))
  }

  lemma NewIsValid(root: bool, cks: seq<Chunk>)
    requires WellChunked(cks)
    ensures Valid(root, NEW_HANDLE, cks)
  {
  }

  /** The handle can be asked for this offset, and is not known to be at the end. */
  ghost predicate Askable(root: bool, s: Handle, nextoff: nat)
    requires s.offsets != []
  {
    s.offsets[0].0 == Base(root) <= nextoff <= Limit(s) && !(nextoff == Limit(s) && s.eof)
  }

  /** The entry of `offsets` at or before `nextoff` names the chunk that holds it. */
  lemma ChunkFor(root: bool, s: Handle, cks: seq<Chunk>, nextoff: nat)
    requires WellChunked(cks) && Valid(root, s, cks) && Askable(root, s, nextoff)
    ensures var k := UpperBound(s.offsets, nextoff);
            && 0 < k <= |cks| && s.offsets[k - 1] == (Base(root) + Start(cks, k - 1), Token(cks, k - 1))
            && Base(root) + Start(cks, k - 1) <= nextoff
            && (k < |s.offsets| ==> nextoff < Base(root) + Start(cks, k))
            && (k == |s.offsets| ==> nextoff == Base(root) + Start(cks, k - 1))
  {
    hide Start, EncodeAll, WellChunked, InHand;
    StartAt0(cks);
    var k := UpperBound(s.offsets, nextoff);
  }

  /** Fetching keeps the handle in order, and its limit never falls. */
  lemma FetchOk(root: bool, s: Handle, k: nat, server: Server, cks: seq<Chunk>)
    requires WellChunked(cks) && Serves(server, cks) && Valid(root, s, cks) && s.offsets[0].0 == Base(root)
    requires 0 < k <= |s.offsets| && k <= |cks|
    requires s.offsets[k - 1] == (Base(root) + Start(cks, k - 1), Token(cks, k - 1))
    ensures var t := Fetched(s, k, server);
            && Valid(root, t, cks) && t.offsets[0] == s.offsets[0] && Limit(t) >= Limit(s)
            && InHand(root, t, cks, k - 1) && t.first + |t.contents| == t.offsets[k].0
  {
    hide Start, EncodeAll, WellChunked, Serves;
    var t := Fetched(s, k, server);
    ServedChunk(server, cks, k - 1);
    StartNext(cks, k - 1);
    NextToken(cks, k - 1);
    hide Token;
    assert InHand(root, t, cks, k - 1);
  }

  /** The search in the offsets finds the chunk that holds the offset. */
  lemma LocateOk(root: bool, s: Handle, nextoff: nat, server: Server, cks: seq<Chunk>) returns (j: nat)
    requires WellChunked(cks) && Serves(server, cks) && Valid(root, s, cks) && Askable(root, s, nextoff)
    ensures var t := Located(s, nextoff, server);
            && Valid(root, t, cks) && t.offsets[0].0 == Base(root) && Limit(t) >= Limit(s)
            && InHand(root, t, cks, j)
            && t.first <= nextoff <= t.first + |t.contents| && (nextoff == t.first + |t.contents| ==> t.contents == "")
  {
    hide Start, EncodeAll, WellChunked, Serves, Token, Base, UpperBound, Fetched;
    if nextoff < s.first || nextoff >= s.first + |s.contents| {
      ChunkFor(root, s, cks, nextoff);
      var k := UpperBound(s.offsets, nextoff);
      FetchOk(root, s, k, server, cks);
      j := k - 1;
      FetchedHolds(root, s, k, nextoff, server, cks);
    } else {
      j :| InHand(root, s, cks, j);
    }
  }

  lemma FetchedHolds(root: bool, s: Handle, k: nat, nextoff: nat, server: Server, cks: seq<Chunk>)
    requires WellChunked(cks) && Valid(root, s, cks) && 0 < k <= |s.offsets| && k <= |cks|
    requires InHand(root, Fetched(s, k, server), cks, k - 1) && Base(root) + Start(cks, k - 1) <= nextoff
    requires (k < |s.offsets| ==> nextoff < Base(root) + Start(cks, k)) && (k == |s.offsets| ==> nextoff == Base(root) + Start(cks, k - 1))
    ensures var t := Fetched(s, k, server);
            t.first <= nextoff <= t.first + |t.contents| && (nextoff == t.first + |t.contents| ==> t.contents == "")
  {
    hide Start, EncodeAll, WellChunked, Valid, Fetched;
    StartNext(cks, k - 1);
  }

  /** The rest of the chunk that holds the offset of entry i. */
  lemma ChunkOk(root: bool, s: Handle, nextoff: nat, room: nat, server: Server, cks: seq<Chunk>, i: nat)
    requires WellChunked(cks) && Serves(server, cks) && Valid(root, s, cks) && Askable(root, s, nextoff)
    requires i <= |Listing(cks)| && nextoff == Base(root) + Bytes(cks, i)
    ensures var t := Located(s, nextoff, server);
            var r := FromChunk(t, nextoff, room);
            && t.offsets != [] && r.Records? && Delivers(root, cks, Base(root) + i, room, r.rs, Limit(t))
            && (i == |Listing(cks)| ==> t.eof)
  {
    hide Start, EncodeAll, WellChunked, Serves, Token, Base, Emit, Delivers, Bytes, Located;
    var j := LocateOk(root, s, nextoff, server, cks);
    var t := Located(s, nextoff, server);
    ServedChunk(server, cks, j);
    InHandOk(root, t, cks, j);
    ChunkAtEnd(cks, j, i);
    ChunkDelivers(root, cks, j, i, room, Limit(t));
  }

  lemma InHandOk(root: bool, t: Handle, cks: seq<Chunk>, j: nat)
    requires WellChunked(cks) && Valid(root, t, cks) && InHand(root, t, cks, j)
    ensures Base(root) + Start(cks, j + 1) <= Limit(t)
    ensures j == |cks| - 1 ==> t.eof
  {
    hide Start, EncodeAll, WellChunked, Token;
    StartMonotone(cks, j + 1, |t.offsets| - 1);
  }

  /** The server's part keeps the handle in order, whatever offset is asked for and
      whatever error comes back. */
  lemma ServerPartKeeps(root: bool, s: Handle, nextoff: nat, rs: seq<Record>, room: nat, server: Server, neterr: int, cks: seq<Chunk>)
    requires WellChunked(cks) && Serves(server, cks) && Valid(root, s, cks) && s.offsets[0].0 == Base(root) <= nextoff
    ensures var (t, r) := ServerPart(s, nextoff, rs, room, server, neterr);
            Valid(root, t, cks) && Limit(t) >= Limit(s)
  {
    hide Valid, WellChunked, Serves, Located, FromChunk, Base;
    if nextoff <= Limit(s) && !(nextoff == Limit(s) && s.eof) {
      var _ := LocateOk(root, s, nextoff, server, cks);
    }
  }

  /** And from a record's offset it delivers the records from there on, after those that
      are in the buffer already. */
  lemma ServerPartRight(root: bool, s: Handle, rs: seq<Record>, used: nat, server: Server, cks: seq<Chunk>, off: nat, nextoff: nat, g: nat, size: nat, eof: bool)
    requires WellChunked(cks) && Serves(server, cks) && Valid(root, s, cks) && s.offsets[0].0 == Base(root)
    requires g <= |Whole(root, cks)| && off == OffsetOf(root, cks, g) && off <= Reach(root, Limit(s)) && s.eof == eof
    requires AfterSpecials(root, off, nextoff, rs, used, BufferSize(size))
    ensures var (t, r) := ServerPart(s, nextoff, rs, BufferSize(size) - used, server, 0);
            ReadsRight(root, cks, g, size, eof, r, Reach(root, Limit(t)), t.eof)
  {
    hide *;
    var bufsz := BufferSize(size);
    AfterSpecialsMeans(root, off, nextoff, rs, used, bufsz);
    OrderlyEnd(root, s, cks);
    ReachIs(root, Limit(s));
    if nextoff == Limit(s) && s.eof {
      NoServerPart(s, nextoff, rs, bufsz - used, server);
      EndReadsRight(root, cks, off, g, size, Reach(root, Limit(s)));
    } else {
      AskableIs(root, s, nextoff);
      ServerPartOn(root, s, rs, used, server, cks, off, nextoff, g, bufsz);
      var (t, r) := ServerPart(s, nextoff, rs, bufsz - used, server, 0);
      ReadsRightIntro(root, cks, g, size, eof, r, Limit(t), t.eof);
    }
  }

  lemma AfterSpecialsMeans(root: bool, off: nat, nextoff: nat, rs: seq<Record>, used: nat, bufsz: nat)
    requires AfterSpecials(root, off, nextoff, rs, used, bufsz)
    ensures used <= bufsz && nextoff == (if off < Base(root) then Base(root) else off)
    ensures off < Base(root) ==> SpecialBytes(off) <= bufsz
  {
    hide SpecialRecord, SpecialBytes;
  }

  lemma ReachIs(root: bool, limit: nat)
    ensures Reach(root, limit) == if limit < Base(root) then Base(root) else limit
  {
  }

  lemma AskableIs(root: bool, s: Handle, nextoff: nat)
    requires s.offsets != []
    ensures Askable(root, s, nextoff) <==> s.offsets[0].0 == Base(root) <= nextoff <= Limit(s) && !(nextoff == Limit(s) && s.eof)
  {
  }

  lemma NoServerPart(s: Handle, nextoff: nat, rs: seq<Record>, room: nat, server: Server)
    requires s.offsets != [] && nextoff == Limit(s) && s.eof
    ensures ServerPart(s, nextoff, rs, room, server, 0) == (s, Records([]))
  {
  }

  lemma SomeServerPart(root: bool, s: Handle, nextoff: nat, rs: seq<Record>, room: nat, server: Server)
    requires s.offsets != [] && Askable(root, s, nextoff) && FromChunk(Located(s, nextoff, server), nextoff, room).Records?
    ensures var t := Located(s, nextoff, server);
            ServerPart(s, nextoff, rs, room, server, 0) == (t, Records(rs + FromChunk(t, nextoff, room).rs))
  {
    hide Located, FromChunk, Wanted;
  }

  lemma OrderlyEnd(root: bool, s: Handle, cks: seq<Chunk>)
    requires WellChunked(cks) && Valid(root, s, cks) && s.offsets[0].0 == Base(root)
    ensures Base(root) <= Limit(s)
    ensures s.eof ==> Limit(s) == Base(root) + Start(cks, |cks|)
  {
    hide Start, WellChunked, Token, InHand;
    SomeChunk(cks);
  }

  lemma ReadsRightIntro(root: bool, cks: seq<Chunk>, g: nat, size: nat, eof: bool, r: Result, limit: nat, eof': bool)
    requires WellChunked(cks) && !Rewound(root, cks, eof, g) && r.Records? && g + |r.rs| >= Base(root) && limit >= Base(root)
    requires Delivers(root, cks, g, BufferSize(size), r.rs, limit) && (g == |Whole(root, cks)| ==> eof')
    ensures ReadsRight(root, cks, g, size, eof, r, Reach(root, limit), eof')
  {
    hide WellChunked, Whole, Needed, BufferSize, SpecialBytes;
  }

  lemma ServerPartOn(root: bool, s: Handle, rs: seq<Record>, used: nat, server: Server, cks: seq<Chunk>, off: nat, nextoff: nat, g: nat, bufsz: nat)
    requires WellChunked(cks) && Serves(server, cks) && Valid(root, s, cks) && Askable(root, s, nextoff)
    requires g <= |Whole(root, cks)| && off == OffsetOf(root, cks, g)
    requires AfterSpecials(root, off, nextoff, rs, used, bufsz)
    ensures var (t, r) := ServerPart(s, nextoff, rs, bufsz - used, server, 0);
            && !Rewound(root, cks, s.eof, g) && r.Records? && g + |r.rs| >= Base(root) && Limit(t) >= Base(root)
            && Delivers(root, cks, g, bufsz, r.rs, Limit(t)) && (g == |Whole(root, cks)| ==> t.eof)
  {
    hide WellChunked, Serves, OffsetOf, Whole, Delivers, Bytes, Start, Valid, Located, FromChunk, ServerPart, Askable;
    hide SpecialRecord, SpecialBytes, Listing;
    AfterSpecialsMeans(root, off, nextoff, rs, used, bufsz);
    OffsetMeans(root, cks, off, g);
    NoBytesBefore(cks);
    AskableIs(root, s, nextoff);
    OrderlyEnd(root, s, cks);
    if nextoff == Base(root) && s.eof {
      SomethingListed(root, cks, Limit(s));
    }
    var i, room := if off < nextoff then 0 else g - Base(root), bufsz - used;
    ChunkOk(root, s, nextoff, room, server, cks, i);
    var _ := LocateOk(root, s, nextoff, server, cks);
    SomeServerPart(root, s, nextoff, rs, room, server);
    var t := Located(s, nextoff, server);
    var more := FromChunk(t, nextoff, room).rs;
    if off < nextoff {
      JoinDelivers(cks, off, bufsz, rs, more, room, Limit(t));
    } else {
      assert [] + more == more;
    }
  }

  /** No call ever damages the handle; an offset that is too large is an error. */
  lemma ReadKeeps(root: bool, s: Handle, server: Server, c: Call, cks: seq<Chunk>)
    requires WellChunked(cks) && Serves(server, cks) && Valid(root, s, cks)
    ensures var (t, r) := Reading(root, s, server, c);
            && Valid(root, t, cks) && Limit(t) >= Limit(s)
            && (c.off > Limit(s) && c.off > Base(root) ==> r == Failed(EINVAL))
  {
    hide *;
    NegativeOffset(root, s, server, c);
    if c.off < 0 {
      return;
    }
    var bufsz, used, rs := BufferSize(c.size), if root then SpecialBytes(c.off) else 0, if root then Specials(c.off, BufferSize(c.size)) else [];
    var s' := if root then PastSpecials(s) else s;
    var nextoff := if c.off < Base(root) then Base(root) else c.off;
    PastSpecialsOk(root, s, cks);
    ReadingIs(root, s, server, c);
    NoSpecialBytes(c.off);
    BaseIs(root);
    ReachIs(root, Limit(s));
    if bufsz >= used {
      ServerPartKeeps(root, s', nextoff, rs, bufsz - used, server, c.neterr, cks);
      TooLarge(s', nextoff, rs, bufsz - used, server, c.neterr);
    }
  }

  lemma NegativeOffset(root: bool, s: Handle, server: Server, c: Call)
    requires s.offsets != []
    ensures c.off < 0 ==> Reading(root, s, server, c) == (s, Failed(EINVAL))
  {
  }

  lemma TooLarge(s: Handle, nextoff: nat, rs: seq<Record>, room: nat, server: Server, neterr: int)
    requires s.offsets != []
    ensures nextoff > Limit(s) ==> ServerPart(s, nextoff, rs, room, server, neterr) == (s, Failed(EINVAL))
  {
  }

  lemma NoSpecialBytes(k: nat)
    ensures k >= Base(true) ==> SpecialBytes(k) == 0
  {
  }

  lemma PastSpecialsOk(root: bool, s: Handle, cks: seq<Chunk>)
    requires WellChunked(cks) && Valid(root, s, cks)
    ensures var t := if root then PastSpecials(s) else s;
            && Valid(root, t, cks) && t.offsets[0].0 == Base(root) && t.eof == s.eof
            && Limit(s) <= Limit(t) && Limit(t) == Reach(root, Limit(s))
  {
    hide Start, EncodeAll, Token, WellChunked;
    var t := if root then PastSpecials(s) else s;
    assert forall j: nat :: InHand(root, s, cks, j) ==> InHand(root, t, cks, j);
    StartAt0(cks);
    if |s.offsets| > 1 {
      StartMonotone(cks, 0, |s.offsets| - 1);
    }
  }

  /** From the offset of any record already issued, into a buffer of any size, a read
      returns that record and those after it, unchanged and in order, and an empty reply
      only at the end. */
  lemma ReadIsRight(root: bool, s: Handle, server: Server, size: nat, cks: seq<Chunk>, g: nat)
    requires WellChunked(cks) && Serves(server, cks) && Valid(root, s, cks)
    requires g <= |Whole(root, cks)| && OffsetOf(root, cks, g) <= Reach(root, Limit(s))
    ensures var (t, r) := Reading(root, s, server, Call(size, OffsetOf(root, cks, g), 0));
            ReadsRight(root, cks, g, size, s.eof, r, Reach(root, Limit(t)), t.eof)
  {
    hide *;
    var off, bufsz := OffsetOf(root, cks, g), BufferSize(size);
    PastSpecialsOk(root, s, cks);
    OffsetMeans(root, cks, off, g);
    SpecialsOk(off, bufsz);
    NoSpecialBytes(off);
    ReadingIs(root, s, server, Call(size, off, 0));
    ReachIs(root, Limit(s));
    BaseIs(root);
    if root && bufsz < SpecialBytes(off) {
      SpecialsRead(cks, g, size, Specials(off, bufsz), Reach(root, Limit(s)), s.eof);
    } else {
      var s' := if root then PastSpecials(s) else s;
      var nextoff := if off < Base(root) then Base(root) else off;
      var rs, used := if root then Specials(off, bufsz) else [], if root then SpecialBytes(off) else 0;
      ReachIs(root, Limit(s'));
      AfterSpecialsIntro(root, off, nextoff, rs, used, bufsz);
      ServerPartRight(root, s', rs, used, server, cks, off, nextoff, g, size, s.eof);
    }
  }

  lemma BaseIs(root: bool)
    ensures Base(root) == if root then Base(true) else 0
  {
  }

  lemma AfterSpecialsIntro(root: bool, off: nat, nextoff: nat, rs: seq<Record>, used: nat, bufsz: nat)
    requires nextoff == if off < Base(root) then Base(root) else off
    requires if off < Base(root) then
               && root && off + |rs| == Base(root) && used == SizeOf(rs) == SpecialBytes(off) <= bufsz
               && forall k :: 0 <= k < |rs| ==> rs[k] == SpecialRecord(off + k)
             else rs == [] && used == 0
    ensures AfterSpecials(root, off, nextoff, rs, used, bufsz)
  {
    hide SpecialRecord, SpecialBytes;
  }

  /** What a read does, by cases. */
  lemma ReadingIs(root: bool, s: Handle, server: Server, c: Call)
    requires s.offsets != [] && c.off >= 0
    ensures var bufsz, used, rs := BufferSize(c.size), if root then SpecialBytes(c.off) else 0, if root then Specials(c.off, BufferSize(c.size)) else [];
            Reading(root, s, server, c)
            == if bufsz < used then (s, Records(rs))
               else ServerPart(if root then PastSpecials(s) else s, if c.off < Base(root) then Base(root) else c.off, rs, bufsz - used, server, c.neterr)
  {
    hide BufferSize, SpecialBytes, Specials, ServerPart;
  }

  /** What a read from record g needs that only a request to the server can give: there
      may be more after the special entries, and the contents in hand do not cover it. */
  ghost predicate NeedsChunk(root: bool, s: Handle, cks: seq<Chunk>, g: nat, size: nat)
    requires WellChunked(cks) && g <= |Whole(root, cks)|
  {
    var off := OffsetOf(root, cks, g);
    var nextoff := if off < Base(root) then Base(root) else off;
    && (off < Base(root) ==> SpecialBytes(off) <= BufferSize(size))
    && !(s.eof && (g == |Whole(root, cks)| || Rewound(root, cks, s.eof, g)))
    && !(s.first <= nextoff < s.first + |s.contents|)
  }

  /** A failure of the server is an error of the read if and only if the read needs a
      chunk, and then the handle stays as it is; otherwise it does not matter. */
  lemma FailsExactly(root: bool, s: Handle, server: Server, size: nat, neterr: int, cks: seq<Chunk>, g: nat)
    requires WellChunked(cks) && Serves(server, cks) && Valid(root, s, cks) && neterr != 0
    requires g <= |Whole(root, cks)| && OffsetOf(root, cks, g) <= Reach(root, Limit(s))
    ensures var p := Reading(root, s, server, Call(size, OffsetOf(root, cks, g), neterr));
            && (p.1 == Failed(neterr) <==> NeedsChunk(root, s, cks, g, size))
            && (NeedsChunk(root, s, cks, g, size) ==> p.0 == s.(offsets := s.offsets[0 := (Base(root), "")]))
            && (!NeedsChunk(root, s, cks, g, size) ==> p == Reading(root, s, server, Call(size, OffsetOf(root, cks, g), 0)))
  {
    hide *;
    var off, bufsz := OffsetOf(root, cks, g), BufferSize(size);
    var s' := if root then PastSpecials(s) else s;
    var nextoff := if off < Base(root) then Base(root) else off;
    var rs, used := if root then Specials(off, bufsz) else [], if root then SpecialBytes(off) else 0;
    PastSpecialsOk(root, s, cks);
    FirstOffset(root, s, cks);
    OffsetMeans(root, cks, off, g);
    NoSpecialBytes(off);
    BaseIs(root);
    ReachIs(root, Limit(s));
    ReadingIs(root, s, server, Call(size, off, neterr));
    ReadingIs(root, s, server, Call(size, off, 0));
    ReadIsRecords(root, s, server, size, cks, g);
    EndKnown(root, s', cks, off, nextoff, g);
    NeedsChunkIs(root, s, cks, g, size);
    if bufsz >= used {
      ServerPartFails(root, s', nextoff, rs, bufsz - used, server, neterr, cks);
    }
  }

  lemma NeedsChunkIs(root: bool, s: Handle, cks: seq<Chunk>, g: nat, size: nat)
    requires WellChunked(cks) && g <= |Whole(root, cks)|
    ensures var off := OffsetOf(root, cks, g);
            var nextoff := if off < Base(root) then Base(root) else off;
            NeedsChunk(root, s, cks, g, size) <==>
              && (off < Base(root) ==> SpecialBytes(off) <= BufferSize(size))
              && !(s.eof && (g == |Whole(root, cks)| || Rewound(root, cks, s.eof, g)))
              && !(s.first <= nextoff < s.first + |s.contents|)
  {
    hide OffsetOf, Whole, WellChunked, Rewound, SpecialBytes, BufferSize;
  }

  lemma FirstOffset(root: bool, s: Handle, cks: seq<Chunk>)
    requires WellChunked(cks) && Valid(root, s, cks)
    ensures var t := if root then PastSpecials(s) else s;
            t == s.(offsets := s.offsets[0 := (Base(root), "")])
  {
    hide Start, Token, EncodeAll, WellChunked, InHand;
    var t := if root then PastSpecials(s) else s;
    PastSpecialsOk(root, s, cks);
    assert t.offsets == s.offsets[0 := (Base(root), "")];
  }

  lemma ReadIsRecords(root: bool, s: Handle, server: Server, size: nat, cks: seq<Chunk>, g: nat)
    requires WellChunked(cks) && Serves(server, cks) && Valid(root, s, cks)
    requires g <= |Whole(root, cks)| && OffsetOf(root, cks, g) <= Reach(root, Limit(s))
    ensures Reading(root, s, server, Call(size, OffsetOf(root, cks, g), 0)).1.Records?
  {
    hide WellChunked, Serves, OffsetOf, Whole, Valid, Reading, Delivers, LosesSpecials;
    ReadIsRight(root, s, server, size, cks, g);
  }

  /** Whether nothing more can come after the special entries. */
  lemma EndKnown(root: bool, s: Handle, cks: seq<Chunk>, off: nat, nextoff: nat, g: nat)
    requires WellChunked(cks) && Valid(root, s, cks) && s.offsets[0].0 == Base(root)
    requires g <= |Whole(root, cks)| && off == OffsetOf(root, cks, g) && nextoff == if off < Base(root) then Base(root) else off
    ensures nextoff == Limit(s) && s.eof <==> s.eof && (g == |Whole(root, cks)| || Rewound(root, cks, s.eof, g))
  {
    hide WellChunked, OffsetOf, Bytes, Start, Valid, Delivers;
    OrderlyEnd(root, s, cks);
    StartAtEnd(cks);
    NoMoreBytes(root, cks);
    OffsetMeans(root, cks, off, g);
    BaseIs(root);
    if s.eof {
      var i := if off < Base(root) then 0 else g - Base(root);
      assert nextoff == Base(root) + Bytes(cks, i);
      assert Bytes(cks, i) == Bytes(cks, |Listing(cks)|) <==> i == |Listing(cks)|;
    }
  }

  lemma ServerPartFails(root: bool, s: Handle, nextoff: nat, rs: seq<Record>, room: nat, server: Server, neterr: int, cks: seq<Chunk>)
    requires WellChunked(cks) && Valid(root, s, cks) && s.offsets[0].0 == Base(root) <= nextoff <= Limit(s) && neterr != 0
    ensures var needs := !(nextoff == Limit(s) && s.eof) && !(s.first <= nextoff < s.first + |s.contents|);
            ServerPart(s, nextoff, rs, room, server, neterr)
            == if needs then (s, Failed(neterr)) else ServerPart(s, nextoff, rs, room, server, 0)
  {
    hide WellChunked, Valid, Located, FromChunk, UpperBound;
    if !(nextoff == Limit(s) && s.eof) {
      ChunkFor(root, s, cks, nextoff);
    }
  }

  lemma {:induction false} SpecialsOk(k: nat, room: nat)
    ensures var rs := Specials(k, room);
            && (k >= Base(true) ==> rs == [] && SpecialBytes(k) == 0)
            && (k < Base(true) ==>
                  && k + |rs| <= Base(true)
                  && (forall m :: 0 <= m < |rs| ==> rs[m] == SpecialRecord(k + m))
                  && (k + |rs| == Base(true) <==> SpecialBytes(k) <= room)
                  && SizeOf(rs) <= room && (k + |rs| == Base(true) ==> SizeOf(rs) == SpecialBytes(k))
                  && (k + |rs| < Base(true) ==> SizeOf(rs) + Needed(SpecialName(k + |rs| + 2)) > room))
    decreases MAX_SPECIAL_INO - k
  {
    hide Needed, SpecialName, SpecialRecord, Specials, SpecialBytes, SizeOf;
    NoSize();
    if k < Base(true) {
      SpecialsStep(k, room);
    } else {
      NoSpecials(k, room);
    }
    if k < Base(true) && Needed(SpecialName(k + 2)) <= room {
      SpecialsOk(k + 1, room - Needed(SpecialName(k + 2)));
      OneMoreSpecial(k, Specials(k + 1, room - Needed(SpecialName(k + 2))));
    }
  }

  lemma OneMoreSpecial(k: nat, rest: seq<Record>)
    requires k < Base(true)
    ensures SizeOf([SpecialRecord(k)] + rest) == Needed(SpecialName(k + 2)) + SizeOf(rest)
  {
    hide Needed, SpecialName;
    assert ([SpecialRecord(k)] + rest)[1..] == rest;
  }

  /** A read is right if and only if it is not the one that loses the specials, whose
      reply is empty. */
  lemma RightExactly(root: bool, s: Handle, server: Server, size: nat, cks: seq<Chunk>, g: nat)
    requires WellChunked(cks) && Serves(server, cks) && Valid(root, s, cks)
    requires g <= |Whole(root, cks)| && OffsetOf(root, cks, g) <= Reach(root, Limit(s))
    ensures var (t, r) := Reading(root, s, server, Call(size, OffsetOf(root, cks, g), 0));
            && (r.Records? && Delivers(root, cks, g, BufferSize(size), r.rs, Reach(root, Limit(t)))
                <==> !LosesSpecials(root, cks, s.eof, g, size))
            && (LosesSpecials(root, cks, s.eof, g, size) ==> r == Records([]))
  {
    hide Whole, WellChunked, OffsetOf, Listing, Needed, SpecialName, BufferSize, Reading, Serves, Valid, Reach;
    ReadIsRight(root, s, server, size, cks, g);
    if LosesSpecials(root, cks, s.eof, g, size) {
      SpecialsInWhole(cks, g);
      SpecialNamed(g);
      assert Needed(SpecialName(g + 2)) <= BufferSize(size);
    }
  }

  lemma SomethingListed(root: bool, cks: seq<Chunk>, limit: nat)
    requires WellChunked(cks) && limit == Base(root) + Start(cks, |cks|) && limit != Base(root)
    ensures Listing(cks) != []
  {
    StartAtEnd(cks);
    NoBytesBefore(cks);
  }

  /** The reply to a read from record g of a handle whose end-of-file mark was `eof`
      and is now `eof'`: right, except where the specials are lost, where it is empty.
      The mark is not set before all the specials are delivered, and it is set at the
      end. */
  ghost predicate ReadsRight(root: bool, cks: seq<Chunk>, g: nat, size: nat, eof: bool, r: Result, limit: nat, eof': bool)
    requires WellChunked(cks)
  {
    if LosesSpecials(root, cks, eof, g, size) then r == Records([]) && eof'
    else && r.Records? && Delivers(root, cks, g, BufferSize(size), r.rs, limit)
         && (g + |r.rs| < Base(root) ==> eof' == eof)
         && (g == |Whole(root, cks)| ==> eof')
  }

  /** The offsets a handle accepts: up to its limit, and always the special ones. */
  function Reach(root: bool, limit: nat): nat {
    if limit < Base(root) then Base(root) else limit
  }

  /** What an offset says about the record it stands before. */
  lemma OffsetMeans(root: bool, cks: seq<Chunk>, off: nat, g: nat)
    requires WellChunked(cks)
    ensures g <= |Whole(root, cks)| && off == OffsetOf(root, cks, g) ==>
              && (off < Base(root) ==> g == off)
              && (off >= Base(root) ==> g >= Base(root) && off == Base(root) + Bytes(cks, g - Base(root)))
  {
    hide OffsetOf, Bytes;
    if g <= |Whole(root, cks)| {
      OffsetOfIs(root, cks, g);
    }
  }

  lemma SomeChunk(cks: seq<Chunk>)
    requires WellChunked(cks)
    ensures |cks| > 0
  {
  }

  lemma StartAtEnd(cks: seq<Chunk>)
    requires WellChunked(cks)
    ensures Start(cks, |cks|) == Bytes(cks, |Listing(cks)|)
  {
    StartNext(cks, |cks| - 1);
  }

  /** Where no bytes of text are left no record is. */
  lemma NoMoreBytes(root: bool, cks: seq<Chunk>)
    requires WellChunked(cks)
    ensures forall i {:trigger Bytes(cks, i)} :: 0 <= i <= |Listing(cks)| && Bytes(cks, i) == Bytes(cks, |Listing(cks)|) ==> i == |Listing(cks)|
    ensures Bytes(cks, 0) == 0
    ensures forall room, limit :: Delivers(root, cks, |Whole(root, cks)|, room, [], limit)
  {
    assert Listing(cks)[..0] == [];
    assert Whole(root, cks)[|Whole(root, cks)|..] == [];
    hide Bytes;
    forall i | 0 <= i <= |Listing(cks)| && Bytes(cks, i) == Bytes(cks, |Listing(cks)|) ensures i == |Listing(cks)| {
      BytesMonotone(cks, i, |Listing(cks)|);
    }
  }

  lemma SpecialOffset(k: nat)
    requires k < Base(true)
    ensures SpecialRecord(k).off == k + 1
  {
  }

  lemma SpecialsInWhole(cks: seq<Chunk>, g: nat)
    requires WellChunked(cks) && g < Base(true)
    ensures Whole(true, cks)[g] == SpecialRecord(g)
  {
  }

  /** What precedes the server's part of a read from `off`: all the special entries from
      there on, or none when `off` is past them. */
  ghost predicate AfterSpecials(root: bool, off: nat, nextoff: nat, rs: seq<Record>, used: nat, bufsz: nat) {
    if off < nextoff then
      && root && off + |rs| == Base(root) == nextoff && used == SizeOf(rs) == SpecialBytes(off) <= bufsz
      && forall k :: 0 <= k < |rs| ==> rs[k] == SpecialRecord(off + k)
    else off == nextoff >= Base(root) && rs == [] && used == 0
  }

  /** A buffer that the special entries fill. */
  lemma SpecialsRead(cks: seq<Chunk>, g: nat, size: nat, rs: seq<Record>, limit: nat, eof: bool)
    requires WellChunked(cks) && g + |rs| < Base(true) <= limit && BufferSize(size) < SpecialBytes(g)
    requires forall k :: 0 <= k < |rs| ==> rs[k] == SpecialRecord(g + k)
    requires SizeOf(rs) <= BufferSize(size) && SizeOf(rs) + Needed(SpecialName(g + |rs| + 2)) > BufferSize(size)
    ensures ReadsRight(true, cks, g, size, eof, Records(rs), limit, eof)
  {
    hide Whole, WellChunked, Needed, SpecialName, Delivers, BufferSize, SpecialBytes, Listing, SpecialRecord;
    SpecialsDeliver(cks, g, BufferSize(size), rs, limit);
  }

  lemma SpecialsDeliver(cks: seq<Chunk>, g: nat, room: nat, rs: seq<Record>, limit: nat)
    requires WellChunked(cks) && g + |rs| < Base(true) <= limit && SizeOf(rs) <= room
    requires forall k :: 0 <= k < |rs| ==> rs[k] == SpecialRecord(g + k)
    requires SizeOf(rs) + Needed(SpecialName(g + |rs| + 2)) > room
    ensures Delivers(true, cks, g, room, rs, limit)
  {
    hide *;
    SpecialsSlice(cks, g, rs);
    SpecialsInWhole(cks, g + |rs|);
    SpecialNamed(g + |rs|);
    if rs == [] {
      NoSize();
    } else {
      SpecialOffset(g + |rs| - 1);
    }
    DeliversIntro(true, cks, g, room, rs, limit);
  }

  lemma SpecialsSlice(cks: seq<Chunk>, g: nat, rs: seq<Record>)
    requires WellChunked(cks) && g + |rs| <= Base(true) && forall k :: 0 <= k < |rs| ==> rs[k] == SpecialRecord(g + k)
    ensures Base(true) <= |Whole(true, cks)| && rs == Whole(true, cks)[g..g + |rs|]
  {
    hide Whole, WellChunked, SpecialRecord;
    var w := Whole(true, cks);
    forall k | 0 <= k < |rs| ensures rs[k] == w[g + k] {
      SpecialsInWhole(cks, g + k);
    }
  }

  lemma NoSize()
    ensures SizeOf([]) == 0
  {
  }

  /** The specials from g on, followed by records read from the first entry. */
  lemma JoinDelivers(cks: seq<Chunk>, g: nat, bufsz: nat, rs: seq<Record>, more: seq<Record>, room: nat, limit: nat)
    requires WellChunked(cks) && g < Base(true) && g + |rs| == Base(true) <= limit
    requires forall k :: 0 <= k < |rs| ==> rs[k] == SpecialRecord(g + k)
    requires Delivers(true, cks, Base(true), room, more, limit) && SizeOf(rs) + room == bufsz
    ensures Delivers(true, cks, g, bufsz, rs + more, limit)
  {
    hide *;
    BaseIs(true);
    LastSpecial(g, rs);
    var w, b := Whole(true, cks), Base(true);
    DeliversElim(true, cks, b, room, more, limit);
    SizeOfConcat(rs, more);
    SpecialsSlice(cks, g, rs);
    SlicesJoin(w, g, b, b + |more|);
    DeliversIntro(true, cks, g, bufsz, rs + more, limit);
  }

  lemma SlicesJoin<T>(w: seq<T>, i: nat, j: nat, k: nat)
    requires i <= j <= k <= |w|
    ensures w[i..j] + w[j..k] == w[i..k]
  {
  }

  lemma LastSpecial(g: nat, rs: seq<Record>)
    requires g < Base(true) && g + |rs| == Base(true) && forall k :: 0 <= k < |rs| ==> rs[k] == SpecialRecord(g + k)
    ensures rs != [] && rs[|rs| - 1].off == Base(true)
  {
    hide SpecialRecord;
    SpecialOffset(Base(true) - 1);
    assert rs[|rs| - 1] == SpecialRecord(g + (|rs| - 1));
  }

  lemma DeliversElim(root: bool, cks: seq<Chunk>, g: nat, room: nat, rs: seq<Record>, limit: nat)
    requires WellChunked(cks) && Delivers(root, cks, g, room, rs, limit)
    ensures g + |rs| <= |Whole(root, cks)| && rs == Whole(root, cks)[g..g + |rs|] && SizeOf(rs) <= room
    ensures g + |rs| < |Whole(root, cks)| ==>
              SizeOf(rs) + Needed(Whole(root, cks)[g + |rs|].name) > room || ChunkStarts(root, cks, g + |rs|)
    ensures rs != [] ==> rs[|rs| - 1].off <= limit
  {
    hide WellChunked, Whole, Needed, SizeOf, ChunkStarts;
  }

  /** From the offset of entry i, the rest of its chunk is delivered. */
  lemma ChunkDelivers(root: bool, cks: seq<Chunk>, j: nat, i: nat, room: nat, limit: nat)
    requires WellChunked(cks) && j < |cks| && i <= |Listing(cks)| && AllLegal(cks[j].entries)
    requires Start(cks, j) <= Bytes(cks, i) <= Start(cks, j) + |EncodeAll(cks[j].entries)|
    requires Bytes(cks, i) == Start(cks, j) + |EncodeAll(cks[j].entries)| ==> EncodeAll(cks[j].entries) == ""
    requires Base(root) + Start(cks, j + 1) <= limit
    ensures var s, pos := EncodeAll(cks[j].entries), Bytes(cks, i) - Start(cks, j);
            var e := Emit(s, Base(root) + Start(cks, j), pos, room);
            && (pos < |s| ==> SkipWhite(s, pos) == pos)
            && e.Some? && Delivers(root, cks, Base(root) + i, room, e.value, limit)
  {
    hide *;
    if EncodeAll(cks[j].entries) == "" {
      EmptyChunkDelivers(root, cks, j, i, room, limit);
    } else {
      StartNext(cks, j);
      EntryInChunk(cks, j, i);
      NonemptyChunkDelivers(root, cks, j, i - First(cks, j), room, limit);
    }
  }

  /** The chunk found at the end of the listing is the last one. */
  lemma ChunkAtEnd(cks: seq<Chunk>, j: nat, i: nat)
    requires WellChunked(cks) && j < |cks| && AllLegal(cks[j].entries) && i <= |Listing(cks)|
    requires Bytes(cks, i) <= Start(cks, j) + |EncodeAll(cks[j].entries)|
    requires Bytes(cks, i) == Start(cks, j) + |EncodeAll(cks[j].entries)| ==> EncodeAll(cks[j].entries) == ""
    ensures i == |Listing(cks)| ==> j == |cks| - 1
  {
    hide Bytes, Start, EncodeAll;
    if i == |Listing(cks)| {
      StartNext(cks, j);
      StartMonotone(cks, j + 1, |cks|);
      StartAtEnd(cks);
    }
  }

  lemma EmptyChunkDelivers(root: bool, cks: seq<Chunk>, j: nat, i: nat, room: nat, limit: nat)
    requires WellChunked(cks) && j < |cks| && i <= |Listing(cks)|
    requires EncodeAll(cks[j].entries) == "" && Bytes(cks, i) == Start(cks, j)
    ensures Emit("", Base(root) + Start(cks, j), 0, room) == Some([])
    ensures Delivers(root, cks, Base(root) + i, room, [], limit)
  {
    StartNext(cks, j);
    StartAtEnd(cks);
    NoMoreBytes(root, cks);
  }

  lemma NonemptyChunkDelivers(root: bool, cks: seq<Chunk>, j: nat, k: nat, room: nat, limit: nat)
    requires WellChunked(cks) && j < |cks| && AllLegal(cks[j].entries) && k < |cks[j].entries|
    requires Base(root) + Start(cks, j + 1) <= limit
    ensures var s, pos := EncodeAll(cks[j].entries), |EncodeAll(cks[j].entries[..k])|;
            var e := Emit(s, Base(root) + Start(cks, j), pos, room);
            && pos < |s| && SkipWhite(s, pos) == pos
            && e.Some? && Delivers(root, cks, Base(root) + First(cks, j) + k, room, e.value, limit)
  {
    hide Emit, Delivers, Whole, Start, First, Listing, EncodeAll, WellChunked;
    var C, first := cks[j].entries, Base(root) + Start(cks, j);
    EncodeAllAt(C, k);
    EmitOfChunk(C, first, k, room);
    EmittedDelivers(root, cks, j, k, room, Emit(EncodeAll(C), first, |EncodeAll(C[..k])|, room).value, limit);
  }

  lemma LastOffset(root: bool, cks: seq<Chunk>, j: nat, k: nat)
    requires WellChunked(cks) && j < |cks| && AllLegal(cks[j].entries) && k < |cks[j].entries|
    ensures ChunkRecord(cks[j].entries, Base(root) + Start(cks, j), k).off <= Base(root) + Start(cks, j + 1)
  {
    hide Start, EncodeAll, Encode, WellChunked, Legal, RecordOf, Bytes, Listing;
    StartNext(cks, j);
    EncodeAllAt(cks[j].entries, k);
    var C, first := cks[j].entries, Base(root) + Start(cks, j);
    RecordKeepsOffset(C[k], first + |EncodeAll(C[..k + 1])|);
  }

  lemma EmittedDelivers(root: bool, cks: seq<Chunk>, j: nat, k: nat, room: nat, rs: seq<Record>, limit: nat)
    requires WellChunked(cks) && j < |cks| && AllLegal(cks[j].entries) && k < |cks[j].entries|
    requires EmitsFrom(rs, cks[j].entries, Base(root) + Start(cks, j), k, room)
    requires Base(root) + Start(cks, j + 1) <= limit
    ensures Delivers(root, cks, Base(root) + First(cks, j) + k, room, rs, limit)
  {
    hide Start, First, Bytes, EncodeAll, Encode, WellChunked, Legal, Needed, Whole, Listing, Flat, SizeOf;
    var C, first := cks[j].entries, Base(root) + Start(cks, j);
    assert forall m :: 0 <= m < |rs| ==> rs[m] == ChunkRecord(C, first, k + m);
    assert k + |rs| <= |C|;
    assert SizeOf(rs) <= room && (k + |rs| < |C| ==> SizeOf(rs) + Needed(C[k + |rs|].name) > room);
    hide *;
    NoSize();
    ChunkRecordsInWhole(root, cks, j, k, rs);
    if k + |rs| < |C| {
      EntryName(root, cks, j, k + |rs|);
    } else {
      NextChunkStarts(root, cks, j);
    }
    if rs != [] {
      LastOffset(root, cks, j, k + |rs| - 1);
    }
    DeliversIntro(root, cks, Base(root) + First(cks, j) + k, room, rs, limit);
  }

  lemma EntryName(root: bool, cks: seq<Chunk>, j: nat, k: nat)
    requires WellChunked(cks) && j < |cks| && AllLegal(cks[j].entries) && k < |cks[j].entries|
    ensures var g := Base(root) + First(cks, j) + k;
            g < |Whole(root, cks)| && Whole(root, cks)[g].name == cks[j].entries[k].name
  {
    hide EncodeAll, Start, WellChunked, Whole, Legal, First;
    ChunkRecordInWhole(root, cks, j, k);
  }

  lemma NextChunkStarts(root: bool, cks: seq<Chunk>, j: nat)
    requires WellChunked(cks) && j < |cks|
    ensures ChunkStarts(root, cks, Base(root) + First(cks, j) + |cks[j].entries|)
  {
    hide WellChunked, First;
    FirstNext(cks, j);
    assert Base(root) + First(cks, j) + |cks[j].entries| == Base(root) + First(cks, j + 1);
  }

  lemma DeliversIntro(root: bool, cks: seq<Chunk>, g: nat, room: nat, rs: seq<Record>, limit: nat)
    requires WellChunked(cks) && g + |rs| <= |Whole(root, cks)| && rs == Whole(root, cks)[g..g + |rs|]
    requires g < |Whole(root, cks)| && Needed(Whole(root, cks)[g].name) <= room ==> rs != []
    requires SizeOf(rs) <= room
    requires g + |rs| < |Whole(root, cks)| ==>
               SizeOf(rs) + Needed(Whole(root, cks)[g + |rs|].name) > room || ChunkStarts(root, cks, g + |rs|)
    requires rs != [] ==> rs[|rs| - 1].off <= limit
    ensures Delivers(root, cks, g, room, rs, limit)
  {
    hide WellChunked, Whole, Needed, SizeOf, ChunkStarts;
  }

  /** At the known end of file nothing is left, except for the lost specials. */
  lemma EndReadsRight(root: bool, cks: seq<Chunk>, off: nat, g: nat, size: nat, limit: nat)
    requires WellChunked(cks)
    requires (if off < Base(root) then Base(root) else off) == Base(root) + Start(cks, |cks|)
    requires off < Base(root) ==> SpecialBytes(off) <= BufferSize(size)
    ensures g <= |Whole(root, cks)| && off == OffsetOf(root, cks, g) ==>
              ReadsRight(root, cks, g, size, true, Records([]), limit, true)
  {
    OffsetMeans(root, cks, off, g);
    StartAtEnd(cks);
    NoMoreBytes(root, cks);
    hide OffsetOf, Bytes, Start, WellChunked, Delivers, Needed, SpecialBytes, BufferSize;
    assert off < Base(root) ==> Bytes(cks, 0) == Bytes(cks, |Listing(cks)|);
  }

  lemma ServedChunk(server: Server, cks: seq<Chunk>, j: nat)
    requires WellChunked(cks) && Serves(server, cks) && j < |cks|
    ensures AllLegal(cks[j].entries) && server(Token(cks, j)) == (EncodeAll(cks[j].entries), cks[j].next)
  {
  }

  lemma NextToken(cks: seq<Chunk>, j: nat)
    requires WellChunked(cks) && j < |cks|
    ensures Token(cks, j + 1) == cks[j].next
    ensures cks[j].next == "" <==> j + 1 == |cks|
  {
  }

  lemma StartAt0(cks: seq<Chunk>)
    requires WellChunked(cks)
    ensures Start(cks, 0) == 0
  {
    assert cks[..0] == [];
    assert Listing(cks)[..0] == [];
  }

  // ------------------------------------------------- whole enumerations

  /** Room for any record at all. */
  const ANY_RECORD: nat := 280

  /** The kernel's loop on the handle itself. Whatever the buffer sizes and the chunking,
      it gathers exactly the records from its starting point to the end, once each and
      in order. */
  method ReadToEnd(h: DirHandle, server: Server, start: nat, sizes: nat -> nat, ghost cks: seq<Chunk>, ghost g: nat)
    returns (all: seq<Record>)
    requires WellChunked(cks) && Serves(server, cks) && Valid(h.root, h.Now(), cks)
    requires forall k :: sizes(k) >= ANY_RECORD
    requires g <= |Whole(h.root, cks)| && start == OffsetOf(h.root, cks, g) && start <= Reach(h.root, Limit(h.Now()))
    requires !Rewound(h.root, cks, h.eof, g)
    modifies h
    ensures Valid(h.root, h.Now(), cks) && Limit(h.Now()) >= Limit(old(h.Now()))
    ensures all == Whole(h.root, cks)[g..] && h.eof
  {
    hide WellChunked, Serves, Valid, Whole, OffsetOf, Reach, Rewound, Reading, Limit, Listing;
    var off, calls := start, 0;
    ghost var at := g;
    all := [];
    while true
      invariant Valid(h.root, h.Now(), cks) && Limit(h.Now()) >= Limit(old(h.Now()))
      invariant g <= at <= |Whole(h.root, cks)| && off == OffsetOf(h.root, cks, at) && off <= Reach(h.root, Limit(h.Now()))
      invariant !Rewound(h.root, cks, h.Now().eof, at)
      invariant all == Whole(h.root, cks)[g..at]
      decreases |Whole(h.root, cks)| - at
    {
      ReadStep(h.root, h.Now(), server, sizes(calls), cks, at);
      var r := h.Read(sizes(calls), off, server, 0);
      if r.rs == [] {
        return;
      }
      at := at + |r.rs|;
      all, off, calls := all + r.rs, r.rs[|r.rs| - 1].off, calls + 1;
    }
  }

  /** One step of the kernel's loop makes progress or is at the end. */
  lemma ReadStep(root: bool, s: Handle, server: Server, size: nat, cks: seq<Chunk>, g: nat)
    requires WellChunked(cks) && Serves(server, cks) && Valid(root, s, cks) && size >= ANY_RECORD
    requires g <= |Whole(root, cks)| && OffsetOf(root, cks, g) <= Reach(root, Limit(s)) && !Rewound(root, cks, s.eof, g)
    ensures var (t, r) := Reading(root, s, server, Call(size, OffsetOf(root, cks, g), 0));
            && Valid(root, t, cks) && Limit(t) >= Limit(s)
            && r.Records? && g + |r.rs| <= |Whole(root, cks)| && r.rs == Whole(root, cks)[g..g + |r.rs|]
            && (r.rs == [] ==> g == |Whole(root, cks)| && t.eof)
            && (r.rs != [] ==> r.rs[|r.rs| - 1].off == OffsetOf(root, cks, g + |r.rs|) <= Reach(root, Limit(t)))
            && !Rewound(root, cks, t.eof, g + |r.rs|)
  {
    hide *;
    var (t, r) := Reading(root, s, server, Call(size, OffsetOf(root, cks, g), 0));
    ReadKeeps(root, s, server, Call(size, OffsetOf(root, cks, g), 0), cks);
    ReadIsRight(root, s, server, size, cks, g);
    StepRight(root, cks, g, size, s.eof, r, Reach(root, Limit(t)), t.eof);
  }

  /** What a right reply into a buffer with room for any record is for the loop. */
  lemma StepRight(root: bool, cks: seq<Chunk>, g: nat, size: nat, eof: bool, r: Result, limit: nat, eof': bool)
    requires WellChunked(cks) && size >= ANY_RECORD && g <= |Whole(root, cks)|
    requires ReadsRight(root, cks, g, size, eof, r, limit, eof') && !Rewound(root, cks, eof, g)
    ensures r.Records? && g + |r.rs| <= |Whole(root, cks)| && r.rs == Whole(root, cks)[g..g + |r.rs|]
    ensures r.rs == [] ==> g == |Whole(root, cks)| && eof'
    ensures r.rs != [] ==> r.rs[|r.rs| - 1].off == OffsetOf(root, cks, g + |r.rs|) && r.rs[|r.rs| - 1].off <= limit
    ensures !Rewound(root, cks, eof', g + |r.rs|)
  {
    hide WellChunked, Whole, OffsetOf, Needed, BufferSize, Listing, SpecialBytes;
    NamesFit(root, cks, g, size);
    if r.rs != [] {
      OffsetAfter(root, cks, g, r.rs);
    }
  }

  lemma NamesFit(root: bool, cks: seq<Chunk>, g: nat, size: nat)
    requires WellChunked(cks) && size >= ANY_RECORD
    ensures g < |Whole(root, cks)| ==> Needed(Whole(root, cks)[g].name) <= BufferSize(size)
  {
    hide Whole, WellChunked, Listing, Bytes, Needed, RecordOf, BufferSize, SpecialName, SpecialRecord, Encode;
    if Base(root) <= g < |Whole(root, cks)| {
      var e := Listing(cks)[g - Base(root)];
      WholeAt(root, cks, g - Base(root));
      assert Legal(e);
      RecordKeepsName(e, Base(root) + Bytes(cks, g - Base(root) + 1));
      AnyNameFits(e.name, size);
    } else if g < Base(root) {
      SpecialsInWhole(cks, g);
      SpecialNamed(g);
      AnyNameFits(SpecialName(g + 2), size);
    }
  }

  lemma AnyNameFits(name: string, size: nat)
    requires |name| <= NAME_MAX && size >= ANY_RECORD
    ensures Needed(name) <= BufferSize(size)
  {
  }

  lemma RecordKeepsName(e: Dirent, off: nat)
    ensures RecordOf(e, off).name == e.name
  {
  }

  lemma SpecialNamed(k: nat)
    requires k < Base(true)
    ensures SpecialRecord(k).name == SpecialName(k + 2)
  {
  }

  lemma OffsetAfter(root: bool, cks: seq<Chunk>, g: nat, rs: seq<Record>)
    requires WellChunked(cks) && rs != [] && g + |rs| <= |Whole(root, cks)|
    requires rs == Whole(root, cks)[g..g + |rs|]
    ensures rs[|rs| - 1].off == OffsetOf(root, cks, g + |rs|)
  {
    hide WellChunked, Whole;
  }

  predicate Roomy(tries: seq<Try>) {
    forall k :: 0 <= k < |tries| ==> tries[k].size >= ANY_RECORD
  }

  predicate Faultless(tries: seq<Try>) {
    forall k :: 0 <= k < |tries| ==> tries[k].neterr == 0
  }

  /** An empty reply means the end, whatever the server answers. */
  lemma EmptyOnlyAtTheEnd(root: bool, s: Handle, server: Server, try: Try, cks: seq<Chunk>, g: nat)
    requires WellChunked(cks) && Serves(server, cks) && Valid(root, s, cks) && try.size >= ANY_RECORD
    requires g <= |Whole(root, cks)| && OffsetOf(root, cks, g) <= Reach(root, Limit(s))
    ensures Reading(root, s, server, Call(try.size, OffsetOf(root, cks, g), try.neterr)).1 == Records([]) <==>
              (g == |Whole(root, cks)| && !NeedsAnswer(root, s, cks, g, try)) || Rewound(root, cks, s.eof, g)
  {
    hide *;
    if try.neterr != 0 {
      FailsExactly(root, s, server, try.size, try.neterr, cks, g);
    }
    NeedsAnswerIs(root, s, cks, g, try);
    if Rewound(root, cks, s.eof, g) {
      LosesWithRoom(root, cks, s.eof, g, try.size);
      RightExactly(root, s, server, try.size, cks, g);
      NotWhenRewound(root, s, cks, g, try.size);
    } else {
      ReadStep(root, s, server, try.size, cks, g);
    }
  }

  /** The server fails, and the read needs it. */
  ghost predicate NeedsAnswer(root: bool, s: Handle, cks: seq<Chunk>, g: nat, try: Try)
    requires WellChunked(cks) && g <= |Whole(root, cks)|
  {
    try.neterr != 0 && NeedsChunk(root, s, cks, g, try.size)
  }

  lemma NeedsAnswerIs(root: bool, s: Handle, cks: seq<Chunk>, g: nat, try: Try)
    requires WellChunked(cks) && g <= |Whole(root, cks)|
    ensures NeedsAnswer(root, s, cks, g, try) <==> try.neterr != 0 && NeedsChunk(root, s, cks, g, try.size)
  {
    hide NeedsChunk, Whole, WellChunked;
  }

  lemma NotWhenRewound(root: bool, s: Handle, cks: seq<Chunk>, g: nat, size: nat)
    requires WellChunked(cks) && g <= |Whole(root, cks)| && Rewound(root, cks, s.eof, g)
    ensures !NeedsChunk(root, s, cks, g, size)
  {
    hide OffsetOf, Whole, WellChunked, SpecialBytes, BufferSize;
  }

  /** Whatever errors it meets, the kernel's loop never takes part of the records for all
      of them: if it ends, it has exactly those from its starting point on. Without errors
      it ends within one call more than there are records. */
  lemma {:induction false} EnumeratedWhole(root: bool, s: Handle, server: Server, tries: seq<Try>, cks: seq<Chunk>, g: nat)
    requires WellChunked(cks) && Serves(server, cks) && Valid(root, s, cks) && Roomy(tries)
    requires g <= |Whole(root, cks)| && OffsetOf(root, cks, g) <= Reach(root, Limit(s)) && !Rewound(root, cks, s.eof, g)
    ensures var e := Enumerated(root, s, server, OffsetOf(root, cks, g), tries);
            && (e.Some? ==> && e.value.0 == Whole(root, cks)[g..]
                            && Valid(root, e.value.1, cks) && e.value.1.eof && Limit(e.value.1) >= Limit(s))
            && (Faultless(tries) && |tries| > |Whole(root, cks)| - g ==> e.Some?)
    decreases |tries|
  {
    hide *;
    if tries == [] {
      NoTries(root, s, server, OffsetOf(root, cks, g));
      return;
    }
    var off, w, try := OffsetOf(root, cks, g), Whole(root, cks), tries[0];
    FewerTries(tries);
    if try.neterr != 0 {
      FailsExactly(root, s, server, try.size, try.neterr, cks, g);
    }
    var (t, r) := Reading(root, s, server, Call(try.size, off, try.neterr));
    ReadStep(root, s, server, try.size, cks, g);
    EnumeratedStep(root, s, server, off, tries);
    if r.Records? {
      if r.rs == [] {
        assert w[g..] == [];
      } else {
        EnumeratedWhole(root, t, server, tries[1..], cks, g + |r.rs|);
        assert w[g..] == r.rs + w[g + |r.rs|..];
      }
    }
  }

  lemma NoTries(root: bool, s: Handle, server: Server, off: nat)
    requires s.offsets != []
    ensures Enumerated(root, s, server, off, []) == None
  {
  }

  lemma FewerTries(tries: seq<Try>)
    requires tries != [] && Roomy(tries)
    ensures tries[0].size >= ANY_RECORD && Roomy(tries[1..])
    ensures Faultless(tries) ==> tries[0].neterr == 0 && Faultless(tries[1..])
  {
  }

  lemma EnumeratedStep(root: bool, s: Handle, server: Server, off: nat, tries: seq<Try>)
    requires s.offsets != [] && tries != []
    ensures var (t, r) := Reading(root, s, server, Call(tries[0].size, off, tries[0].neterr));
            && t.offsets != []
            && (r.Failed? ==> Enumerated(root, s, server, off, tries) == None)
            && (r == Records([]) ==> Enumerated(root, s, server, off, tries) == Some(([], t)))
            && (r.Records? && r.rs != [] ==>
                  var rest := Enumerated(root, t, server, r.rs[|r.rs| - 1].off, tries[1..]);
                  Enumerated(root, s, server, off, tries)
                  == if rest.Some? then Some((r.rs + rest.value.0, rest.value.1)) else None)
  {
    hide Reading;
  }

  lemma {:induction false} HistoryKeeps(root: bool, s: Handle, server: Server, history: seq<Call>, cks: seq<Chunk>)
    requires WellChunked(cks) && Serves(server, cks) && Valid(root, s, cks)
    ensures var t := AfterCalls(root, s, server, history);
            Valid(root, t, cks) && Limit(t) >= Limit(s)
    decreases |history|
  {
    hide WellChunked, Serves, Valid, Reading, Limit;
    if history != [] {
      HistoryKeeps(root, s, server, history[..|history| - 1], cks);
      ReadKeeps(root, AfterCalls(root, s, server, history[..|history| - 1]), server, history[|history| - 1], cks);
    }
  }

  /** After any history of calls at any offsets, good or bogus, with any failures, the
      kernel's loop from a record's offset, with any further failures, gathers exactly the
      records from there on if it ends; except that the specials are lost after a rewind.
      Without further failures it ends if and only if the handle accepts the offset. */
  lemma EveryHistoryReadsOn(root: bool, server: Server, history: seq<Call>, tries: seq<Try>, cks: seq<Chunk>, g: nat)
    requires WellChunked(cks) && Serves(server, cks) && Roomy(tries) && g <= |Whole(root, cks)|
    ensures var s := AfterCalls(root, NEW_HANDLE, server, history);
            var e := Enumerated(root, s, server, OffsetOf(root, cks, g), tries);
            && (e.Some? ==> && OffsetOf(root, cks, g) <= Reach(root, Limit(s))
                            && e.value.0 == (if Rewound(root, cks, s.eof, g) then [] else Whole(root, cks)[g..])
                            && (e.value.0 == Whole(root, cks)[g..] <==> !Rewound(root, cks, s.eof, g)))
            && (Faultless(tries) && |tries| > |Whole(root, cks)| ==>
                  (e.Some? <==> OffsetOf(root, cks, g) <= Reach(root, Limit(s))))
  {
    hide *;
    NewIsValid(root, cks);
    HistoryKeeps(root, NEW_HANDLE, server, history, cks);
    var s, off := AfterCalls(root, NEW_HANDLE, server, history), OffsetOf(root, cks, g);
    ReachIs(root, Limit(s));
    if tries == [] {
      NoTries(root, s, server, off);
      return;
    }
    FewerTries(tries);
    EnumeratedStep(root, s, server, off, tries);
    if off > Reach(root, Limit(s)) {
      ReadKeeps(root, s, server, Call(tries[0].size, off, tries[0].neterr), cks);
    } else if Rewound(root, cks, s.eof, g) {
      LosesWithRoom(root, cks, s.eof, g, tries[0].size);
      RightExactly(root, s, server, tries[0].size, cks, g);
      NotWhenRewound(root, s, cks, g, tries[0].size);
      if tries[0].neterr != 0 {
        FailsExactly(root, s, server, tries[0].size, tries[0].neterr, cks, g);
      }
      assert Whole(root, cks)[g..] != [];
    } else {
      EnumeratedWhole(root, s, server, tries, cks, g);
    }
  }

  /** Every handle can be read from the start. */
  lemma StartIsReachable(root: bool, s: Handle, cks: seq<Chunk>)
    requires WellChunked(cks) && s.offsets != []
    ensures OffsetOf(root, cks, 0) == 0 <= Reach(root, Limit(s))
  {
  }

  lemma LosesWithRoom(root: bool, cks: seq<Chunk>, eof: bool, g: nat, size: nat)
    requires WellChunked(cks) && Rewound(root, cks, eof, g) && size >= ANY_RECORD
    ensures LosesSpecials(root, cks, eof, g, size) && g < |Whole(root, cks)|
  {
    AllSpecialBytes(g);
  }

  lemma AllSpecialBytes(g: nat)
    ensures SpecialBytes(g) <= 176
  {
  }

  /** The loss is real: any handle on a root that lists nothing shows its special
      entries to the first enumeration, after which the same handle, read again from
      special entry g with room for the rest of them, shows nothing. */
  lemma RewindLosesSpecials(s: Handle, server: Server, tries: seq<Try>, g: nat, size: nat, cks: seq<Chunk>)
    requires WellChunked(cks) && Serves(server, cks) && Listing(cks) == [] && Valid(true, s, cks) && !s.eof
    requires |tries| > 4 && Roomy(tries) && Faultless(tries)
    requires g < Base(true) && SpecialBytes(g) <= BufferSize(size)
    ensures var e := Enumerated(true, s, server, 0, tries);
            && e.Some? && e.value.0 == seq(4, k requires 0 <= k < 4 => SpecialRecord(k))
            && Reading(true, e.value.1, server, Call(size, g, 0)).1 == Records([])
  {
    hide WellChunked, Serves, Delivers, SpecialRecord, SpecialBytes, BufferSize, Enumerated, Reading, Valid;
    OffsetOfIs(true, cks, 0);
    OffsetOfIs(true, cks, g);
    hide OffsetOf, Listing;
    EnumeratedWhole(true, s, server, tries, cks, 0);
    var t := Enumerated(true, s, server, 0, tries).value.1;
    RightExactly(true, t, server, size, cks, g);
  }
}
