/** Close-to-open consistency: opens, reads, lookups and forgets of many threads, over
    caches that delay, reorder and replay what the server says. */
module Coherence {
  import opened Inomap
  import opened Validators
  import opened Wrappers

  /** History. `Looked` is the lookup that first remembers an ino, `Recorded` an update
      by the open-file scan, `Dropped` the forget of the last lookup. A read's `began`
      is the length of history when it began. */
  datatype Note =
    | Looked(ino: Ino, validator: nat)
    | Recorded(ino: Ino, validator: nat)
    | Opened(ino: Ino, validator: nat, keepCache: bool)
    | Dropped(ino: Ino)
    | ReadDone(ino: Ino, began: nat, chunks: seq<nat>)

  predicate Sets(n: Note, ino: Ino) {
    n.ino == ino && (n.Looked? || n.Recorded? || n.Opened?)
  }

  /** The ino stays remembered from note i until note j. */
  predicate Alive(log: seq<Note>, ino: Ino, i: nat, j: nat)
    requires j <= |log|
  {
    forall k :: i < k < j ==> log[k] != Dropped(ino)
  }

  /** Note i, before j, set the validator of the ino, which is remembered since. */
  predicate Set(log: seq<Note>, ino: Ino, i: nat, j: nat)
    requires j <= |log|
  {
    i < j && Sets(log[i], ino) && Alive(log, ino, i, j)
  }

  ghost predicate NoneAbove(log: seq<Note>, ino: Ino, j: nat, v: nat)
    requires j <= |log|
  {
    forall i: nat :: Set(log, ino, i, j) ==> log[i].validator <= v
  }

  ghost predicate SetTo(log: seq<Note>, ino: Ino, j: nat, v: nat)
    requires j <= |log|
  {
    exists i: nat :: Set(log, ino, i, j) && log[i].validator == v
  }

  /** What close-to-open consistency says of note j. Validators only grow while an ino
      is remembered; an open keeps the kernel's cache just when it found the validator
      already recorded; and a read returns nothing older than what was recorded, by
      an open above all, before the read began. */
  ghost predicate Coherent(log: seq<Note>, j: nat)
    requires j < |log|
  {
    match log[j]
    case Looked(ino, v) => forall i: nat :: !Set(log, ino, i, j)
    case Recorded(ino, v) => NoneAbove(log, ino, j, v)
    case Opened(ino, v, keepCache) => NoneAbove(log, ino, j, v) && (keepCache <==> SetTo(log, ino, j, v))
    case Dropped(_) => true
    case ReadDone(ino, began, chunks) =>
      began <= j && forall c :: 0 <= c < |chunks| ==> NoneAbove(log, ino, began, chunks[c])
  }

  lemma SetStays(log: seq<Note>, more: seq<Note>, ino: Ino, j: nat)
    requires log <= more && j <= |log|
    ensures forall i: nat :: Set(more, ino, i, j) <==> Set(log, ino, i, j)
    ensures forall v :: NoneAbove(more, ino, j, v) <==> NoneAbove(log, ino, j, v)
    ensures forall v :: SetTo(more, ino, j, v) <==> SetTo(log, ino, j, v)
  {
    assert forall k :: 0 <= k < j ==> more[k] == log[k];
    forall i: nat ensures Set(more, ino, i, j) <==> Set(log, ino, i, j) {
      assert i < j ==> more[i] == log[i];
    }
    hide Set;
    forall v ensures SetTo(more, ino, j, v) <==> SetTo(log, ino, j, v) {
      assert forall i: nat :: i < j ==> more[i] == log[i];
    }
  }

  lemma CoherentStays(log: seq<Note>, n: Note, j: nat)
    requires j < |log| && Coherent(log, j)
    ensures Coherent(log + [n], j)
  {
    hide Set, NoneAbove, SetTo;
    assert (log + [n])[j] == log[j];
    SetStays(log, log + [n], log[j].ino, j);
    if log[j].ReadDone? {
      SetStays(log, log + [n], log[j].ino, log[j].began);
    }
  }

  /** The records hold, for each remembered ino, the greatest validator that history
      has set since the ino was remembered. */
  ghost predicate Tracks(log: seq<Note>, rs: Records) {
    && (forall ino, i: nat :: ino != 1 && Set(log, ino, i, |log|) ==> ino in rs)
    && (forall ino :: ino in rs && ino != 1 ==>
          NoneAbove(log, ino, |log|, rs[ino].validator) && SetTo(log, ino, |log|, rs[ino].validator))
  }

  /** What is set after one more note. */
  lemma SetAfter(log: seq<Note>, n: Note, ino: Ino, i: nat)
    ensures Set(log + [n], ino, i, |log| + 1)
            <==> (i == |log| && Sets(n, ino)) || (n != Dropped(ino) && Set(log, ino, i, |log|))
  {
    var more := log + [n];
    assert more[|log|] == n;
    assert forall k :: 0 <= k < |log| ==> more[k] == log[k];
  }

  /** A note that neither sets nor drops this ino leaves it as it was. */
  lemma OthersTrack(log: seq<Note>, n: Note, ino: Ino, v: nat)
    requires !Sets(n, ino) && n != Dropped(ino)
    ensures NoneAbove(log + [n], ino, |log| + 1, v) <==> NoneAbove(log, ino, |log|, v)
    ensures SetTo(log + [n], ino, |log| + 1, v) <==> SetTo(log, ino, |log|, v)
  {
    hide Set;
    forall i: nat ensures Set(log + [n], ino, i, |log| + 1) <==> Set(log, ino, i, |log|) {
      SetAfter(log, n, ino, i);
    }
    assert forall i: nat :: Set(log, ino, i, |log|) ==> i < |log| && (log + [n])[i] == log[i] by { SetIsBefore(log, ino); }
  }

  lemma SetIsBefore(log: seq<Note>, ino: Ino)
    ensures forall i: nat :: Set(log, ino, i, |log|) ==> i < |log| && Sets(log[i], ino)
  {
  }

  /** A note that sets this ino to something at least as great makes it the greatest. */
  lemma SetterTracks(log: seq<Note>, n: Note, ino: Ino)
    requires Sets(n, ino) && NoneAbove(log, ino, |log|, n.validator)
    ensures NoneAbove(log + [n], ino, |log| + 1, n.validator) && SetTo(log + [n], ino, |log| + 1, n.validator)
  {
    hide Set;
    var more := log + [n];
    assert more[|log|] == n;
    SetIsBefore(log, ino);
    SetIsBefore(more, ino);
    var m := |log| + 1;
    forall i: nat | Set(more, ino, i, m) ensures more[i].validator <= n.validator {
      SetAfter(log, n, ino, i);
      assert i < |log| ==> more[i] == log[i];
    }
    SetAfter(log, n, ino, |log|);
    assert Set(more, ino, |log|, |log| + 1) && more[|log|].validator == n.validator;
  }

  /** History and records after a step that sets one ino's validator. */
  lemma SetTracks(log: seq<Note>, rs: Records, n: Note, ts: Records)
    requires Tracks(log, rs) && Sets(n, n.ino) && n.ino in ts && ts[n.ino].validator == n.validator
    requires n.ino in rs ==> rs[n.ino].validator <= n.validator
    requires n.ino != 1 && forall i :: i != n.ino ==> (i in ts <==> i in rs) && (i in rs ==> ts[i].validator == rs[i].validator)
    ensures Tracks(log + [n], ts) && NoneAbove(log, n.ino, |log|, n.validator)
  {
    hide Set;
    assert NoneAbove(log, n.ino, |log|, n.validator);
    SetterTracks(log, n, n.ino);
    forall ino | ino in ts && ino != 1
      ensures NoneAbove(log + [n], ino, |log| + 1, ts[ino].validator) && SetTo(log + [n], ino, |log| + 1, ts[ino].validator)
    {
      if ino != n.ino {
        OthersTrack(log, n, ino, ts[ino].validator);
      }
    }
    var more, m := log + [n], |log| + 1;
    forall ino, i: nat | ino != 1 && Set(more, ino, i, m) ensures ino in ts {
      SetAfter(log, n, ino, i);
    }
  }

  /** History and records after a step that sets nothing, and may drop one ino. */
  lemma QuietTracks(log: seq<Note>, rs: Records, n: Note, ts: Records)
    requires Tracks(log, rs) && (n.Dropped? || n.ReadDone?)
    requires forall i :: i in ts ==> i in rs && ts[i].validator == rs[i].validator
    requires forall i :: i in rs && i !in ts ==> n == Dropped(i)
    requires n.Dropped? ==> n.ino !in ts
    ensures Tracks(log + [n], ts)
  {
    hide Set;
    forall ino | ino in ts && ino != 1
      ensures NoneAbove(log + [n], ino, |log| + 1, ts[ino].validator) && SetTo(log + [n], ino, |log| + 1, ts[ino].validator)
    {
      OthersTrack(log, n, ino, ts[ino].validator);
    }
    var more, m := log + [n], |log| + 1;
    forall ino, i: nat | ino != 1 && Set(more, ino, i, m) ensures ino in ts {
      SetAfter(log, n, ino, i);
    }
  }

  /** A step without a note that changes no validator. */
  lemma SilentTracks(log: seq<Note>, rs: Records, ts: Records)
    requires Tracks(log, rs) && ts.Keys == rs.Keys && forall i :: i in rs ==> ts[i].validator == rs[i].validator
    ensures Tracks(log, ts)
  {
    hide Set, NoneAbove, SetTo;
  }

  // ------------------------------------------------- the mount

  ghost predicate AllCoherent(log: seq<Note>) {
    forall j :: 0 <= j < |log| ==> Coherent(log, j)
  }

  lemma AppendCoherent(log: seq<Note>, n: Note)
    requires AllCoherent(log)
    requires match n
             case Looked(ino, v) => forall i: nat :: !Set(log, ino, i, |log|)
             case Recorded(ino, v) => NoneAbove(log, ino, |log|, v)
             case Opened(ino, v, keepCache) => NoneAbove(log, ino, |log|, v) && (keepCache <==> SetTo(log, ino, |log|, v))
             case Dropped(_) => true
             case ReadDone(ino, began, chunks) =>
               began <= |log| && forall c :: 0 <= c < |chunks| ==> NoneAbove(log, ino, began, chunks[c])
    ensures AllCoherent(log + [n])
  {
    hide Set, NoneAbove, SetTo;
    var more := log + [n];
    SetStays(log, more, n.ino, |log|);
    if n.ReadDone? {
      SetStays(log, more, n.ino, n.began);
    }
    assert more[|log|] == n;
    assert Coherent(more, |log|);
    hide Coherent;
    forall j | 0 <= j < |more| ensures Coherent(more, j) {
      if j < |log| {
        CoherentStays(log, n, j);
      }
    }
  }

  /** An open that finds its validator recorded is one that finds it in history. */
  lemma KeepsExactly(log: seq<Note>, rs: Records, ino: Ino, v: nat)
    requires Tracks(log, rs) && ino in rs && ino != 1 && rs[ino].validator <= v
    ensures rs[ino].validator == v <==> SetTo(log, ino, |log|, v)
    ensures NoneAbove(log, ino, |log|, v)
  {
    SetIsBefore(log, ino);
    hide Set;
  }

  /** A read that is under way: what its ino's validator was when it began. */
  datatype Read = Read(ino: Ino, validator: nat)

  ghost predicate ReadsTrack(log: seq<Note>, reading: map<nat, Read>, began: map<nat, nat>) {
    forall t :: t in reading ==> t in began && began[t] <= |log| && NoneAbove(log, reading[t].ino, began[t], reading[t].validator)
  }

  lemma ReadsStay(log: seq<Note>, n: Note, reading: map<nat, Read>, began: map<nat, nat>)
    requires ReadsTrack(log, reading, began)
    ensures ReadsTrack(log + [n], reading, began)
  {
    hide Set, NoneAbove, SetTo;
    forall t | t in reading ensures NoneAbove(log + [n], reading[t].ino, began[t], reading[t].validator) {
      SetStays(log, log + [n], reading[t].ino, began[t]);
    }
  }

  /** The validators that a chunk's first request and its no-cache retry come back with. */
  datatype Replies = Replies(first: Option<nat>, noCache: Option<nat>)

  /** The validator of the chunk that a read may return: one that is not older than v. */
  function Accepted(v: nat, replies: Replies): Option<nat> {
    if replies.first.None? || replies.first.value >= v then replies.first
    else if replies.noCache.Some? && replies.noCache.value >= v then replies.noCache
    else None
  }

  /** What a step of fs123_open comes to. */
  datatype OpenResult = OpenOk(keepCache: bool) | TryAgain | Estale | OtherError

  // ------------------------------------------------- the steps, as values

  /** What the mount's threads share, which threads are in the middle of an open or a
      read, and history. */
  datatype State = State(
    records: Records,
    retrying: map<nat, Ino>,
    reading: map<nat, Read>,
    began: map<nat, nat>,
    book: Book,
    log: seq<Note>)

  datatype Event =
    | Looking(pino: Ino, name: string, ino: Ino, validator: nat)
    | Forgetting(ino: Ino, n: nat)
    | Opening(t: nat, ino: Ino, reply: Option<nat>)
    | Scanning(ino: Ino, validator: nat)
    | BeginningRead(t: nat, ino: Ino)
    | EndingRead(t: nat, chunk0: Replies, more: bool, chunk1: Replies)

  function Init(dotdot: Ino): State {
    State(Root(dotdot), map[], map[], map[], NEW_BOOK, [])
  }

  /** A step that the kernel asks for, and that its thread is at. Opens and reads are
      of files, so not of the root. */
  predicate Enabled(s: State, e: Event) {
    match e
    case Looking(pino, name, ino, _) => MayRemember(s.records, pino, name, ino)
    case Forgetting(ino, n) => MayForget(s.records, ino, n)
    case Opening(t, ino, _) => ino != 1 && (t in s.retrying ==> s.retrying[t] == ino)
    case Scanning(ino, _) => ino != 1
    case BeginningRead(t, ino) => ino != 1 && t !in s.reading
    case EndingRead(t, _, _, _) => t in s.reading
  }

  ghost function AfterLookup(s: State, pino: Ino, name: string, ino: Ino, validator: nat): State {
    s.(records := Remembered(s.records, pino, name, ino, validator),
       book := BookRemember(s.book, s.records, pino, name, ino),
       log := if ino in s.records then s.log else s.log + [Looked(ino, validator)])
  }

  ghost function AfterForget(s: State, ino: Ino, n: nat): State {
    s.(records := Forgotten(s.records, ino, n),
       book := BookForget(s.book, ino, n),
       log := if ino in s.records && ino !in Forgotten(s.records, ino, n) then s.log + [Dropped(ino)] else s.log)
  }

  /** The validator is not older than the record. */
  predicate InOrder(s: State, ino: Ino, validator: nat) {
    ino in s.records && s.records[ino].validator <= validator
  }

  function OpenResultOf(s: State, t: nat, ino: Ino, reply: Option<nat>): OpenResult {
    if reply.None? || ino !in s.records then OtherError
    else if InOrder(s, ino, reply.value) then OpenOk(s.records[ino].validator == reply.value)
    else if t in s.retrying then Estale
    else TryAgain
  }

  ghost function AfterOpen(s: State, t: nat, ino: Ino, reply: Option<nat>): State {
    var u := s.(retrying := s.retrying - {t});
    match OpenResultOf(s, t, ino, reply)
    case OpenOk(keepCache) =>
      u.(records := Updated(s.records, ino, reply.value), log := s.log + [Opened(ino, reply.value, keepCache)])
    case TryAgain => s.(retrying := s.retrying[t := ino])
    case Estale => u
    case OtherError => u
  }

  ghost function AfterScan(s: State, ino: Ino, validator: nat): State {
    if InOrder(s, ino, validator) then
      s.(records := Updated(s.records, ino, validator), log := s.log + [Recorded(ino, validator)])
    else s
  }

  ghost function AfterReadBegin(s: State, t: nat, ino: Ino): State {
    if ino in s.records then
      s.(reading := s.reading[t := Read(ino, s.records[ino].validator)], began := s.began[t := |s.log|])
    else s
  }

  /** The validators of the chunks that a read returns, if it returns any. */
  function ChunksOf(v: nat, chunk0: Replies, more: bool, chunk1: Replies): Option<seq<nat>> {
    var c :- Accepted(v, chunk0);
    if !more then Some([c])
    else
      var d :- Accepted(v, chunk1);
      Some([c, d])
  }

  ghost function AfterReadEnd(s: State, t: nat, chunk0: Replies, more: bool, chunk1: Replies): State
    requires t in s.reading
  {
    var read := s.reading[t];
    var chunks := ChunksOf(read.validator, chunk0, more, chunk1);
    s.(reading := s.reading - {t},
       log := if chunks.None? || t !in s.began then s.log else s.log + [ReadDone(read.ino, s.began[t], chunks.value)])
  }

  ghost function Apply(s: State, e: Event): State {
    if !Enabled(s, e) then s
    else
      match e
      case Looking(pino, name, ino, validator) => AfterLookup(s, pino, name, ino, validator)
      case Forgetting(ino, n) => AfterForget(s, ino, n)
      case Opening(t, ino, reply) => AfterOpen(s, t, ino, reply)
      case Scanning(ino, validator) => AfterScan(s, ino, validator)
      case BeginningRead(t, ino) => AfterReadBegin(s, t, ino)
      case EndingRead(t, chunk0, more, chunk1) => AfterReadEnd(s, t, chunk0, more, chunk1)
  }

  ghost function After(s: State, events: seq<Event>): State {
    if events == [] then s else Apply(After(s, events[..|events| - 1]), events[|events| - 1])
  }

  // ------------------------------------------------- what every step keeps

  ghost predicate Ok(s: State) {
    Sound(s.records, s.book) && Tracks(s.log, s.records) && AllCoherent(s.log) && ReadsTrack(s.log, s.reading, s.began)
  }

  /** One more note, coherent with history, that the records keep up with. */
  lemma NotedOk(s: State, t: State, n: Note)
    requires Ok(s) && t.log == s.log + [n] && AllCoherent(t.log) && Tracks(t.log, t.records) && Sound(t.records, t.book)
    requires t.began == s.began && forall i :: i in t.reading ==> i in s.reading && t.reading[i] == s.reading[i]
    ensures Ok(t)
  {
    hide AllCoherent, Tracks, Sound, NoneAbove;
    ReadsStay(s.log, n, s.reading, s.began);
  }

  lemma LookedOk(s: State, pino: Ino, name: string, ino: Ino, validator: nat)
    requires Ok(s) && MayRemember(s.records, pino, name, ino)
    ensures Ok(AfterLookup(s, pino, name, ino, validator))
  {
    hide Set, NoneAbove, SetTo, Sound, AllCoherent, ReadsTrack, NameFits;
    var t := AfterLookup(s, pino, name, ino, validator);
    RememberKeeps(s.records, s.book, pino, name, ino, validator);
    if ino in s.records {
      SilentTracks(s.log, s.records, t.records);
    } else {
      AppendCoherent(s.log, Looked(ino, validator));
      SetTracks(s.log, s.records, Looked(ino, validator), t.records);
      hide Tracks, Ok, BookRemember, Remembered;
      NotedOk(s, t, Looked(ino, validator));
    }
  }

  lemma ForgotOk(s: State, ino: Ino, n: nat)
    requires Ok(s) && MayForget(s.records, ino, n)
    ensures Ok(AfterForget(s, ino, n))
  {
    hide Set, NoneAbove, SetTo, Sound, AllCoherent, ReadsTrack;
    var t := AfterForget(s, ino, n);
    ForgetKeeps(s.records, s.book, ino, n);
    if ino in t.records {
      SilentTracks(s.log, s.records, t.records);
    } else {
      AppendCoherent(s.log, Dropped(ino));
      QuietTracks(s.log, s.records, Dropped(ino), t.records);
      hide Tracks, Ok, BookForget, Forgotten;
      NotedOk(s, t, Dropped(ino));
    }
  }

  /** Recording a validator that is in order, by an open or by the scan. */
  lemma SetOk(s: State, t: State, n: Note)
    requires Ok(s) && n.ino != 1 && (n.Recorded? || n.Opened?) && InOrder(s, n.ino, n.validator)
    requires n.Opened? ==> n.keepCache == (s.records[n.ino].validator == n.validator)
    requires t == s.(records := Updated(s.records, n.ino, n.validator), log := s.log + [n], retrying := t.retrying)
    ensures Ok(t)
  {
    hide Set, NoneAbove, SetTo, Sound, AllCoherent, ReadsTrack;
    ValidatorKeeps(s.records, s.book, n.ino, n.validator);
    KeepsExactly(s.log, s.records, n.ino, n.validator);
    AppendCoherent(s.log, n);
    SetTracks(s.log, s.records, n, t.records);
    hide Tracks, Ok, Updated;
    NotedOk(s, t, n);
  }

  lemma BeganOk(s: State, t: nat, ino: Ino)
    requires Ok(s) && ino != 1 && t !in s.reading
    ensures Ok(AfterReadBegin(s, t, ino))
  {
    hide Set, NoneAbove, SetTo, Sound, AllCoherent;
  }

  lemma EndedOk(s: State, t: nat, chunk0: Replies, more: bool, chunk1: Replies)
    requires Ok(s) && t in s.reading
    ensures Ok(AfterReadEnd(s, t, chunk0, more, chunk1))
  {
    var u := AfterReadEnd(s, t, chunk0, more, chunk1);
    if u.log != s.log {
      var read := s.reading[t];
      var chunks := ChunksOf(read.validator, chunk0, more, chunk1).value;
      var n := ReadDone(read.ino, s.began[t], chunks);
      assert forall c :: 0 <= c < |chunks| ==> chunks[c] >= read.validator;
      hide Set, SetTo, Sound, AllCoherent, Tracks;
      AppendCoherent(s.log, n);
      QuietTracks(s.log, s.records, n, s.records);
      hide NoneAbove, Ok;
      NotedOk(s, u, n);
    }
  }

  lemma ApplyKeeps(s: State, e: Event)
    requires Ok(s)
    ensures Ok(Apply(s, e))
  {
    hide Ok, AfterLookup, AfterForget, AfterReadBegin, AfterReadEnd, MayRemember, MayForget;
    if Enabled(s, e) {
      match e {
        case Looking(pino, name, ino, validator) => LookedOk(s, pino, name, ino, validator);
        case Forgetting(ino, n) => ForgotOk(s, ino, n);
        case Opening(t, ino, reply) =>
          if OpenResultOf(s, t, ino, reply).OpenOk? {
            SetOk(s, Apply(s, e), Opened(ino, reply.value, OpenResultOf(s, t, ino, reply).keepCache));
          } else {
            RetryingOk(s, Apply(s, e));
          }
        case Scanning(ino, validator) =>
          if InOrder(s, ino, validator) {
            SetOk(s, Apply(s, e), Recorded(ino, validator));
          }
        case BeginningRead(t, ino) => BeganOk(s, t, ino);
        case EndingRead(t, chunk0, more, chunk1) => EndedOk(s, t, chunk0, more, chunk1);
      }
    }
  }

  lemma OpenedOk(s: State, t: nat, ino: Ino, reply: Option<nat>)
    requires Ok(s) && ino != 1 && (t in s.retrying ==> s.retrying[t] == ino)
    ensures Ok(AfterOpen(s, t, ino, reply)) && Sound(s.records, s.book)
  {
    ApplyKeeps(s, Opening(t, ino, reply));
    hide Sound, Tracks, AllCoherent, ReadsTrack, AfterOpen;
  }

  lemma ScannedOk(s: State, ino: Ino, validator: nat)
    requires Ok(s) && ino != 1
    ensures Ok(AfterScan(s, ino, validator)) && Sound(s.records, s.book)
  {
    ApplyKeeps(s, Scanning(ino, validator));
    hide Sound, Tracks, AllCoherent, ReadsTrack, AfterScan;
  }

  lemma OpenedIs(s: State, t: nat, ino: Ino, reply: Option<nat>, u: State)
    requires u.reading == s.reading && u.began == s.began && u.book == s.book
    requires u.records == if reply.Some? then Updated(s.records, ino, reply.value) else s.records
    requires var result := OpenResultOf(s, t, ino, reply);
             && u.log == (if result.OpenOk? then s.log + [Opened(ino, reply.value, result.keepCache)] else s.log)
             && u.retrying == (if result.TryAgain? then s.retrying[t := ino] else s.retrying - {t})
    ensures u == AfterOpen(s, t, ino, reply)
  {
    if reply.Some? && !InOrder(s, ino, reply.value) {
      UpdatedNothing(s.records, ino, reply.value);
    }
    hide Updated;
  }

  lemma OpenResultIs(s: State, t: nat, ino: Ino, reply: Option<nat>)
    ensures reply.None? ==> OpenResultOf(s, t, ino, reply) == OtherError
    ensures OpenResultOf(s, t, ino, reply)
            == if reply.None? || ino !in s.records then OtherError
               else if s.records[ino].validator <= reply.value then OpenOk(s.records[ino].validator == reply.value)
               else if t in s.retrying then Estale else TryAgain
  {
  }

  lemma RetryingOk(s: State, t: State)
    requires Ok(s) && t == s.(retrying := t.retrying)
    ensures Ok(t)
  {
    hide Sound, Tracks, AllCoherent, ReadsTrack;
  }

  lemma InitOk(dotdot: Ino)
    ensures Ok(Init(dotdot))
  {
    RootAgrees(dotdot);
    hide Agrees, Sound;
    RootIsSound(dotdot);
  }

  lemma RootIsSound(dotdot: Ino)
    ensures Sound(Root(dotdot), NEW_BOOK)
  {
  }

  lemma {:induction false} AfterKeeps(s: State, events: seq<Event>)
    requires Ok(s)
    ensures Ok(After(s, events))
    decreases |events|
  {
    hide Ok, Apply;
    if events != [] {
      AfterKeeps(s, events[..|events| - 1]);
      ApplyKeeps(After(s, events[..|events| - 1]), events[|events| - 1]);
    }
  }

  /** Whatever the threads do, in whatever order, and whatever replies the caches give
      them: all of history is coherent. */
  lemma EveryRunIsCoherent(dotdot: Ino, events: seq<Event>)
    ensures AllCoherent(After(Init(dotdot), events).log)
  {
    hide Sound, Tracks, AllCoherent, ReadsTrack;
    InitOk(dotdot);
    AfterKeeps(Init(dotdot), events);
  }

  // ------------------------------------------------- the mount

  class Mount {
    const inos: InoMap
    /** Opens that wait for a no-cache reply, and reads that wait for chunks, by thread. */
    var retrying: map<nat, Ino>
    var reading: map<nat, Read>
    ghost var began: map<nat, nat>
    ghost var book: Book
    ghost var log: seq<Note>

    ghost function Now(): State
      reads this, inos
    {
      State(inos.records, retrying, reading, began, book, log)
    }

    ghost predicate Valid()
      reads this, inos
    {
      Ok(Now())
    }

    constructor (dotdot: Ino)
      ensures Valid() && fresh(inos) && Now() == Init(dotdot)
    {
      inos := new InoMap(dotdot);
      retrying, reading, began := map[], map[], map[];
      book, log := NEW_BOOK, [];
      InitOk(dotdot);
    }

    /** The inomap's part of a lookup. */
    method Lookup(pino: Ino, name: string, ino: Ino, validator: nat)
      requires Valid() && MayRemember(inos.records, pino, name, ino)
      modifies inos, `log, `book
      ensures Valid() && Now() == AfterLookup(old(Now()), pino, name, ino, validator)
    {
      hide Ok, Remembered, BookRemember, NameFits;
      LookedOk(Now(), pino, name, ino, validator);
      ghost var s := Now();
      var _ := inos.Remember(pino, name, ino, validator);
      book := BookRemember(book, s.records, pino, name, ino);
      log := if ino in s.records then log else log + [Looked(ino, validator)];
    }

    method Forget(ino: Ino, n: nat)
      requires Valid() && MayForget(inos.records, ino, n)
      modifies inos, `log, `book
      ensures Valid() && Now() == AfterForget(old(Now()), ino, n)
    {
      hide Ok, Forgotten, BookForget;
      ForgotOk(Now(), ino, n);
      inos.Forget(ino, n);
      log := if ino in old(inos.records) && ino !in inos.records then log + [Dropped(ino)] else log;
      book := BookForget(book, ino, n);
    }

    /** One pass of fs123_open, from its label tryagain: the first takes any reply, the
        second a reply to a no-cache request. None is an error or a throw. */
    method OpenAttempt(t: nat, ino: Ino, reply: Option<nat>) returns (result: OpenResult)
      requires Valid() && ino != 1 && (t in retrying ==> retrying[t] == ino)
      modifies inos, `log, `retrying
      ensures Valid() && Now() == AfterOpen(old(Now()), t, ino, reply)
      ensures result == OpenResultOf(old(Now()), t, ino, reply)
    {
      hide Ok, Updated, OpenResultOf, AfterOpen;
      ghost var s := Now();
      OpenedOk(s, t, ino, reply);
      OpenResultIs(s, t, ino, reply);
      if reply.None? {
        result := OtherError;
      } else {
        result := Record(t in retrying, ino, reply.value);
      }
      retrying := if result.TryAgain? then retrying[t := ino] else retrying - {t};
      OpenedIs(s, t, ino, reply, Now());
    }

    /** The part of it that updates the record. */
    method Record(noCache: bool, ino: Ino, validator: nat) returns (result: OpenResult)
      requires Sound(inos.records, book) && ino != 1
      modifies inos, `log
      ensures result == (if ino !in old(inos.records) then OtherError
                         else if old(inos.records)[ino].validator <= validator then OpenOk(old(inos.records)[ino].validator == validator)
                         else if noCache then Estale else TryAgain)
      ensures inos.records == Updated(old(inos.records), ino, validator)
      ensures log == if result.OpenOk? then old(log) + [Opened(ino, validator, result.keepCache)] else old(log)
    {
      hide Sound, Updated;
      var u := inos.UpdateValidator(ino, validator, book);
      match u {
        case Failed => return OtherError;
        case OutOfOrder => return if noCache then Estale else TryAgain;
        case Was(recorded) =>
          log := log + [Opened(ino, validator, recorded == validator)];
          return OpenOk(recorded == validator);
      }
    }

    /** The open-file scan's part: it records what is not out of order, and tells the
        kernel to drop its pages unless the validator is the one recorded. */
    method Scan(ino: Ino, validator: nat) returns (mustNotify: bool)
      requires Valid() && ino != 1
      modifies inos, `log
      ensures Valid() && Now() == AfterScan(old(Now()), ino, validator)
      ensures !mustNotify <==> ino in old(inos.records) && old(inos.records)[ino].validator == validator
    {
      hide Ok, Updated;
      ScannedOk(Now(), ino, validator);
      mustNotify := true;
      var u := inos.UpdateValidator(ino, validator, book);
      if u.Was? {
        mustNotify := u.validator != validator;
        log := log + [Recorded(ino, validator)];
      } else {
        UpdatedNothing(old(inos.records), ino, validator);
      }
    }

    /** fs123_read up to its first request. */
    method ReadBegin(t: nat, ino: Ino)
      requires Valid() && ino != 1 && t !in reading
      modifies `reading, `began
      ensures Valid() && Now() == AfterReadBegin(old(Now()), t, ino)
    {
      BeganOk(Now(), t, ino);
      hide Tracks, AllCoherent, ReadsTrack, Sound;
      var nv := inos.FullNameValidator(ino, book);
      if nv.Some? {
        reading := reading[t := Read(ino, nv.value.1)];
        began := began[t := |log|];
      }
    }

    /** One chunk: any reply that is not older than the record was when the read began,
        or else a no-cache reply that is not. None is an error, a throw, or ESTALE. */
    method Chunk(validator: nat, replies: Replies) returns (r: Option<nat>)
      ensures r == Accepted(validator, replies)
      ensures r.Some? ==> r.value >= validator
    {
      if replies.first.None? {
        return None;
      }
      if replies.first.value < validator {
        if replies.noCache.None? {
          return None;
        }
        if replies.noCache.value < validator {
          return None;
        }
        return replies.noCache;
      }
      return replies.first;
    }

    /** The rest of fs123_read: one chunk, or two if the first does not end it. None is
        an error or a throw. */
    method ReadEnd(t: nat, chunk0: Replies, more: bool, chunk1: Replies) returns (r: Option<seq<nat>>)
      requires Valid() && t in reading
      modifies `reading, `log
      ensures Valid() && Now() == AfterReadEnd(old(Now()), t, chunk0, more, chunk1)
      ensures r == ChunksOf(old(reading)[t].validator, chunk0, more, chunk1)
    {
      EndedOk(Now(), t, chunk0, more, chunk1);
      assert t in began;
      hide Ok, Accepted;
      var read := reading[t];
      reading := reading - {t};
      var c := Chunk(read.validator, chunk0);
      if !c.Some? {
        return None;
      }
      if !more {
        log := log + [ReadDone(read.ino, began[t], [c.value])];
        return Some([c.value]);
      }
      var d := Chunk(read.validator, chunk1);
      if !d.Some? {
        return None;
      }
      log := log + [ReadDone(read.ino, began[t], [c.value, d.value])];
      return Some([c.value, d.value]);
    }
  }

  lemma UpdatedNothing(rs: Records, ino: Ino, validator: nat)
    requires ino !in rs || validator < rs[ino].validator
    ensures Updated(rs, ino, validator) == rs
  {
  }

  /** The mount does what the steps say, event by event, skipping what the kernel would
      not ask for and what no thread is at. */
  method Run(mount: Mount, events: seq<Event>)
    requires mount.Valid()
    modifies mount, mount.inos
    ensures mount.Valid() && mount.Now() == After(old(mount.Now()), events)
  {
    hide Ok, AfterLookup, AfterForget, AfterOpen, AfterScan, AfterReadBegin, AfterReadEnd, MayRemember, MayForget;
    for n := 0 to |events|
      invariant mount.Valid() && mount.Now() == After(old(mount.Now()), events[..n])
    {
      assert events[..n + 1][..n] == events[..n];
      match events[n] {
        case Looking(pino, name, ino, validator) =>
          if MayRemember(mount.inos.records, pino, name, ino) {
            mount.Lookup(pino, name, ino, validator);
          }
        case Forgetting(ino, k) =>
          if MayForget(mount.inos.records, ino, k) {
            mount.Forget(ino, k);
          }
        case Opening(t, ino, reply) =>
          if ino != 1 && (t in mount.retrying ==> mount.retrying[t] == ino) {
            var _ := mount.OpenAttempt(t, ino, reply);
          }
        case Scanning(ino, validator) =>
          if ino != 1 {
            var _ := mount.Scan(ino, validator);
          }
        case BeginningRead(t, ino) =>
          if ino != 1 && t !in mount.reading {
            mount.ReadBegin(t, ino);
          }
        case EndingRead(t, chunk0, more, chunk1) =>
          if t in mount.reading {
            var _ := mount.ReadEnd(t, chunk0, more, chunk1);
          }
      }
    }
    assert events[..|events|] == events;
  }

  /** What coherence gives a reader: no chunk is older than any open of the file that
      was complete when the read began. */
  lemma ReadsAreCloseToOpen(log: seq<Note>, i: nat, j: nat, c: nat)
    requires AllCoherent(log) && i < j < |log| && log[i].Opened? && log[j].ReadDone?
    requires log[j].ino == log[i].ino && i < log[j].began <= j && Alive(log, log[i].ino, i, log[j].began)
    requires c < |log[j].chunks|
    ensures log[i].validator <= log[j].chunks[c]
  {
    assert Coherent(log, j);
    assert Set(log, log[i].ino, i, log[j].began);
  }

  /** End to end: if the validators of an open and of a chunk are what the server saw of
      the file at some times, in any order, and no mtime lags its write by more than
      twice the granularity, then a read that began after the open misses no write that
      the open saw. */
  lemma ReadsMissNoWrite(log: seq<Note>, i: nat, j: nat, c: nat, h: seq<Write>, g: nat, openSeen: nat, chunkSeen: nat)
    requires AllCoherent(log) && i < j < |log| && log[i].Opened? && log[j].ReadDone?
    requires log[j].ino == log[i].ino && i < log[j].began <= j && Alive(log, log[i].ino, i, log[j].began)
    requires c < |log[j].chunks|
    requires History(h) && forall k :: 0 <= k < |h| ==> h[k].at - h[k].mtime <= 2 * g
    requires Observable(h, openSeen, g) && log[i].validator == Validators.Validator(h, openSeen, g)
    requires Observable(h, chunkSeen, g) && log[j].chunks[c] == Validators.Validator(h, chunkSeen, g)
    ensures forall k :: 0 <= k < |h| ==> !(chunkSeen < h[k].at <= openSeen)
  {
    ReadsAreCloseToOpen(log, i, j, c);
    hide Validators.Validator, History, Coherent;
    if chunkSeen <= openSeen {
      NeverDecreases(h, chunkSeen, openSeen, g);
      SameValidatorSameVersion(h, chunkSeen, openSeen, g);
    }
  }

  /** And if every validator in history is what the server saw of the file at
      some time, in any order, and no mtime lags its write by more than twice the
      granularity, then an open that keeps the kernel's cache follows a lookup, open
      or scan that saw the file as it is now: nothing was written in between. */
  lemma KeepCacheMeansUnwritten(log: seq<Note>, j: nat, h: seq<Write>, g: nat, seen: seq<nat>) returns (i: nat)
    requires AllCoherent(log) && j < |log| && log[j].Opened? && log[j].keepCache && |seen| == |log|
    requires History(h) && forall k :: 0 <= k < |h| ==> h[k].at - h[k].mtime <= 2 * g
    requires forall k :: 0 <= k < |log| && Sets(log[k], log[j].ino) ==>
               Observable(h, seen[k], g) && log[k].validator == Validators.Validator(h, seen[k], g)
    ensures i < j && Set(log, log[j].ino, i, j)
    ensures forall k :: 0 <= k < |h| ==> !(seen[i] < h[k].at <= seen[j]) && !(seen[j] < h[k].at <= seen[i])
  {
    assert Coherent(log, j);
    i :| Set(log, log[j].ino, i, j) && log[i].validator == log[j].validator;
    hide Validators.Validator, History;
    if seen[i] <= seen[j] {
      SameValidatorSameVersion(h, seen[i], seen[j], g);
    } else {
      SameValidatorSameVersion(h, seen[j], seen[i], g);
    }
  }
}
