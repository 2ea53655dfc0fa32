/** When the files of the disk cache are complete: what O_EXCL is there for, and which
    steps defeat it. */
module DiskExclusive {
  import opened DiskProtocol
  import opened DiskRecord
  import opened Wrappers

  ghost predicate Complete(s: State, i: nat) {
    && i in s.data && i in s.origin && |s.origin[i].record.reply.pod| == POD
    && s.data[i] == Encode(s.origin[i].record)
  }

  /** A writer that still has to rename or unlink its `.new` name. */
  predicate Holding(w: Writer) {
    w.Writing? || w.FailedNew?
  }

  ghost predicate HeldBy(s: State, w: nat, p: Path) {
    w in s.writers && Holding(s.writers[w]) && s.writers[w].path == p
  }

  ghost predicate Held(s: State, p: Path) {
    exists w :: HeldBy(s, w, p)
  }

  predicate SameNew(a: Writer, b: Writer) {
    Holding(a) && Holding(b) && a.path == b.path
  }

  /** A holding writer's `.new` name is there, and is the only name of its file. */
  ghost predicate HolderOk(s: State, w: nat)
    requires w in s.writers
  {
    var wr := s.writers[w];
    && (Holding(wr) ==> New(wr.path) in s.names)
    && (wr.Writing? ==> s.names[New(wr.path)] == wr.ino
                        && forall n :: n in s.names && s.names[n] == wr.ino ==> n == New(wr.path))
  }

  /** The step takes a `.new` name away from a writer that holds it: the evictor does,
      or a call that failed only after its own rename. */
  ghost predicate Takes(s: State, e: Event) {
    || (e.Evict? && e.name.New? && Held(s, e.name.path))
    || (e.UnlinkNew? && e.w in s.writers && s.writers[e.w].LateNew? && Held(s, s.writers[e.w].path))
  }

  ghost predicate ReaderComplete(s: State, r: nat)
    requires r in s.readers
  {
    match s.readers[r]
    case Opened(_, i) => Complete(s, i)
    case Sized(_, i, size) => Complete(s, i) && size == |s.data[i]|
    case Headed(_, i, _) => Complete(s, i)
    case Finished(_, outcome) => !outcome.Throw?
  }

  ghost predicate Holders(s: State) {
    && (forall w :: w in s.writers ==> HolderOk(s, w))
    && (forall v, w :: v in s.writers && w in s.writers && SameNew(s.writers[v], s.writers[w]) ==> v == w)
  }

  ghost predicate MainsComplete(s: State) {
    forall n :: n in s.names && !n.New? ==> Complete(s, s.names[n])
  }

  ghost predicate ReadersComplete(s: State) {
    forall r :: r in s.readers ==> ReaderComplete(s, r)
  }

  ghost predicate Exclusive(s: State, sum: seq<Byte> -> seq<Byte>) {
    Inv(s, sum) && Holders(s) && MainsComplete(s) && ReadersComplete(s)
  }

  /** What every step does to complete files: nothing. */
  ghost predicate CompleteKept(s: State, t: State) {
    forall i :: Complete(s, i) ==> Complete(t, i) && t.data[i] == s.data[i]
  }

  lemma SameFiles(s: State, t: State)
    requires t.data == s.data && t.origin == s.origin
    ensures CompleteKept(s, t)
  {
    hide Encode;
  }

  lemma ReadersKept(s: State, t: State)
    requires CompleteKept(s, t) && t.readers == s.readers && ReadersComplete(s)
    ensures ReadersComplete(t)
  {
    hide Encode, Complete;
    forall r | r in t.readers ensures ReaderComplete(t, r) {
      assert ReaderComplete(s, r);
    }
  }

  lemma MainsKept(s: State, t: State)
    requires CompleteKept(s, t) && MainsComplete(s)
    requires forall n :: n in t.names && !n.New? ==> n in s.names && t.names[n] == s.names[n]
    ensures MainsComplete(t)
  {
    hide Encode, Complete;
  }

  lemma ExclusiveIntro(s: State, t: State, sum: seq<Byte> -> seq<Byte>)
    requires ReadersComplete(s) && CompleteKept(s, t) && t.readers == s.readers
    requires Inv(t, sum) && Holders(t) && MainsComplete(t)
    ensures Exclusive(t, sum)
  {
    hide Inv, Holders, MainsComplete, CompleteKept, ReadersComplete;
    ReadersKept(s, t);
  }

  lemma CreateHolders(s: State, e: Event, sum: seq<Byte> -> seq<Byte>)
    requires Inv(s, sum) && Holders(s) && MainsComplete(s) && e.Serialize?
    ensures var t := Create(s, e, sum); Holders(t) && MainsComplete(t) && CompleteKept(s, t) && t.readers == s.readers
  {
    hide Inv, Storable, Encode, HolderOk, Holders, Complete, MainsComplete;
    NamesInData(s, sum);
    var t := Create(s, e, sum);
    if t != s {
      CreateKeepsHolders(s, t, e.path, e.record, e.ino, e.w, t.writers[e.w]);
      CreateKeepsComplete(s, t, e.ino);
      MainsKept(s, t);
    }
  }

  lemma CreateKeepsHolders(s: State, t: State, path: Path, record: Record, ino: nat, w: nat, writer: Writer)
    requires Holders(s) && ino !in s.data && w !in s.writers && New(path) !in s.names
    requires writer == Writing(path, record, ino, 0) || writer == FailedNew(path)
    requires t.writers == s.writers[w := writer] && t.names == s.names[New(path) := ino]
    requires forall n :: n in s.names ==> s.names[n] in s.data
    requires forall w :: w in s.writers && s.writers[w].Writing? ==> s.writers[w].ino in s.data
    ensures Holders(t)
  {
    forall v | v in t.writers ensures HolderOk(t, v) {
      assert v != w ==> HolderOk(s, v);
    }
    forall v, u | v in t.writers && u in t.writers && SameNew(t.writers[v], t.writers[u]) ensures v == u {
      assert v in s.writers ==> HolderOk(s, v);
      assert u in s.writers ==> HolderOk(s, u);
    }
  }

  lemma CreateKeepsComplete(s: State, t: State, ino: nat)
    requires ino !in s.data && forall i :: i in s.data ==> i in t.data && t.data[i] == s.data[i]
    requires forall i :: i in s.origin && i != ino ==> i in t.origin && t.origin[i] == s.origin[i]
    ensures CompleteKept(s, t)
  {
    hide Encode;
  }

  lemma CreateExclusive(s: State, e: Event, sum: seq<Byte> -> seq<Byte>)
    requires Exclusive(s, sum) && e.Serialize?
    ensures Exclusive(Create(s, e, sum), sum)
  {
    hide Inv, Holders, MainsComplete, ReadersComplete, CompleteKept, Create;
    CreateKeeps(s, e, sum);
    CreateHolders(s, e, sum);
    ExclusiveIntro(s, Create(s, e, sum), sum);
  }

  lemma NamesInData(s: State, sum: seq<Byte> -> seq<Byte>)
    requires Inv(s, sum)
    ensures forall n :: n in s.names ==> s.names[n] in s.data
    ensures forall w :: w in s.writers && s.writers[w].Writing? ==> s.writers[w].ino in s.data
  {
    hide Encode, Storable;
    forall w | w in s.writers && s.writers[w].Writing? ensures s.writers[w].ino in s.data {
      assert WriterOk(s, w, sum);
    }
  }

  /** Writing to a file that is complete adds nothing. */
  lemma GrowComplete(s: State, w: nat, upTo: nat, sum: seq<Byte> -> seq<Byte>)
    requires Inv(s, sum)
    ensures var t := Grow(s, w, upTo); CompleteKept(s, t) && t.readers == s.readers && t.names == s.names
  {
    hide FilesOk, NamesOk, ReadersOk, Storable, Encode, SameFile, InodeOk;
    if w in s.writers && s.writers[w].Writing? {
      assert WriterOk(s, w, sum);
      hide Inv, WritersOk, WriterOk;
      if Complete(s, s.writers[w].ino) {
        GrowNothing(s, w, upTo);
      }
    }
  }

  lemma GrowNothing(s: State, w: nat, upTo: nat)
    requires w in s.writers && s.writers[w].Writing? && |s.writers[w].record.reply.pod| == POD
    requires s.writers[w].ino in s.data && s.writers[w].written == |Encode(s.writers[w].record)|
    ensures Grow(s, w, upTo).data == s.data
  {
    hide Encode;
    var wr := s.writers[w];
    var bytes := Encode(wr.record);
    if wr.written <= upTo <= |bytes| {
      assert bytes[wr.written..upTo] == [];
      assert s.data[wr.ino] + bytes[wr.written..upTo] == s.data[wr.ino];
    }
  }

  lemma GrowHolders(s: State, w: nat, upTo: nat)
    requires Holders(s)
    ensures Holders(Grow(s, w, upTo))
  {
    hide Encode;
    var t := Grow(s, w, upTo);
    if t != s {
      forall v | v in t.writers ensures HolderOk(t, v) {
        assert HolderOk(s, v);
      }
      forall v, u | v in t.writers && u in t.writers && SameNew(t.writers[v], t.writers[u]) ensures v == u {
        assert SameNew(s.writers[v], s.writers[u]);
      }
    }
  }

  lemma GrowExclusive(s: State, w: nat, upTo: nat, sum: seq<Byte> -> seq<Byte>)
    requires Exclusive(s, sum)
    ensures Exclusive(Grow(s, w, upTo), sum)
  {
    hide Inv, Holders, MainsComplete, ReadersComplete, CompleteKept, Grow;
    GrowKeeps(s, w, upTo, sum);
    GrowComplete(s, w, upTo, sum);
    GrowHolders(s, w, upTo);
    MainsKept(s, Grow(s, w, upTo));
    ExclusiveIntro(s, Grow(s, w, upTo), sum);
  }

  /** A step that leaves files alone, and writers alone but for `w`, which keeps its
      path if it stays a holder; names other than `w`'s `.new` stay or go. */
  lemma HoldersKept(s: State, t: State, w: nat)
    requires Holders(s)
    requires forall v :: v in t.writers ==> v in s.writers && (t.writers[v] == s.writers[v] || (v == w && !t.writers[v].Writing?))
    requires w in t.writers && Holding(t.writers[w]) ==> w in s.writers && Holding(s.writers[w]) && t.writers[w].path == s.writers[w].path
    requires forall n :: n in t.names && n in s.names ==> t.names[n] == s.names[n] || !n.New?
    requires forall n :: n in s.names && n.New? && n !in t.names ==>
               !Held(s, n.path) || (HeldBy(s, w, n.path) && (w in t.writers ==> !Holding(t.writers[w])))
    requires forall n :: n in t.names && (n in s.names ==> t.names[n] != s.names[n]) ==>
               w in s.writers && s.writers[w].Writing? && s.writers[w].ino == t.names[n] && (w in t.writers ==> !Holding(t.writers[w])) && !n.New?
    ensures Holders(t)
  {
    forall v | v in t.writers ensures HolderOk(t, v) {
      assert HolderOk(s, v);
      assert w in s.writers ==> HolderOk(s, w);
      assert v != w && w in s.writers ==> !SameNew(s.writers[v], s.writers[w]);
      assert Holding(t.writers[v]) ==> HeldBy(s, v, t.writers[v].path);
    }
    forall v, u | v in t.writers && u in t.writers && SameNew(t.writers[v], t.writers[u]) ensures v == u {
      assert SameNew(s.writers[v], s.writers[u]);
    }
  }

  lemma PublishHolders(s: State, w: nat)
    requires Holders(s)
    ensures Holders(Publish(s, w))
  {
    hide Encode;
    var t := Publish(s, w);
    if t != s {
      assert HolderOk(s, w);
      hide Holders, HolderOk;
      HoldersKept(s, t, w);
    }
  }

  lemma PublishMains(s: State, w: nat, sum: seq<Byte> -> seq<Byte>)
    requires Inv(s, sum) && Holders(s) && MainsComplete(s)
    ensures var t := Publish(s, w); MainsComplete(t) && CompleteKept(s, t) && t.readers == s.readers
  {
    var t := Publish(s, w);
    if t != s {
      assert HolderOk(s, w) && WriterOk(s, w, sum);
      assert Complete(s, s.writers[w].ino);
      hide Inv, Holders, Storable, Encode;
      forall n | n in t.names && !n.New? ensures Complete(t, t.names[n]) {
        assert n != Main(s.writers[w].path) ==> Complete(s, s.names[n]);
      }
    }
  }

  lemma PublishExclusive(s: State, w: nat, sum: seq<Byte> -> seq<Byte>)
    requires Exclusive(s, sum)
    ensures Exclusive(Publish(s, w), sum)
  {
    hide Inv, Holders, MainsComplete, ReadersComplete, CompleteKept, Publish;
    PublishKeeps(s, w, sum);
    PublishMains(s, w, sum);
    PublishHolders(s, w);
    ExclusiveIntro(s, Publish(s, w), sum);
  }

  lemma WriterStepHolders(s: State, e: Event)
    requires Holders(s) && MainsComplete(s) && (e.Finish? || e.Fail? || e.UnlinkNew? || e.UnlinkMain? || e.Crash?)
    requires !Takes(s, e)
    ensures var t := WriterStep(s, e); Holders(t) && MainsComplete(t) && CompleteKept(s, t) && t.readers == s.readers
  {
    hide Holders, HolderOk, Encode, Complete, MainsComplete, Held;
    var t := WriterStep(s, e);
    HoldersKept(s, t, e.w);
    SameFiles(s, t);
    MainsKept(s, t);
  }

  lemma WriterStepExclusive(s: State, e: Event, sum: seq<Byte> -> seq<Byte>)
    requires Exclusive(s, sum) && (e.Finish? || e.Fail? || e.UnlinkNew? || e.UnlinkMain? || e.Crash?)
    requires !Takes(s, e)
    ensures Exclusive(WriterStep(s, e), sum)
  {
    hide Inv, Holders, MainsComplete, ReadersComplete, CompleteKept, WriterStep, Takes;
    WriterStepKeeps(s, e, sum);
    WriterStepHolders(s, e);
    ExclusiveIntro(s, WriterStep(s, e), sum);
  }

  lemma ReaderStepExclusive(s: State, e: Event, sum: seq<Byte> -> seq<Byte>)
    requires Exclusive(s, sum) && (e.Open? || e.Stat? || e.ReadHead? || e.ReadBody?)
    ensures Exclusive(ReaderStep(s, e, sum), sum)
  {
    hide Inv, Holders, ReaderStep, MainsComplete;
    ReaderEventKeeps(s, e, sum);
    ReaderOutcome(s, e, sum);
    var t := ReaderStep(s, e, sum);
    OnlyReaders(s, t);
    hide Complete, ReaderComplete;
  }

  /** What only reads does not touch names, files or writers. */
  lemma OnlyReaders(s: State, t: State)
    requires t == s.(readers := t.readers) && Holders(s) && MainsComplete(s)
    ensures Holders(t) && MainsComplete(t)
    ensures forall r :: r in t.readers && r in s.readers && t.readers[r] == s.readers[r] && ReaderComplete(s, r) ==> ReaderComplete(t, r)
  {
    hide Encode;
    forall v | v in t.writers ensures HolderOk(t, v) {
      assert HolderOk(s, v);
    }
    assert CompleteKept(s, t);
    MainsKept(s, t);
  }

  /** With complete files no reader has anything to set aside. */
  lemma SetAsideExclusive(s: State, e: Event, sum: seq<Byte> -> seq<Byte>)
    requires Exclusive(s, sum) && e.SetAside?
    ensures Exclusive(ReaderStep(s, e, sum), sum)
  {
    hide Inv, Holders, MainsComplete, CheckHead, CheckBody, ReadAt;
    assert e.r in s.readers ==> ReaderComplete(s, e.r);
    assert ReaderStep(s, e, sum) == s;
  }

  /** A step of one reader touches nothing else. */
  lemma ReaderStepShape(s: State, e: Event, sum: seq<Byte> -> seq<Byte>)
    requires e.Open? || e.Stat? || e.ReadHead? || e.ReadBody?
    ensures var t := ReaderStep(s, e, sum);
            && t == s.(readers := t.readers) && (t != s ==> e.r in t.readers)
            && forall r :: r in t.readers && r != e.r ==> r in s.readers && t.readers[r] == s.readers[r]
  {
    hide CheckHead, CheckBody, ReadAt, Number;
  }

  /** A step of a reader of a complete file does not throw. */
  lemma ReaderOutcome(s: State, e: Event, sum: seq<Byte> -> seq<Byte>)
    requires Exclusive(s, sum) && (e.Open? || e.Stat? || e.ReadHead? || e.ReadBody?)
    ensures var t := ReaderStep(s, e, sum);
            && t == s.(readers := t.readers) && (t != s ==> e.r in t.readers && ReaderComplete(t, e.r))
            && forall r :: r in t.readers && r != e.r ==> r in s.readers && t.readers[r] == s.readers[r]
  {
    ReaderStepShape(s, e, sum);
    if e.Open? {
      hide Inv, Encode, ReadersComplete, Holders;
    } else if e.r in s.readers {
      assert ReaderOk(s, e.r, sum) && ReaderComplete(s, e.r);
      hide Exclusive, ReaderStep, ReaderOk, ReaderComplete;
      NextOutcome(s, e, sum);
    }
  }

  lemma NextOutcome(s: State, e: Event, sum: seq<Byte> -> seq<Byte>)
    requires (e.Stat? || e.ReadHead? || e.ReadBody?) && e.r in s.readers && ReaderOk(s, e.r, sum) && ReaderComplete(s, e.r)
    ensures var t := ReaderStep(s, e, sum); t != s ==> e.r in t.readers && ReaderComplete(t, e.r)
  {
    hide Storable, Formed, Encode, CheckHead, CheckBody, ReadAt, InodeOk;
    var rd := s.readers[e.r];
    if e.ReadHead? && rd.Sized? {
      CompleteHead(s, rd.ino, sum);
    } else if e.ReadBody? && rd.Headed? {
      BodyRead(s, rd.ino, rd.head, sum);
    }
  }

  lemma CompleteHead(s: State, i: nat, sum: seq<Byte> -> seq<Byte>)
    requires InodeOk(s, i, sum) && Complete(s, i)
    ensures CheckHead(|s.data[i]|, ReadAt(s.data[i], 0, HEAD)).Hit?
  {
    var rec := s.origin[i].record;
    var n := |Encode(rec)|;
    assert Encode(rec)[..n] == Encode(rec);
    Layout(rec);
    AnyPrefix(rec, sum, n, n, n);
  }

  lemma ApplyExclusive(s: State, e: Event, sum: seq<Byte> -> seq<Byte>)
    requires Exclusive(s, sum) && !Takes(s, e)
    ensures Exclusive(Apply(s, e, sum), sum)
  {
    hide Exclusive, Create, Grow, Publish, WriterStep, ReaderStep, Takes;
    match e {
      case Serialize(_, _, _, _) => CreateExclusive(s, e, sum);
      case Write(w, upTo) => GrowExclusive(s, w, upTo, sum);
      case Rename(w) => PublishExclusive(s, w, sum);
      case Evict(name) => EvictExclusive(s, name, sum);
      case Finish(_) => WriterStepExclusive(s, e, sum);
      case Fail(_) => WriterStepExclusive(s, e, sum);
      case UnlinkNew(_) => WriterStepExclusive(s, e, sum);
      case UnlinkMain(_) => WriterStepExclusive(s, e, sum);
      case Crash(_) => WriterStepExclusive(s, e, sum);
      case SetAside(_, _) => SetAsideExclusive(s, e, sum);
      case Open(_, _) => ReaderStepExclusive(s, e, sum);
      case Stat(_) => ReaderStepExclusive(s, e, sum);
      case ReadHead(_) => ReaderStepExclusive(s, e, sum);
      case ReadBody(_) => ReaderStepExclusive(s, e, sum);
    }
  }

  lemma EvictExclusive(s: State, name: Name, sum: seq<Byte> -> seq<Byte>)
    requires Exclusive(s, sum) && !Takes(s, Evict(name))
    ensures Exclusive(s.(names := Remove(s.names, name)), sum)
  {
    hide Inv, Holders, MainsComplete, ReadersComplete, Encode, Held;
    EvictKeeps(s, name, sum);
    var t := s.(names := Remove(s.names, name));
    HoldersKept(s, t, 0);
    MainsKept(s, t);
    ExclusiveIntro(s, t, sum);
  }

  // ------------------------------------------------- runs from a state

  ghost function RunFrom(s: State, events: seq<Event>, sum: seq<Byte> -> seq<Byte>): State {
    if events == [] then s
    else Apply(RunFrom(s, events[..|events| - 1], sum), events[|events| - 1], sum)
  }

  /** No step takes a `.new` name away from a writer that holds it. */
  ghost predicate Careful(s: State, events: seq<Event>, sum: seq<Byte> -> seq<Byte>) {
    events == [] || (&& Careful(s, events[..|events| - 1], sum)
                     && !Takes(RunFrom(s, events[..|events| - 1], sum), events[|events| - 1]))
  }

  /** Every file under a record's own name is complete, and no reader has thrown. */
  ghost predicate Safe(s: State) {
    && (forall p :: Main(p) in s.names ==> Complete(s, s.names[Main(p)]))
    && (forall r :: r in s.readers && s.readers[r].Finished? ==> !s.readers[r].outcome.Throw?)
  }

  lemma {:induction false} CarefulKeeps(s: State, events: seq<Event>, sum: seq<Byte> -> seq<Byte>)
    requires Exclusive(s, sum) && Careful(s, events, sum)
    ensures Exclusive(RunFrom(s, events, sum), sum)
    decreases |events|
  {
    hide Exclusive, Apply, Takes;
    if events != [] {
      CarefulKeeps(s, events[..|events| - 1], sum);
      ApplyExclusive(RunFrom(s, events[..|events| - 1], sum), events[|events| - 1], sum);
    }
  }

  lemma ExclusiveIsSafe(s: State, sum: seq<Byte> -> seq<Byte>)
    requires Exclusive(s, sum)
    ensures Safe(s)
  {
    hide Inv, Holders, Complete;
    forall r | r in s.readers && s.readers[r].Finished? ensures !s.readers[r].outcome.Throw? {
      assert ReaderComplete(s, r);
    }
  }

  lemma {:induction false} RunFromStart(events: seq<Event>, sum: seq<Byte> -> seq<Byte>)
    ensures RunFrom(EMPTY, events, sum) == Run(events, sum)
    decreases |events|
  {
    hide Apply;
    if events != [] {
      RunFromStart(events[..|events| - 1], sum);
    }
  }

  lemma EmptyIsExclusive(sum: seq<Byte> -> seq<Byte>)
    ensures Exclusive(EMPTY, sum)
  {
  }

  /** As long as nothing takes a `.new` name from a writer that holds it, O_EXCL does
      what it is there for: every file under a record's own name is complete, so no
      reader ever throws. Orphans of crashed writers may be evicted. */
  lemma FilesAreComplete(events: seq<Event>, sum: seq<Byte> -> seq<Byte>)
    requires Careful(EMPTY, events, sum)
    ensures Safe(Run(events, sum))
  {
    hide Exclusive, Careful, Safe;
    EmptyIsExclusive(sum);
    RunFromStart(events, sum);
    CarefulKeeps(EMPTY, events, sum);
    ExclusiveIsSafe(Run(events, sum), sum);
  }

  /** And that is exactly what it takes: after a step from a state in which O_EXCL has
      done its work, every careful continuation is safe if and only if the step takes
      no held `.new` name. (As long as there is a record that can be stored at all.) */
  lemma SafeExactly(s: State, e: Event, rec: Record, sum: seq<Byte> -> seq<Byte>)
    requires Exclusive(s, sum) && Storable(rec, sum)
    ensures (forall more :: Careful(Apply(s, e, sum), more, sum) ==> Safe(RunFrom(Apply(s, e, sum), more, sum)))
            <==> !Takes(s, e)
  {
    var t := Apply(s, e, sum);
    if Takes(s, e) {
      var w, p := TakenFrom(s, e, sum);
      hide Exclusive, Careful, Safe, Takes, Apply, RunFrom, HeldBy, Inv;
      var more := Continuation(t, w, p, rec, sum);
      assert Careful(t, more, sum) && !Safe(RunFrom(t, more, sum));
    } else {
      hide Exclusive, Careful, Safe, Takes, Apply, RunFrom;
      ApplyExclusive(s, e, sum);
      forall more | Careful(t, more, sum) ensures Safe(RunFrom(t, more, sum)) {
        CarefulKeeps(t, more, sum);
        ExclusiveIsSafe(RunFrom(t, more, sum), sum);
      }
    }
  }

  /** Taking a held name leaves a holder without its name. */
  lemma TakenFrom(s: State, e: Event, sum: seq<Byte> -> seq<Byte>) returns (w: nat, p: Path)
    requires Exclusive(s, sum) && Takes(s, e)
    ensures var t := Apply(s, e, sum); Inv(t, sum) && HeldBy(t, w, p) && New(p) !in t.names
  {
    hide Inv, Holders, MainsComplete, ReadersComplete, Create, Grow, Publish, ReaderStep;
    ApplyKeeps(s, e, sum);
    p := if e.Evict? then e.name.path else s.writers[e.w].path;
    w :| HeldBy(s, w, p);
  }

  /** A name for something new. */
  lemma Unused(used: set<nat>) returns (k: nat)
    ensures k !in used
  {
    k := 0;
    var rest := used;
    while rest != {}
      invariant rest <= used
      invariant forall x :: x in used && x !in rest ==> x < k
      decreases rest
    {
      var i :| i in rest;
      rest := rest - {i};
      if i >= k {
        k := i + 1;
      }
    }
  }

  lemma {:induction false} RunFromConcat(s: State, a: seq<Event>, b: seq<Event>, sum: seq<Byte> -> seq<Byte>)
    ensures RunFrom(s, a + b, sum) == RunFrom(RunFrom(s, a, sum), b, sum)
    ensures Careful(s, a, sum) && Careful(RunFrom(s, a, sum), b, sum) ==> Careful(s, a + b, sum)
    decreases |b|
  {
    hide Apply, Takes;
    if b == [] {
      assert a + b == a;
    } else {
      RunFromConcat(s, a, b[..|b| - 1], sum);
      assert (a + b)[..|a + b| - 1] == a + b[..|b| - 1];
    }
  }

  lemma RunFromOne(s: State, e: Event, sum: seq<Byte> -> seq<Byte>)
    ensures RunFrom(s, [e], sum) == Apply(s, e, sum) && (!Takes(s, e) ==> Careful(s, [e], sum))
  {
    hide Apply, Takes;
    assert [e][..0] == [];
  }

  /** Two or three steps, of which none takes a name. */
  lemma RunFromTwo(s: State, e: Event, f: Event, sum: seq<Byte> -> seq<Byte>)
    requires !Takes(s, e) && !Takes(Apply(s, e, sum), f)
    ensures RunFrom(s, [e, f], sum) == Apply(Apply(s, e, sum), f, sum) && Careful(s, [e, f], sum)
  {
    hide Apply, Takes, RunFrom, Careful;
    RunFromOne(s, e, sum);
    RunFromOne(Apply(s, e, sum), f, sum);
    RunFromConcat(s, [e], [f], sum);
    assert [e] + [f] == [e, f];
  }

  lemma RunFromThree(s: State, e: Event, f: Event, g: Event, sum: seq<Byte> -> seq<Byte>)
    requires !Takes(s, e) && !Takes(Apply(s, e, sum), f) && !Takes(Apply(Apply(s, e, sum), f, sum), g)
    ensures RunFrom(s, [e, f, g], sum) == Apply(Apply(Apply(s, e, sum), f, sum), g, sum) && Careful(s, [e, f, g], sum)
  {
    hide Apply, Takes, RunFrom, Careful;
    RunFromTwo(s, e, f, sum);
    RunFromOne(Apply(Apply(s, e, sum), f, sum), g, sum);
    RunFromConcat(s, [e, f], [g], sum);
    assert [e, f] + [g] == [e, f, g];
  }

  /** From a holder that lost its name, a careful continuation to an incomplete file. */
  lemma Continuation(t: State, w: nat, p: Path, rec: Record, sum: seq<Byte> -> seq<Byte>) returns (more: seq<Event>)
    requires Inv(t, sum) && HeldBy(t, w, p) && New(p) !in t.names && Storable(rec, sum)
    ensures Careful(t, more, sum) && !Safe(RunFrom(t, more, sum))
  {
    hide Inv, RunFrom, Careful, Safe, Storable, Apply;
    if t.writers[w].Writing? {
      more := PublishesEmpty(t, w, p, rec, sum);
    } else {
      var v := Unused(t.writers.Keys);
      var i := Unused(t.data.Keys);
      var e, f := Serialize(v, p, rec, i), UnlinkNew(w);
      var u := Apply(Apply(t, e, sum), f, sum);
      AnotherLosesItsName(t, w, p, rec, v, i, sum);
      RunFromTwo(t, e, f, sum);
      var rest := PublishesEmpty(u, v, p, rec, sum);
      RunFromConcat(t, [e, f], rest, sum);
      more := [e, f] + rest;
    }
  }

  /** A failed writer that lost its name unlinks the next writer's. */
  lemma AnotherLosesItsName(t: State, w: nat, p: Path, rec: Record, v: nat, i: nat, sum: seq<Byte> -> seq<Byte>)
    requires Inv(t, sum) && w in t.writers && t.writers[w] == FailedNew(p) && New(p) !in t.names && Storable(rec, sum)
    requires v !in t.writers && i !in t.data
    ensures var s1 := Apply(t, Serialize(v, p, rec, i), sum);
            var u := Apply(s1, UnlinkNew(w), sum);
            && !Takes(t, Serialize(v, p, rec, i)) && !Takes(s1, UnlinkNew(w))
            && Inv(u, sum) && v in u.writers && u.writers[v] == Writing(p, rec, i, 0) && New(p) !in u.names
  {
    var s1 := Apply(t, Serialize(v, p, rec, i), sum);
    ApplyKeeps(t, Serialize(v, p, rec, i), sum);
    ApplyKeeps(s1, UnlinkNew(w), sum);
    hide Inv, Formed, Held, ReaderStep, Grow, Publish;
  }

  /** A writer that lost its name publishes the file of the next one, still empty. */
  lemma PublishesEmpty(t: State, w: nat, p: Path, rec: Record, sum: seq<Byte> -> seq<Byte>) returns (more: seq<Event>)
    requires Inv(t, sum) && w in t.writers && t.writers[w].Writing? && t.writers[w].path == p && New(p) !in t.names && Storable(rec, sum)
    ensures Careful(t, more, sum) && !Safe(RunFrom(t, more, sum))
  {
    var v := Unused(t.writers.Keys);
    var i := Unused(t.data.Keys);
    WritingOk(t, w, sum);
    hide Inv, Careful, RunFrom, Storable, Apply, Takes, Encode;
    var n := |Encode(t.writers[w].record)|;
    var e, f, g := Serialize(v, p, rec, i), Write(w, n), Rename(w);
    NothingTaken(t, e);
    NothingTaken(Apply(t, e, sum), f);
    NothingTaken(Apply(Apply(t, e, sum), f, sum), g);
    RunFromThree(t, e, f, g, sum);
    EmptyUnderMain(t, w, p, rec, v, i, sum);
    more := [e, f, g];
    assert Main(p) in RunFrom(t, more, sum).names;
  }

  lemma NothingTaken(s: State, e: Event)
    requires !e.Evict? && !e.UnlinkNew?
    ensures !Takes(s, e)
  {
  }

  lemma WritingOk(t: State, w: nat, sum: seq<Byte> -> seq<Byte>)
    requires Inv(t, sum) && w in t.writers && t.writers[w].Writing?
    ensures |t.writers[w].record.reply.pod| == POD && t.writers[w].ino in t.data
    ensures t.writers[w].written <= |Encode(t.writers[w].record)|
  {
    hide Encode;
    assert WriterOk(t, w, sum);
  }

  lemma EmptyUnderMain(t: State, w: nat, p: Path, rec: Record, v: nat, i: nat, sum: seq<Byte> -> seq<Byte>)
    requires Storable(rec, sum) && w in t.writers && t.writers[w].Writing? && t.writers[w].path == p && New(p) !in t.names
    requires |t.writers[w].record.reply.pod| == POD && t.writers[w].ino in t.data
    requires t.writers[w].written <= |Encode(t.writers[w].record)|
    requires v !in t.writers && i !in t.data
    ensures var n := |Encode(t.writers[w].record)|;
            var u := Apply(Apply(Apply(t, Serialize(v, p, rec, i), sum), Write(w, n), sum), Rename(w), sum);
            Main(p) in u.names && !Complete(u, u.names[Main(p)])
  {
    Layout(rec);
    var wr := t.writers[w];
    hide Encode, Formed, ReaderStep, WriterStep;
    var n := |Encode(wr.record)|;
    var s1 := Create(t, Serialize(v, p, rec, i), sum);
    assert s1.names[New(p)] == i && s1.data[i] == [] && s1.origin[i].record == rec && s1.writers[w] == wr && s1.data[wr.ino] == t.data[wr.ino];
    hide Create;
    var s2 := Grow(s1, w, n);
    assert s2.writers[w] == wr.(written := n) && s2.data[i] == [] && s2.names == s1.names && s2.origin == s1.origin;
    hide Grow;
    var s3 := Publish(s2, w);
    assert s3.names[Main(p)] == i && s3.data == s2.data && s3.origin == s2.origin;
  }

  /** One eviction of a `.new` name is enough to lose that: the first writer's rename
      publishes the second writer's file while it is still empty, and a reader throws. */
  lemma EvictedNewExposesPartialFile(p: Path, rec: Record, sum: seq<Byte> -> seq<Byte>)
    requires Storable(rec, sum)
    ensures var s := Run(Interference(p, rec), sum);
            && s.names == map[Main(p) := 1] && 1 in s.data && s.data[1] == []
            && 0 in s.readers && s.readers[0] == Finished(p, Throw)
  {
    hide Run, Apply, Encode;
    var bytes := Encode(rec);
    var events := Interference(p, rec);
    var o := Origin(p, rec);
    var s1 := State(map[New(p) := 0], map[0 := []], map[0 := Writing(p, rec, 0, 0)], map[], map[0 := o], {o});
    var s2 := s1.(names := map[]);
    var s3 := State(map[New(p) := 1], map[0 := [], 1 := []], map[0 := Writing(p, rec, 0, 0), 1 := Writing(p, rec, 1, 0)],
                    map[], map[0 := o, 1 := o], {o});
    var s4 := s3.(data := map[0 := bytes, 1 := []], writers := map[0 := Writing(p, rec, 0, |bytes|), 1 := Writing(p, rec, 1, 0)]);
    var s5 := s4.(names := map[Main(p) := 1], writers := map[0 := Renamed(p), 1 := Writing(p, rec, 1, 0)]);
    var s6 := s5.(readers := map[0 := Opened(p, 1)]);
    var s7 := s5.(readers := map[0 := Sized(p, 1, 0)]);
    var s8 := s5.(readers := map[0 := Finished(p, Throw)]);
    FirstWrites(p, rec, s1, s2, s3, sum);
    LastWrites(p, rec, s3, s4, s5, sum);
    LastReads(p, s5, sum);
    RunEight(events, s1, s2, s3, s4, s5, s6, s7, s8, sum);
  }

  lemma LastWrites(p: Path, rec: Record, s3: State, s4: State, s5: State, sum: seq<Byte> -> seq<Byte>)
    requires |rec.reply.pod| == POD && s3.names == map[New(p) := 1]
    requires s3.writers == map[0 := Writing(p, rec, 0, 0), 1 := Writing(p, rec, 1, 0)] && s3.data == map[0 := [], 1 := []]
    requires s4 == s3.(data := map[0 := Encode(rec), 1 := []],
                       writers := map[0 := Writing(p, rec, 0, |Encode(rec)|), 1 := Writing(p, rec, 1, 0)])
    requires s5 == s4.(names := map[Main(p) := 1], writers := map[0 := Renamed(p), 1 := Writing(p, rec, 1, 0)])
    ensures Apply(s3, Write(0, |Encode(rec)|), sum) == s4
    ensures Apply(s4, Rename(0), sum) == s5
  {
    hide Encode, Create, ReaderStep, WriterStep, Grow, Publish, Remove;
    GrowWhole(s3, 0, p, rec, 0);
    FilesAfter(Encode(rec), s3, s4);
    WritersGrown(Writing(p, rec, 0, |Encode(rec)|), s3, s4);
    PublishWhole(s4, 0, p, rec, 0);
    NamesAfter(p, s4, s5);
    WritersAfter(p, s4, s5);
  }

  lemma FilesAfter(bytes: seq<Byte>, s3: State, s4: State)
    requires s3.data == map[0 := [], 1 := []] && s4.data == map[0 := bytes, 1 := []]
    ensures s3.data[0 := bytes] == s4.data
  {
  }

  lemma WritersGrown(grown: Writer, s3: State, s4: State)
    requires 1 in s3.writers && s3.writers.Keys == {0, 1} && s4.writers == map[0 := grown, 1 := s3.writers[1]]
    ensures s3.writers[0 := grown] == s4.writers
  {
  }

  lemma WritersAfter(p: Path, s4: State, s5: State)
    requires 1 in s4.writers && s4.writers.Keys == {0, 1} && s5.writers == map[0 := Renamed(p), 1 := s4.writers[1]]
    ensures s4.writers[0 := Renamed(p)] == s5.writers
  {
  }

  lemma NamesAfter(p: Path, s4: State, s5: State)
    requires s4.names == map[New(p) := 1] && s5.names == map[Main(p) := 1]
    ensures Remove(s4.names, New(p))[Main(p) := 1] == s5.names
  {
  }

  /** A writer that writes everything at once. */
  lemma GrowWhole(s: State, w: nat, p: Path, rec: Record, i: nat)
    requires |rec.reply.pod| == POD && w in s.writers && s.writers[w] == Writing(p, rec, i, 0) && i in s.data && s.data[i] == []
    ensures Grow(s, w, |Encode(rec)|)
            == s.(data := s.data[i := Encode(rec)], writers := s.writers[w := Writing(p, rec, i, |Encode(rec)|)])
  {
    hide Encode;
    var bytes := Encode(rec);
    assert bytes[0..|bytes|] == bytes && [] + bytes == bytes;
  }

  lemma PublishWhole(s: State, w: nat, p: Path, rec: Record, i: nat)
    requires |rec.reply.pod| == POD && w in s.writers && s.writers[w] == Writing(p, rec, i, |Encode(rec)|) && New(p) in s.names
    ensures Publish(s, w) == s.(names := Remove(s.names, New(p))[Main(p) := s.names[New(p)]], writers := s.writers[w := Renamed(p)])
  {
    hide Encode, Remove;
  }

  /** Reading an empty file throws. */
  lemma LastReads(p: Path, s: State, sum: seq<Byte> -> seq<Byte>)
    requires s.names == map[Main(p) := 1] && 1 in s.data && s.data[1] == [] && s.readers == map[]
    ensures Apply(s, Open(0, p), sum) == s.(readers := map[0 := Opened(p, 1)])
    ensures Apply(s.(readers := map[0 := Opened(p, 1)]), Stat(0), sum) == s.(readers := map[0 := Sized(p, 1, 0)])
    ensures Apply(s.(readers := map[0 := Sized(p, 1, 0)]), ReadHead(0), sum) == s.(readers := map[0 := Finished(p, Throw)])
  {
  }

  lemma FirstWrites(p: Path, rec: Record, s1: State, s2: State, s3: State, sum: seq<Byte> -> seq<Byte>)
    requires Storable(rec, sum)
    requires s1 == State(map[New(p) := 0], map[0 := []], map[0 := Writing(p, rec, 0, 0)], map[], map[0 := Origin(p, rec)], {Origin(p, rec)})
    requires s2 == s1.(names := map[])
    requires s3 == State(map[New(p) := 1], map[0 := [], 1 := []], map[0 := Writing(p, rec, 0, 0), 1 := Writing(p, rec, 1, 0)],
                         map[], map[0 := Origin(p, rec), 1 := Origin(p, rec)], {Origin(p, rec)})
    ensures Apply(EMPTY, Serialize(0, p, rec, 0), sum) == s1
    ensures Apply(s1, Evict(New(p)), sum) == s2
    ensures Apply(s2, Serialize(1, p, rec, 1), sum) == s3
  {
    hide Formed, Encode;
  }

  /** One writer finishes writing, then the evictor removes its `.new` name, and a
      second writer creates it again before the first renames. */
  function Interference(p: Path, rec: Record): seq<Event>
    requires |rec.reply.pod| == POD
  {
    [Serialize(0, p, rec, 0), Evict(New(p)), Serialize(1, p, rec, 1), Write(0, |Encode(rec)|), Rename(0),
     Open(0, p), Stat(0), ReadHead(0)]
  }

  lemma RunEight(events: seq<Event>, s1: State, s2: State, s3: State, s4: State, s5: State, s6: State, s7: State, s8: State,
                 sum: seq<Byte> -> seq<Byte>)
    requires |events| == 8
    requires Apply(EMPTY, events[0], sum) == s1 && Apply(s1, events[1], sum) == s2 && Apply(s2, events[2], sum) == s3
    requires Apply(s3, events[3], sum) == s4 && Apply(s4, events[4], sum) == s5 && Apply(s5, events[5], sum) == s6
    requires Apply(s6, events[6], sum) == s7 && Apply(s7, events[7], sum) == s8
    ensures Run(events, sum) == s8
  {
    hide Apply;
    RunThrough(events, [EMPTY, s1, s2, s3, s4, s5, s6, s7, s8], 8, sum);
    assert events[..8] == events;
  }

  /** A run passes through the states that its events lead to one by one. */
  lemma {:induction false} RunThrough(events: seq<Event>, states: seq<State>, k: nat, sum: seq<Byte> -> seq<Byte>)
    requires k <= |events| && |states| == |events| + 1 && states[0] == EMPTY
    requires forall j :: 0 <= j < |events| ==> Apply(states[j], events[j], sum) == states[j + 1]
    ensures Run(events[..k], sum) == states[k]
  {
    hide Apply;
    if k > 0 {
      assert events[..k][..k - 1] == events[..k - 1];
      RunThrough(events, states, k - 1, sum);
    }
  }
}
