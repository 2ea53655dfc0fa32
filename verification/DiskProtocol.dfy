/** The lock-free file protocol of the disk cache, shared by any number of processes:
    serializers, readers and evictors interleaved step by step, with crashes. */
module DiskProtocol {
  import opened DiskRecord
  import opened Wrappers

  type Path = string

  /** Names in the cache: a record's own name, its `.new` name while it is written, and
      the names given to files that could not be read. */
  datatype Name = Main(path: Path) | New(path: Path) | Aside(path: Path, stamp: nat)

  datatype Origin = Origin(path: Path, record: Record)

  /** A serialize call. It writes `ino` piece by piece and renames it; after any
      failure, even one after the rename, it unlinks the `.new` name and then the
      record's own name. */
  datatype Writer =
    | Writing(path: Path, record: Record, ino: nat, written: nat)
    | Renamed(path: Path)
    | FailedNew(path: Path)
    | LateNew(path: Path)
    | FailedMain(path: Path)

  /** A deserialize call: the sizes and bytes it has read so far. */
  datatype Reader =
    | Opened(path: Path, ino: nat)
    | Sized(path: Path, ino: nat, size: nat)
    | Headed(path: Path, ino: nat, head: seq<Byte>)
    | Finished(path: Path, outcome: Outcome)

  /** `origin` and `calls` are history: which call created each inode, and all calls. */
  datatype State = State(
    names: map<Name, nat>,
    data: map<nat, seq<Byte>>,
    writers: map<nat, Writer>,
    readers: map<nat, Reader>,
    origin: map<nat, Origin>,
    calls: set<Origin>)

  const EMPTY := State(map[], map[], map[], map[], map[], {})

  datatype Event =
    | Serialize(w: nat, path: Path, record: Record, ino: nat)
    | Write(w: nat, upTo: nat)
    | Rename(w: nat)
    | Finish(w: nat)
    | Fail(w: nat)
    | UnlinkNew(w: nat)
    | UnlinkMain(w: nat)
    | Crash(w: nat)
    | Open(r: nat, path: Path)
    | Stat(r: nat)
    | ReadHead(r: nat)
    | ReadBody(r: nat)
    | SetAside(r: nat, stamp: nat)
    | Evict(name: Name)

  function Remove<K, V>(m: map<K, V>, k: K): map<K, V> {
    m - {k}
  }

  /** openat with O_CREAT and O_EXCL, of a new inode; nothing happens if the name
      exists. If the reply's checksum is wrong that is all, and the call fails. */
  ghost function Create(s: State, e: Event, sum: seq<Byte> -> seq<Byte>): State
    requires e.Serialize?
  {
    if New(e.path) in s.names || e.w in s.writers || e.ino in s.data || !Formed(e.record) then s
    else s.(names := s.names[New(e.path) := e.ino],
            data := s.data[e.ino := []],
            writers := s.writers[e.w := if Storable(e.record, sum) then Writing(e.path, e.record, e.ino, 0) else FailedNew(e.path)],
            origin := s.origin[e.ino := Origin(e.path, e.record)],
            calls := s.calls + {Origin(e.path, e.record)})
  }

  /** Part of the writev: the file grows to `upTo` bytes of the record. */
  ghost function Grow(s: State, w: nat, upTo: nat): State {
    if w in s.writers && s.writers[w].Writing? && |s.writers[w].record.reply.pod| == POD then
      var wr := s.writers[w];
      var bytes := Encode(wr.record);
      if wr.ino in s.data && wr.written <= upTo <= |bytes| then
        s.(data := s.data[wr.ino := s.data[wr.ino] + bytes[wr.written..upTo]],
           writers := s.writers[w := wr.(written := upTo)])
      else s
    else s
  }

  /** renameat of the `.new` name, once everything is written. By then the name may
      be gone, which is a failure, or may have become another writer's file. */
  ghost function Publish(s: State, w: nat): State {
    if w in s.writers && s.writers[w].Writing? && |s.writers[w].record.reply.pod| == POD
       && s.writers[w].written == |Encode(s.writers[w].record)| then
      var p := s.writers[w].path;
      if New(p) in s.names then
        s.(names := Remove(s.names, New(p))[Main(p) := s.names[New(p)]], writers := s.writers[w := Renamed(p)])
      else s.(writers := s.writers[w := FailedNew(p)])
    else s
  }

  ghost function WriterStep(s: State, e: Event): State
    requires e.Finish? || e.Fail? || e.UnlinkNew? || e.UnlinkMain? || e.Crash?
  {
    if e.w !in s.writers then s
    else
      var wr := s.writers[e.w];
      match e
      case Finish(w) => if wr.Renamed? then s.(writers := Remove(s.writers, w)) else s
      case Fail(w) =>
        if wr.Writing? then s.(writers := s.writers[w := FailedNew(wr.path)])
        else if wr.Renamed? then s.(writers := s.writers[w := LateNew(wr.path)])
        else s
      case UnlinkNew(w) =>
        if wr.FailedNew? || wr.LateNew? then s.(names := Remove(s.names, New(wr.path)), writers := s.writers[w := FailedMain(wr.path)]) else s
      case UnlinkMain(w) =>
        if wr.FailedMain? then s.(names := Remove(s.names, Main(wr.path)), writers := Remove(s.writers, w)) else s
      case Crash(w) => s.(writers := Remove(s.writers, w))
  }

  ghost function ReaderStep(s: State, e: Event, sum: seq<Byte> -> seq<Byte>): State
    requires e.Open? || e.Stat? || e.ReadHead? || e.ReadBody? || e.SetAside?
  {
    if e.Open? then
      if e.r in s.readers then s
      else s.(readers := s.readers[e.r := if Main(e.path) in s.names then Opened(e.path, s.names[Main(e.path)])
                                          else Finished(e.path, Miss)])
    else if e.r !in s.readers then s
    else
      var rd := s.readers[e.r];
      match e
      case Stat(r) =>
        if rd.Opened? && rd.ino in s.data then s.(readers := s.readers[r := Sized(rd.path, rd.ino, |s.data[rd.ino]|)]) else s
      case ReadHead(r) =>
        if rd.Sized? && rd.ino in s.data then
          var head := ReadAt(s.data[rd.ino], 0, HEAD);
          var checked := CheckHead(rd.size, head);
          s.(readers := s.readers[r := if checked.Hit? then Headed(rd.path, rd.ino, head) else Finished(rd.path, checked)])
        else s
      case ReadBody(r) =>
        if rd.Headed? && rd.ino in s.data && |rd.head| == HEAD then
          var body := ReadAt(s.data[rd.ino], HEAD, Number(rd.head[POD..]));
          s.(readers := s.readers[r := Finished(rd.path, CheckBody(rd.head, body, sum))])
        else s
      case SetAside(r, stamp) =>
        if rd.Finished? && rd.outcome.Throw? then
          s.(names := if Main(rd.path) in s.names then Remove(s.names, Main(rd.path))[Aside(rd.path, stamp) := s.names[Main(rd.path)]]
                      else s.names,
             readers := s.readers[r := Finished(rd.path, Miss)])
        else s
  }

  ghost function Apply(s: State, e: Event, sum: seq<Byte> -> seq<Byte>): State {
    match e
    case Serialize(_, _, _, _) => Create(s, e, sum)
    case Write(w, upTo) => Grow(s, w, upTo)
    case Rename(w) => Publish(s, w)
    case Evict(name) => s.(names := Remove(s.names, name))
    case Finish(_) => WriterStep(s, e)
    case Fail(_) => WriterStep(s, e)
    case UnlinkNew(_) => WriterStep(s, e)
    case UnlinkMain(_) => WriterStep(s, e)
    case Crash(_) => WriterStep(s, e)
    case _ => ReaderStep(s, e, sum)
  }

  /** Any interleaving is a sequence of events. */
  ghost function Run(events: seq<Event>, sum: seq<Byte> -> seq<Byte>): State {
    if events == [] then EMPTY
    else Apply(Run(events[..|events| - 1], sum), events[|events| - 1], sum)
  }

  // ------------------------------------------------- what every run keeps

  /** An inode holds a prefix of the record of the one call that created it. */
  ghost predicate InodeOk(s: State, i: nat, sum: seq<Byte> -> seq<Byte>) {
    && i in s.data && i in s.origin && s.origin[i] in s.calls
    && Formed(s.origin[i].record) && s.data[i] <= Encode(s.origin[i].record)
    && (s.data[i] != [] ==> Storable(s.origin[i].record, sum))
  }

  ghost predicate WriterOk(s: State, w: nat, sum: seq<Byte> -> seq<Byte>)
    requires w in s.writers
  {
    s.writers[w].Writing? ==>
      var wr := s.writers[w];
      && InodeOk(s, wr.ino, sum) && s.origin[wr.ino] == Origin(wr.path, wr.record)
      && wr.written == |s.data[wr.ino]| && Storable(wr.record, sum)
  }

  /** A reader's file belongs to the path it was asked for, and what it has read so
      far is what that file's record says. */
  ghost predicate ReaderOk(s: State, r: nat, sum: seq<Byte> -> seq<Byte>)
    requires r in s.readers
  {
    match s.readers[r]
    case Opened(p, i) => InodeOk(s, i, sum) && s.origin[i].path == p
    case Sized(p, i, size) => InodeOk(s, i, sum) && s.origin[i].path == p && size <= |s.data[i]|
    case Headed(p, i, head) =>
      && InodeOk(s, i, sum) && s.origin[i].path == p
      && HEAD <= |s.data[i]| && head == s.data[i][..HEAD]
      && |s.data[i]| >= HEAD + |s.origin[i].record.reply.content| + 8
    case Finished(p, outcome) => outcome.Hit? ==> Written(s, p, outcome.reply)
  }

  /** Some serialize call stored this reply under this path. */
  ghost predicate Written(s: State, p: Path, reply: Reply) {
    exists url: seq<Byte> :: Origin(p, Record(reply, url)) in s.calls
  }

  predicate SameFile(a: Writer, b: Writer) {
    a.Writing? && b.Writing? && a.ino == b.ino
  }

  ghost predicate FilesOk(s: State, sum: seq<Byte> -> seq<Byte>) {
    forall i :: i in s.data ==> InodeOk(s, i, sum)
  }

  ghost predicate NamesOk(s: State) {
    forall n :: n in s.names ==> s.names[n] in s.data && s.names[n] in s.origin && s.origin[s.names[n]].path == n.path
  }

  ghost predicate WritersOk(s: State, sum: seq<Byte> -> seq<Byte>) {
    && (forall w :: w in s.writers ==> WriterOk(s, w, sum))
    && (forall v, w :: v in s.writers && w in s.writers && SameFile(s.writers[v], s.writers[w]) ==> v == w)
  }

  ghost predicate ReadersOk(s: State, sum: seq<Byte> -> seq<Byte>) {
    forall r :: r in s.readers ==> ReaderOk(s, r, sum)
  }

  ghost predicate Inv(s: State, sum: seq<Byte> -> seq<Byte>) {
    FilesOk(s, sum) && NamesOk(s) && WritersOk(s, sum) && ReadersOk(s, sum)
  }

  lemma CreateKeeps(s: State, e: Event, sum: seq<Byte> -> seq<Byte>)
    requires Inv(s, sum) && e.Serialize?
    ensures Inv(Create(s, e, sum), sum)
  {
    hide Storable, Formed, Encode, ReaderOk, FilesOk, NamesOk, WritersOk, ReadersOk;
    var t := Create(s, e, sum);
    if t != s {
      CreateKeepsFiles(s, t, e, sum);
      CreateKeepsReaders(s, t, sum);
      CreateKeepsWriters(s, t, e, sum);
    }
  }

  lemma CreateKeepsFiles(s: State, t: State, e: Event, sum: seq<Byte> -> seq<Byte>)
    requires e.Serialize? && t == Create(s, e, sum) && t != s && FilesOk(s, sum) && NamesOk(s)
    ensures FilesOk(t, sum) && NamesOk(t)
    ensures forall i :: i in s.data ==> i in t.data && i in s.origin && i in t.origin && t.origin[i] == s.origin[i] && s.data[i] <= t.data[i]
  {
    hide Storable, Formed, Encode, InodeOk;
    forall i | i in t.data ensures InodeOk(t, i, sum) {
      CreateKeepsInode(s, t, e, i, sum);
    }
    forall i | i in s.data ensures i in s.origin {
      InodeOkData(s, i, sum);
    }
  }

  lemma CreateKeepsInode(s: State, t: State, e: Event, i: nat, sum: seq<Byte> -> seq<Byte>)
    requires e.Serialize? && t == Create(s, e, sum) && t != s && FilesOk(s, sum) && i in t.data
    ensures InodeOk(t, i, sum)
  {
    hide Storable, Formed, Encode;
    assert i != e.ino ==> InodeOk(s, i, sum);
  }

  lemma CreateKeepsReaders(s: State, t: State, sum: seq<Byte> -> seq<Byte>)
    requires t.readers == s.readers && ReadersOk(s, sum) && FilesOk(t, sum) && s.calls <= t.calls
    requires forall i :: i in s.data ==> i in t.data && i in s.origin && i in t.origin && t.origin[i] == s.origin[i] && s.data[i] <= t.data[i]
    ensures ReadersOk(t, sum)
  {
    hide Storable, Formed, Encode, InodeOk, ReaderOk;
    forall r | r in t.readers ensures ReaderOk(t, r, sum) {
      ReaderKept(s, t, r, sum);
    }
  }

  lemma CreateKeepsWriters(s: State, t: State, e: Event, sum: seq<Byte> -> seq<Byte>)
    requires e.Serialize? && t == Create(s, e, sum) && t != s && FilesOk(t, sum) && WritersOk(s, sum)
    ensures WritersOk(t, sum)
  {
    hide Storable, Formed, Encode;
    forall w | w in t.writers ensures WriterOk(t, w, sum) {
      assert w != e.w ==> WriterOk(s, w, sum);
    }
    forall v, w | v in t.writers && w in t.writers && SameFile(t.writers[v], t.writers[w]) ensures v == w {
      assert v != e.w ==> WriterOk(s, v, sum);
      assert w != e.w ==> WriterOk(s, w, sum);
    }
  }

  /** Readers do not mind files growing, appearing, or losing their names. */
  lemma ReaderKept(s: State, t: State, r: nat, sum: seq<Byte> -> seq<Byte>)
    requires r in s.readers && ReaderOk(s, r, sum) && r in t.readers && t.readers[r] == s.readers[r]
    requires forall i :: i in s.data ==> i in t.data && i in s.origin && i in t.origin && t.origin[i] == s.origin[i] && s.data[i] <= t.data[i]
    requires forall i :: i in t.data ==> InodeOk(t, i, sum)
    requires s.calls <= t.calls
    ensures ReaderOk(t, r, sum)
  {
    hide Storable, Formed, Encode, InodeOk;
    match s.readers[r]
    case Opened(p, i) => assert i in s.data by { InodeOkData(s, i, sum); }
    case Sized(p, i, size) => assert i in s.data by { InodeOkData(s, i, sum); }
    case Headed(p, i, head) => assert i in s.data by { InodeOkData(s, i, sum); }
    case Finished(p, outcome) =>
  }

  lemma InodeOkData(s: State, i: nat, sum: seq<Byte> -> seq<Byte>)
    requires InodeOk(s, i, sum)
    ensures i in s.data && i in s.origin
  {
  }

  lemma GrowKeeps(s: State, w: nat, upTo: nat, sum: seq<Byte> -> seq<Byte>)
    requires Inv(s, sum)
    ensures Inv(Grow(s, w, upTo), sum)
  {
    hide Storable, Formed, Encode;
    var t := Grow(s, w, upTo);
    if t != s {
      var wr := s.writers[w];
      var bytes := Encode(wr.record);
      assert WriterOk(s, w, sum);
      assert s.data[wr.ino] == bytes[..wr.written];
      assert t.data[wr.ino] == bytes[..upTo];
      forall i | i in t.data ensures InodeOk(t, i, sum) {
        assert InodeOk(s, i, sum);
      }
      forall v | v in t.writers ensures WriterOk(t, v, sum) {
        assert WriterOk(s, v, sum);
        assert v != w ==> !SameFile(s.writers[v], wr);
      }
      forall r | r in t.readers ensures ReaderOk(t, r, sum) {
        ReaderKept(s, t, r, sum);
      }
      forall v, u | v in t.writers && u in t.writers && SameFile(t.writers[v], t.writers[u]) ensures v == u {
        assert SameFile(s.writers[v], s.writers[u]);
      }
    }
  }

  /** A step that only moves or drops names, and ends writers or makes them stop
      writing, keeps everything. */
  lemma NamesStepKeeps(s: State, t: State, sum: seq<Byte> -> seq<Byte>)
    requires Inv(s, sum)
    requires t.data == s.data && t.origin == s.origin && t.calls == s.calls
    requires forall n :: n in t.names ==> t.names[n] in s.data && s.origin[t.names[n]].path == n.path
    requires forall w :: w in t.writers ==> w in s.writers && (t.writers[w] == s.writers[w] || !t.writers[w].Writing?)
    requires forall r :: r in t.readers ==>
               (r in s.readers && t.readers[r] == s.readers[r]) || t.readers[r] == Finished(t.readers[r].path, Miss)
    ensures Inv(t, sum)
  {
    hide Storable, Formed, Encode;
    forall i | i in t.data ensures InodeOk(t, i, sum) {
      assert InodeOk(s, i, sum);
    }
    forall v | v in t.writers ensures WriterOk(t, v, sum) {
      assert WriterOk(s, v, sum);
    }
    forall r | r in t.readers ensures ReaderOk(t, r, sum) {
      if r in s.readers && t.readers[r] == s.readers[r] {
        ReaderKept(s, t, r, sum);
      }
    }
    forall v, u | v in t.writers && u in t.writers && SameFile(t.writers[v], t.writers[u]) ensures v == u {
      assert SameFile(s.writers[v], s.writers[u]);
    }
  }

  /** A step of one reader that leaves it in order keeps everything. */
  lemma ReaderStepKeeps(s: State, t: State, r: nat, sum: seq<Byte> -> seq<Byte>)
    requires Inv(s, sum) && r in t.readers
    requires t == s.(readers := s.readers[r := t.readers[r]]) && ReaderOk(t, r, sum)
    ensures Inv(t, sum)
  {
    hide Storable, Formed, Encode;
    forall i | i in t.data ensures InodeOk(t, i, sum) {
      assert InodeOk(s, i, sum);
    }
    forall v | v in t.writers ensures WriterOk(t, v, sum) {
      assert WriterOk(s, v, sum);
    }
    forall q | q in t.readers ensures ReaderOk(t, q, sum) {
      if q != r {
        ReaderKept(s, t, q, sum);
      }
    }
  }

  /** Reading the header of a file that holds a prefix of a record. */
  lemma HeadRead(s: State, p: Path, i: nat, size: nat, sum: seq<Byte> -> seq<Byte>)
    requires InodeOk(s, i, sum) && size <= |s.data[i]|
    ensures var head := ReadAt(s.data[i], 0, HEAD);
            var c := CheckHead(size, head);
            && !c.Miss?
            && (c.Hit? ==> && HEAD <= |s.data[i]| && head == s.data[i][..HEAD]
                           && |s.data[i]| >= HEAD + |s.origin[i].record.reply.content| + 8)
  {
    var rec, d := s.origin[i].record, s.data[i];
    Layout(rec);
    hide Encode;
    var head := ReadAt(d, 0, HEAD);
    if |d| >= HEAD {
      assert head == d[..HEAD] == Encode(rec)[..HEAD];
      assert head[..4] == rec.reply.pod[..4] by {
        assert Encode(rec)[..POD][..4] == Encode(rec)[..4];
      }
      assert head[POD..] == Encode(rec)[POD..HEAD];
    }
  }

  /** Reading the content after the header gives the record's reply or throws. */
  lemma BodyRead(s: State, i: nat, head: seq<Byte>, sum: seq<Byte> -> seq<Byte>)
    requires InodeOk(s, i, sum) && HEAD <= |s.data[i]| && head == s.data[i][..HEAD]
    requires |s.data[i]| >= HEAD + |s.origin[i].record.reply.content| + 8
    ensures CheckBody(head, ReadAt(s.data[i], HEAD, Number(head[POD..])), sum) == Hit(s.origin[i].record.reply)
  {
    var rec, d := s.origin[i].record, s.data[i];
    Layout(rec);
    hide Encode, Number;
    var n := |rec.reply.content|;
    assert head[POD..] == Encode(rec)[POD..HEAD];
    assert d[HEAD..HEAD + n] == Encode(rec)[HEAD..HEAD + n];
    assert head[..POD] == Encode(rec)[..POD];
    assert head[POD - SUM..POD] == rec.reply.pod[POD - SUM..];
  }

  lemma ReaderEventKeeps(s: State, e: Event, sum: seq<Byte> -> seq<Byte>)
    requires Inv(s, sum) && (e.Open? || e.Stat? || e.ReadHead? || e.ReadBody?)
    ensures Inv(ReaderStep(s, e, sum), sum)
  {
    hide Storable, Formed, Encode, CheckHead, CheckBody, ReadAt, InodeOk;
    var t := ReaderStep(s, e, sum);
    if t != s {
      if e.Open? {
        assert Main(e.path) in s.names ==> InodeOk(s, s.names[Main(e.path)], sum);
      } else {
        assert ReaderOk(s, e.r, sum);
        var rd := s.readers[e.r];
        match e {
          case Stat(r) =>
          case ReadHead(r) => HeadRead(s, rd.path, rd.ino, rd.size, sum);
          case ReadBody(r) =>
            BodyRead(s, rd.ino, rd.head, sum);
            WrittenBy(s, rd.ino, sum);
        }
      }
      ReaderInState(s, t, e.r, sum);
      ReaderStepKeeps(s, t, e.r, sum);
    }
  }

  lemma WrittenBy(s: State, i: nat, sum: seq<Byte> -> seq<Byte>)
    requires InodeOk(s, i, sum)
    ensures Written(s, s.origin[i].path, s.origin[i].record.reply)
  {
    var o := s.origin[i];
    assert o == Origin(o.path, Record(o.record.reply, o.record.url));
  }

  /** What a reader knows does not depend on the other readers. */
  lemma ReaderInState(s: State, t: State, r: nat, sum: seq<Byte> -> seq<Byte>)
    requires t.data == s.data && t.origin == s.origin && t.calls == s.calls
    ensures forall i :: InodeOk(s, i, sum) <==> InodeOk(t, i, sum)
    ensures forall p, reply :: Written(s, p, reply) <==> Written(t, p, reply)
  {
    hide Storable, Formed, Encode;
  }

  lemma PublishKeeps(s: State, w: nat, sum: seq<Byte> -> seq<Byte>)
    requires Inv(s, sum)
    ensures Inv(Publish(s, w), sum)
  {
    hide Storable, Formed, Encode, InodeOk, WriterOk, ReaderOk;
    NamesStepKeeps(s, Publish(s, w), sum);
  }

  lemma WriterStepKeeps(s: State, e: Event, sum: seq<Byte> -> seq<Byte>)
    requires Inv(s, sum) && (e.Finish? || e.Fail? || e.UnlinkNew? || e.UnlinkMain? || e.Crash?)
    ensures Inv(WriterStep(s, e), sum)
  {
    hide Storable, Formed, Encode, InodeOk, WriterOk, ReaderOk, WriterStep;
    WriterStepNames(s, e);
    NamesStepKeeps(s, WriterStep(s, e), sum);
  }

  lemma WriterStepNames(s: State, e: Event)
    requires e.Finish? || e.Fail? || e.UnlinkNew? || e.UnlinkMain? || e.Crash?
    ensures var t := WriterStep(s, e);
            && t.data == s.data && t.origin == s.origin && t.calls == s.calls && t.readers == s.readers
            && (forall n :: n in t.names ==> n in s.names && t.names[n] == s.names[n])
            && (forall w :: w in t.writers ==> w in s.writers && (t.writers[w] == s.writers[w] || !t.writers[w].Writing?))
  {
  }

  lemma SetAsideKeeps(s: State, e: Event, sum: seq<Byte> -> seq<Byte>)
    requires Inv(s, sum) && e.SetAside?
    ensures Inv(ReaderStep(s, e, sum), sum)
  {
    hide Storable, Formed, Encode, InodeOk, WriterOk, ReaderOk;
    NamesStepKeeps(s, ReaderStep(s, e, sum), sum);
  }

  lemma EvictKeeps(s: State, name: Name, sum: seq<Byte> -> seq<Byte>)
    requires Inv(s, sum)
    ensures Inv(s.(names := Remove(s.names, name)), sum)
  {
    hide Storable, Formed, Encode, InodeOk, WriterOk, ReaderOk;
    NamesStepKeeps(s, s.(names := Remove(s.names, name)), sum);
  }

  lemma ApplyKeeps(s: State, e: Event, sum: seq<Byte> -> seq<Byte>)
    requires Inv(s, sum)
    ensures Inv(Apply(s, e, sum), sum)
  {
    hide Inv, Create, Grow, Publish, WriterStep, ReaderStep;
    match e {
      case Serialize(_, _, _, _) => CreateKeeps(s, e, sum);
      case Write(w, upTo) => GrowKeeps(s, w, upTo, sum);
      case Rename(w) => PublishKeeps(s, w, sum);
      case Evict(name) => EvictKeeps(s, name, sum);
      case Finish(_) => WriterStepKeeps(s, e, sum);
      case Fail(_) => WriterStepKeeps(s, e, sum);
      case UnlinkNew(_) => WriterStepKeeps(s, e, sum);
      case UnlinkMain(_) => WriterStepKeeps(s, e, sum);
      case Crash(_) => WriterStepKeeps(s, e, sum);
      case SetAside(_, _) => SetAsideKeeps(s, e, sum);
      case Open(_, _) => ReaderEventKeeps(s, e, sum);
      case Stat(_) => ReaderEventKeeps(s, e, sum);
      case ReadHead(_) => ReaderEventKeeps(s, e, sum);
      case ReadBody(_) => ReaderEventKeeps(s, e, sum);
    }
  }

  lemma {:induction false} RunKeeps(events: seq<Event>, sum: seq<Byte> -> seq<Byte>)
    ensures Inv(Run(events, sum), sum)
    decreases |events|
  {
    if events != [] {
      RunKeeps(events[..|events| - 1], sum);
      ApplyKeeps(Run(events[..|events| - 1], sum), events[|events| - 1], sum);
    }
  }

  // ------------------------------------------------- what readers get

  /** In every run, whatever the interleaving, the evictions and the crashes: each
      file reachable under a record's name or its `.new` name holds a prefix of one
      record that was serialized for that path. */
  lemma FilesArePrefixes(events: seq<Event>, sum: seq<Byte> -> seq<Byte>, n: Name)
    requires n in Run(events, sum).names
    ensures var s := Run(events, sum);
            && s.names[n] in s.data && s.names[n] in s.origin
            && var o := s.origin[s.names[n]];
            && o in s.calls && o.path == n.path && Formed(o.record) && s.data[s.names[n]] <= Encode(o.record)
            && (s.data[s.names[n]] != [] ==> Storable(o.record, sum))
  {
    RunKeeps(events, sum);
    assert InodeOk(Run(events, sum), Run(events, sum).names[n], sum);
  }

  /** In every run a deserialize that succeeds returns a reply that some serialize
      wrote for that path, complete and unaltered. */
  lemma ReadersGetWhatWasWritten(events: seq<Event>, sum: seq<Byte> -> seq<Byte>, r: nat)
    requires r in Run(events, sum).readers
    ensures var s := Run(events, sum);
            s.readers[r].Finished? && s.readers[r].outcome.Hit? ==> Written(s, s.readers[r].path, s.readers[r].outcome.reply)
  {
    RunKeeps(events, sum);
    assert ReaderOk(Run(events, sum), r, sum);
  }
}
