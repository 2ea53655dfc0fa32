/** What comes of one deserialize or serialize call, whatever runs in between. */
module DiskReaders {
  import opened DiskRecord
  import opened DiskProtocol
  import opened DiskExclusive
  import opened Wrappers

  /** The event is a step of reader r. */
  predicate IsStepOf(e: Event, r: nat) {
    (e.Open? || e.Stat? || e.ReadHead? || e.ReadBody? || e.SetAside?) && e.r == r
  }

  // ------------------------------------------------- what other steps leave alone

  /** Other steps do not touch a reader. */
  lemma OthersLeaveReader(s: State, e: Event, r: nat, sum: seq<Byte> -> seq<Byte>)
    requires !IsStepOf(e, r)
    ensures var t := Apply(s, e, sum);
            && (r in t.readers <==> r in s.readers) && (r in s.readers ==> t.readers[r] == s.readers[r])
  {
    hide Create, Grow, Publish, WriterStep, ReaderStep;
    if e.Serialize? {
      CreateReaders(s, e, sum);
    } else if e.Write? {
      GrowReaders(s, e.w, e.upTo);
    } else if e.Rename? {
      PublishReaders(s, e.w);
    } else if e.Finish? || e.Fail? || e.UnlinkNew? || e.UnlinkMain? || e.Crash? {
      WriterReaders(s, e);
    } else if !e.Evict? {
      ReaderReaders(s, e, r, sum);
    }
  }

  lemma CreateReaders(s: State, e: Event, sum: seq<Byte> -> seq<Byte>)
    requires e.Serialize?
    ensures Create(s, e, sum).readers == s.readers
  {
    hide Storable, Formed;
  }

  lemma GrowReaders(s: State, w: nat, upTo: nat)
    ensures Grow(s, w, upTo).readers == s.readers
  {
    hide Encode;
  }

  lemma PublishReaders(s: State, w: nat)
    ensures Publish(s, w).readers == s.readers
  {
    hide Encode;
  }

  lemma WriterReaders(s: State, e: Event)
    requires e.Finish? || e.Fail? || e.UnlinkNew? || e.UnlinkMain? || e.Crash?
    ensures WriterStep(s, e).readers == s.readers
  {
  }

  lemma ReaderReaders(s: State, e: Event, r: nat, sum: seq<Byte> -> seq<Byte>)
    requires (e.Open? || e.Stat? || e.ReadHead? || e.ReadBody? || e.SetAside?) && e.r != r
    ensures var t := ReaderStep(s, e, sum);
            && (r in t.readers <==> r in s.readers) && (r in s.readers ==> t.readers[r] == s.readers[r])
  {
    hide CheckHead, CheckBody, ReadAt;
  }

  /** A file belongs to one call for good, and what is in it only grows. */
  ghost predicate FileKept(s: State, t: State, i: nat) {
    i in s.data && i in s.origin && i in t.data && i in t.origin && s.data[i] <= t.data[i] && t.origin[i] == s.origin[i]
  }

  lemma ApplyKeepsFile(s: State, e: Event, i: nat, sum: seq<Byte> -> seq<Byte>)
    requires i in s.data && i in s.origin
    ensures FileKept(s, Apply(s, e, sum), i)
  {
    hide Create, Grow, Publish, WriterStep, ReaderStep;
    if e.Serialize? {
      CreateFile(s, e, i, sum);
    } else if e.Write? {
      GrowFile(s, e.w, e.upTo, i);
    } else if e.Rename? {
      PublishFile(s, e.w);
    } else if e.Finish? || e.Fail? || e.UnlinkNew? || e.UnlinkMain? || e.Crash? {
      WriterStepNames(s, e);
    } else if !e.Evict? {
      ReaderFile(s, e, sum);
    }
  }

  lemma CreateFile(s: State, e: Event, i: nat, sum: seq<Byte> -> seq<Byte>)
    requires e.Serialize? && i in s.data && i in s.origin
    ensures FileKept(s, Create(s, e, sum), i)
  {
    hide Storable, Formed;
  }

  lemma GrowFile(s: State, w: nat, upTo: nat, i: nat)
    requires i in s.data && i in s.origin
    ensures FileKept(s, Grow(s, w, upTo), i)
  {
    hide Encode;
  }

  lemma PublishFile(s: State, w: nat)
    ensures Publish(s, w).data == s.data && Publish(s, w).origin == s.origin
  {
    hide Encode;
  }

  lemma ReaderFile(s: State, e: Event, sum: seq<Byte> -> seq<Byte>)
    requires e.Open? || e.Stat? || e.ReadHead? || e.ReadBody? || e.SetAside?
    ensures ReaderStep(s, e, sum).data == s.data && ReaderStep(s, e, sum).origin == s.origin
  {
    hide CheckHead, CheckBody, ReadAt;
  }

  // ------------------------------------------------- between two moments of a run

  ghost function At(events: seq<Event>, k: nat, sum: seq<Byte> -> seq<Byte>): State
    requires k <= |events|
  {
    Run(events[..k], sum)
  }

  lemma AtNext(events: seq<Event>, k: nat, sum: seq<Byte> -> seq<Byte>)
    requires k < |events|
    ensures At(events, k + 1, sum) == Apply(At(events, k, sum), events[k], sum)
  {
    hide Apply;
    assert events[..k + 1][..k] == events[..k];
  }

  lemma {:induction false} FileKeptSince(events: seq<Event>, i: nat, j: nat, k: nat, sum: seq<Byte> -> seq<Byte>)
    requires j <= k <= |events| && i in At(events, j, sum).data && i in At(events, j, sum).origin
    ensures FileKept(At(events, j, sum), At(events, k, sum), i)
    decreases k
  {
    hide Apply, At;
    if j < k {
      FileKeptSince(events, i, j, k - 1, sum);
      AtNext(events, k - 1, sum);
      ApplyKeepsFile(At(events, k - 1, sum), events[k - 1], i, sum);
    }
  }

  /** No step of reader r from event j on and before event k. */
  predicate Idle(events: seq<Event>, r: nat, j: nat, k: nat) {
    forall m :: j <= m < k && m < |events| ==> !IsStepOf(events[m], r)
  }

  lemma {:induction false} ReaderKeptWhileIdle(events: seq<Event>, r: nat, j: nat, k: nat, sum: seq<Byte> -> seq<Byte>)
    requires j <= k <= |events| && Idle(events, r, j, k)
    ensures var s, t := At(events, j, sum), At(events, k, sum);
            && (r in t.readers <==> r in s.readers) && (r in s.readers ==> t.readers[r] == s.readers[r])
    decreases k
  {
    hide Apply, At;
    if j < k {
      ReaderKeptWhileIdle(events, r, j, k - 1, sum);
      AtNext(events, k - 1, sum);
      OthersLeaveReader(At(events, k - 1, sum), events[k - 1], r, sum);
    }
  }

  // ------------------------------------------------- one deserialize

  /** The four steps of a deserialize, by the numbers of their events. */
  predicate Steps(events: seq<Event>, r: nat, p: Path, a: nat, b: nat, c: nat, d: nat) {
    && a < b < c < d < |events|
    && events[a] == Open(r, p) && events[b] == Stat(r) && events[c] == ReadHead(r) && events[d] == ReadBody(r)
    && Idle(events, r, a + 1, b) && Idle(events, r, b + 1, c) && Idle(events, r, c + 1, d)
  }

  lemma OpenStep(s: State, r: nat, p: Path, sum: seq<Byte> -> seq<Byte>)
    requires r !in s.readers
    ensures var t := Apply(s, Open(r, p), sum);
            && r in t.readers && t.data == s.data && t.origin == s.origin
            && t.readers[r] == if Main(p) in s.names then Opened(p, s.names[Main(p)]) else Finished(p, Miss)
  {
  }

  lemma StatStep(s: State, r: nat, p: Path, i: nat, sum: seq<Byte> -> seq<Byte>)
    requires r in s.readers && s.readers[r] == Opened(p, i) && i in s.data
    ensures var t := Apply(s, Stat(r), sum);
            r in t.readers && t.readers[r] == Sized(p, i, |s.data[i]|)
  {
  }

  lemma HeadStep(s: State, r: nat, p: Path, i: nat, size: nat, sum: seq<Byte> -> seq<Byte>)
    requires r in s.readers && s.readers[r] == Sized(p, i, size) && i in s.data
    ensures var t, head := Apply(s, ReadHead(r), sum), ReadAt(s.data[i], 0, HEAD);
            && r in t.readers
            && t.readers[r] == if CheckHead(size, head).Hit? then Headed(p, i, head) else Finished(p, CheckHead(size, head))
  {
    hide CheckHead, ReadAt;
  }

  lemma BodyStep(s: State, r: nat, p: Path, i: nat, head: seq<Byte>, sum: seq<Byte> -> seq<Byte>)
    requires r in s.readers && s.readers[r] == Headed(p, i, head) && i in s.data && |head| == HEAD
    ensures var t := Apply(s, ReadBody(r), sum);
            r in t.readers && t.readers[r] == Finished(p, CheckBody(head, ReadAt(s.data[i], HEAD, Number(head[POD..])), sum))
  {
    hide CheckBody, ReadAt, Number;
  }

  lemma LateBodyStep(s: State, r: nat, p: Path, o: Outcome, sum: seq<Byte> -> seq<Byte>)
    requires r in s.readers && s.readers[r] == Finished(p, o)
    ensures var t := Apply(s, ReadBody(r), sum);
            r in t.readers && t.readers[r] == s.readers[r]
  {
  }

  lemma GoodHead(size: nat, head: seq<Byte>)
    requires |head| <= HEAD && CheckHead(size, head).Hit?
    ensures |head| == HEAD
  {
    hide Number;
  }

  /** A deserialize that finds a file ends with what its three reads of that file are,
      at their own moments. */
  lemma ReaderDeserializes(events: seq<Event>, r: nat, p: Path, a: nat, b: nat, c: nat, d: nat, sum: seq<Byte> -> seq<Byte>)
    requires Steps(events, r, p, a, b, c, d) && r !in At(events, a, sum).readers && Main(p) in At(events, a, sum).names
    requires var s := At(events, a, sum); s.names[Main(p)] in s.data && s.names[Main(p)] in s.origin
    ensures var i := At(events, a, sum).names[Main(p)];
            && i in At(events, b, sum).data && i in At(events, c, sum).data && i in At(events, d, sum).data
            && r in At(events, d + 1, sum).readers
            && At(events, d + 1, sum).readers[r]
               == Finished(p, Deserialize(At(events, b, sum).data[i], At(events, c, sum).data[i], At(events, d, sum).data[i], sum))
  {
    hide Apply, At, CheckHead, CheckBody, ReadAt, Number;
    var s0 := At(events, a, sum);
    var i := s0.names[Main(p)];
    FileKeptSince(events, i, a, b, sum);
    FileKeptSince(events, i, a, c, sum);
    FileKeptSince(events, i, a, d, sum);
    AtNext(events, a, sum);
    OpenStep(s0, r, p, sum);
    ReaderKeptWhileIdle(events, r, a + 1, b, sum);
    AtNext(events, b, sum);
    StatStep(At(events, b, sum), r, p, i, sum);
    ReaderKeptWhileIdle(events, r, b + 1, c, sum);
    AtNext(events, c, sum);
    var size, head := |At(events, b, sum).data[i]|, ReadAt(At(events, c, sum).data[i], 0, HEAD);
    HeadStep(At(events, c, sum), r, p, i, size, sum);
    ReaderKeptWhileIdle(events, r, c + 1, d, sum);
    AtNext(events, d, sum);
    if CheckHead(size, head).Hit? {
      GoodHead(size, head);
      BodyStep(At(events, d, sum), r, p, i, head, sum);
    } else {
      LateBodyStep(At(events, d, sum), r, p, CheckHead(size, head), sum);
    }
  }

  /** The file that has the name has data and a call that made it. */
  lemma NamedFile(events: seq<Event>, k: nat, p: Path, sum: seq<Byte> -> seq<Byte>)
    requires k <= |events| && Main(p) in At(events, k, sum).names
    ensures var s := At(events, k, sum);
            var i := s.names[Main(p)];
            i in s.data && i in s.origin && s.origin[i].path == p
  {
    FilesArePrefixes(events[..k], sum, Main(p));
  }

  lemma FileIsPrefix(events: seq<Event>, k: nat, i: nat, sum: seq<Byte> -> seq<Byte>)
    requires k <= |events| && i in At(events, k, sum).data
    ensures var s := At(events, k, sum);
            && i in s.origin && Formed(s.origin[i].record) && s.data[i] <= DiskRecord.Encode(s.origin[i].record)
            && (s.data[i] != [] ==> Storable(s.origin[i].record, sum))
  {
    hide Storable, Formed, Encode;
    RunKeeps(events[..k], sum);
    assert InodeOk(At(events, k, sum), i, sum);
  }

  /** In every run, whatever happens between its steps: a deserialize that finds a file
      ends with the reply of the call that made the file if and only if everything but
      the url was in it when its size was taken; otherwise it throws. */
  lemma ReaderEndsExactly(events: seq<Event>, r: nat, p: Path, a: nat, b: nat, c: nat, d: nat, sum: seq<Byte> -> seq<Byte>)
    requires Steps(events, r, p, a, b, c, d) && r !in At(events, a, sum).readers && Main(p) in At(events, a, sum).names
    ensures var i := At(events, a, sum).names[Main(p)];
            && i in At(events, a, sum).origin && i in At(events, b, sum).data && r in At(events, d + 1, sum).readers
            && var rec := At(events, a, sum).origin[i].record;
            At(events, d + 1, sum).readers[r]
            == Finished(p, if |At(events, b, sum).data[i]| >= HEAD + |rec.reply.content| + 8 then Hit(rec.reply) else Throw)
  {
    hide At, Storable, Formed, Encode, Deserialize;
    NamedFile(events, a, p, sum);
    var i := At(events, a, sum).names[Main(p)];
    ReaderDeserializes(events, r, p, a, b, c, d, sum);
    FileKeptSince(events, i, a, b, sum);
    FileKeptSince(events, i, b, c, sum);
    FileKeptSince(events, i, c, d, sum);
    FileIsPrefix(events, d, i, sum);
    PrefixRead(At(events, d, sum).origin[i].record, At(events, b, sum).data[i], At(events, c, sum).data[i], At(events, d, sum).data[i], sum);
  }

  lemma PrefixRead(rec: Record, x: seq<Byte>, y: seq<Byte>, z: seq<Byte>, sum: seq<Byte> -> seq<Byte>)
    requires Formed(rec) && x <= y <= z <= Encode(rec) && (z != [] ==> Storable(rec, sum))
    ensures Deserialize(x, y, z, sum) == if |x| >= HEAD + |rec.reply.content| + 8 then Hit(rec.reply) else Throw
  {
    if z != [] {
      hide Deserialize, Storable, Formed, Encode;
      AnyPrefix(rec, sum, |x|, |y|, |z|);
      assert Encode(rec)[..|x|] == x && Encode(rec)[..|y|] == y && Encode(rec)[..|z|] == z;
    }
  }

  /** A miss comes only of a name that was not there, or of a file that a failed read has
      set aside. */
  lemma {:induction false} MissesExactly(events: seq<Event>, r: nat, p: Path, sum: seq<Byte> -> seq<Byte>) returns (k: nat)
    requires r in Run(events, sum).readers && Run(events, sum).readers[r] == Finished(p, Miss)
    ensures k < |events|
    ensures || (events[k] == Open(r, p) && Main(p) !in At(events, k, sum).names)
            || (events[k].SetAside? && events[k].r == r && r in At(events, k, sum).readers
                && At(events, k, sum).readers[r] == Finished(p, Throw))
    decreases |events|
  {
    hide Apply, Inv;
    var n := |events| - 1;
    var before, e := events[..n], events[n];
    var s := Run(before, sum);
    if r in s.readers && s.readers[r] == Finished(p, Miss) {
      k := MissesExactly(before, r, p, sum);
      assert before[..k] == events[..k];
    } else {
      k := n;
      RunKeeps(before, sum);
      MissStep(s, e, r, p, sum);
    }
  }

  lemma MissStep(s: State, e: Event, r: nat, p: Path, sum: seq<Byte> -> seq<Byte>)
    requires Inv(s, sum) && r in Apply(s, e, sum).readers && Apply(s, e, sum).readers[r] == Finished(p, Miss)
    requires !(r in s.readers && s.readers[r] == Finished(p, Miss))
    ensures || (e == Open(r, p) && Main(p) !in s.names)
            || (e.SetAside? && e.r == r && r in s.readers && s.readers[r] == Finished(p, Throw))
  {
    hide Storable, Formed, Encode, CheckHead, CheckBody, ReadAt, InodeOk, Create, Grow, Publish, WriterStep;
    if !IsStepOf(e, r) {
      OthersLeaveReader(s, e, r, sum);
    } else if e.Stat? || e.ReadHead? || e.ReadBody? {
      if r in s.readers {
        assert ReaderOk(s, r, sum);
        NoMissOf(s, r, sum);
      }
    }
  }

  lemma NoMissOf(s: State, r: nat, sum: seq<Byte> -> seq<Byte>)
    requires r in s.readers && ReaderOk(s, r, sum)
    ensures s.readers[r].Sized? ==> var rd := s.readers[r]; rd.ino in s.data && !CheckHead(rd.size, ReadAt(s.data[rd.ino], 0, HEAD)).Miss?
    ensures s.readers[r].Headed? ==>
              var rd := s.readers[r];
              |rd.head| == HEAD && forall body :: !CheckBody(rd.head, body, sum).Miss?
  {
    hide Storable, Formed, Encode, ReadAt, CheckHead;
    if s.readers[r].Sized? {
      HeadRead(s, s.readers[r].path, s.readers[r].ino, s.readers[r].size, sum);
    }
  }

  // ------------------------------------------------- one serialize

  /** A whole serialize of a record, in two writes. */
  function Serializing(w: nat, p: Path, rec: Record, i: nat, some: nat): seq<Event>
    requires |rec.reply.pod| == POD
  {
    [Serialize(w, p, rec, i), Write(w, some), Write(w, |Encode(rec)|), Rename(w)]
  }

  function Deserializing(r: nat, p: Path): seq<Event> {
    [Open(r, p), Stat(r), ReadHead(r), ReadBody(r)]
  }

  lemma WriteStep(s: State, w: nat, p: Path, rec: Record, i: nat, k: nat, upTo: nat, sum: seq<Byte> -> seq<Byte>)
    requires |rec.reply.pod| == POD && k <= upTo <= |Encode(rec)|
    requires w in s.writers && s.writers[w] == Writing(p, rec, i, k) && i in s.data && s.data[i] == Encode(rec)[..k]
    ensures Apply(s, Write(w, upTo), sum)
            == s.(data := s.data[i := Encode(rec)[..upTo]], writers := s.writers[w := Writing(p, rec, i, upTo)])
  {
    var bytes := Encode(rec);
    hide Encode;
    assert bytes[..k] + bytes[k..upTo] == bytes[..upTo];
  }

  lemma RenameStep(s: State, w: nat, p: Path, rec: Record, i: nat, sum: seq<Byte> -> seq<Byte>)
    requires |rec.reply.pod| == POD && w in s.writers && s.writers[w] == Writing(p, rec, i, |Encode(rec)|)
    requires New(p) in s.names && s.names[New(p)] == i
    ensures Apply(s, Rename(w), sum)
            == s.(names := (s.names - {New(p)})[Main(p) := i], writers := s.writers[w := Renamed(p)])
  {
    hide Encode;
  }

  /** After any run, a serialize that finds its `.new` name free and meets no other call
      leaves the whole record under its own name, and nothing else different. */
  lemma SerializeStores(events: seq<Event>, w: nat, p: Path, rec: Record, i: nat, some: nat, sum: seq<Byte> -> seq<Byte>)
    requires Storable(rec, sum) && some <= |Encode(rec)|
    requires var s := Run(events, sum); New(p) !in s.names && w !in s.writers && i !in s.data
    ensures var s, t := Run(events, sum), Run(events + Serializing(w, p, rec, i, some), sum);
            && t.names == s.names[Main(p) := i] && t.data == s.data[i := Encode(rec)]
            && t.origin == s.origin[i := Origin(p, rec)] && t.readers == s.readers
            && t.writers == s.writers[w := Renamed(p)]
  {
    hide *;
    WellFormed(rec, sum);
    var s, bytes := Run(events, sum), Encode(rec);
    var e := Serializing(w, p, rec, i, some);
    SerializingIs(w, p, rec, i, some);
    RunFour(events, e, sum);
    CreateStep(s, w, p, rec, i, sum);
    assert [] == bytes[..0] && bytes[..|bytes|] == bytes;
    var s1 := Apply(s, e[0], sum);
    WriteStep(s1, w, p, rec, i, 0, some, sum);
    var s2 := Apply(s1, e[1], sum);
    WriteStep(s2, w, p, rec, i, some, |bytes|, sum);
    var s3 := Apply(s2, e[2], sum);
    RenameStep(s3, w, p, rec, i, sum);
    Overwritten(s.data, i, [], bytes[..some], bytes);
    Overwritten(s.writers, w, Writing(p, rec, i, 0), Writing(p, rec, i, some), Writing(p, rec, i, |bytes|));
    Overwritten(s.writers, w, Writing(p, rec, i, |bytes|), Renamed(p), Renamed(p));
    AddedAndRemoved(s.names, New(p), i);
  }

  lemma WellFormed(rec: Record, sum: seq<Byte> -> seq<Byte>)
    requires Storable(rec, sum)
    ensures |rec.reply.pod| == POD && |rec.reply.content| < 0x1_0000_0000_0000_0000
  {
  }

  lemma SerializingIs(w: nat, p: Path, rec: Record, i: nat, some: nat)
    requires |rec.reply.pod| == POD
    ensures var e := Serializing(w, p, rec, i, some);
            |e| == 4 && e[0] == Serialize(w, p, rec, i) && e[1] == Write(w, some) && e[2] == Write(w, |Encode(rec)|) && e[3] == Rename(w)
  {
    hide Encode;
  }

  lemma Overwritten<K, V>(m: map<K, V>, k: K, x: V, y: V, z: V)
    ensures m[k := x][k := y][k := z] == m[k := z]
  {
  }

  lemma AddedAndRemoved<K, V>(m: map<K, V>, k: K, x: V)
    requires k !in m
    ensures m[k := x] - {k} == m
  {
  }

  lemma CreateStep(s: State, w: nat, p: Path, rec: Record, i: nat, sum: seq<Byte> -> seq<Byte>)
    requires Storable(rec, sum) && New(p) !in s.names && w !in s.writers && i !in s.data
    ensures Apply(s, Serialize(w, p, rec, i), sum)
            == s.(names := s.names[New(p) := i], data := s.data[i := []], writers := s.writers[w := Writing(p, rec, i, 0)],
                  origin := s.origin[i := Origin(p, rec)], calls := s.calls + {Origin(p, rec)})
  {
  }

  lemma RunFour(events: seq<Event>, more: seq<Event>, sum: seq<Byte> -> seq<Byte>)
    requires |more| == 4
    ensures Run(events + more, sum)
            == Apply(Apply(Apply(Apply(Run(events, sum), more[0], sum), more[1], sum), more[2], sum), more[3], sum)
  {
    hide Apply;
    var n, all := |events|, events + more;
    assert all[..n + 4] == all && all[..n] == events;
    assert all[n] == more[0] && all[n + 1] == more[1] && all[n + 2] == more[2] && all[n + 3] == more[3];
    AtNext(all, n, sum);
    AtNext(all, n + 1, sum);
    AtNext(all, n + 2, sum);
    AtNext(all, n + 3, sum);
  }

  /** And then a deserialize gets the reply. */
  lemma StoredThenRead(events: seq<Event>, w: nat, p: Path, rec: Record, i: nat, some: nat, r: nat, sum: seq<Byte> -> seq<Byte>)
    requires Storable(rec, sum) && some <= |Encode(rec)|
    requires var s := Run(events, sum); New(p) !in s.names && w !in s.writers && i !in s.data && r !in s.readers
    ensures var t := Run(events + Serializing(w, p, rec, i, some) + Deserializing(r, p), sum);
            r in t.readers && t.readers[r] == Finished(p, Hit(rec.reply))
  {
    WellFormed(rec, sum);
    hide Encode, Storable, Formed, Run, Complete;
    SerializeStores(events, w, p, rec, i, some, sum);
    var stored := events + Serializing(w, p, rec, i, some);
    CompleteIsRead(stored, p, r, sum);
  }

  /** A complete file under its own name is read as it is. */
  lemma CompleteIsRead(events: seq<Event>, p: Path, r: nat, sum: seq<Byte> -> seq<Byte>)
    requires var s := Run(events, sum);
             && r !in s.readers && Main(p) in s.names && s.names[Main(p)] in s.data && s.names[Main(p)] in s.origin
             && var rec := s.origin[s.names[Main(p)]].record;
             |rec.reply.pod| == POD && |rec.reply.content| < 0x1_0000_0000_0000_0000 && s.data[s.names[Main(p)]] == Encode(rec)
    ensures var s, t := Run(events, sum), Run(events + Deserializing(r, p), sum);
            && r in t.readers && t.readers[r] == Finished(p, Hit(s.origin[s.names[Main(p)]].record.reply))
  {
    var s, all, n := Run(events, sum), events + Deserializing(r, p), |events|;
    var i := s.names[Main(p)];
    Layout(s.origin[i].record);
    hide Encode, Run, Apply;
    assert all[..n] == events && all[..n + 4] == all;
    assert all[n] == Open(r, p) && all[n + 1] == Stat(r) && all[n + 2] == ReadHead(r) && all[n + 3] == ReadBody(r);
    assert Steps(all, r, p, n, n + 1, n + 2, n + 3);
    ReaderEndsExactly(all, r, p, n, n + 1, n + 2, n + 3, sum);
    FileKeptSince(all, i, n, n + 1, sum);
  }

  /** After any run in which no `.new` name is taken from a writer that holds it, whoever
      opens a name that is there gets the reply of the call that made the file. */
  lemma PublishedIsRead(events: seq<Event>, p: Path, r: nat, sum: seq<Byte> -> seq<Byte>)
    requires Careful(EMPTY, events, sum)
    requires r !in Run(events, sum).readers && Main(p) in Run(events, sum).names
    ensures var s, t := Run(events, sum), Run(events + Deserializing(r, p), sum);
            && s.names[Main(p)] in s.origin && r in t.readers
            && t.readers[r] == Finished(p, Hit(s.origin[s.names[Main(p)]].record.reply))
  {
    hide Careful, Run, Encode;
    FilesAreComplete(events, sum);
    FilesArePrefixes(events, sum, Main(p));
    CompleteIsRead(events, p, r, sum);
  }

  /** A serialize that fails, before or after its rename, leaves neither of its names. */
  lemma FailureLeavesNothing(s: State, w: nat, sum: seq<Byte> -> seq<Byte>)
    requires w in s.writers && (s.writers[w].Writing? || s.writers[w].Renamed?)
    ensures var p, t := s.writers[w].path, Apply(Apply(Apply(s, Fail(w), sum), UnlinkNew(w), sum), UnlinkMain(w), sum);
            t == s.(names := s.names - {New(p), Main(p)}, writers := s.writers - {w})
  {
    var p := s.writers[w].path;
    var s1 := Apply(s, Fail(w), sum);
    var s2 := Apply(s1, UnlinkNew(w), sum);
    assert s2.names == s.names - {New(p)} && s2.writers == s.writers[w := FailedMain(p)];
    assert s.names - {New(p)} - {Main(p)} == s.names - {New(p), Main(p)};
    assert s.writers[w := FailedMain(p)] - {w} == s.writers - {w};
  }
}
