/** The two halves of the disk cache together: what the freshness state machine finds on
    disk is what the readers of the file protocol return. */
module DiskFiles {
  import opened Wrappers
  import DiskRecord
  import P = DiskProtocol
  import R = DiskRefresh

  /** The hash of a url, and the bytes of a reply. */
  datatype Naming = Naming(hash: R.Url -> P.Path, wire: R.Reply -> DiskRecord.Reply)

  function PathOf(n: Naming, url: R.Url): P.Path {
    n.hash(url)
  }

  function WireOf(n: Naming, r: R.Reply): DiskRecord.Reply {
    n.wire(r)
  }

  /** Different urls have different paths, and different replies different bytes. */
  ghost predicate OneToOne(n: Naming) {
    && (forall u, v :: PathOf(n, u) == PathOf(n, v) ==> u == v)
    && (forall r, t :: WireOf(n, r) == WireOf(n, t) ==> r == t)
  }

  /** The serialize call is one that the cache made: a reply for a url, under its path. */
  ghost predicate FromCache(n: Naming, written: set<(R.Url, R.Reply)>, o: P.Origin) {
    exists w :: w in written && o.path == PathOf(n, w.0) && o.record.reply == WireOf(n, w.1)
  }

  /** All serialize calls of a run of the file protocol are the cache's. */
  ghost predicate AllFromCache(n: Naming, written: set<(R.Url, R.Reply)>, events: seq<P.Event>) {
    forall k :: 0 <= k < |events| && events[k].Serialize? ==> FromCache(n, written, P.Origin(events[k].path, events[k].record))
  }

  lemma ApplyCalls(s: P.State, e: P.Event, sum: seq<Byte> -> seq<Byte>)
    ensures P.Apply(s, e, sum).calls <= s.calls + if e.Serialize? then {P.Origin(e.path, e.record)} else {}
  {
    hide P.Grow, P.Publish, P.WriterStep, P.ReaderStep, DiskRecord.Storable, DiskRecord.Formed;
    if e.Write? {
      GrowCalls(s, e.w, e.upTo);
    } else if e.Rename? {
      PublishCalls(s, e.w);
    } else if e.Finish? || e.Fail? || e.UnlinkNew? || e.UnlinkMain? || e.Crash? {
      WriterCalls(s, e);
    } else if e.Open? || e.Stat? || e.ReadHead? || e.ReadBody? || e.SetAside? {
      ReaderCalls(s, e, sum);
    }
  }

  lemma GrowCalls(s: P.State, w: nat, upTo: nat)
    ensures P.Grow(s, w, upTo).calls == s.calls
  {
    hide DiskRecord.Encode;
  }

  lemma PublishCalls(s: P.State, w: nat)
    ensures P.Publish(s, w).calls == s.calls
  {
    hide DiskRecord.Encode;
  }

  lemma WriterCalls(s: P.State, e: P.Event)
    requires e.Finish? || e.Fail? || e.UnlinkNew? || e.UnlinkMain? || e.Crash?
    ensures P.WriterStep(s, e).calls == s.calls
  {
  }

  lemma ReaderCalls(s: P.State, e: P.Event, sum: seq<Byte> -> seq<Byte>)
    requires e.Open? || e.Stat? || e.ReadHead? || e.ReadBody? || e.SetAside?
    ensures P.ReaderStep(s, e, sum).calls == s.calls
  {
    hide DiskRecord.CheckHead, DiskRecord.CheckBody, DiskRecord.ReadAt;
  }

  lemma {:induction false} RunCalls(n: Naming, written: set<(R.Url, R.Reply)>, events: seq<P.Event>, sum: seq<Byte> -> seq<Byte>)
    requires AllFromCache(n, written, events)
    ensures forall o :: o in P.Run(events, sum).calls ==> FromCache(n, written, o)
    decreases |events|
  {
    hide P.Apply, FromCache;
    if events != [] {
      var before, e := events[..|events| - 1], events[|events| - 1];
      RunCalls(n, written, before, sum);
      ApplyCalls(P.Run(before, sum), e, sum);
    }
  }

  /** In every run of the file protocol whose serialize calls are the cache's, a reader of
      a url's path that has a hit has a reply which the cache can find for that url, and
      no other; and after every run of the cache that is a reply which upstream supplied
      for that url. */
  lemma ReadersFindGenuineReplies(n: Naming, calls: seq<R.Event>, events: seq<P.Event>, sum: seq<Byte> -> seq<Byte>, url: R.Url, r: nat)
      returns (found: R.Reply)
    requires OneToOne(n) && R.AllSane(calls) && AllFromCache(n, R.After(R.NOTHING, calls).written, events)
    requires r in P.Run(events, sum).readers
    requires var reader := P.Run(events, sum).readers[r]; reader.Finished? && reader.path == PathOf(n, url) && reader.outcome.Hit?
    ensures var m := R.After(R.NOTHING, calls);
            && P.Run(events, sum).readers[r].outcome.reply == WireOf(n, found)
            && R.CanFind(m, url, found) && R.Genuine(m.supplied, url, found)
            && forall other :: WireOf(n, other) == WireOf(n, found) ==> other == found
  {
    var m, s := R.After(R.NOTHING, calls), P.Run(events, sum);
    hide P.Run, R.After, R.Genuine, AllFromCache, R.AllSane;
    RunCalls(n, m.written, events, sum);
    P.ReadersGetWhatWasWritten(events, sum, r);
    var reader := s.readers[r];
    var bytes: seq<Byte> :| P.Origin(reader.path, DiskRecord.Record(reader.outcome.reply, bytes)) in s.calls;
    var o := P.Origin(reader.path, DiskRecord.Record(reader.outcome.reply, bytes));
    assert FromCache(n, m.written, o);
    var w :| w in m.written && o.path == PathOf(n, w.0) && o.record.reply == WireOf(n, w.1);
    found := w.1;
    R.NothingOk();
    R.AfterOk(R.NOTHING, calls, 0);
  }
}
