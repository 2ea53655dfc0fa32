/** Close-to-open consistency over the events of a run: what an open records is what a
    later read insists on. */
module CloseToOpen {
  import opened Inomap
  import opened Coherence
  import opened Wrappers

  ghost function At(dotdot: Ino, events: seq<Event>, k: nat): State
    requires k <= |events|
  {
    After(Init(dotdot), events[..k])
  }

  lemma AtNext(dotdot: Ino, events: seq<Event>, k: nat)
    requires k < |events|
    ensures At(dotdot, events, k + 1) == Apply(At(dotdot, events, k), events[k])
  {
    hide Apply;
    assert events[..k + 1][..k] == events[..k];
  }

  lemma AtOk(dotdot: Ino, events: seq<Event>, k: nat)
    requires k <= |events|
    ensures Ok(At(dotdot, events, k))
  {
    hide Ok;
    InitOk(dotdot);
    AfterKeeps(Init(dotdot), events[..k]);
  }

  // ------------------------------------------------- opens, scans and lookups

  /** Event k is an open of the ino that is answered. */
  predicate Opens(e: Event, ino: Ino, v: nat) {
    e.Opening? && e.ino == ino && e.reply == Some(v)
  }

  /** An answered open succeeds if and only if nothing greater has been set since the ino
      was remembered, and keeps the kernel's cache if and only if that very validator has
      been; the record is then the open's validator. If something greater has been set
      it is to try again, once. No other record changes. */
  lemma OpensExactly(dotdot: Ino, events: seq<Event>, k: nat, ino: Ino, v: nat)
    requires k < |events| && Opens(events[k], ino, v) && Enabled(At(dotdot, events, k), events[k])
    ensures var s, t, u := At(dotdot, events, k), events[k].t, At(dotdot, events, k + 1);
            var result := OpenResultOf(s, t, ino, Some(v));
            && (ino !in s.records ==> result == OtherError)
            && (ino in s.records ==>
                  && (result.OpenOk? <==> NoneAbove(s.log, ino, |s.log|, v))
                  && (result.OpenOk? ==> (result.keepCache <==> SetTo(s.log, ino, |s.log|, v)))
                  && (result == TryAgain <==> !NoneAbove(s.log, ino, |s.log|, v) && t !in s.retrying)
                  && (result == Estale <==> !NoneAbove(s.log, ino, |s.log|, v) && t in s.retrying))
            && (if result.OpenOk? then
                  && u.log == s.log + [Opened(ino, v, result.keepCache)]
                  && u.records == s.records[ino := s.records[ino].(validator := v)]
                else u.log == s.log && u.records == s.records)
            && (t in u.retrying <==> result == TryAgain)
  {
    AtOk(dotdot, events, k);
    AtNext(dotdot, events, k);
    var s := At(dotdot, events, k);
    hide At, Set, Sound, AllCoherent, ReadsTrack, NoneAbove, SetTo;
    if ino in s.records {
      InOrderExactly(s, ino, v);
      if s.records[ino].validator <= v {
        KeepsExactly(s.log, s.records, ino, v);
      }
    }
  }

  /** A validator is in order if and only if none greater has been set. */
  lemma InOrderExactly(s: State, ino: Ino, v: nat)
    requires Tracks(s.log, s.records) && ino in s.records && ino != 1
    ensures s.records[ino].validator <= v <==> NoneAbove(s.log, ino, |s.log|, v)
    ensures s.records[ino].validator == v ==> SetTo(s.log, ino, |s.log|, v)
    ensures SetTo(s.log, ino, |s.log|, v) ==> v <= s.records[ino].validator
  {
    SetIsBefore(s.log, ino);
    hide Set;
    assert NoneAbove(s.log, ino, |s.log|, s.records[ino].validator);
    var i: nat :| Set(s.log, ino, i, |s.log|) && s.log[i].validator == s.records[ino].validator;
  }

  /** A scan records a validator if and only if none greater has been set. */
  lemma ScansExactly(dotdot: Ino, events: seq<Event>, k: nat)
    requires k < |events| && events[k].Scanning? && events[k].ino != 1
    ensures var s, u, ino, v := At(dotdot, events, k), At(dotdot, events, k + 1), events[k].ino, events[k].validator;
            if ino in s.records && NoneAbove(s.log, ino, |s.log|, v) then
              && u.log == s.log + [Recorded(ino, v)]
              && u.records == s.records[ino := s.records[ino].(validator := v)]
            else u.log == s.log && u.records == s.records
  {
    AtOk(dotdot, events, k);
    AtNext(dotdot, events, k);
    var s, ino := At(dotdot, events, k), events[k].ino;
    hide At, Set, Sound, AllCoherent, ReadsTrack, NoneAbove, SetTo;
    if ino in s.records {
      InOrderExactly(s, ino, events[k].validator);
    }
  }

  /** A lookup that first remembers an ino sets its validator, any other leaves it; a
      forget drops it from history exactly with its record. */
  lemma LookupsExactly(dotdot: Ino, events: seq<Event>, k: nat)
    requires k < |events| && (events[k].Looking? || events[k].Forgetting?) && Enabled(At(dotdot, events, k), events[k])
    ensures var s, u, ino := At(dotdot, events, k), At(dotdot, events, k + 1), events[k].ino;
            && (forall i :: i in s.records && i in u.records ==> u.records[i].validator == s.records[i].validator)
            && (events[k].Looking? ==> ino in u.records)
            && (if ino !in s.records && ino in u.records then
                  u.log == s.log + [Looked(ino, events[k].validator)] && u.records[ino].validator == events[k].validator
                else if ino in s.records && ino !in u.records then u.log == s.log + [Dropped(ino)]
                else u.log == s.log)
  {
    AtNext(dotdot, events, k);
    hide At;
  }

  // ------------------------------------------------- reads

  /** While an ino is remembered its record never goes back. */
  lemma RecordGrows(s: State, e: Event, ino: Ino)
    requires ino in s.records && ino in Apply(s, e).records
    ensures s.records[ino].validator <= Apply(s, e).records[ino].validator
  {
    hide MayRemember, MayForget, BookRemember, BookForget, ChunksOf;
  }

  lemma {:induction false} RecordGrowsSince(dotdot: Ino, events: seq<Event>, ino: Ino, j: nat, k: nat)
    requires j <= k <= |events| && forall m :: j <= m <= k ==> ino in At(dotdot, events, m).records
    ensures At(dotdot, events, j).records[ino].validator <= At(dotdot, events, k).records[ino].validator
    decreases k
  {
    hide At, Apply;
    if j < k {
      RecordGrowsSince(dotdot, events, ino, j, k - 1);
      AtNext(dotdot, events, k - 1);
      RecordGrows(At(dotdot, events, k - 1), events[k - 1], ino);
    }
  }

  predicate Ends(e: Event, t: nat) {
    e.EndingRead? && e.t == t
  }

  /** What a read noted stays until it ends. */
  lemma ReadingStays(s: State, e: Event, t: nat)
    requires t in s.reading && t in s.began && !Ends(e, t)
    ensures var u := Apply(s, e); t in u.reading && u.reading[t] == s.reading[t] && t in u.began && u.began[t] == s.began[t]
  {
    hide MayRemember, MayForget, BookRemember, BookForget, ChunksOf, Remembered, Forgotten, Updated;
  }

  lemma {:induction false} ReadingStaysSince(dotdot: Ino, events: seq<Event>, t: nat, j: nat, k: nat)
    requires j <= k <= |events| && t in At(dotdot, events, j).reading && t in At(dotdot, events, j).began
    requires forall m :: j <= m < k ==> !Ends(events[m], t)
    ensures var s, u := At(dotdot, events, j), At(dotdot, events, k);
            t in u.reading && u.reading[t] == s.reading[t] && t in u.began && u.began[t] == s.began[t]
    decreases k
  {
    hide At, Apply;
    if j < k {
      ReadingStaysSince(dotdot, events, t, j, k - 1);
      AtNext(dotdot, events, k - 1);
      ReadingStays(At(dotdot, events, k - 1), events[k - 1], t);
    }
  }

  /** A read that begins notes the record of an ino that is remembered; it fails for any
      other. */
  lemma ReadsBeginExactly(dotdot: Ino, events: seq<Event>, k: nat)
    requires k < |events| && events[k].BeginningRead? && Enabled(At(dotdot, events, k), events[k])
    ensures var s, u, t, ino := At(dotdot, events, k), At(dotdot, events, k + 1), events[k].t, events[k].ino;
            if ino in s.records then u == s.(reading := s.reading[t := Read(ino, s.records[ino].validator)], began := s.began[t := |s.log|])
            else u == s
  {
    AtNext(dotdot, events, k);
    hide At;
  }

  lemma BeginStep(s: State, t: nat, ino: Ino)
    requires ino != 1 && t !in s.reading && ino in s.records
    ensures var u := Apply(s, BeginningRead(t, ino));
            && t in u.reading && u.reading[t] == Read(ino, s.records[ino].validator)
            && t in u.began && u.began[t] == |s.log|
  {
  }

  lemma EndStep(s: State, e: Event)
    requires e.EndingRead? && e.t in s.reading && e.t in s.began
    ensures var chunks := ChunksOf(s.reading[e.t].validator, e.chunk0, e.more, e.chunk1);
            Apply(s, e).log == if chunks.None? then s.log else s.log + [ReadDone(s.reading[e.t].ino, s.began[e.t], chunks.value)]
  {
    hide ChunksOf;
  }

  /** The first reply to be no older than v, of the two that are asked for. */
  predicate Takes(v: nat, replies: Replies, c: nat) {
    if replies.first.Some? && v <= replies.first.value then replies.first == Some(c)
    else replies.first.Some? && replies.noCache == Some(c) && v <= c
  }

  /** A read insists on what it noted: it has a chunk, or two, if and only if each is to
      be had, and then they are the first replies that are not older. */
  lemma ChunksExactly(v: nat, chunk0: Replies, more: bool, chunk1: Replies)
    ensures var r := ChunksOf(v, chunk0, more, chunk1);
            && (r.Some? <==> (exists c :: Takes(v, chunk0, c)) && (more ==> exists d :: Takes(v, chunk1, d)))
            && (r.Some? ==> && |r.value| == (if more then 2 else 1) && Takes(v, chunk0, r.value[0])
                            && (more ==> Takes(v, chunk1, r.value[1])))
  {
    AcceptedExactly(v, chunk0);
    AcceptedExactly(v, chunk1);
    hide Takes, Accepted;
  }

  lemma AcceptedExactly(v: nat, replies: Replies)
    ensures var r := Accepted(v, replies);
            && (r.Some? <==> exists c :: Takes(v, replies, c))
            && (r.Some? ==> Takes(v, replies, r.value))
  {
    if Accepted(v, replies).Some? {
      assert Takes(v, replies, Accepted(v, replies).value);
    }
  }

  /** Over the events of any run: if an open of an ino has succeeded with validator v and
      the ino has been remembered ever since, then a read of it that begins later notes
      the record, which is no less than v, returns nothing older when it ends, however the
      caches answer it, and leaves in history when it began. */
  lemma ReadsSeeOpens(dotdot: Ino, events: seq<Event>, a: nat, b: nat, c: nat, t: nat, ino: Ino, v: nat)
    requires a < b < c < |events|
    requires Opens(events[a], ino, v) && Enabled(At(dotdot, events, a), events[a])
    requires OpenResultOf(At(dotdot, events, a), events[a].t, ino, Some(v)).OpenOk?
    requires forall k :: a < k <= b ==> ino in At(dotdot, events, k).records
    requires events[b] == BeginningRead(t, ino) && t !in At(dotdot, events, b).reading
    requires Ends(events[c], t) && forall k :: b < k < c ==> !Ends(events[k], t)
    ensures var began, now, e := At(dotdot, events, b), At(dotdot, events, c), events[c];
            && v <= began.records[ino].validator
            && t in now.reading && now.reading[t] == Read(ino, began.records[ino].validator)
            && var chunks := ChunksOf(began.records[ino].validator, e.chunk0, e.more, e.chunk1);
            && (chunks.Some? ==> forall k :: 0 <= k < |chunks.value| ==> v <= chunks.value[k])
            && At(dotdot, events, c + 1).log
               == if chunks.None? then now.log else now.log + [ReadDone(ino, |began.log|, chunks.value)]
  {
    OpensExactly(dotdot, events, a, ino, v);
    var e := events[c];
    hide At, Apply, Takes, ChunksOf, OpenResultOf, NoneAbove, SetTo;
    assert At(dotdot, events, a + 1).records[ino].validator == v;
    RecordGrowsSince(dotdot, events, ino, a + 1, b);
    AtNext(dotdot, events, b);
    BeginStep(At(dotdot, events, b), t, ino);
    ReadingStaysSince(dotdot, events, t, b + 1, c);
    AtNext(dotdot, events, c);
    EndStep(At(dotdot, events, c), e);
    var noted := At(dotdot, events, b).records[ino].validator;
    ChunksExactly(noted, e.chunk0, e.more, e.chunk1);
    TakenIsNew(noted, e.chunk0, e.more, e.chunk1);
  }

  lemma TakenIsNew(v: nat, chunk0: Replies, more: bool, chunk1: Replies)
    ensures var r := ChunksOf(v, chunk0, more, chunk1); r.Some? ==> forall k :: 0 <= k < |r.value| ==> v <= r.value[k]
  {
  }
}
