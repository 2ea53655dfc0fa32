/** What one call leaves behind for the calls after it, in every run of the disk cache. */
module DiskStores {
  import opened DiskRefresh
  import opened Wrappers

  ghost function At(events: seq<Event>, k: nat): Memory
    requires k <= |events|
  {
    After(NOTHING, events[..k])
  }

  lemma AtNext(events: seq<Event>, k: nat)
    requires k < |events|
    ensures At(events, k + 1) == Apply(At(events, k), events[k])
  {
    hide Apply;
    assert events[..k + 1][..k] == events[..k];
  }

  // ------------------------------------------------- the three decisions, in words

  /** Expired by less than its stale-while-revalidate time, lengthened by the option, and
      by less than max-stale if that is given. */
  predicate StaleEnough(req: Request, r: Reply, now: int) {
    && now - r.expires < r.swr + req.pastSwr * SECOND
    && (req.maxStale.Some? ==> now - r.expires < req.maxStale.value * SECOND)
  }

  lemma DecidesExactly(req: Request, r: Reply, now: int)
    ensures Decide(req, r, now) == Hit <==> !req.noCache && now < r.expires
    ensures Decide(req, r, now) == Stale <==> !req.noCache && r.expires <= now && StaleEnough(req, r, now)
    ensures Decide(req, r, now) == Must <==> req.noCache || (r.expires <= now && !StaleEnough(req, r, now))
  {
  }

  /** The call asks upstream, and not because it is merely out of date: it is not to be
      had from the cache, the mount is not content with a usable reply, and the reply has
      not become fresh meanwhile. */
  predicate GoesUpstream(req: Request, v: Look) {
    && (req.noCache || (v.found.expires <= v.now && !StaleEnough(req, v.found, v.now)))
    && !(v.offline && v.found.valid && v.now - v.found.expires <= req.staleIfError * SECOND)
    && (req.noCache || !(v.found.valid && v.x.asked < v.found.expires))
  }

  lemma GoesUpstreamExactly(req: Request, v: Look)
    ensures GoesUpstream(req, v) <==> Asks(req, v) && Exchanges(req, v.found, v.x)
  {
    DecidesExactly(req, v.found, v.now);
  }

  /** The etag that goes with the request, which is that of a valid reply in hand. */
  function EtagSent(req: Request, r: Reply): Option<nat> {
    if req.noCache || !r.valid || r.etag == 0 then None else Some(r.etag)
  }

  /** What an answer makes of a reply: a 200 replaces it, a 304 only gives it new times. */
  function AnswerTo(r: Reply, a: Answer, at: int): Reply {
    match a
    case Ok(content, etag, age, maxAge, swr, _) => Reply(true, content, etag, at - age * SECOND + maxAge * SECOND, at - age * SECOND, swr * SECOND)
    case NotModified(age, maxAge, swr) => Reply(r.valid, r.content, r.etag, at - age * SECOND + maxAge * SECOND, at - age * SECOND, swr * SECOND)
    case NoAnswer => r
  }

  /** An answer that is one: connected, with content that its checksum fits, or a 304 to
      an etag. */
  predicate Answers(req: Request, r: Reply, x: Exchange) {
    !x.disconnected &&
    match x.answer
    case Ok(_, _, _, _, _, sumOk) => sumOk
    case NotModified(_, _, _) => EtagSent(req, r).Some?
    case NoAnswer => false
  }

  /** An exchange that was answered is recorded, and its reply is stored. */
  lemma ExchangedExactly(m: Memory, req: Request, r: Reply, x: Exchange)
    requires Exchanges(req, r, x) && Answers(req, r, x)
    ensures Exchanged(m, req, r, x)
            == Memory(m.supplied + [Supply(req.url, EtagSent(req, r), x.answer, x.at)],
                      m.written + {(req.url, AnswerTo(r, x.answer, x.at))}, m.jobs)
  {
  }

  /** One that was not leaves at most its record. */
  lemma UnansweredStoresNothing(m: Memory, req: Request, r: Reply, x: Exchange)
    requires Exchanges(req, r, x) && !Answers(req, r, x) && (x.answer.NotModified? ==> EtagSent(req, r).Some?)
    ensures Exchanged(m, req, r, x)
            == m.(supplied := if x.disconnected then m.supplied else m.supplied + [Supply(req.url, EtagSent(req, r), x.answer, x.at)])
  {
  }

  /** No staler than stale-if-error. */
  predicate WithinError(req: Request, r: Reply, now: int) {
    r.valid && now - r.expires <= req.staleIfError * SECOND
  }

  /** A call throws if and only if the cache has nothing to return, what upstream gave is
      no answer or cannot be stored, and there is no reply within stale-if-error both
      before and after that. */
  lemma ThrowsExactly(m: Memory, req: Request, v: Look)
    requires Sound(m, req, v)
    ensures Result(req, v).None? <==>
              && (req.noCache || (v.found.expires <= v.now && !StaleEnough(req, v.found, v.now)))
              && !(v.offline && WithinError(req, v.found, v.now))
              && (v.storeThrows || (GoesUpstream(req, v) && !Answers(req, v.found, v.x)))
              && !(WithinError(req, v.found, v.now) && WithinError(req, v.again, v.later))
  {
    DecidesExactly(req, v.found, v.now);
    GoesUpstreamExactly(req, v);
    hide CanFind, Decide;
  }

  // ------------------------------------------------- storing

  lemma CalledStores(m: Memory, req: Request, v: Look)
    requires GoesUpstream(req, v) && Answers(req, v.found, v.x)
    ensures Called(m, req, v) == Exchanged(m, req, v.found, v.x)
    ensures Result(req, v) == if v.storeThrows then Result(req, v) else Some(AnswerTo(v.found, v.x.answer, v.x.at))
  {
    GoesUpstreamExactly(req, v);
  }

  /** What is written stays, and what was supplied and submitted before too. */
  lemma ApplyGrows(m: Memory, e: Event)
    ensures m.written <= Apply(m, e).written && m.supplied <= Apply(m, e).supplied
  {
    hide Soundly, Decide, Asks, Updated, Asked, Refused;
  }

  lemma {:induction false} WrittenStays(events: seq<Event>, j: nat, k: nat)
    requires j <= k <= |events|
    ensures At(events, j).written <= At(events, k).written && At(events, j).supplied <= At(events, k).supplied
    decreases k
  {
    hide Apply, At;
    if j < k {
      WrittenStays(events, j, k - 1);
      AtNext(events, k - 1);
      ApplyGrows(At(events, k - 1), events[k - 1]);
    }
  }

  /** A call that goes upstream and is answered stores the reply made of that answer: it
      can be found for its url from then on. The exchange is recorded, and the call
      returns that reply unless it cannot be stored. */
  lemma AnsweredCallIsStored(events: seq<Event>, k: nat, j: nat)
    requires k < j <= |events| && events[k].Call? && Sound(At(events, k), events[k].req, events[k].v)
    requires GoesUpstream(events[k].req, events[k].v) && Answers(events[k].req, events[k].v.found, events[k].v.x)
    ensures var req, v := events[k].req, events[k].v;
            var r := AnswerTo(v.found, v.x.answer, v.x.at);
            && (req.url, r) in At(events, j).written && CanFind(At(events, j), req.url, r)
            && At(events, k + 1).supplied == At(events, k).supplied + [Supply(req.url, EtagSent(req, v.found), v.x.answer, v.x.at)]
            && At(events, k + 1).written == At(events, k).written + {(req.url, r)}
            && At(events, k + 1).jobs == At(events, k).jobs
            && (!v.storeThrows ==>
                  EntryOf(At(events, k), events[k]) == Delivery(req, v, r, |At(events, k).supplied|, |At(events, k).supplied| + 1))
  {
    hide At, Called, Result, Exchanged, Sound, GoesUpstream, Answers, AnswerTo, EtagSent, Decide;
    var m, req, v := At(events, k), events[k].req, events[k].v;
    SoundlyIsSame(m, req, v);
    CalledStores(m, req, v);
    GoesUpstreamExactly(req, v);
    ExchangedExactly(m, req, v.found, v.x);
    AtNext(events, k);
    WrittenStays(events, k + 1, j);
    hide Soundly;
  }

  lemma SoundlyIsSame(m: Memory, req: Request, v: Look)
    requires Sound(m, req, v)
    ensures Soundly(m, req, v) == v
  {
  }

  /** So does a background refresh, whose job is then done. */
  lemma AnsweredJobIsStored(events: seq<Event>, k: nat, j: nat)
    requires k < j <= |events| && events[k].Job? && (events[k].req, events[k].copy) in At(events, k).jobs
    requires var e := events[k];
             Answers(e.req, e.copy, e.x) && (e.req.noCache || !(e.copy.valid && e.x.asked < e.copy.expires))
    ensures var e := events[k];
            var r := AnswerTo(e.copy, e.x.answer, e.x.at);
            && (e.req.url, r) in At(events, j).written && CanFind(At(events, j), e.req.url, r)
            && At(events, k + 1).supplied == At(events, k).supplied + [Supply(e.req.url, EtagSent(e.req, e.copy), e.x.answer, e.x.at)]
            && At(events, k + 1).jobs == At(events, k).jobs - {(e.req, e.copy)}
  {
    hide At, AnswerTo, Exchanged;
    var m, e := At(events, k), events[k];
    var eager, left := e.req.(maxStale := Some(0)), m.(jobs := m.jobs - {(e.req, e.copy)});
    assert Asked(e.req, e.copy, e.x);
    ExchangedExactly(left, eager, e.copy, e.x);
    AtNext(events, k);
    WrittenStays(events, k + 1, j);
  }

  // ------------------------------------------------- finding

  /** What the call reads of the world, with the file as it is. */
  ghost predicate Finds(m: Memory, e: Event, r: Reply) {
    e.Call? && e.v.found == r && CanFind(m, e.req.url, r)
  }

  lemma SoundlyFinds(m: Memory, e: Event, r: Reply)
    requires Finds(m, e, r)
    ensures var v := Soundly(m, e.req, e.v);
            && v.found == r && v.now == e.v.now && v.tooSoon == e.v.tooSoon && v.offline == e.v.offline
  {
  }

  /** A call that finds an unexpired reply, without no-cache, returns it and does nothing
      else. */
  lemma UnexpiredIsHit(events: seq<Event>, k: nat, r: Reply)
    requires k < |events| && Finds(At(events, k), events[k], r)
    requires !events[k].req.noCache && events[k].v.now < r.expires
    ensures var m, e := At(events, k), events[k];
            && At(events, k + 1) == m
            && EntryOf(m, e) == Delivery(e.req, Soundly(m, e.req, e.v), r, |m.supplied|, |m.supplied|)
  {
    var m, e := At(events, k), events[k];
    SoundlyFinds(m, e, r);
    AtNext(events, k);
    DecidesExactly(e.req, r, e.v.now);
    hide At, Soundly, Decide, Exchanged, Finds;
  }

  /** A call that finds one that is stale enough returns it, and a background refresh for
      that request and reply is submitted unless it is too soon or the mount is offline. */
  lemma StaleIsRevalidated(events: seq<Event>, k: nat, r: Reply)
    requires k < |events| && Finds(At(events, k), events[k], r)
    requires !events[k].req.noCache && r.expires <= events[k].v.now && StaleEnough(events[k].req, r, events[k].v.now)
    ensures var m, e := At(events, k), events[k];
            && At(events, k + 1) == (if e.v.tooSoon || e.v.offline then m else m.(jobs := m.jobs + {(e.req, r)}))
            && EntryOf(m, e) == Delivery(e.req, Soundly(m, e.req, e.v), r, |m.supplied|, |m.supplied|)
  {
    var m, e := At(events, k), events[k];
    SoundlyFinds(m, e, r);
    AtNext(events, k);
    DecidesExactly(e.req, r, e.v.now);
    hide At, Soundly, Decide, Exchanged, Finds, StaleEnough;
  }

  /** Offline, a reply no staler than stale-if-error will do. */
  lemma OfflineIsServed(events: seq<Event>, k: nat, r: Reply)
    requires k < |events| && Finds(At(events, k), events[k], r) && events[k].v.offline
    requires events[k].req.noCache || (r.expires <= events[k].v.now && !StaleEnough(events[k].req, r, events[k].v.now))
    requires r.valid && events[k].v.now - r.expires <= events[k].req.staleIfError * SECOND
    ensures var m, e := At(events, k), events[k];
            && At(events, k + 1) == m
            && EntryOf(m, e) == Delivery(e.req, Soundly(m, e.req, e.v), r, |m.supplied|, |m.supplied|)
  {
    var m, e := At(events, k), events[k];
    SoundlyFinds(m, e, r);
    AtNext(events, k);
    DecidesExactly(e.req, r, e.v.now);
    hide At, Soundly, Decide, Exchanged, Finds, StaleEnough;
  }

  /** So an answer serves until it expires: a later call for the url that finds it and is
      in time returns it, without another exchange. */
  lemma AnswerServes(events: seq<Event>, k: nat, j: nat)
    requires k < j < |events| && events[k].Call? && Sound(At(events, k), events[k].req, events[k].v)
    requires GoesUpstream(events[k].req, events[k].v) && Answers(events[k].req, events[k].v.found, events[k].v.x)
    requires events[j].Call? && events[j].req.url == events[k].req.url && !events[j].req.noCache
    requires var v := events[k].v;
             && events[j].v.found == AnswerTo(v.found, v.x.answer, v.x.at)
             && events[j].v.now < v.x.at - v.x.answer.age * SECOND + v.x.answer.maxAge * SECOND
    ensures var m, e := At(events, j), events[j];
            && At(events, j + 1) == m
            && EntryOf(m, e) == Delivery(e.req, Soundly(m, e.req, e.v), e.v.found, |m.supplied|, |m.supplied|)
  {
    var v := events[k].v;
    AnswerExpires(v.found, v.x.answer, v.x.at);
    hide At, Soundly, Sound, GoesUpstream, EntryOf, AnswerTo;
    AnsweredCallIsStored(events, k, j);
    UnexpiredIsHit(events, j, events[j].v.found);
  }

  lemma AnswerExpires(r: Reply, a: Answer, at: int)
    requires !a.NoAnswer?
    ensures AnswerTo(r, a, at).expires == at - a.age * SECOND + a.maxAge * SECOND
  {
  }
}
