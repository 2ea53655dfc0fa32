/** The freshness state machine of the disk cache, over the HTTP backend below it. */
module DiskRefresh {
  import opened Wrappers

  type Url = string

  /** Times are nanoseconds since the epoch; the options and headers are in seconds. */
  const SECOND := 1_000_000_000

  datatype Reply = Reply(valid: bool, content: string, etag: nat, expires: int, lastRefresh: int, swr: int)

  /** What deserialize returns when there is nothing to return: reply123's default. */
  const NO_REPLY := Reply(false, "", 0, 0, 0, 0)

  datatype Request = Request(url: Url, staleIfError: int, pastSwr: int, maxStale: Option<int>, noCache: bool)

  /** What comes of one exchange with upstream: status 200, whose checksum may not
      match; status 304; or anything else, which throws before the reply is touched. */
  datatype Answer =
    | Ok(content: string, etag: nat, age: int, maxAge: int, swr: int, sumOk: bool)
    | NotModified(age: int, maxAge: int, swr: int)
    | NoAnswer

  /** One exchange, as history: `inm` is the etag sent with If-None-Match. */
  datatype Supply = Supply(url: Url, inm: Option<nat>, answer: Answer, at: int)

  predicate Fresh(r: Reply, now: int) {
    r.valid && now < r.expires
  }

  /** set_times, and the same three assignments on a 304. */
  function Timed(r: Reply, at: int, age: int, maxAge: int, swr: int): Reply {
    r.(lastRefresh := at - age * SECOND, expires := at - age * SECOND + maxAge * SECOND, swr := swr * SECOND)
  }

  /** The etag to send with If-None-Match, if any. */
  function Inm(req: Request, r: Reply): Option<nat> {
    if r.valid && !req.noCache && r.etag != 0 then Some(r.etag) else None
  }

  /** A reply123 of the caller's that a callee fills in. */
  class Slot {
    var r: Reply

    constructor (r: Reply)
      ensures this.r == r
    {
      this.r := r;
    }
  }

  /** The readings an HTTP refresh takes of the world. */
  datatype Exchange = Exchange(disconnected: bool, asked: int, answer: Answer, at: int)

  datatype HttpResult = Replaced | Unchanged | Threw

  /** The exchange ends in a throw. */
  predicate Fails(x: Exchange) {
    x.disconnected || x.answer.NoAnswer? || (x.answer.Ok? && !x.answer.sumOk)
  }

  /** The reply an answer makes of the one in hand. */
  function Updated(r: Reply, x: Exchange): Reply {
    match x.answer
    case Ok(content, etag, age, maxAge, swr, _) => Timed(Reply(true, content, etag, 0, 0, 0), x.at, age, maxAge, swr)
    case NotModified(age, maxAge, swr) => Timed(r, x.at, age, maxAge, swr)
    case NoAnswer => r
  }

  /** What the exchange adds to history. */
  function Supplies(req: Request, r: Reply, x: Exchange): seq<Supply> {
    if x.disconnected then [] else [Supply(req.url, Inm(req, r), x.answer, x.at)]
  }

  class Http {
    /** Every exchange so far. */
    var supplied: seq<Supply>

    constructor ()
      ensures supplied == []
    {
      supplied := [];
    }

    /** True with fresh data in the slot, false with the same content in it, or a
        throw, which may leave anything there. */
    method Refresh(req: Request, slot: Slot, x: Exchange) returns (result: HttpResult)
      modifies this, slot
      ensures !req.noCache && Fresh(old(slot.r), x.asked) ==>
                result == Unchanged && slot.r == old(slot.r) && supplied == old(supplied)
      ensures req.noCache || !Fresh(old(slot.r), x.asked) ==>
                && supplied == old(supplied) + Supplies(req, old(slot.r), x)
                && (result == Threw <==> Fails(x))
                && (result == Replaced <==> !Fails(x) && x.answer.Ok?)
                && (!Fails(x) ==> slot.r == Updated(old(slot.r), x))
    {
      if !req.noCache && Fresh(slot.r, x.asked) {
        return Unchanged;
      }
      if x.disconnected {
        return Threw;
      }
      supplied := supplied + [Supply(req.url, Inm(req, slot.r), x.answer, x.at)];
      match x.answer {
        case NoAnswer => return Threw;
        case NotModified(age, maxAge, swr) =>
          slot.r := slot.r.(lastRefresh := x.at - age * SECOND);
          slot.r := slot.r.(expires := slot.r.lastRefresh + maxAge * SECOND);
          slot.r := slot.r.(swr := swr * SECOND);
          return Unchanged;
        case Ok(content, etag, age, maxAge, swr, sumOk) =>
          slot.r := Timed(Reply(true, content, etag, 0, 0, 0), x.at, age, maxAge, swr);
          if !sumOk {
            return Threw;
          }
          return Replaced;
      }
    }
  }

  // ---------------------------------------------------- where replies come from

  predicate SameTimes(r: Reply, s: Supply) {
    !s.answer.NoAnswer? &&
      var age, maxAge, swr := s.answer.age, s.answer.maxAge, s.answer.swr;
      && r.lastRefresh == s.at - age * SECOND && r.expires == s.at - age * SECOND + maxAge * SECOND
      && r.swr == swr * SECOND
  }

  /** Exchange `i` supplied the content, and exchange `j`, itself or a later answer
      that this very etag is still good, supplied the times. */
  predicate SuppliedAt(supplied: seq<Supply>, url: Url, r: Reply, i: nat, j: nat) {
    && i <= j < |supplied| && supplied[i].url == url && supplied[j].url == url
    && supplied[i].answer.Ok? && supplied[i].answer.sumOk
    && r.valid && r.content == supplied[i].answer.content && r.etag == supplied[i].answer.etag
    && SameTimes(r, supplied[j])
    && (i == j || (supplied[j].answer.NotModified? && supplied[j].inm == Some(r.etag)))
  }

  ghost predicate Genuine(supplied: seq<Supply>, url: Url, r: Reply) {
    exists i: nat, j: nat :: SuppliedAt(supplied, url, r, i, j)
  }

  lemma GenuineStays(supplied: seq<Supply>, more: seq<Supply>, url: Url, r: Reply)
    requires Genuine(supplied, url, r) && supplied <= more
    ensures Genuine(more, url, r)
  {
    hide SameTimes;
    var i: nat, j: nat :| SuppliedAt(supplied, url, r, i, j);
    assert SuppliedAt(more, url, r, i, j);
  }

  lemma GenuineFromOk(supplied: seq<Supply>, s: Supply)
    requires s.answer.Ok? && s.answer.sumOk
    ensures var a := s.answer;
            Genuine(supplied + [s], s.url, Timed(Reply(true, a.content, a.etag, 0, 0, 0), s.at, a.age, a.maxAge, a.swr))
  {
    var a, n := s.answer, |supplied|;
    assert (supplied + [s])[n] == s;
    assert SuppliedAt(supplied + [s], s.url, Timed(Reply(true, a.content, a.etag, 0, 0, 0), s.at, a.age, a.maxAge, a.swr), n, n);
  }

  lemma GenuineRevalidated(supplied: seq<Supply>, s: Supply, r: Reply)
    requires s.answer.NotModified? && s.inm == Some(r.etag) && Genuine(supplied, s.url, r)
    ensures Genuine(supplied + [s], s.url, Timed(r, s.at, s.answer.age, s.answer.maxAge, s.answer.swr))
  {
    var t := Timed(r, s.at, s.answer.age, s.answer.maxAge, s.answer.swr);
    var i: nat, j: nat :| SuppliedAt(supplied, s.url, r, i, j);
    assert SameTimes(t, s);
    hide SameTimes, Timed;
    assert (supplied + [s])[|supplied|] == s && (supplied + [s])[i] == supplied[i];
    assert t.content == r.content && t.etag == r.etag && t.valid == r.valid by { TimedKeeps(r, s.at, s.answer.age, s.answer.maxAge, s.answer.swr); }
    assert SuppliedAt(supplied + [s], s.url, t, i, |supplied|);
  }

  lemma TimedKeeps(r: Reply, at: int, age: int, maxAge: int, swr: int)
    ensures var t := Timed(r, at, age, maxAge, swr); t.content == r.content && t.etag == r.etag && t.valid == r.valid
  {
  }

  /** Upstream answers 304 only to If-None-Match. */
  predicate Asked(req: Request, r: Reply, x: Exchange) {
    x.answer.NotModified? ==> Inm(req, r).Some?
  }

  ghost predicate Known(supplied: seq<Supply>, url: Url, r: Reply) {
    r == NO_REPLY || Genuine(supplied, url, r)
  }

  lemma GenuineUpdated(supplied: seq<Supply>, req: Request, r: Reply, x: Exchange)
    requires Known(supplied, req.url, r) && Asked(req, r, x) && !Fails(x)
    ensures Genuine(supplied + Supplies(req, r, x), req.url, Updated(r, x))
  {
    hide Genuine, Timed;
    var s := Supply(req.url, Inm(req, r), x.answer, x.at);
    if x.answer.Ok? {
      GenuineFromOk(supplied, s);
    } else {
      GenuineRevalidated(supplied, s, r);
    }
  }

  // ---------------------------------------------------- the disk cache

  datatype Decision = Hit | Stale | Must

  /** How stale a reply may be and still be returned while it is revalidated. */
  function Allowance(req: Request, r: Reply): int {
    var swr := r.swr + req.pastSwr * SECOND;
    if req.maxStale.Some? && req.maxStale.value * SECOND < swr then req.maxStale.value * SECOND else swr
  }

  function Decide(req: Request, r: Reply, now: int): Decision {
    if req.noCache then Must
    else if r.expires - now > 0 then Hit
    else if r.expires - now > -Allowance(req, r) then Stale
    else Must
  }

  predicate Usable(req: Request, r: Reply, now: int) {
    r.valid && req.staleIfError * SECOND >= now - r.expires
  }

  /** All that one refresh call reads of the world: the file it finds, the time, the
      suppressor, the two readings of `disconnected` and the exchange, whether
      serialize throws, and, after a throw, the file and the time again. */
  datatype Look = Look(found: Reply, now: int, tooSoon: bool, offline: bool, x: Exchange, storeThrows: bool, again: Reply, later: int)

  datatype Outcome = Returned | Thrown

  /** What a cache remembers: every exchange below it; every reply handed to serialize,
      by url, which is what a later deserialize may find; and the background refreshes
      handed to the thread pool. */
  datatype Memory = Memory(supplied: seq<Supply>, written: set<(Url, Reply)>, jobs: set<(Request, Reply)>)

  const NOTHING := Memory([], {}, {})

  /** Deserialize finds nothing, or something written for that url. */
  predicate CanFind(m: Memory, url: Url, r: Reply) {
    r == NO_REPLY || (url, r) in m.written
  }

  /** The call goes to the network. */
  predicate Exchanges(req: Request, r: Reply, x: Exchange) {
    req.noCache || !Fresh(r, x.asked)
  }

  /** Upstream's answer is no reply to this request. */
  predicate Refused(req: Request, x: Exchange) {
    Fails(x) || (x.answer.NotModified? && req.noCache)
  }

  /** Upstream is no help: the exchange fails, or what it gave cannot be stored. */
  predicate Broken(req: Request, v: Look) {
    (Exchanges(req, v.found, v.x) && Refused(req, v.x)) || v.storeThrows
  }

  /** What upstream makes of the stored reply, which is left alone if it is fresh by the
      time that upstream is asked. */
  function Answered(req: Request, v: Look): Reply {
    if Exchanges(req, v.found, v.x) then Updated(v.found, v.x) else v.found
  }

  /** The stored reply was usable before the exchange and still is after it. */
  predicate Rescued(req: Request, v: Look) {
    Usable(req, v.found, v.now) && Usable(req, v.again, v.later)
  }

  /** The stored reply will not do, and there is an upstream to ask. */
  predicate Asks(req: Request, v: Look) {
    Decide(req, v.found, v.now) == Must && !(v.offline && Usable(req, v.found, v.now))
  }

  // ---------------------------------------------------- what the operations do

  /** upstream_refresh, from a reply in hand, when it asks. */
  function Exchanged(m: Memory, req: Request, r: Reply, x: Exchange): Memory {
    if !Exchanges(req, r, x) then m.(written := m.written + {(req.url, r)})
    else m.(supplied := m.supplied + Supplies(req, r, x),
            written := if Refused(req, x) then m.written else m.written + {(req.url, Updated(r, x))})
  }

  function Called(m: Memory, req: Request, v: Look): Memory {
    match Decide(req, v.found, v.now)
    case Hit => m
    case Stale => if v.tooSoon || v.offline then m else m.(jobs := m.jobs + {(req, v.found)})
    case Must => if Asks(req, v) then Exchanged(m, req, v.found, v.x) else m
  }

  /** What a call returns; None is a throw. */
  function Result(req: Request, v: Look): Option<Reply> {
    if !Asks(req, v) then Some(v.found)
    else if !Broken(req, v) then Some(Answered(req, v))
    else if Rescued(req, v) then Some(v.again)
    else None
  }

  /** A background refresh, which insists on something fresh. */
  function Refreshed(m: Memory, req: Request, copy: Reply, x: Exchange): Memory {
    Exchanged(m.(jobs := m.jobs - {(req, copy)}), req.(maxStale := Some(0)), copy, x)
  }

  // ---------------------------------------------------- what they keep

  /** Everything on disk and in the thread pool is what upstream supplied. */
  ghost predicate AllGenuine(m: Memory) {
    && (forall w :: w in m.written ==> Genuine(m.supplied, w.0, w.1))
    && (forall j :: j in m.jobs ==> Known(m.supplied, j.0.url, j.1))
  }

  /** An upstream refresh stores only what upstream supplied for that url. */
  lemma ExchangedOk(m: Memory, req: Request, r: Reply, x: Exchange)
    requires AllGenuine(m) && Known(m.supplied, req.url, r) && Asked(req, r, x)
    ensures var m' := Exchanged(m, req, r, x);
            && AllGenuine(m') && m.supplied <= m'.supplied
            && (Exchanges(req, r, x) && !Refused(req, x) ==> Genuine(m'.supplied, req.url, Updated(r, x)))
  {
    var m' := Exchanged(m, req, r, x);
    hide Genuine, Updated, Supplies;
    if Exchanges(req, r, x) && !Refused(req, x) {
      GenuineUpdated(m.supplied, req, r, x);
    }
    forall w | w in m.written ensures Genuine(m'.supplied, w.0, w.1) {
      GenuineStays(m.supplied, m'.supplied, w.0, w.1);
    }
    forall j | j in m.jobs ensures Known(m'.supplied, j.0.url, j.1) {
      if j.1 != NO_REPLY {
        GenuineStays(m.supplied, m'.supplied, j.0.url, j.1);
      }
    }
  }

  /** What a call reads is possible: its files are ones that can be found then, and
      upstream answers what it was asked. Its clock may do anything. */
  predicate Sound(m: Memory, req: Request, v: Look) {
    && CanFind(m, req.url, v.found) && Asked(req, v.found, v.x)
    && (CanFind(m, req.url, v.again) || (!(Exchanges(req, v.found, v.x) && Refused(req, v.x)) && v.again == Answered(req, v)))
  }

  /** What refresh may return: this call's answer, or the stored content if the answer
      is 304; or, unless the request says no-cache, a stored reply that is unexpired, or
      no staler than is allowed, or unexpired when upstream was to be asked; or, if upstream is no help or the mount is disconnected,
      a stored reply that is no staler than stale-if-error. */
  predicate Allowed(req: Request, v: Look, r: Reply, news: seq<Supply>) {
    || (|news| == 1 && news[0].url == req.url && FromAnswer(news[0].answer, v.found, r) && SameTimes(r, news[0]))
    || (!req.noCache && v.now < r.expires)
    || (!req.noCache && v.now - r.expires < r.swr + req.pastSwr * SECOND
        && (req.maxStale.Some? ==> v.now - r.expires < req.maxStale.value * SECOND))
    || (!req.noCache && r.valid && v.x.asked < r.expires)
    || (v.offline && r.valid && v.now - r.expires <= req.staleIfError * SECOND)
    || (Broken(req, v) && r.valid && v.later - r.expires <= req.staleIfError * SECOND)
  }

  /** The content is the one in a 200, or, on a 304, the one in the file. */
  predicate FromAnswer(a: Answer, found: Reply, r: Reply) {
    match a
    case Ok(content, etag, _, _, _, sumOk) => sumOk && r.valid && r.content == content && r.etag == etag
    case NotModified(_, _, _) => r.valid == found.valid && r.content == found.content && r.etag == found.etag
    case NoAnswer => false
  }

  lemma CalledOk(m: Memory, req: Request, v: Look)
    requires AllGenuine(m) && Sound(m, req, v)
    ensures AllGenuine(Called(m, req, v)) && m.supplied <= Called(m, req, v).supplied
    ensures Result(req, v).Some? ==> Known(Called(m, req, v).supplied, req.url, Result(req, v).value)
  {
    hide Genuine, Updated, Supplies, Timed, Asked, Fails;
    ExchangedOk(m, req, v.found, v.x);
    if v.again != NO_REPLY && (req.url, v.again) in m.written {
      GenuineStays(m.supplied, Exchanged(m, req, v.found, v.x).supplied, req.url, v.again);
    }
  }

  /** What a call returns is genuine and allowed; it is an invalid reply exactly when
      none was found and the request puts up with that. */
  lemma CallIsRight(m: Memory, req: Request, v: Look)
    requires AllGenuine(m) && Sound(m, req, v) && Result(req, v).Some?
    ensures var m', r := Called(m, req, v), Result(req, v).value;
            && (r == NO_REPLY || Genuine(m'.supplied, req.url, r))
            && (r == NO_REPLY <==> v.found == NO_REPLY && Decide(req, NO_REPLY, v.now) != Must)
            && m.supplied <= m'.supplied && Allowed(req, v, r, m'.supplied[|m.supplied|..])
  {
    CalledOk(m, req, v);
    if Asks(req, v) && !Broken(req, v) {
      ValidAnswered(m, req, v);
    }
    hide Genuine;
    var m' := Called(m, req, v);
    if Asks(req, v) && !Broken(req, v) && Exchanges(req, v.found, v.x) {
      assert m'.supplied[|m.supplied|..] == Supplies(req, v.found, v.x);
    } else if !Asks(req, v) || !Exchanges(req, v.found, v.x) {
      assert m'.supplied[|m.supplied|..] == [];
    }
  }

  lemma ValidAnswered(m: Memory, req: Request, v: Look)
    requires AllGenuine(m) && Sound(m, req, v) && Asks(req, v) && !Broken(req, v)
    ensures Answered(req, v).valid
  {
    assert v.found != NO_REPLY ==> Genuine(m.supplied, req.url, v.found);
  }

  lemma RefreshedOk(m: Memory, req: Request, copy: Reply, x: Exchange)
    requires AllGenuine(m) && (req, copy) in m.jobs && Asked(req, copy, x)
    ensures AllGenuine(Refreshed(m, req, copy, x)) && m.supplied <= Refreshed(m, req, copy, x).supplied
  {
    hide Genuine, Exchanged;
    ExchangedOk(m.(jobs := m.jobs - {(req, copy)}), req.(maxStale := Some(0)), copy, x);
  }

  // ---------------------------------------------------- the disk cache

  class DiskCache {
    const upstream: Http
    var written: set<(Url, Reply)>
    var jobs: set<(Request, Reply)>

    constructor (upstream: Http)
      ensures this.upstream == upstream && written == {} && jobs == {}
    {
      this.upstream := upstream;
      written, jobs := {}, {};
    }

    function Now(): Memory
      reads this, upstream
    {
      Memory(upstream.supplied, written, jobs)
    }

    ghost predicate Valid()
      reads this, upstream
    {
      AllGenuine(Now())
    }

    /** upstream_refresh, and do_serialize, which is the same step on this thread or
        another: the reply may be found from then on. */
    method UpstreamRefresh(req: Request, slot: Slot, offline: bool, usable: bool, x: Exchange, storeThrows: bool) returns (threw: bool)
      modifies `written, upstream, slot
      ensures offline && usable ==> !threw && slot.r == old(slot.r) && Now() == old(Now())
      ensures !(offline && usable) ==>
                && Now() == Exchanged(old(Now()), req, old(slot.r), x)
                && (threw <==> storeThrows || (Exchanges(req, old(slot.r), x) && Refused(req, x)))
      ensures !(offline && usable) && !threw ==>
                slot.r == if Exchanges(req, old(slot.r), x) then Updated(old(slot.r), x) else old(slot.r)
    {
      if offline && usable {
        return false;
      }
      var result := upstream.Refresh(req, slot, x);
      if result == Threw || (result == Unchanged && req.noCache) {
        return true;
      }
      written := written + {(req.url, slot.r)};
      return storeThrows;
    }

    /** maybe_bg_upstream_refresh. */
    method MaybeBackground(req: Request, slot: Slot, tooSoon: bool, offline: bool)
      modifies `jobs
      ensures jobs == if tooSoon || offline then old(jobs) else old(jobs) + {(req, slot.r)}
    {
      if tooSoon {
        return;
      }
      if offline {
        return;
      }
      jobs := jobs + {(req, slot.r)};
    }

    /** The call that the file system makes. */
    method Refresh(req: Request, slot: Slot, v: Look) returns (outcome: Outcome)
      requires Valid() && Sound(Now(), req, v)
      modifies this, upstream, slot
      ensures Valid() && Now() == Called(old(Now()), req, v)
      ensures outcome == Returned <==> Result(req, v).Some?
      ensures outcome == Returned ==> slot.r == Result(req, v).value
    {
      CalledOk(Now(), req, v);
      hide AllGenuine, Updated, Supplies, Fails, Asked, CanFind;
      slot.r := v.found;
      var decision := Decide(req, slot.r, v.now);
      match decision {
        case Hit => return Returned;
        case Stale =>
          MaybeBackground(req, slot, v.tooSoon, v.offline);
          return Returned;
        case Must =>
          var usable := Usable(req, slot.r, v.now);
          var threw := UpstreamRefresh(req, slot, v.offline, usable, v.x, v.storeThrows);
          if threw {
            if usable {
              slot.r := v.again;
              usable := Usable(req, slot.r, v.later);
            }
            if !usable {
              return Thrown;
            }
          }
          return Returned;
      }
    }

    /** detached_upstream_refresh, on a copy made when the job was submitted. */
    method Background(req: Request, copy: Reply, x: Exchange, storeThrows: bool)
      requires Valid() && (req, copy) in jobs && Asked(req, copy, x)
      modifies this, upstream
      ensures Valid() && Now() == Refreshed(old(Now()), req, copy, x)
    {
      RefreshedOk(Now(), req, copy, x);
      hide AllGenuine, Exchanged;
      jobs := jobs - {(req, copy)};
      var slot := new Slot(copy);
      var eager := req.(maxStale := Some(0));
      var _ := UpstreamRefresh(eager, slot, false, false, x, storeThrows);
    }
  }

  // ---------------------------------------------------- whole runs

  /** A 304 never answers a no-cache request: the throw for that cannot happen. */
  lemma NoCacheIsNeverConfused(req: Request, r: Reply, x: Exchange)
    requires Asked(req, r, x)
    ensures Refused(req, x) <==> Fails(x)
  {
  }

  /** What an upstream that answers 304 unasked would do to a cache with no reply: it
      makes an invalid reply look fresh, and later calls return it as a hit. */
  lemma OnlyAskedAnswersAreSafe(req: Request, x: Exchange)
    requires !Refused(req, x)
    ensures Updated(NO_REPLY, x).valid <==> Asked(req, NO_REPLY, x)
    ensures !Asked(req, NO_REPLY, x) && x.answer.age < x.answer.maxAge ==> Decide(req, Updated(NO_REPLY, x), x.at) == Hit
  {
  }

  datatype Event =
    | Call(req: Request, v: Look)
    | Job(req: Request, copy: Reply, x: Exchange, storeThrows: bool)

  /** The clock is past the stale-while-revalidate option. */
  predicate Sane(e: Event) {
    e.Call? ==> 0 <= e.v.now && Allowance(e.req, NO_REPLY) <= e.v.now
  }

  predicate AllSane(events: seq<Event>) {
    forall k :: 0 <= k < |events| ==> Sane(events[k])
  }

  /** The call with whatever it could not have read replaced: files that nobody wrote
      by none, and unasked 304s by no answer. */
  function Soundly(m: Memory, req: Request, v: Look): (u: Look)
    ensures Sound(m, req, u)
    ensures u == v.(found := u.found, x := u.x, again := u.again) && u.x == v.x.(answer := u.x.answer)
    ensures Sound(m, req, v) ==> u == v
  {
    var found := if CanFind(m, req.url, v.found) then v.found else NO_REPLY;
    var x := if Asked(req, found, v.x) then v.x else v.x.(answer := NoAnswer);
    var u := v.(found := found, x := x);
    var findable := CanFind(m, req.url, v.again) || (!(Exchanges(req, found, x) && Refused(req, x)) && v.again == Answered(req, u));
    v.(found := found, x := x, again := if findable then v.again else NO_REPLY)
  }

  function Apply(m: Memory, e: Event): Memory {
    match e
    case Call(req, w) => Called(m, req, Soundly(m, req, w))
    case Job(req, copy, x, _) => if (req, copy) in m.jobs && Asked(req, copy, x) then Refreshed(m, req, copy, x) else m
  }

  function After(m: Memory, events: seq<Event>): Memory {
    if events == [] then m else Apply(After(m, events[..|events| - 1]), events[|events| - 1])
  }

  /** What comes of an event: a call that returned, with the number of exchanges made
      before it and by its end; a call that threw; or a background refresh. */
  datatype Entry =
    | Delivery(req: Request, v: Look, r: Reply, before: nat, after: nat)
    | Failure(req: Request, v: Look)
    | Quiet

  function EntryOf(m: Memory, e: Event): Entry {
    match e
    case Call(req, w) =>
      var v := Soundly(m, req, w);
      (match Result(req, v)
       case Some(r) => Delivery(req, v, r, |m.supplied|, |Called(m, req, v).supplied|)
       case None => Failure(req, v))
    case Job(_, _, _, _) => Quiet
  }

  /** The reply is one that upstream supplied for the url, and is returned for one of
      the allowed reasons; a call throws exactly when it must ask, upstream is no help,
      and no usable reply remains. */
  ghost predicate Right(d: Entry, supplied: seq<Supply>) {
    match d
    case Delivery(req, v, r, before, after) =>
      && before <= after <= |supplied|
      && Genuine(supplied[..after], req.url, r) && Allowed(req, v, r, supplied[before..after])
      && !(Asks(req, v) && Broken(req, v) && !Rescued(req, v))
    case Failure(req, v) => Asks(req, v) && Broken(req, v) && !Rescued(req, v)
    case Quiet => true
  }

  lemma EntryIsRight(m: Memory, e: Event)
    requires AllGenuine(m) && Sane(e)
    ensures Right(EntryOf(m, e), Apply(m, e).supplied)
  {
    if e.Call? {
      var v := Soundly(m, e.req, e.v);
      InvalidIsAMiss(e.req, v.now);
      hide Genuine, Allowed, AllGenuine, Called, Sound, Soundly, Rescued, Broken;
      if Result(e.req, v).Some? {
        CallIsRight(m, e.req, v);
        var supplied := Called(m, e.req, v).supplied;
        assert supplied[..|supplied|] == supplied && supplied[|m.supplied|..|supplied|] == supplied[|m.supplied|..];
        ReturnedExactly(e.req, v);
      } else {
        ReturnedExactly(e.req, v);
      }
    }
  }

  lemma ReturnedExactly(req: Request, v: Look)
    ensures Result(req, v).None? <==> Asks(req, v) && Broken(req, v) && !Rescued(req, v)
  {
  }

  lemma ApplyOk(m: Memory, e: Event)
    requires AllGenuine(m) && Sane(e)
    ensures AllGenuine(Apply(m, e)) && m.supplied <= Apply(m, e).supplied
  {
    hide AllGenuine, Called, Refreshed, Soundly, Sound;
    match e {
      case Call(req, w) => CalledOk(m, req, Soundly(m, req, w));
      case Job(req, copy, x, _) =>
        if (req, copy) in m.jobs && Asked(req, copy, x) {
          RefreshedOk(m, req, copy, x);
        }
    }
  }

  lemma {:induction false} AfterOk(m: Memory, events: seq<Event>, k: nat)
    requires AllGenuine(m) && AllSane(events) && k <= |events|
    ensures AllGenuine(After(m, events)) && After(m, events[..k]).supplied <= After(m, events).supplied
    decreases |events|
  {
    hide AllGenuine, Apply, Sane;
    if k == |events| {
      assert events[..k] == events;
    }
    if events != [] {
      var init := events[..|events| - 1];
      AfterOk(m, init, if k < |events| then k else 0);
      ApplyOk(After(m, init), events[|events| - 1]);
      assert k < |events| ==> init[..k] == events[..k];
    }
  }

  /** Any number of calls and background refreshes, interleaved, each finding on disk
      whatever was ever written for its url, or nothing: every reply returned is one
      that upstream supplied for that url, content, etag and times, and is returned for
      one of the allowed reasons; and a call throws exactly when nothing could help it. */
  lemma EveryRunIsRight(events: seq<Event>, k: nat)
    requires AllSane(events) && k < |events|
    ensures Right(EntryOf(After(NOTHING, events[..k]), events[k]), After(NOTHING, events).supplied)
  {
    hide Right, AllGenuine, Apply, EntryOf, Sane;
    NothingOk();
    var m, e := After(NOTHING, events[..k]), events[k];
    AfterOk(NOTHING, events[..k], k);
    EntryIsRight(m, e);
    AfterOk(NOTHING, events, k + 1);
    assert events[..k + 1][..k] == events[..k];
    RightStays(EntryOf(m, e), Apply(m, e).supplied, After(NOTHING, events).supplied);
  }

  lemma NothingOk()
    ensures AllGenuine(NOTHING)
  {
  }

  lemma RightStays(d: Entry, supplied: seq<Supply>, more: seq<Supply>)
    requires Right(d, supplied) && supplied <= more
    ensures Right(d, more)
  {
    hide Genuine, Allowed, Broken, Rescued, Asks;
    if d.Delivery? {
      assert more[..d.after] == supplied[..d.after];
      assert more[d.before..d.after] == supplied[d.before..d.after];
    }
  }

  /** One event of a run. */
  method Step(cache: DiskCache, e: Event) returns (d: Entry)
    requires cache.Valid() && Sane(e)
    modifies cache, cache.upstream
    ensures cache.Valid() && cache.Now() == Apply(old(cache.Now()), e) && d == EntryOf(old(cache.Now()), e)
  {
    hide AllGenuine, Called, Refreshed, Soundly, Sound, Result, Asked;
    match e {
      case Call(req, w) =>
        var v := Soundly(cache.Now(), req, w);
        var before := |cache.upstream.supplied|;
        var slot := new Slot(NO_REPLY);
        var outcome := cache.Refresh(req, slot, v);
        return if outcome == Returned then Delivery(req, v, slot.r, before, |cache.upstream.supplied|) else Failure(req, v);
      case Job(req, copy, x, storeThrows) =>
        if (req, copy) in cache.jobs && Asked(req, copy, x) {
          cache.Background(req, copy, x, storeThrows);
        }
        return Quiet;
    }
  }

  /** The cache does what the memory says, event by event. */
  method Run(cache: DiskCache, events: seq<Event>) returns (log: seq<Entry>)
    requires cache.Valid() && AllSane(events)
    modifies cache, cache.upstream
    ensures cache.Valid() && cache.Now() == After(old(cache.Now()), events)
    ensures |log| == |events|
    ensures forall k :: 0 <= k < |events| ==> log[k] == EntryOf(After(old(cache.Now()), events[..k]), events[k])
  {
    hide AllGenuine, Apply, EntryOf, Sane;
    log := [];
    for n := 0 to |events|
      invariant cache.Valid() && cache.Now() == After(old(cache.Now()), events[..n]) && |log| == n
      invariant forall k :: 0 <= k < n ==> log[k] == EntryOf(After(old(cache.Now()), events[..k]), events[k])
    {
      assert events[..n + 1][..n] == events[..n];
      var d := Step(cache, events[n]);
      log := log + [d];
    }
    assert events[..|events|] == events;
  }

  /** With past-stale-while-revalidate less than the time since the epoch, and only
      then, the invalid reply is a miss. */
  lemma InvalidIsAMiss(req: Request, now: int)
    requires 0 <= now
    ensures Decide(req, NO_REPLY, now) == Must <==> req.noCache || Allowance(req, NO_REPLY) <= now
  {
  }
}
