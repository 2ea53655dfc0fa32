/** The consistent hash ring of the distributed cache, and the map from url to uuid
    that is kept beside it. */
module Ring {
  import opened Wrappers

  type Uuid = string
  type Url = string

  /** hash(s, n): the key of a request is hashed with n = 0, and a peer's uuid with
      each n from 1 to NREP. */
  type Hash = (string, nat) -> nat

  const NREP: nat := 100

  /** `local` says that the peer's backend is our own upstream. */
  datatype Peer = Peer(uuid: Uuid, url: Url, local: bool)

  function Points(hash: Hash, u: Uuid): set<nat> {
    set i: nat | 1 <= i <= NREP :: hash(u, i)
  }

  /** The points of different uuids are disjoint. */
  ghost predicate Disjoint(hash: Hash, us: set<Uuid>) {
    forall u, v :: u in us && v in us && u != v ==> Points(hash, u) !! Points(hash, v)
  }

  // ------------------------------------------------- the two maps, as values

  datatype Maps = Maps(ring: map<nat, Peer>, urls: map<Url, Uuid>)

  /** What inserting a peer makes of the maps, whoever holds its points or its url. */
  function Inserted(hash: Hash, s: Maps, p: Peer): Maps {
    var points := Points(hash, p.uuid);
    var first := hash(p.uuid, 1);
    Maps(map h | h in s.ring.Keys + points :: if h in points then p else s.ring[h],
         (if first in s.ring then s.urls - {s.ring[first].url} else s.urls)[p.url := p.uuid])
  }

  function Removed(hash: Hash, s: Maps, url: Url): Maps {
    if url !in s.urls then s else Maps(s.ring - Points(hash, s.urls[url]), s.urls - {url})
  }

  // ------------------------------------------------- what they should hold

  type Live = map<Uuid, Peer>

  /** The maps hold exactly the points and the urls of the live peers. */
  ghost predicate Index(hash: Hash, s: Maps, live: Live) {
    && (forall u :: u in live ==> live[u].uuid == u)
    && RingOf(hash, s.ring, live)
    && UrlsOf(s.urls, live)
  }

  ghost predicate RingOf(hash: Hash, ring: map<nat, Peer>, live: Live) {
    && (forall h :: h in ring ==> ring[h].uuid in live && ring[h] == live[ring[h].uuid] && h in Points(hash, ring[h].uuid))
    && (forall u, h :: u in live && h in Points(hash, u) ==> h in ring && ring[h].uuid == u)
  }

  ghost predicate UrlsOf(urls: map<Url, Uuid>, live: Live) {
    && (forall url :: url in urls ==> urls[url] in live && live[urls[url]].url == url)
    && (forall u :: u in live ==> live[u].url in urls && urls[live[u].url] == u)
  }

  /** The maps are a function of the live peers, whatever history led to them. */
  lemma MapsAreAFunctionOfLive(hash: Hash, s: Maps, t: Maps, live: Live)
    requires Index(hash, s, live) && Index(hash, t, live)
    ensures s == t
  {
    hide Points;
    assert forall h :: h in s.ring <==> h in t.ring;
    assert s.ring == t.ring;
    assert forall url :: url in s.urls ==> live[s.urls[url]].url in t.urls;
    assert forall url :: url in t.urls ==> live[t.urls[url]].url in s.urls;
    assert s.urls == t.urls;
  }

  /** And the live peers are a function of the maps. */
  lemma LiveIsAFunctionOfMaps(hash: Hash, s: Maps, live: Live, other: Live)
    requires Index(hash, s, live) && Index(hash, s, other)
    ensures live == other
  {
    assert forall u :: u in live ==> hash(u, 1) in Points(hash, u);
    assert forall u :: u in other ==> hash(u, 1) in Points(hash, u);
    hide Points;
    assert forall u :: u in live ==> s.ring[hash(u, 1)] == live[u] && u in other;
    assert forall u :: u in other ==> s.ring[hash(u, 1)] == other[u] && u in live;
  }

  /** The url is not known, or known as this peer's. */
  predicate UrlIsFree(s: Maps, p: Peer) {
    p.url in s.urls ==> s.urls[p.url] == p.uuid
  }

  lemma InsertKeeps(hash: Hash, us: set<Uuid>, s: Maps, live: Live, p: Peer)
    requires Disjoint(hash, us) && live.Keys <= us && p.uuid in us
    requires Index(hash, s, live) && UrlIsFree(s, p)
    ensures Index(hash, Inserted(hash, s, p), live[p.uuid := p])
  {
    InsertedRing(hash, us, s, live, p);
    InsertedUrls(hash, us, s, live, p);
  }

  lemma InsertedRing(hash: Hash, us: set<Uuid>, s: Maps, live: Live, p: Peer)
    requires Disjoint(hash, us) && live.Keys <= us && p.uuid in us && RingOf(hash, s.ring, live)
    ensures RingOf(hash, Inserted(hash, s, p).ring, live[p.uuid := p])
  {
    hide Points;
  }

  lemma InsertedUrls(hash: Hash, us: set<Uuid>, s: Maps, live: Live, p: Peer)
    requires Disjoint(hash, us) && live.Keys <= us && p.uuid in us
    requires Index(hash, s, live) && UrlIsFree(s, p)
    ensures UrlsOf(Inserted(hash, s, p).urls, live[p.uuid := p])
  {
    assert hash(p.uuid, 1) in Points(hash, p.uuid);
    hide Points;
    assert hash(p.uuid, 1) in s.ring <==> p.uuid in live;
  }

  /** Inserting keeps the maps in step exactly when the url is free: otherwise no set
      of live peers accounts for them. */
  lemma InsertKeepsExactly(hash: Hash, us: set<Uuid>, s: Maps, live: Live, p: Peer)
    requires Disjoint(hash, us) && live.Keys <= us && p.uuid in us && Index(hash, s, live)
    ensures UrlIsFree(s, p) <==> exists now: Live :: Index(hash, Inserted(hash, s, p), now)
  {
    var t := Inserted(hash, s, p);
    if UrlIsFree(s, p) {
      InsertKeeps(hash, us, s, live, p);
    } else {
      var v := s.urls[p.url];
      assert hash(v, 1) in Points(hash, v);
      hide Points;
      assert t.ring[hash(v, 1)] == live[v] && t.urls[p.url] == p.uuid;
    }
  }

  /** Then even removing that url leaves the other peer's points on the ring, where no
      url leads to them any more. */
  lemma KnownUrlOrphansPoints(hash: Hash, us: set<Uuid>, s: Maps, live: Live, p: Peer)
    requires Disjoint(hash, us) && live.Keys <= us && p.uuid in us && Index(hash, s, live) && !UrlIsFree(s, p)
    ensures var t := Removed(hash, Inserted(hash, s, p), p.url);
            var v := s.urls[p.url];
            && (forall h :: h in Points(hash, v) ==> h in t.ring && t.ring[h] == live[v])
            && (forall url :: url in t.urls ==> t.urls[url] != v)
  {
    hide Points;
    var t := Removed(hash, Inserted(hash, s, p), p.url);
    forall url | url in t.urls ensures t.urls[url] != s.urls[p.url] {
      assert url in s.urls && t.urls[url] == s.urls[url];
    }
  }

  lemma RemoveKeeps(hash: Hash, us: set<Uuid>, s: Maps, live: Live, url: Url)
    requires Disjoint(hash, us) && live.Keys <= us && Index(hash, s, live)
    ensures Index(hash, Removed(hash, s, url), if url in s.urls then live - {s.urls[url]} else live)
  {
    hide Points;
  }

  /** Inserting a new peer and removing it again restores both maps, and so every
      routing decision. */
  lemma InsertThenRemoveRestores(hash: Hash, us: set<Uuid>, s: Maps, live: Live, p: Peer)
    requires Disjoint(hash, us) && live.Keys <= us && p.uuid in us && Index(hash, s, live)
    requires p.uuid !in live && p.url !in s.urls
    ensures Removed(hash, Inserted(hash, s, p), p.url) == s
  {
    hide Points, RingOf, Inserted, Removed;
    var more := live[p.uuid := p];
    InsertKeeps(hash, us, s, live, p);
    RemoveKeeps(hash, us, Inserted(hash, s, p), more, p.url);
    assert p.uuid in more && Inserted(hash, s, p).urls[p.url] == p.uuid;
    assert more - {p.uuid} == live;
    MapsAreAFunctionOfLive(hash, s, Removed(hash, Inserted(hash, s, p), p.url), live);
  }

  // ------------------------------------------------- routing

  function AllPoints(hash: Hash, us: set<Uuid>): set<nat> {
    set u, i: nat | u in us && 1 <= i <= NREP :: hash(u, i)
  }

  lemma AllPointsAre(hash: Hash, us: set<Uuid>, h: nat)
    ensures h in AllPoints(hash, us) <==> exists u :: u in us && h in Points(hash, u)
  {
  }

  /** The first point strictly after h, or, past the last point, the first of all. */
  predicate IsNext(points: set<nat>, h: nat, q: nat) {
    && q in points
    && (if exists k :: k in points && h < k then
          h < q && forall k :: k in points && h < k ==> q <= k
        else
          forall k :: k in points ==> q <= k)
  }

  lemma NextIsUnique(points: set<nat>, h: nat, q: nat, r: nat)
    requires IsNext(points, h, q) && IsNext(points, h, r)
    ensures q == r
  {
  }

  lemma {:induction false} NextExists(points: set<nat>, h: nat)
    requires points != {}
    ensures exists q :: IsNext(points, h, q)
    decreases points
  {
    var p :| p in points;
    var rest := points - {p};
    if rest == {} {
      assert points == {p};
      assert IsNext(points, h, p);
    } else {
      NextExists(rest, h);
      var q :| IsNext(rest, h, q);
      assert points == rest + {p};
      assert IsNext(points, h, p) || IsNext(points, h, q);
    }
  }

  ghost function NextPoint(points: set<nat>, h: nat): (q: nat)
    requires points != {}
    ensures IsNext(points, h, q)
  {
    NextExists(points, h);
    var q :| IsNext(points, h, q);
    q
  }

  /** The peer that a key is routed to. */
  ghost function RouteOf(hash: Hash, s: Maps, key: string): Peer
    requires s.ring != map[]
  {
    hide IsNext;
    assert s.ring.Keys != {};
    var q := NextPoint(s.ring.Keys, hash(key, 0));
    NextIsIn(s.ring.Keys, hash(key, 0), q);
    s.ring[q]
  }

  lemma NextIsIn(points: set<nat>, h: nat, q: nat)
    requires IsNext(points, h, q)
    ensures q in points
  {
  }

  /** Taking away other points leaves the next point the next one. */
  lemma NextOfFewer(points: set<nat>, fewer: set<nat>, h: nat, q: nat)
    requires IsNext(points, h, q) && fewer <= points && q in fewer
    ensures IsNext(fewer, h, q)
  {
  }

  /** Among the uuids, this one owns the keys that hash to h. */
  ghost predicate Owns(hash: Hash, us: set<Uuid>, h: nat, u: Uuid) {
    u in us && exists q :: q in Points(hash, u) && IsNext(AllPoints(hash, us), h, q)
  }

  lemma OwnerIsUnique(hash: Hash, us: set<Uuid>, h: nat, u: Uuid, v: Uuid)
    requires Disjoint(hash, us) && Owns(hash, us, h, u) && Owns(hash, us, h, v)
    ensures u == v
  {
    hide Points, AllPoints, IsNext;
    var q :| q in Points(hash, u) && IsNext(AllPoints(hash, us), h, q);
    var r :| r in Points(hash, v) && IsNext(AllPoints(hash, us), h, r);
    NextIsUnique(AllPoints(hash, us), h, q, r);
  }

  /** When a peer joins, a key stays where it was or moves to that peer. */
  lemma JoinMovesOnlyToTheNewcomer(hash: Hash, us: set<Uuid>, n: Uuid, h: nat, u: Uuid, v: Uuid)
    requires Disjoint(hash, us + {n}) && Owns(hash, us, h, u) && Owns(hash, us + {n}, h, v)
    ensures v == u || v == n
  {
    if v != n {
      var q :| q in Points(hash, v) && IsNext(AllPoints(hash, us + {n}), h, q);
      hide IsNext;
      NextOfFewer(AllPoints(hash, us + {n}), AllPoints(hash, us), h, q);
      assert Owns(hash, us, h, v);
      OwnerIsUnique(hash, us, h, u, v);
    }
  }

  /** When a peer leaves, only the keys it owned move. */
  lemma LeaveMovesOnlyItsOwn(hash: Hash, us: set<Uuid>, n: Uuid, h: nat, u: Uuid)
    requires Disjoint(hash, us) && Owns(hash, us, h, u) && u != n
    ensures Owns(hash, us - {n}, h, u)
  {
    var q :| q in Points(hash, u) && IsNext(AllPoints(hash, us), h, q);
    hide IsNext;
    NextOfFewer(AllPoints(hash, us), AllPoints(hash, us - {n}), h, q);
  }

  /** The keys of the maps' ring are the points of the live uuids. */
  lemma RingPoints(hash: Hash, s: Maps, live: Live)
    requires Index(hash, s, live)
    ensures s.ring.Keys == AllPoints(hash, live.Keys)
  {
    hide Points, AllPoints;
    forall h ensures h in s.ring <==> h in AllPoints(hash, live.Keys) {
      AllPointsAre(hash, live.Keys, h);
    }
  }

  // ------------------------------------------------- the class

  /** The points of the first replicas, as the loops go over them. */
  ghost function SomePoints(hash: Hash, u: Uuid, n: nat): set<nat> {
    set k: nat | 1 <= k < n :: hash(u, k)
  }

  lemma NoPoints(hash: Hash, u: Uuid)
    ensures SomePoints(hash, u, 1) == {} && SomePoints(hash, u, NREP + 1) == Points(hash, u)
  {
  }

  lemma MorePoints(hash: Hash, u: Uuid, n: nat)
    requires n > 0
    ensures SomePoints(hash, u, n + 1) == SomePoints(hash, u, n) + {hash(u, n)}
  {
  }

  class PeerMap {
    const hash: Hash
    var ring: map<nat, Peer>
    var urlToUuid: map<Url, Uuid>

    constructor (hash: Hash)
      ensures this.hash == hash && Now() == Maps(map[], map[])
    {
      this.hash := hash;
      ring, urlToUuid := map[], map[];
    }

    function Now(): Maps
      reads this
    {
      Maps(ring, urlToUuid)
    }

    method InsertPeer(p: Peer)
      modifies this
      ensures Now() == Inserted(hash, old(Now()), p)
    {
      hide Points, SomePoints;
      NoPoints(hash, p.uuid);
      for i: nat := 1 to NREP + 1
        invariant ring.Keys == old(ring).Keys + SomePoints(hash, p.uuid, i)
        invariant forall h :: h in ring ==> ring[h] == if h in SomePoints(hash, p.uuid, i) then p else old(ring)[h]
        invariant urlToUuid == if i > 1 && hash(p.uuid, 1) in old(ring) then old(urlToUuid) - {old(ring)[hash(p.uuid, 1)].url} else old(urlToUuid)
      {
        MorePoints(hash, p.uuid, i);
        var h := hash(p.uuid, i);
        if h in ring && i == 1 {
          urlToUuid := urlToUuid - {ring[h].url};
        }
        ring := ring[h := p];
      }
      urlToUuid := urlToUuid[p.url := p.uuid];
    }

    method RemoveUrl(url: Url)
      modifies this
      ensures Now() == Removed(hash, old(Now()), url)
    {
      if url !in urlToUuid {
        return;
      }
      var uuid := urlToUuid[url];
      hide Points, SomePoints;
      NoPoints(hash, uuid);
      for i: nat := 1 to NREP + 1
        invariant ring == old(ring) - SomePoints(hash, uuid, i) && urlToUuid == old(urlToUuid)
      {
        MorePoints(hash, uuid, i);
        var h := hash(uuid, i);
        ring := ring - {h};
      }
      urlToUuid := urlToUuid - {url};
    }

    method CheckUrl(url: Url) returns (known: bool)
      ensures known <==> url in urlToUuid
    {
      known := url in urlToUuid;
    }

    /** std::map::upper_bound: the least point greater than h; None for end(). */
    method UpperBound(h: nat) returns (q: Option<nat>)
      ensures q.None? <==> forall k :: k in ring ==> k <= h
      ensures q.Some? ==> q.value in ring && h < q.value && forall k :: k in ring && h < k ==> q.value <= k
    {
      var rest := ring.Keys;
      q := None;
      while rest != {}
        invariant rest <= ring.Keys
        invariant q.None? ==> forall k :: k in ring && k !in rest ==> k <= h
        invariant q.Some? ==> q.value in ring && h < q.value && forall k :: k in ring && k !in rest && h < k ==> q.value <= k
        decreases rest
      {
        var k :| k in rest;
        rest := rest - {k};
        if h < k && (q.None? || k < q.value) {
          q := Some(k);
        }
      }
    }

    /** std::map::begin: the least point of all. */
    method Begin() returns (q: Option<nat>)
      ensures q.None? <==> ring == map[]
      ensures q.Some? ==> q.value in ring && forall k :: k in ring ==> q.value <= k
    {
      var rest := ring.Keys;
      q := None;
      while rest != {}
        invariant rest <= ring.Keys
        invariant q.None? ==> rest == ring.Keys
        invariant q.Some? ==> q.value in ring && forall k :: k in ring && k !in rest ==> q.value <= k
        decreases rest
      {
        var k :| k in rest;
        rest := rest - {k};
        if q.None? || k < q.value {
          q := Some(k);
        }
      }
    }

    /** None is the throw on an empty ring. */
    method Lookup(key: string) returns (r: Option<Peer>)
      ensures r.None? <==> ring == map[]
      ensures r.Some? ==> r.value == RouteOf(hash, Now(), key)
    {
      var h := hash(key, 0);
      var q := UpperBound(h);
      if q.None? {
        q := Begin();
      }
      if q.None? {
        return None;
      }
      assert IsNext(ring.Keys, h, q.value);
      NextIsUnique(ring.Keys, h, q.value, NextPoint(ring.Keys, h));
      return Some(ring[q.value]);
    }

    method LookupPeerUrl(url: Url) returns (r: Option<Peer>)
      ensures forall live: Live :: Index(hash, Now(), live) ==>
                (r.None? <==> url !in urlToUuid) && (r.Some? ==> r.value.url == url && r.value in live.Values)
    {
      if url !in urlToUuid {
        return None;
      }
      var h := hash(urlToUuid[url], 1);
      assert h in Points(hash, urlToUuid[url]);
      if h !in ring {
        return None;
      }
      return Some(ring[h]);
    }
  }
}
