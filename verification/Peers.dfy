/** The handlers that change the peer map: one listener thread that hears PRESENT and
    ABSENT, and request threads that remove a peer that fails them. */
module Peers {
  import opened Ring
  import opened Wrappers

  /** A node: the hash, its own uuid and the url it serves, and all uuids that can ever
      be met. */
  datatype Config = Config(hash: Hash, own: Uuid, serverUrl: Url, us: set<Uuid>)

  /** The peer map, the url that the listener found unknown and is now connecting to,
      the peers that lookups have returned and request threads may hold still, and, as
      history, who is a member. */
  datatype State = State(maps: Maps, pending: Option<Url>, held: set<Peer>, live: Live)

  /** While the listener connects to a peer it hears nothing else. */
  datatype Event =
    | Present(url: Url)
    | Answer(uuid: Option<Uuid>)
    | Absent(url: Url)
    | Request(key: string)
    | Failure(p: Peer)

  function Self(c: Config): Peer {
    Peer(c.own, c.serverUrl, true)
  }

  function Init(c: Config): State {
    State(Inserted(c.hash, Maps(map[], map[]), Self(c)), None, {}, map[c.own := Self(c)])
  }

  function Without(live: Live, url: Url): Live {
    map u | u in live && live[u].url != url :: live[u]
  }

  predicate IsMember(live: Live, url: Url) {
    exists u :: u in live && live[u].url == url
  }

  /** A peer that answers has a uuid other than our own. */
  predicate Expected(c: Config, e: Event) {
    e.Answer? && e.uuid.Some? ==> e.uuid.value in c.us && e.uuid.value != c.own
  }

  ghost function Apply(c: Config, s: State, e: Event): State {
    match e
    case Present(url) => if s.pending.None? && !IsMember(s.live, url) then s.(pending := Some(url)) else s
    case Answer(uuid) => if s.pending.Some? then Answered(c, s, uuid) else s
    case Absent(url) => if s.pending.None? && url != c.serverUrl then Dropped(c, s, url) else s
    case Request(key) => if s.maps.ring != map[] then s.(held := s.held + {RouteOf(c.hash, s.maps, key)}) else s
    case Failure(p) => if p in s.held && !p.local then Dropped(c, s, p.url) else s
  }

  function Answered(c: Config, s: State, uuid: Option<Uuid>): State
    requires s.pending.Some?
  {
    if uuid.None? then s.(pending := None)
    else
      var p := Peer(uuid.value, s.pending.value, false);
      State(Inserted(c.hash, s.maps, p), None, s.held, s.live[p.uuid := p])
  }

  function Dropped(c: Config, s: State, url: Url): State {
    s.(maps := Removed(c.hash, s.maps, url), live := Without(s.live, url))
  }

  ghost function After(c: Config, s: State, events: seq<Event>): State {
    if events == [] then s else Apply(c, After(c, s, events[..|events| - 1]), events[|events| - 1])
  }

  // ------------------------------------------------- what every step keeps

  /** The maps are those of the members; we are one of them, and no other has our url;
      the listener never pursues a member's url, nor a request thread our own. */
  ghost predicate Ok(c: Config, s: State) {
    && Disjoint(c.hash, c.us) && s.live.Keys <= c.us
    && Index(c.hash, s.maps, s.live)
    && c.own in s.live && s.live[c.own] == Self(c)
    && (forall u :: u in s.live && u != c.own ==> s.live[u].url != c.serverUrl && !s.live[u].local)
    && (s.pending.Some? ==> !IsMember(s.live, s.pending.value))
    && (forall p :: p in s.held && !p.local ==> p.url != c.serverUrl)
  }

  lemma RemovedLive(hash: Hash, us: set<Uuid>, s: Maps, live: Live, url: Url)
    requires Disjoint(hash, us) && live.Keys <= us && Index(hash, s, live)
    ensures Index(hash, Removed(hash, s, url), Without(live, url))
  {
    hide Points;
    RemoveKeeps(hash, us, s, live, url);
    assert Without(live, url) == if url in s.urls then live - {s.urls[url]} else live;
  }

  /** The url index knows exactly the members' urls. */
  lemma UrlsAreMembers(hash: Hash, s: Maps, live: Live, url: Url)
    requires Index(hash, s, live)
    ensures url in s.urls <==> IsMember(live, url)
  {
    hide RingOf;
  }

  lemma LiveIsOnRing(hash: Hash, s: Maps, live: Live, u: Uuid)
    requires Index(hash, s, live) && u in live
    ensures s.ring != map[]
  {
    assert hash(u, 1) in Points(hash, u);
    assert hash(u, 1) in s.ring;
  }

  /** A key is routed to the member that owns it. */
  lemma RouteIsOwner(hash: Hash, s: Maps, live: Live, key: string)
    requires Index(hash, s, live) && s.ring != map[]
    ensures var r := RouteOf(hash, s, key);
            r.uuid in live && live[r.uuid] == r && Owns(hash, live.Keys, hash(key, 0), r.uuid)
  {
    hide Points, AllPoints;
    RingPoints(hash, s, live);
    var q := NextPoint(s.ring.Keys, hash(key, 0));
    assert q in s.ring;
  }

  lemma InitOk(c: Config)
    requires c.own in c.us && Disjoint(c.hash, c.us)
    ensures Ok(c, Init(c))
  {
    hide Points, Inserted;
    var none: Live := map[];
    assert Index(c.hash, Maps(map[], map[]), none);
    InsertKeeps(c.hash, c.us, Maps(map[], map[]), none, Self(c));
    assert none[c.own := Self(c)] == map[c.own := Self(c)];
    hide Index, Disjoint;
  }

  lemma AnsweredOk(c: Config, s: State, uuid: Option<Uuid>)
    requires Ok(c, s) && s.pending.Some? && Expected(c, Answer(uuid))
    ensures Ok(c, Answered(c, s, uuid))
  {
    hide Disjoint, Index, Inserted;
    if uuid.Some? {
      var p := Peer(uuid.value, s.pending.value, false);
      UrlsAreMembers(c.hash, s.maps, s.live, p.url);
      InsertKeeps(c.hash, c.us, s.maps, s.live, p);
      NotOurUrl(c, s, p.url);
    }
  }

  lemma NotOurUrl(c: Config, s: State, url: Url)
    requires Ok(c, s) && !IsMember(s.live, url)
    ensures url != c.serverUrl
  {
    hide Disjoint, Index;
    assert s.live[c.own].url == c.serverUrl;
  }

  lemma DroppedOk(c: Config, s: State, url: Url)
    requires Ok(c, s) && url != c.serverUrl
    ensures Ok(c, Dropped(c, s, url))
  {
    hide Disjoint, Index, Removed;
    RemovedLive(c.hash, c.us, s.maps, s.live, url);
  }

  lemma RequestOk(c: Config, s: State, key: string)
    requires Ok(c, s)
    ensures s.maps.ring != map[] && Ok(c, Apply(c, s, Request(key)))
    ensures Apply(c, s, Request(key)) == s.(held := s.held + {RouteOf(c.hash, s.maps, key)})
    ensures var r := RouteOf(c.hash, s.maps, key);
            r.uuid in s.live && s.live[r.uuid] == r && Owns(c.hash, s.live.Keys, c.hash(key, 0), r.uuid)
  {
    hide Disjoint, Index, Owns, RouteOf;
    LiveIsOnRing(c.hash, s.maps, s.live, c.own);
    RouteIsOwner(c.hash, s.maps, s.live, key);
  }

  lemma ApplyOk(c: Config, s: State, e: Event)
    requires Ok(c, s) && Expected(c, e)
    ensures Ok(c, Apply(c, s, e))
  {
    hide Disjoint, Index, Dropped, Answered;
    match e {
      case Present(url) =>
      case Answer(uuid) =>
        if s.pending.Some? {
          AnsweredOk(c, s, uuid);
        }
      case Absent(url) =>
        if url != c.serverUrl {
          DroppedOk(c, s, url);
        }
      case Request(key) => RequestOk(c, s, key);
      case Failure(p) =>
        if p in s.held && !p.local {
          DroppedOk(c, s, p.url);
        }
    }
  }

  lemma {:induction false} AfterOk(c: Config, s: State, events: seq<Event>)
    requires Ok(c, s) && forall k :: 0 <= k < |events| ==> Expected(c, events[k])
    ensures Ok(c, After(c, s, events))
    decreases |events|
  {
    hide Ok, Apply, Expected;
    if events != [] {
      AfterOk(c, s, events[..|events| - 1]);
      ApplyOk(c, After(c, s, events[..|events| - 1]), events[|events| - 1]);
    }
  }

  /** After any history of presences, answers, absences, requests and failures the maps
      are exactly those of the members, we are still one of them, and a key is routed
      to the member that owns it. */
  lemma EveryRunIsIndexed(c: Config, events: seq<Event>, key: string)
    requires c.own in c.us && Disjoint(c.hash, c.us) && forall k :: 0 <= k < |events| ==> Expected(c, events[k])
    ensures var s := After(c, Init(c), events);
            && Index(c.hash, s.maps, s.live) && c.own in s.live && s.live[c.own] == Self(c)
            && s.maps.ring != map[]
            && var r := RouteOf(c.hash, s.maps, key);
            && r.uuid in s.live && s.live[r.uuid] == r && Owns(c.hash, s.live.Keys, c.hash(key, 0), r.uuid)
  {
    hide Disjoint, Index, Owns, RouteOf, Expected;
    InitOk(c);
    AfterOk(c, Init(c), events);
    var s := After(c, Init(c), events);
    LiveIsOnRing(c.hash, s.maps, s.live, c.own);
    RouteIsOwner(c.hash, s.maps, s.live, key);
  }

  /** Two nodes whose histories, however different, leave them with the same member
      uuids route every key to the same uuid; with the same members, their maps are
      the same. */
  lemma HistoriesDoNotMatter(c: Config, events: seq<Event>, d: Config, others: seq<Event>, key: string)
    requires c.hash == d.hash && c.us == d.us && c.own in c.us && d.own in d.us && Disjoint(c.hash, c.us)
    requires (forall k :: 0 <= k < |events| ==> Expected(c, events[k])) && (forall k :: 0 <= k < |others| ==> Expected(d, others[k]))
    requires After(c, Init(c), events).live.Keys == After(d, Init(d), others).live.Keys
    ensures var s, t := After(c, Init(c), events), After(d, Init(d), others);
            && s.maps.ring != map[] && t.maps.ring != map[]
            && RouteOf(c.hash, s.maps, key).uuid == RouteOf(d.hash, t.maps, key).uuid
            && (s.live == t.live ==> s.maps == t.maps)
  {
    hide *;
    var s, t := After(c, Init(c), events), After(d, Init(d), others);
    EveryRunIsIndexed(c, events, key);
    EveryRunIsIndexed(d, others, key);
    RunIsDisjoint(c, events);
    OwnerIsUnique(c.hash, s.live.Keys, c.hash(key, 0), RouteOf(c.hash, s.maps, key).uuid, RouteOf(d.hash, t.maps, key).uuid);
    if s.live == t.live {
      MapsAreAFunctionOfLive(c.hash, s.maps, t.maps, s.live);
    }
  }

  lemma RunIsDisjoint(c: Config, events: seq<Event>)
    requires c.own in c.us && Disjoint(c.hash, c.us) && forall k :: 0 <= k < |events| ==> Expected(c, events[k])
    ensures Disjoint(c.hash, After(c, Init(c), events).live.Keys)
  {
    hide Init, After, Index, Expected, Points;
    InitOk(c);
    AfterOk(c, Init(c), events);
  }

  // ------------------------------------------------- the node

  class Backend {
    ghost const config: Config
    const serverUrl: Url
    const peers: PeerMap
    var pending: Option<Url>
    var held: set<Peer>
    ghost var live: Live

    ghost function Now(): State
      reads this, peers
    {
      State(peers.Now(), pending, held, live)
    }

    ghost predicate Valid()
      reads this, peers
    {
      config.hash == peers.hash && config.serverUrl == serverUrl && Ok(config, Now())
    }

    constructor (own: Uuid, serverUrl: Url, hash: Hash, ghost us: set<Uuid>)
      requires own in us && Disjoint(hash, us)
      ensures Valid() && fresh(peers) && config == Config(hash, own, serverUrl, us)
      ensures Now() == Init(config)
    {
      this.config, this.serverUrl := Config(hash, own, serverUrl, us), serverUrl;
      peers := new PeerMap(hash);
      pending, held := None, {};
      live := map[own := Peer(own, serverUrl, true)];
      new;
      hide Points, Inserted, Disjoint;
      peers.InsertPeer(Peer(own, serverUrl, true));
      InitOk(config);
    }

    /** handle_present up to its check. */
    method PresentCheck(url: Url)
      requires Valid() && pending.None?
      modifies `pending
      ensures Valid() && Now() == Apply(config, old(Now()), Present(url))
    {
      ApplyOk(config, Now(), Present(url));
      UrlsAreMembers(peers.hash, peers.Now(), live, url);
      hide Disjoint, Index, IsMember;
      var known := peers.CheckUrl(url);
      if known {
        return;
      }
      pending := Some(url);
    }

    /** The rest of handle_present, once the peer has answered with its uuid, or has
        failed to. */
    method PresentInsert(answer: Option<Uuid>)
      requires Valid() && pending.Some? && Expected(config, Answer(answer))
      modifies this, peers
      ensures Valid() && Now() == Answered(config, old(Now()), answer)
    {
      AnsweredOk(config, Now(), answer);
      hide Ok, Inserted;
      if answer.None? {
        pending := None;
        return;
      }
      var p := Peer(answer.value, pending.value, false);
      pending := None;
      live := live[answer.value := p];
      peers.InsertPeer(p);
    }

    method Absent(url: Url)
      requires Valid() && pending.None?
      modifies this, peers
      ensures Valid() && Now() == if url == serverUrl then old(Now()) else Dropped(config, old(Now()), url)
    {
      hide Ok, Removed, Without;
      if url == serverUrl {
        return;
      }
      DroppedOk(config, Now(), url);
      peers.RemoveUrl(url);
      live := Without(live, url);
    }

    /** handle_peer_error, on a request thread: the peer may be long gone, and its url
        may be another peer's by now. */
    method PeerError(p: Peer)
      requires Valid() && p in held && !p.local
      modifies this, peers
      ensures Valid() && Now() == Dropped(config, old(Now()), p.url)
    {
      DroppedOk(config, Now(), p.url);
      hide Ok, Removed, Without;
      peers.RemoveUrl(p.url);
      live := Without(live, p.url);
    }

    /** The first step of refresh: the lookup cannot throw, and finds the member that
        owns the key. */
    method Route(key: string) returns (p: Peer)
      requires Valid()
      modifies `held
      ensures Valid() && Now() == Apply(config, old(Now()), Request(key))
      ensures peers.ring != map[] && p == RouteOf(peers.hash, peers.Now(), key)
      ensures p.uuid in live && live[p.uuid] == p && Owns(peers.hash, live.Keys, peers.hash(key, 0), p.uuid)
    {
      hide Ok, RouteOf, Owns, Apply;
      RequestOk(config, Now(), key);
      var found := peers.Lookup(key);
      p := found.value;
      held := held + {p};
    }
  }

  /** Two nodes that know the same members route every key to the same one, whatever
      their histories: the member that owns it. */
  method SameMembersSameRoute(a: Backend, b: Backend, key: string) returns (p: Peer, q: Peer)
    requires a.Valid() && b.Valid() && a.peers.hash == b.peers.hash && a.live.Keys == b.live.Keys
    modifies a`held, b`held
    ensures p.uuid == q.uuid
    ensures p.uuid in a.live && a.live[p.uuid] == p && q.uuid in b.live && b.live[q.uuid] == q
    ensures Owns(a.peers.hash, a.live.Keys, a.peers.hash(key, 0), p.uuid)
    ensures Owns(b.peers.hash, b.live.Keys, b.peers.hash(key, 0), q.uuid)
  {
    hide Points, Index, Owns, RouteOf;
    p := a.Route(key);
    q := b.Route(key);
    assert Disjoint(a.peers.hash, a.live.Keys);
    OwnerIsUnique(a.peers.hash, a.live.Keys, a.peers.hash(key, 0), p.uuid, q.uuid);
  }

  // ------------------------------------------------- whole runs

  /** What a request is routed to; nothing comes of the other events. */
  ghost function Routed(c: Config, s: State, e: Event): Option<Peer> {
    if e.Request? && s.maps.ring != map[] then Some(RouteOf(c.hash, s.maps, e.key)) else None
  }

  /** The node does what the steps say, event by event. */
  method Run(node: Backend, events: seq<Event>) returns (log: seq<Option<Peer>>)
    requires node.Valid() && forall k :: 0 <= k < |events| ==> Expected(node.config, events[k])
    modifies node, node.peers
    ensures node.Valid() && node.Now() == After(node.config, old(node.Now()), events)
    ensures |log| == |events|
    ensures forall k :: 0 <= k < |events| ==> log[k] == Routed(node.config, After(node.config, old(node.Now()), events[..k]), events[k])
  {
    hide Ok, Apply, Routed, Expected;
    log := [];
    for n := 0 to |events|
      invariant node.Valid() && node.Now() == After(node.config, old(node.Now()), events[..n]) && |log| == n
      invariant forall k :: 0 <= k < n ==> log[k] == Routed(node.config, After(node.config, old(node.Now()), events[..k]), events[k])
    {
      assert events[..n + 1][..n] == events[..n];
      var r := Step(node, events[n]);
      log := log + [r];
    }
    assert events[..|events|] == events;
  }

  /** One event of a run: a request finds a member in every run. */
  method Step(node: Backend, e: Event) returns (r: Option<Peer>)
    requires node.Valid() && Expected(node.config, e)
    modifies node, node.peers
    ensures node.Valid() && node.Now() == Apply(node.config, old(node.Now()), e)
    ensures r == Routed(node.config, old(node.Now()), e) && (e.Request? ==> r.Some?)
  {
    hide Ok, RouteOf, Answered, Dropped, Owns, IsMember;
    r := None;
    match e {
      case Present(url) =>
        if node.pending.None? {
          node.PresentCheck(url);
        }
      case Answer(uuid) =>
        if node.pending.Some? {
          node.PresentInsert(uuid);
        }
      case Absent(url) =>
        if node.pending.None? {
          node.Absent(url);
        }
      case Request(key) =>
        var p := node.Route(key);
        r := Some(p);
      case Failure(p) =>
        if p in node.held && !p.local {
          node.PeerError(p);
        }
    }
  }
}
