/** Who is a member of the distributed cache, in terms of what its handlers have heard. */
module Members {
  import opened Ring
  import opened Peers
  import opened Wrappers

  ghost function At(c: Config, events: seq<Event>, k: nat): State
    requires k <= |events|
  {
    After(c, Init(c), events[..k])
  }

  lemma AtNext(c: Config, events: seq<Event>, k: nat)
    requires k < |events|
    ensures At(c, events, k + 1) == Apply(c, At(c, events, k), events[k])
  {
    hide Apply;
    assert events[..k + 1][..k] == events[..k];
  }

  /** Every state of a run is in order. */
  ghost predicate AllExpected(c: Config, events: seq<Event>) {
    c.own in c.us && Disjoint(c.hash, c.us) && forall k :: 0 <= k < |events| ==> Expected(c, events[k])
  }

  lemma AtOk(c: Config, events: seq<Event>, k: nat)
    requires AllExpected(c, events) && k <= |events|
    ensures Ok(c, At(c, events, k))
  {
    hide Disjoint, Ok, Expected;
    InitOk(c);
    AfterOk(c, Init(c), events[..k]);
  }

  // ------------------------------------------------- each step

  /** What is presented is pursued if and only if no member has that url and nothing else
      is pursued. */
  lemma PresentExactly(c: Config, s: State, url: Url)
    ensures var t := Apply(c, s, Present(url));
            && t.live == s.live && t.maps == s.maps && t.held == s.held
            && (s.pending.None? && (forall u :: u in s.live ==> s.live[u].url != url) ==> t.pending == Some(url))
            && (s.pending.Some? || (exists u :: u in s.live && s.live[u].url == url) ==> t.pending == s.pending)
  {
  }

  /** The peer that answers becomes a member under the url that is pursued; all other
      members stay as they are. One that does not answer changes nobody. */
  lemma AnswerAdmits(c: Config, s: State, answer: Option<Uuid>)
    requires s.pending.Some?
    ensures var t := Apply(c, s, Answer(answer));
            && t.pending == None && t.held == s.held
            && (answer.Some? ==> answer.value in t.live && t.live[answer.value] == Peer(answer.value, s.pending.value, false))
            && (forall u :: answer != Some(u) ==> (u in t.live <==> u in s.live) && (u in s.live ==> t.live[u] == s.live[u]))
  {
  }

  /** The event makes the node drop the members of this url. */
  predicate Drops(c: Config, s: State, e: Event, url: Url) {
    || (e == Absent(url) && s.pending.None? && url != c.serverUrl)
    || (e.Failure? && e.p in s.held && !e.p.local && e.p.url == url)
  }

  /** Exactly the members of the url go. */
  lemma DropsExactly(c: Config, s: State, e: Event, url: Url)
    requires Drops(c, s, e, url)
    ensures var t := Apply(c, s, e);
            && t.pending == s.pending && t.held == s.held
            && forall u :: (u in t.live <==> u in s.live && s.live[u].url != url) && (u in t.live ==> t.live[u] == s.live[u])
  {
  }

  /** A request holds the peer that it is routed to, which its failure will drop. */
  lemma RequestHolds(c: Config, s: State, key: string)
    requires s.maps.ring != map[]
    ensures var t := Apply(c, s, Request(key));
            t.held == s.held + {RouteOf(c.hash, s.maps, key)} && t.live == s.live && t.pending == s.pending && t.maps == s.maps
  {
  }

  // ------------------------------------------------- over a run

  /** Event k admits u under the url that is pursued then. */
  ghost predicate Admits(c: Config, events: seq<Event>, k: nat, u: Uuid, url: Url) {
    k < |events| && events[k] == Answer(Some(u)) && At(c, events, k).pending == Some(url)
  }

  /** And no event since then, before n, admits u again or drops that url. */
  ghost predicate Stays(c: Config, events: seq<Event>, k: nat, n: nat, u: Uuid, url: Url)
    requires n <= |events|
  {
    forall j :: k < j < n ==> !Drops(c, At(c, events, j), events[j], url)
                              && !(events[j] == Answer(Some(u)) && At(c, events, j).pending.Some?)
  }

  /** The admission by which u is a member after n events. */
  ghost predicate Admission(c: Config, events: seq<Event>, n: nat, k: nat, u: Uuid, url: Url)
    requires n <= |events|
  {
    k < n && Admits(c, events, k, u, url) && Stays(c, events, k, n, u, url)
  }

  /** One more event: what becomes of a member, and of one who is none. */
  lemma MemberStep(c: Config, s: State, e: Event, u: Uuid)
    requires Ok(c, s) && Expected(c, e)
    ensures var t := Apply(c, s, e);
            if e == Answer(Some(u)) && s.pending.Some? then u in t.live && t.live[u] == Peer(u, s.pending.value, false)
            else && (u in t.live <==> u in s.live && !Drops(c, s, e, s.live[u].url))
                 && (u in t.live ==> t.live[u] == s.live[u])
  {
    hide Disjoint, Index, Inserted, Removed, IsMember, Owns, RouteOf;
  }

  /** In every run another node is a member if and only if its last admission has not been
      followed by a removal of its url, and it is one under that url. */
  lemma {:induction false} MembersExactly(c: Config, events: seq<Event>, n: nat, u: Uuid)
    requires AllExpected(c, events) && n <= |events| && u != c.own
    ensures var s := At(c, events, n);
            && (u in s.live <==> exists k: nat, url :: Admission(c, events, n, k, u, url))
            && (forall k: nat, url :: Admission(c, events, n, k, u, url) ==> u in s.live && s.live[u] == Peer(u, url, false))
    decreases n
  {
    hide Ok, Apply, At, Expected, Disjoint, Drops, Admission;
    if n == 0 {
      NobodyYet(c, events, u);
    } else {
      var m := n - 1;
      MembersExactly(c, events, m, u);
      AtOk(c, events, m);
      AtNext(c, events, m);
      var s, e := At(c, events, m), events[m];
      MemberStep(c, s, e, u);
      if e == Answer(Some(u)) && s.pending.Some? {
        JustAdmitted(c, events, n, u, s.pending.value);
      } else {
        forall k: nat, url
          ensures Admission(c, events, n, k, u, url) <==> Admission(c, events, m, k, u, url) && !Drops(c, s, e, url)
        {
          AdmissionStep(c, events, n, k, u, url);
        }
        if u in s.live {
          var k: nat, url :| Admission(c, events, m, k, u, url);
          assert s.live[u] == Peer(u, url, false);
          assert u in At(c, events, n).live <==> !Drops(c, s, e, url);
          assert Admission(c, events, n, k, u, url) <==> !Drops(c, s, e, url);
        }
      }
    }
  }

  lemma NobodyYet(c: Config, events: seq<Event>, u: Uuid)
    requires u != c.own
    ensures u !in At(c, events, 0).live
    ensures forall k: nat, url :: !Admission(c, events, 0, k, u, url)
  {
    hide Inserted;
  }

  lemma JustAdmitted(c: Config, events: seq<Event>, n: nat, u: Uuid, url: Url)
    requires 0 < n <= |events| && Admits(c, events, n - 1, u, url)
    ensures Admission(c, events, n, n - 1, u, url)
    ensures forall k: nat, other :: Admission(c, events, n, k, u, other) ==> other == url
  {
    hide At, Drops;
    forall k: nat, other | Admission(c, events, n, k, u, other) ensures other == url {
      LastAdmission(c, events, n, k, u, other);
    }
  }

  lemma LastAdmission(c: Config, events: seq<Event>, n: nat, k: nat, u: Uuid, url: Url)
    requires 0 < n <= |events| && events[n - 1] == Answer(Some(u)) && At(c, events, n - 1).pending.Some?
    requires Admission(c, events, n, k, u, url)
    ensures k == n - 1
  {
    hide At, Drops;
  }

  lemma AdmissionStep(c: Config, events: seq<Event>, n: nat, k: nat, u: Uuid, url: Url)
    requires 0 < n <= |events| && !(events[n - 1] == Answer(Some(u)) && At(c, events, n - 1).pending.Some?)
    ensures Admission(c, events, n, k, u, url)
            <==> Admission(c, events, n - 1, k, u, url) && !Drops(c, At(c, events, n - 1), events[n - 1], url)
  {
    hide At, Drops;
  }

  /** After the exchange that presents and admits a peer, the keys that it owns among the
      members are routed to it. */
  lemma AdmittedIsRouted(c: Config, events: seq<Event>, url: Url, u: Uuid, key: string)
    requires AllExpected(c, events) && u in c.us && u != c.own
    requires var s := After(c, Init(c), events);
             s.pending.None? && (forall w :: w in s.live ==> s.live[w].url != url) && Owns(c.hash, s.live.Keys + {u}, c.hash(key, 0), u)
    ensures var t := After(c, Init(c), events + [Present(url), Answer(Some(u))]);
            u in t.live && t.live[u] == Peer(u, url, false) && t.maps.ring != map[] && RouteOf(c.hash, t.maps, key) == Peer(u, url, false)
  {
    var all, n := events + [Present(url), Answer(Some(u))], |events|;
    assert all[..n] == events && all[..n + 2] == all;
    forall k | 0 <= k < |all| ensures Expected(c, all[k]) {
      assert k < n ==> all[k] == events[k];
    }
    assert AllExpected(c, all);
    hide Disjoint, Index, Expected, Apply, Owns, RouteOf, After, Init;
    AtOk(c, all, n + 2);
    AtNext(c, all, n);
    AtNext(c, all, n + 1);
    var s := At(c, all, n);
    PresentExactly(c, s, url);
    AnswerAdmits(c, At(c, all, n + 1), Some(u));
    var t := At(c, all, n + 2);
    assert t.live.Keys == s.live.Keys + {u};
    RoutedToOwner(c, t, key, u);
  }

  lemma RoutedToOwner(c: Config, s: State, key: string, u: Uuid)
    requires Ok(c, s) && u in s.live && Owns(c.hash, s.live.Keys, c.hash(key, 0), u)
    ensures s.maps.ring != map[] && RouteOf(c.hash, s.maps, key) == s.live[u]
  {
    assert Disjoint(c.hash, s.live.Keys);
    hide Disjoint, Index, Owns, RouteOf;
    LiveIsOnRing(c.hash, s.maps, s.live, u);
    RouteIsOwner(c.hash, s.maps, s.live, key);
    OwnerIsUnique(c.hash, s.live.Keys, c.hash(key, 0), RouteOf(c.hash, s.maps, key).uuid, u);
  }
}
