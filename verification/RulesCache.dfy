/** The cache of cache-control rules: a search through the ancestors of a path, memoised
    at every level on the way. */
module RulesCache {
  import opened Wrappers

  type Path = string
  type Re = string

  /** The contents of a rules file: regular expressions with what they give, and what
      is given when none of them matches. */
  datatype Rules = Rules(rerules: seq<(Re, string)>, cc: string)

  /** Rules with the time until which they are good. */
  datatype Expiring = Expiring(rules: Rules, goodTill: int)

  /** What reading a rules file yields: nothing, an exception, or rules that are good
      for so long. */
  datatype File = Absent | Corrupt | Good(rules: Rules, maxAge: int)

  /** The rules file of every directory at every time. */
  type Files = (Path, int) -> File

  /** pathsplit(p).first: all before the last slash. */
  function Parent(p: Path): (q: Path)
    ensures p != "" ==> |q| < |p|
    ensures q <= p
  {
    if p == "" then ""
    else if p[|p| - 1] == '/' then p[..|p| - 1]
    else Parent(p[..|p| - 1])
  }

  /** What follows the parent is one slash and a name; a path without a slash is in the
      top directory. */
  lemma {:induction false} ParentExactly(p: Path)
    ensures var q := Parent(p);
            if '/' in p then |q| < |p| && q == p[..|q|] && p[|q|] == '/' && '/' !in p[|q| + 1..] else q == ""
    decreases |p|
  {
    if p != "" && p[|p| - 1] != '/' {
      var r := p[..|p| - 1];
      ParentExactly(r);
      assert p == r + [p[|p| - 1]];
      if '/' in r {
        var q := Parent(r);
        assert p[|q| + 1..] == r[|q| + 1..] + [p[|p| - 1]];
      }
    } else if p != "" {
      assert p[|p|..] == "";
    }
  }

  // ---------------------------------------------- what may be returned

  /** The rules of the nearest ancestor whose file was good when it was read, or the
      fallback: for each level some reading, by the time `until`, that says so. Whatever
      level they are asked for at, the rules are good until their own time. */
  ghost predicate Justified(fs: Files, fallback: Expiring, path: Path, e: Expiring, until: int)
    decreases |path|
  {
    exists t: int :: t <= until && Reading(fs, path, t, e, fs(path, t).Good?)
                     && (!fs(path, t).Good? ==>
                           if path == "" then e == fallback else Justified(fs, fallback, Parent(path), e, until))
  }

  /** The file as read at time t gives e, if it is good. */
  predicate Reading(fs: Files, path: Path, t: int, e: Expiring, good: bool) {
    good ==> fs(path, t).Good? && e == Expiring(fs(path, t).rules, t + fs(path, t).maxAge)
  }

  lemma {:induction false} JustifiedLater(fs: Files, fallback: Expiring, path: Path, e: Expiring, until: int, later: int)
    requires Justified(fs, fallback, path, e, until) && until <= later
    ensures Justified(fs, fallback, path, e, later)
    decreases |path|
  {
    var t :| t <= until && Reading(fs, path, t, e, fs(path, t).Good?)
             && (!fs(path, t).Good? ==> if path == "" then e == fallback else Justified(fs, fallback, Parent(path), e, until));
    if !fs(path, t).Good? && path != "" {
      JustifiedLater(fs, fallback, Parent(path), e, until, later);
    }
    assert t <= later && Reading(fs, path, t, e, fs(path, t).Good?);
  }

  /** The search without a cache, in files that do not change. */
  function Search(file: Path -> File, fallback: Rules, path: Path): Rules
    decreases |path|
  {
    if file(path).Good? then file(path).rules
    else if path == "" then fallback
    else Search(file, fallback, Parent(path))
  }

  /** While no file changes, whatever is justified is what the uncached search finds. */
  lemma {:induction false} JustifiedIsTheSearch(fs: Files, file: Path -> File, fallback: Expiring, path: Path, e: Expiring, until: int)
    requires Justified(fs, fallback, path, e, until) && forall p, t :: fs(p, t) == file(p)
    ensures e.rules == Search(file, fallback.rules, path)
    decreases |path|
  {
    var t :| t <= until && Reading(fs, path, t, e, fs(path, t).Good?)
             && (!fs(path, t).Good? ==> if path == "" then e == fallback else Justified(fs, fallback, Parent(path), e, until));
    assert fs(path, t) == file(path);
    if !file(path).Good? && path != "" {
      JustifiedIsTheSearch(fs, file, fallback, Parent(path), e, until);
    }
  }

  /** Some ancestor's file, read at a time from `since` on, gave e. */
  ghost predicate ReadSince(fs: Files, path: Path, e: Expiring, since: int, until: int) {
    exists a: Path, t: int :: a <= path && since <= t <= until && fs(a, t).Good? && Reading(fs, a, t, e, true)
  }

  // ---------------------------------------------- the cache

  type Entries = map<Path, Expiring>

  ghost predicate AllJustified(fs: Files, fallback: Expiring, entries: Entries, until: int) {
    forall p :: p in entries ==> Justified(fs, fallback, p, entries[p], until)
  }

  lemma AllLater(fs: Files, fallback: Expiring, entries: Entries, until: int, later: int)
    requires AllJustified(fs, fallback, entries, until) && until <= later
    ensures AllJustified(fs, fallback, entries, later)
  {
    forall p | p in entries ensures Justified(fs, fallback, p, entries[p], later) {
      JustifiedLater(fs, fallback, p, entries[p], until, later);
    }
  }

  /** One level's part of a call: the times of the lookup, of the second look at the
      expiry and of the reading, what other threads have made of the cache by the time
      of the insertion, and what the insertion evicts if the cache is full. */
  datatype Step = Step(lookup: int, check: int, read: int, others: Entries, evicted: set<Path>)

  /** An insertion: an entry that is there stays, and a cache that has grown too large
      loses some entries, perhaps the new one. */
  function Stored(entries: Entries, k: Path, e: Expiring, maxSize: nat, evicted: set<Path>): Entries {
    if maxSize == 0 then entries
    else
      var more := if k in entries then entries else entries[k := e];
      if |more| > maxSize then more - evicted else more
  }

  /** Only an insertion into a cache that is full evicts, and then only what it is told
      to; all else stays as it is. */
  lemma StoredExactly(entries: Entries, k: Path, e: Expiring, maxSize: nat, evicted: set<Path>)
    ensures var t := Stored(entries, k, e, maxSize, evicted);
            var full := |if k in entries then entries else entries[k := e]| > maxSize;
            && (forall p :: p in entries ==> if p in t then t[p] == entries[p] else full && p in evicted)
            && (forall p :: p in t ==> p in entries || p == k)
            && (k !in entries && k in t ==> t[k] == e)
            && (k !in t ==> maxSize == 0 || (full && k in evicted))
  {
  }

  /** Some other thread had stored rules for k by the time of one of the insertions. */
  ghost predicate OthersHave(path: Path, steps: Path -> Step, k: Path) {
    exists p :: p <= path && k in steps(p).others
  }

  /** Looking up may lose an entry, and what it returns is justified. */
  lemma FewerJustified(fs: Files, fallback: Expiring, entries: Entries, fewer: Entries, k: Path, until: int)
    requires AllJustified(fs, fallback, entries, until) && (fewer == entries || fewer == entries - {k})
    ensures AllJustified(fs, fallback, fewer, until)
    ensures k in entries ==> Justified(fs, fallback, k, entries[k], until)
  {
    hide Justified;
  }

  lemma StoredKeeps(fs: Files, fallback: Expiring, entries: Entries, k: Path, e: Expiring, maxSize: nat, evicted: set<Path>, until: int)
    requires AllJustified(fs, fallback, entries, until) && Justified(fs, fallback, k, e, until)
    ensures AllJustified(fs, fallback, Stored(entries, k, e, maxSize, evicted), until)
  {
    hide Justified;
  }

  lemma StoredHas(entries: Entries, k: Path, e: Expiring, maxSize: nat, evicted: set<Path>)
    ensures var t := Stored(entries, k, e, maxSize, evicted);
            && (k in t ==> t[k] == e || k in entries) && (k !in t ==> maxSize == 0 || k in evicted)
            && (forall p :: p in t && p != k ==> p in entries)
  {
  }

  /** What a call that began at `since` may return: rules not expired then, or read
      during the call, or the fallback. */
  ghost predicate Timely(fs: Files, fallback: Expiring, path: Path, e: Expiring, since: int, until: int) {
    since <= e.goodTill || ReadSince(fs, path, e, since, until) || e == fallback
  }

  /** A good file justifies what it gives. */
  lemma ReadHere(fs: Files, fallback: Expiring, path: Path, t: int, since: int, until: int)
    requires fs(path, t).Good? && since <= t <= until
    ensures var e := Expiring(fs(path, t).rules, t + fs(path, t).maxAge);
            Justified(fs, fallback, path, e, until) && ReadSince(fs, path, e, since, until)
  {
    assert Reading(fs, path, t, Expiring(fs(path, t).rules, t + fs(path, t).maxAge), true);
  }

  /** Without a good file, what is justified one level up is justified here. */
  lemma ReadAbove(fs: Files, fallback: Expiring, path: Path, t: int, e: Expiring, until: int)
    requires !fs(path, t).Good? && t <= until
    requires if path == "" then e == fallback else Justified(fs, fallback, Parent(path), e, until)
    ensures Justified(fs, fallback, path, e, until)
  {
    assert Reading(fs, path, t, e, false);
  }

  lemma ReadSinceAbove(fs: Files, path: Path, e: Expiring, since: int, later: int, until: int)
    requires ReadSince(fs, Parent(path), e, later, until) && since <= later
    ensures ReadSince(fs, path, e, since, until)
  {
    var a: Path, t: int :| a <= Parent(path) && later <= t <= until && fs(a, t).Good? && Reading(fs, a, t, e, true);
    assert a <= path;
  }

  lemma OthersAbove(path: Path, steps: Path -> Step, k: Path)
    requires OthersHave(Parent(path), steps, k)
    ensures OthersHave(path, steps, k)
  {
    var p :| p <= Parent(path) && k in steps(p).others;
    assert p <= path;
  }

  /** There is an entry, and it is good at the lookup and at the second look. */
  predicate Held(entries: Entries, path: Path, s: Step) {
    path in entries && s.lookup <= entries[path].goodTill && s.check <= entries[path].goodTill
  }

  class RuleCache {
    const fs: Files
    const fallback: Expiring
    const maxSize: nat
    var entries: Entries

    constructor (fs: Files, fallback: Expiring, maxSize: nat)
      ensures this.fs == fs && this.fallback == fallback && this.maxSize == maxSize && entries == map[]
    {
      this.fs, this.fallback, this.maxSize := fs, fallback, maxSize;
      entries := map[];
    }

    /** expiring_cache::lookup: an expired entry is erased. */
    method Lookup(k: Path, now: int) returns (r: Option<Expiring>)
      modifies this
      ensures r == if k in old(entries) && now <= old(entries)[k].goodTill then Some(old(entries)[k]) else None
      ensures entries == if r.None? then old(entries) - {k} else old(entries)
    {
      if k !in entries {
        return None;
      }
      if now > entries[k].goodTill {
        entries := entries - {k};
        return None;
      }
      return Some(entries[k]);
    }

    /** expiring_cache::insert. */
    method Insert(k: Path, e: Expiring, evicted: set<Path>)
      modifies this
      ensures entries == Stored(old(entries), k, e, maxSize, evicted)
    {
      if maxSize == 0 {
        return;
      }
      if k !in entries {
        entries := entries[k := e];
      }
      if |entries| > maxSize {
        entries := entries - evicted;
      }
    }

    /** Times go on from level to level, and other threads insert only what is
        justified by then. */
    ghost predicate Orderly(path: Path, steps: Path -> Step, until: int) {
      forall p :: p <= path ==>
        && steps(p).lookup <= steps(p).check <= steps(p).read <= until
        && (p != "" ==> steps(p).read <= steps(Parent(p)).lookup)
        && AllJustified(fs, fallback, steps(p).others, until)
    }

    /** get_cc_rules_recursive. An entry that is good at both looks is returned, and
        otherwise the file's rules if it is good, or what the parent's call gives in the
        cache that others have left. Whatever it returns is justified, and either still good
        at the time of the call, or read during the call, or the fallback; and it is in
        the cache from then on, unless another thread's rules are, or it is evicted. */
    method GetRules(path: Path, steps: Path -> Step, until: int) returns (e: Expiring)
      requires AllJustified(fs, fallback, entries, until) && Orderly(path, steps, until)
      modifies this
      ensures AllJustified(fs, fallback, entries, until)
      ensures Justified(fs, fallback, path, e, until)
      ensures var s := steps(path);
              && (Held(old(entries), path, s) ==> e == old(entries)[path] && entries == old(entries))
              && (!Held(old(entries), path, s) && fs(path, s.read).Good? ==>
                    e == Expiring(fs(path, s.read).rules, s.read + fs(path, s.read).maxAge))
              && (!Held(old(entries), path, s) && !fs(path, s.read).Good? ==>
                    e == if path == "" then fallback else Got(s.others, Parent(path), steps))
      ensures e == Got(old(entries), path, steps)
      ensures Timely(fs, fallback, path, e, steps(path).lookup, until)
      ensures path in entries ==> entries[path] == e || OthersHave(path, steps, path)
      ensures path !in entries ==> maxSize == 0 || path in steps(path).evicted
      ensures forall k :: k in entries && |k| > |path| ==> k in old(entries) || OthersHave(path, steps, k)
      decreases |path|
    {
      var s := steps(path);
      OrderlyHere(path, steps, until);
      hide Justified, AllJustified, Reading, ReadSince, Stored, Orderly;
      var tentative := Lookup(path, s.lookup);
      FewerJustified(fs, fallback, old(entries), entries, path, until);
      if tentative.Some? && s.check <= tentative.value.goodTill {
        return tentative.value;
      }
      var file := fs(path, s.read);
      entries := s.others;
      assert forall k :: k in entries ==> OthersHave(path, steps, k);
      if file.Good? {
        e := Expiring(file.rules, s.read + file.maxAge);
        ReadHere(fs, fallback, path, s.read, s.lookup, until);
      } else {
        if path == "" {
          e := fallback;
        } else {
          e := GetRules(Parent(path), steps, until);
          forall k | OthersHave(Parent(path), steps, k) ensures OthersHave(path, steps, k) {
            OthersAbove(path, steps, k);
          }
          if ReadSince(fs, Parent(path), e, steps(Parent(path)).lookup, until) {
            ReadSinceAbove(fs, path, e, s.lookup, steps(Parent(path)).lookup, until);
          }
        }
        ReadAbove(fs, fallback, path, s.read, e, until);
      }
      StoredKeeps(fs, fallback, entries, path, e, maxSize, s.evicted, until);
      StoredHas(entries, path, e, maxSize, s.evicted);
      Insert(path, e, s.evicted);
    }

    /** What the call returns, from level to level. */
    function Got(entries: Entries, path: Path, steps: Path -> Step): Expiring
      decreases |path|
    {
      var s := steps(path);
      if Held(entries, path, s) then entries[path]
      else if fs(path, s.read).Good? then Expiring(fs(path, s.read).rules, s.read + fs(path, s.read).maxAge)
      else if path == "" then fallback
      else Got(s.others, Parent(path), steps)
    }

    lemma OrderlyHere(path: Path, steps: Path -> Step, until: int)
      requires Orderly(path, steps, until)
      ensures steps(path).lookup <= steps(path).check <= steps(path).read <= until
      ensures AllJustified(fs, fallback, steps(path).others, until)
      ensures path != "" ==> Orderly(Parent(path), steps, until) && steps(path).lookup <= steps(Parent(path)).lookup
    {
      hide AllJustified;
    }

    /** get_cc: the first rule that matches the path decides. */
    method GetCc(pathInfo: Path, directory: bool, matches: (Re, Path) -> bool, steps: Path -> Step, until: int)
      returns (cc: string, ghost e: Expiring)
      requires AllJustified(fs, fallback, entries, until)
      requires Orderly(if directory then pathInfo else Parent(pathInfo), steps, until)
      modifies this
      ensures AllJustified(fs, fallback, entries, until)
      ensures Justified(fs, fallback, if directory then pathInfo else Parent(pathInfo), e, until)
      ensures var dir := if directory then pathInfo else Parent(pathInfo);
              Timely(fs, fallback, dir, e, steps(dir).lookup, until)
      ensures || (cc == e.rules.cc && forall k :: 0 <= k < |e.rules.rerules| ==> !matches(e.rules.rerules[k].0, pathInfo))
              || exists k :: 0 <= k < |e.rules.rerules| && matches(e.rules.rerules[k].0, pathInfo) && cc == e.rules.rerules[k].1
                             && forall j :: 0 <= j < k ==> !matches(e.rules.rerules[j].0, pathInfo)
    {
      hide Justified, Timely, AllJustified, Orderly, Parent;
      var r := GetRules(if directory then pathInfo else Parent(pathInfo), steps, until);
      e := r;
      for k := 0 to |r.rules.rerules|
        invariant forall j :: 0 <= j < k ==> !matches(r.rules.rerules[j].0, pathInfo)
      {
        if matches(r.rules.rerules[k].0, pathInfo) {
          return r.rules.rerules[k].1, r;
        }
      }
      return r.rules.cc, r;
    }
  }

  datatype Call = Call(path: Path, steps: Path -> Step, until: int)

  /** Any calls one after another, whatever other threads insert and evict meanwhile:
      every result is justified, and by a reading no older than its call allows. */
  method Run(cache: RuleCache, calls: seq<Call>, start: int) returns (results: seq<Expiring>)
    requires AllJustified(cache.fs, cache.fallback, cache.entries, start)
    requires forall k :: 0 <= k < |calls| ==> cache.Orderly(calls[k].path, calls[k].steps, calls[k].until) && start <= calls[k].until
    requires forall j, k :: 0 <= j < k < |calls| ==> calls[j].until <= calls[k].until
    modifies cache
    ensures |results| == |calls|
    ensures forall k :: 0 <= k < |calls| ==>
              var c := calls[k];
              && Justified(cache.fs, cache.fallback, c.path, results[k], c.until)
              && Timely(cache.fs, cache.fallback, c.path, results[k], c.steps(c.path).lookup, c.until)
  {
    hide *;
    results := [];
    ghost var now := start;
    for n := 0 to |calls|
      invariant |results| == n && (n == 0 ==> now == start) && (n > 0 ==> now == calls[n - 1].until)
      invariant AllJustified(cache.fs, cache.fallback, cache.entries, now)
      invariant forall k :: 0 <= k < n ==>
                  var c := calls[k];
                  && Justified(cache.fs, cache.fallback, c.path, results[k], c.until)
                  && Timely(cache.fs, cache.fallback, c.path, results[k], c.steps(c.path).lookup, c.until)
    {
      var c := calls[n];
      AllLater(cache.fs, cache.fallback, cache.entries, now, c.until);
      var e := cache.GetRules(c.path, c.steps, c.until);
      results := results + [e];
      now := c.until;
    }
  }

  // ---------------------------------------------- the nearest ancestor

  /** The k-th directory up from a path. */
  function Up(path: Path, k: nat): Path
    decreases k
  {
    if k == 0 then path else Up(Parent(path), k - 1)
  }

  /** The search finds the rules of the nearest directory up from the path whose file
      is good, or the fallback if there is none up to the top. */
  lemma {:induction false} SearchIsNearest(file: Path -> File, fallback: Rules, path: Path) returns (k: nat)
    ensures forall j: nat :: j < k ==> !file(Up(path, j)).Good?
    ensures (file(Up(path, k)).Good? && Search(file, fallback, path) == file(Up(path, k)).rules)
            || (!file(Up(path, k)).Good? && Up(path, k) == "" && Search(file, fallback, path) == fallback)
    decreases |path|
  {
    if file(path).Good? || path == "" {
      k := 0;
    } else {
      var m := SearchIsNearest(file, fallback, Parent(path));
      k := m + 1;
      forall j: nat | j < k ensures !file(Up(path, j)).Good? {
        assert j > 0 ==> Up(path, j) == Up(Parent(path), j - 1);
      }
    }
  }
}
