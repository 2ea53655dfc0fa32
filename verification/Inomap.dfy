/** The client's map from inode numbers to names and validators. */
module Inomap {
  import opened Wrappers

  type Ino = nat

  datatype Record = Record(name: string, pino: Ino, validator: nat, refcount: int)

  type Records = map<Ino, Record>

  /** What ino_update_validator returns or throws: the validator that was recorded;
      the out-of-order exception; or any other. */
  datatype Update = Was(validator: nat) | OutOfOrder | Failed

  // ---------------------------------------------- what each operation does

  /** The record is for that name already, or there is none. */
  predicate NameFits(rs: Records, name: string, ino: Ino) {
    ino in rs ==> rs[ino].name == name
  }

  function Remembered(rs: Records, pino: Ino, name: string, ino: Ino, validator: nat): Records {
    if ino !in rs then rs[ino := Record(name, pino, validator, 1)]
    else if NameFits(rs, name, ino) then rs[ino := rs[ino].(refcount := rs[ino].refcount + 1)]
    else rs
  }

  function Updated(rs: Records, ino: Ino, validator: nat): Records {
    if ino in rs && rs[ino].validator <= validator then rs[ino := rs[ino].(validator := validator)] else rs
  }

  function Forgotten(rs: Records, ino: Ino, n: nat): Records {
    if ino !in rs then rs
    else if rs[ino].refcount <= n then rs - {ino}
    else rs[ino := rs[ino].(refcount := rs[ino].refcount - n)]
  }

  /** A forget takes n off the count, but nothing below zero, and takes the record away at
      zero; it touches no other. */
  lemma ForgottenExactly(rs: Records, ino: Ino, n: nat)
    requires ino in rs && rs[ino].refcount > 0
    ensures var t := Forgotten(rs, ino, n);
            && (ino in t <==> rs[ino].refcount - n > 0)
            && (ino in t ==> t[ino] == Record(rs[ino].name, rs[ino].pino, rs[ino].validator, rs[ino].refcount - n))
            && (forall i :: i != ino ==> (i in t <==> i in rs) && (i in rs ==> t[i] == rs[i]))
  {
  }

  // ---------------------------------------------- full names

  /** A remembered parent has a smaller rank than what is in it; the next rank is free. */
  ghost predicate Ranked(rs: Records, rank: map<Ino, nat>, next: nat) {
    && (forall i :: i in rs && i != 1 ==> i in rank)
    && (forall i :: i in rs && i != 1 && rs[i].pino != 1 && rs[i].pino in rs ==> rank[rs[i].pino] < rank[i])
    && (forall i :: i in rank ==> rank[i] < next)
  }

  /** Parents are remembered. */
  predicate Closed(rs: Records) {
    forall i :: i in rs && i != 1 && rs[i].pino != 1 ==> rs[i].pino in rs
  }

  /** `paths` are full names: a child's is its parent's, a slash, and its own name. */
  ghost predicate Paths(rs: Records, paths: map<Ino, string>) {
    forall i :: i in rs && i != 1 ==>
      && i in paths
      && (if rs[i].pino == 1 then paths[i] == "/" + rs[i].name
          else rs[i].pino in paths && paths[i] == paths[rs[i].pino] + "/" + rs[i].name)
  }

  /** _fullname, for a remembered ino that is not the root. It comes to an end, since
      ranks decrease; None is a throw, for a parent that is not remembered. */
  ghost function FullNameOf(rs: Records, rank: map<Ino, nat>, next: nat, ino: Ino): Option<string>
    requires Ranked(rs, rank, next) && ino in rs && ino != 1
    decreases rank[ino]
  {
    var pino, name := rs[ino].pino, rs[ino].name;
    if pino == 1 then Some("/" + name)
    else if pino !in rs then None
    else
      var pname :- FullNameOf(rs, rank, next, pino);
      Some(pname + "/" + name)
  }

  /** Whatever the ranks, the recursion gives the ino's path. */
  lemma {:induction false} FullNameIsPath(rs: Records, rank: map<Ino, nat>, next: nat, paths: map<Ino, string>, ino: Ino)
    requires Ranked(rs, rank, next) && Closed(rs) && Paths(rs, paths) && ino in rs && ino != 1
    ensures FullNameOf(rs, rank, next, ino) == Some(paths[ino])
    decreases rank[ino]
  {
    if rs[ino].pino != 1 {
      FullNameIsPath(rs, rank, next, paths, rs[ino].pino);
    }
  }

  /** The kernel's side of the bargain for a lookup: it asks about a child of a
      directory it remembers, and the ino identifies parent and name. */
  predicate MayRemember(rs: Records, pino: Ino, name: string, ino: Ino) {
    && ino != 1 && pino != ino && (pino == 1 || pino in rs)
    && (ino in rs ==> rs[ino].name == name && rs[ino].pino == pino)
  }

  /** And for a forget: no more than it remembers, and not the last of a directory
      while it remembers something in it. */
  predicate MayForget(rs: Records, ino: Ino, n: nat) {
    && ino in rs && n <= rs[ino].refcount
    && (n == rs[ino].refcount ==> forall i :: i in rs && i != 1 ==> rs[i].pino != ino)
  }

  function Count(rs: Records, i: Ino): int {
    if i in rs then rs[i].refcount else 0
  }

  /** An ino is remembered, with its count, just while it was remembered more often
      than forgotten. */
  ghost predicate Counted(rs: Records, remembers: multiset<Ino>, forgets: multiset<Ino>) {
    && (forall i: Ino :: remembers[i] == forgets[i] + Count(rs, i))
    && (forall i :: i in rs ==> rs[i].refcount > 0)
  }

  function PathOf(paths: map<Ino, string>, pino: Ino, name: string): string {
    (if pino == 1 || pino !in paths then "" else paths[pino]) + "/" + name
  }

  /** History: the order inos were first remembered in, the path each was looked up by,
      and how often each was remembered and forgotten. */
  datatype Book = Book(rank: map<Ino, nat>, next: nat, paths: map<Ino, string>, remembers: multiset<Ino>, forgets: multiset<Ino>)

  const NEW_BOOK := Book(map[], 0, map[], multiset{1}, multiset{})

  ghost predicate Sound(rs: Records, b: Book) {
    Ranked(rs, b.rank, b.next) && Closed(rs) && Paths(rs, b.paths) && Counted(rs, b.remembers, b.forgets)
  }

  ghost function BookRemember(b: Book, rs: Records, pino: Ino, name: string, ino: Ino): Book {
    var c := if ino in rs then b else b.(rank := b.rank[ino := b.next], next := b.next + 1, paths := b.paths[ino := PathOf(b.paths, pino, name)]);
    c.(remembers := b.remembers + multiset{ino})
  }

  ghost function BookForget(b: Book, ino: Ino, n: nat): Book {
    b.(forgets := b.forgets[ino := b.forgets[ino] + n])
  }

  /** A lookup keeps the map sound, throws nothing, and gives the ino the path it was
      looked up by. */
  lemma RememberKeeps(rs: Records, b: Book, pino: Ino, name: string, ino: Ino, validator: nat)
    requires Sound(rs, b) && MayRemember(rs, pino, name, ino)
    ensures NameFits(rs, name, ino) && (pino != 1 ==> pino in b.paths)
    ensures var c := BookRemember(b, rs, pino, name, ino);
            && Sound(Remembered(rs, pino, name, ino, validator), c)
            && ino in c.paths && c.paths[ino] == PathOf(b.paths, pino, name)
  {
    RememberPaths(rs, b.paths, pino, name, ino, validator);
    RememberRanked(rs, b.rank, b.next, pino, name, ino, validator);
    RememberCounted(rs, b.remembers, b.forgets, pino, name, ino, validator);
    hide Ranked, Closed, Paths, Counted;
  }

  lemma RememberRanked(rs: Records, rank: map<Ino, nat>, next: nat, pino: Ino, name: string, ino: Ino, validator: nat)
    requires Ranked(rs, rank, next) && Closed(rs) && MayRemember(rs, pino, name, ino)
    ensures var t := Remembered(rs, pino, name, ino, validator);
            Closed(t) && (if ino in rs then Ranked(t, rank, next) else Ranked(t, rank[ino := next], next + 1))
  {
  }

  lemma RememberPaths(rs: Records, paths: map<Ino, string>, pino: Ino, name: string, ino: Ino, validator: nat)
    requires Closed(rs) && Paths(rs, paths) && MayRemember(rs, pino, name, ino)
    ensures pino != 1 ==> pino in paths
    ensures Paths(Remembered(rs, pino, name, ino, validator), if ino in rs then paths else paths[ino := PathOf(paths, pino, name)])
    ensures ino in rs ==> ino in paths && paths[ino] == PathOf(paths, pino, name)
  {
    assert "" + "/" + name == "/" + name;
  }

  lemma RememberCounted(rs: Records, remembers: multiset<Ino>, forgets: multiset<Ino>, pino: Ino, name: string, ino: Ino, validator: nat)
    requires Counted(rs, remembers, forgets) && NameFits(rs, name, ino)
    ensures Counted(Remembered(rs, pino, name, ino, validator), remembers + multiset{ino}, forgets)
  {
  }

  /** So does a forget, and the entry goes exactly with the last of the lookups. */
  lemma ForgetKeeps(rs: Records, b: Book, ino: Ino, n: nat)
    requires Sound(rs, b) && MayForget(rs, ino, n)
    ensures Sound(Forgotten(rs, ino, n), BookForget(b, ino, n))
    ensures ino in Forgotten(rs, ino, n) <==> BookForget(b, ino, n).forgets[ino] < b.remembers[ino]
  {
    ForgetShape(rs, b.rank, b.next, b.paths, ino, n);
    ForgetCounted(rs, b.remembers, b.forgets, ino, n);
    hide Ranked, Closed, Paths;
  }

  lemma ForgetShape(rs: Records, rank: map<Ino, nat>, next: nat, paths: map<Ino, string>, ino: Ino, n: nat)
    requires Ranked(rs, rank, next) && Closed(rs) && Paths(rs, paths) && MayForget(rs, ino, n)
    ensures Ranked(Forgotten(rs, ino, n), rank, next) && Closed(Forgotten(rs, ino, n))
    ensures Paths(Forgotten(rs, ino, n), paths)
  {
    var t := Forgotten(rs, ino, n);
    assert forall i :: i in t ==> i in rs && t[i].pino == rs[i].pino && t[i].name == rs[i].name;
    assert forall i :: i in rs && i != ino ==> i in t;
    assert ino !in t ==> forall i :: i in rs && i != 1 ==> rs[i].pino != ino;
    hide Forgotten, MayForget;
    FewerRanked(rs, t, rank, next);
    FewerPaths(rs, t, paths, ino);
  }

  lemma FewerRanked(rs: Records, t: Records, rank: map<Ino, nat>, next: nat)
    requires Ranked(rs, rank, next)
    requires forall i :: i in t ==> i in rs && t[i].pino == rs[i].pino && t[i].name == rs[i].name
    ensures Ranked(t, rank, next)
  {
  }

  lemma FewerPaths(rs: Records, t: Records, paths: map<Ino, string>, ino: Ino)
    requires Closed(rs) && Paths(rs, paths)
    requires forall i :: i in t ==> i in rs && t[i].pino == rs[i].pino && t[i].name == rs[i].name
    requires forall i :: i in rs && i != ino ==> i in t
    requires ino !in t ==> forall i :: i in rs && i != 1 ==> rs[i].pino != ino
    ensures Closed(t) && Paths(t, paths)
  {
  }

  lemma ForgetCounted(rs: Records, remembers: multiset<Ino>, forgets: multiset<Ino>, ino: Ino, n: nat)
    requires Counted(rs, remembers, forgets) && MayForget(rs, ino, n)
    ensures Counted(Forgotten(rs, ino, n), remembers, forgets[ino := forgets[ino] + n])
  {
  }

  /** Validators do not matter to names and counts. */
  lemma ValidatorKeeps(rs: Records, b: Book, ino: Ino, validator: nat)
    requires Sound(rs, b) && ino in rs
    ensures Sound(rs[ino := rs[ino].(validator := validator)], b)
  {
  }

  lemma RanksFall(rs: Records, rank: map<Ino, nat>, next: nat, ino: Ino)
    requires Ranked(rs, rank, next) && ino in rs && ino != 1
    ensures ino in rank
    ensures rs[ino].pino != 1 && rs[ino].pino in rs ==> rs[ino].pino in rank && rank[rs[ino].pino] < rank[ino]
  {
  }

  lemma FullNameStep(rs: Records, rank: map<Ino, nat>, next: nat, ino: Ino)
    requires Ranked(rs, rank, next) && ino in rs && ino != 1
    ensures var r := rs[ino];
            FullNameOf(rs, rank, next, ino)
            == if r.pino == 1 then Some("/" + r.name)
               else if r.pino !in rs then None
               else
                 var p := FullNameOf(rs, rank, next, r.pino);
                 if p.None? then None else Some(p.value + "/" + r.name)
  {
    hide Ranked;
  }

  class InoMap {
    var records: Records

    /** As the mount's init leaves it: the root, remembered under the mount point's
        parent, with the greatest validator. */
    constructor (dotdot: Ino)
      ensures records == Root(dotdot)
      ensures Sound(records, NEW_BOOK)
    {
      records := map[1 := Record("", dotdot, 0xFFFF_FFFF_FFFF_FFFF, 1)];
    }

    /** False is a throw: the ino is remembered under another name. */
    method Remember(pino: Ino, name: string, ino: Ino, validator: nat) returns (ok: bool)
      modifies this
      ensures ok == NameFits(old(records), name, ino)
      ensures records == Remembered(old(records), pino, name, ino, validator)
    {
      if ino !in records {
        records := records[ino := Record(name, pino, validator, 0)];
      } else if records[ino].name != name {
        return false;
      }
      records := records[ino := records[ino].(refcount := records[ino].refcount + 1)];
      return true;
    }

    method Forget(ino: Ino, n: nat)
      modifies this
      ensures records == Forgotten(old(records), ino, n)
    {
      if ino !in records {
        return;
      }
      records := records[ino := records[ino].(refcount := records[ino].refcount - n)];
      if records[ino].refcount < 0 {
        records := records[ino := records[ino].(refcount := 0)];
      }
      if records[ino].refcount == 0 {
        records := records - {ino};
      }
    }

    method FullName(ino: Ino, ghost b: Book) returns (r: Option<string>)
      requires Ranked(records, b.rank, b.next) && ino in records && ino != 1
      ensures r == FullNameOf(records, b.rank, b.next, ino)
      decreases b.rank[ino]
    {
      hide Ranked;
      RanksFall(records, b.rank, b.next, ino);
      FullNameStep(records, b.rank, b.next, ino);
      var pino, name := records[ino].pino, records[ino].name;
      if pino == 1 {
        return Some("/" + name);
      }
      if pino !in records {
        return None;
      }
      var pname := FullName(pino, b);
      if pname.None? {
        return None;
      }
      return Some(pname.value + "/" + name);
    }

    /** ino_to_fullname_validator; None is a throw. */
    method FullNameValidator(ino: Ino, ghost b: Book) returns (r: Option<(string, nat)>)
      requires Sound(records, b)
      ensures ino == 1 ==> r == Some(("", 1))
      ensures ino != 1 && ino !in records ==> r == None
      ensures ino != 1 && ino in records ==> ino in b.paths && r == Some((b.paths[ino], records[ino].validator))
    {
      if ino == 1 {
        return Some(("", 1));
      }
      if ino !in records {
        return None;
      }
      FullNameIsPath(records, b.rank, b.next, b.paths, ino);
      var name := FullName(ino, b);
      return Some((name.value, records[ino].validator));
    }

    /** ino_update_validator, never asked about the root. An out-of-order validator
        throws and changes nothing; any other is recorded. */
    method UpdateValidator(ino: Ino, validator: nat, ghost b: Book) returns (u: Update)
      requires Sound(records, b) && ino != 1
      modifies this
      ensures Sound(records, b)
      ensures u.Failed? <==> ino !in old(records)
      ensures u.OutOfOrder? <==> ino in old(records) && validator < old(records)[ino].validator
      ensures u.Was? ==> u.validator == old(records)[ino].validator
      ensures records == Updated(old(records), ino, validator)
    {
      if ino !in records {
        return Failed;
      }
      var ret := records[ino].validator;
      ValidatorKeeps(records, b, ino, validator);
      if validator > records[ino].validator {
        records := records[ino := records[ino].(validator := validator)];
      }
      if validator < records[ino].validator {
        FullNameIsPath(records, b.rank, b.next, b.paths, ino);
        var name := FullName(ino, b);
        return if name.Some? then OutOfOrder else Failed;
      }
      return Was(ret);
    }
  }

  // ---------------------------------------------- whole runs

  datatype Call =
    | Lookup(pino: Ino, name: string, ino: Ino, validator: nat)
    | Forget(ino: Ino, n: nat)
    | Update(ino: Ino, validator: nat)

  function Root(dotdot: Ino): Records {
    map[1 := Record("", dotdot, 0xFFFF_FFFF_FFFF_FFFF, 1)]
  }

  function RecordsAfter(dotdot: Ino, calls: seq<Call>): Records {
    if calls == [] then Root(dotdot)
    else
      var rs := RecordsAfter(dotdot, calls[..|calls| - 1]);
      match calls[|calls| - 1]
      case Lookup(pino, name, ino, validator) => Remembered(rs, pino, name, ino, validator)
      case Forget(ino, n) => Forgotten(rs, ino, n)
      case Update(ino, validator) => Updated(rs, ino, validator)
  }

  predicate Allowed(rs: Records, c: Call) {
    match c
    case Lookup(pino, name, ino, _) => MayRemember(rs, pino, name, ino)
    case Forget(ino, n) => MayForget(rs, ino, n)
    case Update(ino, _) => ino != 1
  }

  /** The kernel keeps its side at every call. */
  predicate KernelKeeps(dotdot: Ino, calls: seq<Call>) {
    calls == [] || (&& KernelKeeps(dotdot, calls[..|calls| - 1])
                    && Allowed(RecordsAfter(dotdot, calls[..|calls| - 1]), calls[|calls| - 1]))
  }

  /** How often an ino was looked up; the mount's init does so once for the root. */
  function Remembers(calls: seq<Call>, ino: Ino): nat {
    if calls == [] then if ino == 1 then 1 else 0
    else
      var c := calls[|calls| - 1];
      Remembers(calls[..|calls| - 1], ino) + if c.Lookup? && c.ino == ino then 1 else 0
  }

  function Forgets(calls: seq<Call>, ino: Ino): nat {
    if calls == [] then 0
    else
      var c := calls[|calls| - 1];
      Forgets(calls[..|calls| - 1], ino) + if c.Forget? && c.ino == ino then c.n else 0
  }

  /** The path that an ino was last looked up by: its parent's then, a slash, a name. */
  function PathNow(calls: seq<Call>, ino: Ino): string {
    if calls == [] then ""
    else
      var before, c := calls[..|calls| - 1], calls[|calls| - 1];
      if c.Lookup? && c.ino == ino then (if c.pino == 1 then "" else PathNow(before, c.pino)) + "/" + c.name
      else PathNow(before, ino)
  }

  ghost predicate Agrees(calls: seq<Call>, rs: Records, b: Book) {
    && Sound(rs, b)
    && (forall i :: i in rs && i != 1 ==> b.paths[i] == PathNow(calls, i))
    && (forall i: Ino :: b.remembers[i] == Remembers(calls, i) && b.forgets[i] == Forgets(calls, i))
  }

  lemma RootAgrees(dotdot: Ino)
    ensures Agrees([], Root(dotdot), NEW_BOOK)
  {
  }

  lemma LookupAgrees(calls: seq<Call>, rs: Records, b: Book, c: Call)
    requires Agrees(calls, rs, b) && c.Lookup? && Allowed(rs, c)
    ensures c.pino != 1 ==> c.pino in b.paths
    ensures Agrees(calls + [c], Remembered(rs, c.pino, c.name, c.ino, c.validator), BookRemember(b, rs, c.pino, c.name, c.ino))
  {
    RememberKeeps(rs, b, c.pino, c.name, c.ino, c.validator);
    hide Ranked, Closed, Counted;
    assert (calls + [c])[..|calls|] == calls;
    var b', rs' := BookRemember(b, rs, c.pino, c.name, c.ino), Remembered(rs, c.pino, c.name, c.ino, c.validator);
    forall i | i in rs' && i != 1 ensures b'.paths[i] == PathNow(calls + [c], i) {
      assert i != c.ino ==> i in rs && b'.paths[i] == b.paths[i];
    }
  }

  lemma ForgetAgrees(calls: seq<Call>, rs: Records, b: Book, c: Call)
    requires Agrees(calls, rs, b) && c.Forget? && Allowed(rs, c)
    ensures Agrees(calls + [c], Forgotten(rs, c.ino, c.n), BookForget(b, c.ino, c.n))
  {
    hide Ranked, Closed, Paths, Counted;
    ForgetKeeps(rs, b, c.ino, c.n);
    ForgetFewer(rs, c.ino, c.n);
    hide Sound, Forgotten, MayForget;
    assert (calls + [c])[..|calls|] == calls;
  }

  lemma ForgetFewer(rs: Records, ino: Ino, n: nat)
    ensures forall i :: i in Forgotten(rs, ino, n) ==> i in rs
  {
  }

  lemma UpdateAgrees(calls: seq<Call>, rs: Records, b: Book, c: Call)
    requires Agrees(calls, rs, b) && c.Update?
    ensures Agrees(calls + [c], Updated(rs, c.ino, c.validator), b)
  {
    hide Ranked, Closed, Paths, Counted;
    UpdateKeeps(rs, b, c.ino, c.validator);
    hide Sound, Updated;
    assert (calls + [c])[..|calls|] == calls;
  }

  lemma UpdateKeeps(rs: Records, b: Book, ino: Ino, validator: nat)
    requires Sound(rs, b)
    ensures Sound(Updated(rs, ino, validator), b)
    ensures forall i :: i in Updated(rs, ino, validator) <==> i in rs
  {
    hide Sound;
    if ino in rs {
      ValidatorKeeps(rs, b, ino, validator);
    }
  }

  /** Every state that a kernel which keeps its side can reach is in order: some book
      accounts for the records, and it agrees with the calls. */
  lemma {:induction false} ReachableAgrees(dotdot: Ino, calls: seq<Call>) returns (b: Book)
    requires KernelKeeps(dotdot, calls)
    ensures Agrees(calls, RecordsAfter(dotdot, calls), b)
    decreases |calls|
  {
    if calls == [] {
      b := NEW_BOOK;
      RootAgrees(dotdot);
    } else {
      hide Agrees, Remembered, Forgotten, Updated;
      var before, c := calls[..|calls| - 1], calls[|calls| - 1];
      assert before + [c] == calls;
      var rs := RecordsAfter(dotdot, before);
      b := ReachableAgrees(dotdot, before);
      match c {
        case Lookup(pino, name, ino, validator) =>
          LookupAgrees(before, rs, b, c);
          b := BookRemember(b, rs, pino, name, ino);
        case Forget(ino, n) =>
          ForgetAgrees(before, rs, b, c);
          b := BookForget(b, ino, n);
        case Update(ino, validator) => UpdateAgrees(before, rs, b, c);
      }
    }
  }

  /** In every reachable state an ino has an entry exactly while it was looked up more
      often than it was forgotten, and the entry counts the difference. */
  lemma EntryExistsExactly(dotdot: Ino, calls: seq<Call>, ino: Ino)
    requires KernelKeeps(dotdot, calls)
    ensures var rs := RecordsAfter(dotdot, calls);
            && (ino in rs <==> Forgets(calls, ino) < Remembers(calls, ino))
            && (ino in rs ==> rs[ino].refcount == Remembers(calls, ino) - Forgets(calls, ino))
  {
    var b := ReachableAgrees(dotdot, calls);
    assert b.remembers[ino] == b.forgets[ino] + Count(RecordsAfter(dotdot, calls), ino);
  }

  /** The same calls made on the map itself. */
  method Replay(dotdot: Ino, calls: seq<Call>) returns (m: InoMap)
    requires KernelKeeps(dotdot, calls)
    ensures fresh(m) && m.records == RecordsAfter(dotdot, calls)
  {
    hide Remembered, Forgotten, MayRemember, MayForget;
    m := new InoMap(dotdot);
    for k := 0 to |calls|
      invariant fresh(m) && m.records == RecordsAfter(dotdot, calls[..k])
    {
      assert calls[..k + 1][..k] == calls[..k];
      KeepsBefore(dotdot, calls, k);
      match calls[k] {
        case Lookup(pino, name, ino, validator) => var _ := m.Remember(pino, name, ino, validator);
        case Forget(ino, n) => m.Forget(ino, n);
        case Update(ino, validator) =>
          ghost var b := ReachableAgrees(dotdot, calls[..k]);
          var _ := m.UpdateValidator(ino, validator, b);
      }
    }
    assert calls[..|calls|] == calls;
  }

  lemma {:induction false} KeepsBefore(dotdot: Ino, calls: seq<Call>, k: nat)
    requires KernelKeeps(dotdot, calls) && k < |calls|
    ensures KernelKeeps(dotdot, calls[..k]) && Allowed(RecordsAfter(dotdot, calls[..k]), calls[k])
    decreases |calls|
  {
    hide Allowed, RecordsAfter;
    if k < |calls| - 1 {
      KeepsBefore(dotdot, calls[..|calls| - 1], k);
      assert calls[..|calls| - 1][..k] == calls[..k];
    }
  }

  /** In every reachable state the full name of an ino that is remembered is the path
      that it was last looked up by: the recursion ends, whichever ranks show it. */
  lemma FullNameInRun(dotdot: Ino, calls: seq<Call>, ino: Ino) returns (b: Book)
    requires KernelKeeps(dotdot, calls) && ino != 1 && ino in RecordsAfter(dotdot, calls)
    ensures Ranked(RecordsAfter(dotdot, calls), b.rank, b.next)
    ensures forall rank, next :: Ranked(RecordsAfter(dotdot, calls), rank, next) ==>
              FullNameOf(RecordsAfter(dotdot, calls), rank, next, ino) == Some(PathNow(calls, ino))
  {
    b := ReachableAgrees(dotdot, calls);
    var rs := RecordsAfter(dotdot, calls);
    hide Ranked, Closed, Paths, Counted, FullNameOf;
    forall rank, next | Ranked(rs, rank, next) ensures FullNameOf(rs, rank, next, ino) == Some(PathNow(calls, ino)) {
      FullNameIsPath(rs, rank, next, b.paths, ino);
    }
  }
}
