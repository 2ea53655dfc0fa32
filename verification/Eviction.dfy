/** The evictor of the disk cache: one directory a call, a partial shuffle of its
    names, and a throttle on what may be added. */
module Eviction {

  // ------------------------------------------------- how much to evict

  /** Limits for the whole cache, and the fractions of them at which eviction starts,
      to which it goes, and at which additions are throttled. */
  datatype Options = Options(maxFiles: nat, maxMbytes: nat, target: real, lwm: real, throttleLwm: real, period: real)

  predicate Sensible(o: Options) {
    o.maxFiles > 0 && o.maxMbytes > 0 && 0.0 <= o.lwm && 0.0 <= o.target && o.throttleLwm < 1.0 && 0.0 <= o.period
  }

  function FilesPerDir(o: Options, ndirs: nat): (r: real)
    requires Sensible(o) && ndirs > 0
    ensures r > 0.0
  {
    o.maxFiles as real / ndirs as real
  }

  function BytesPerDir(o: Options, ndirs: nat): (r: real)
    requires Sensible(o) && ndirs > 0
    ensures r > 0.0
  {
    o.maxMbytes as real * 1000000.0 / ndirs as real
  }

  function Max(a: real, b: real): real {
    if a < b then b else a
  }

  function Usage(o: Options, ndirs: nat, nfiles: nat, nbytes: nat): (u: real)
    requires Sensible(o) && ndirs > 0
    ensures u >= 0.0
  {
    Nonnegative(nfiles as real, FilesPerDir(o, ndirs));
    Nonnegative(nbytes as real, BytesPerDir(o, ndirs));
    Max(nfiles as real / FilesPerDir(o, ndirs), nbytes as real / BytesPerDir(o, ndirs))
  }

  lemma Nonnegative(a: real, b: real)
    requires a >= 0.0 && b > 0.0
    ensures a / b >= 0.0
  {
  }

  function Ceil(x: real): int {
    if x.Floor as real == x then x.Floor else x.Floor + 1
  }

  function Clip(lo: int, x: int, hi: int): int {
    if x < lo then lo else if x > hi then hi else x
  }

  function ClipReal(lo: real, x: real, hi: real): real {
    if x < lo then lo else if x > hi then hi else x
  }

  /** Of f files, how many bring a usage of u down to the mark, as a fraction. */
  function ToGo(f: real, u: real, lwm: real): real
    requires u > 0.0
  {
    f * ((u - lwm) / u)
  }

  /** How many of the files scanned are to go. */
  function Nevict(o: Options, ndirs: nat, nfiles: nat, nbytes: nat): (n: nat)
    requires Sensible(o) && ndirs > 0
    ensures n <= nfiles
  {
    var u := Usage(o, ndirs, nfiles, nbytes);
    if u > o.target then Clip(0, Ceil(ToGo(nfiles as real, u, o.lwm)), nfiles) else 0
  }

  /** Eviction reaches its mark: whenever the target was exceeded, by files or by
      bytes, no more files are left than the low-water mark allows. */
  lemma EvictionReachesTheMark(o: Options, ndirs: nat, nfiles: nat, nbytes: nat)
    requires Sensible(o) && ndirs > 0 && Usage(o, ndirs, nfiles, nbytes) > o.target
    ensures (nfiles - Nevict(o, ndirs, nfiles, nbytes)) as real <= o.lwm * FilesPerDir(o, ndirs)
  {
    var u, m, n := Usage(o, ndirs, nfiles, nbytes), FilesPerDir(o, ndirs), nfiles as real;
    hide FilesPerDir, Usage;
    var x := n * ((u - o.lwm) / u);
    KeptFraction(n, u, o.lwm);
    assert n <= u * m by { UsageCoversFiles(o, ndirs, nfiles, nbytes); }
    ScaleDown(n, u, m, o.lwm);
    assert x <= Ceil(x) as real;
  }

  /** The usage is the larger of two fractions: it is beyond x just when there are more
      than x of the files allowed to a directory, or more than x of the bytes. */
  lemma UsageExactly(o: Options, ndirs: nat, nfiles: nat, nbytes: nat, x: real)
    requires Sensible(o) && ndirs > 0
    ensures Usage(o, ndirs, nfiles, nbytes) > x <==>
              || nfiles as real * ndirs as real > x * o.maxFiles as real
              || nbytes as real * ndirs as real > x * (o.maxMbytes as real * 1000000.0)
  {
    Fraction(nfiles as real, o.maxFiles as real, ndirs as real, x);
    Fraction(nbytes as real, o.maxMbytes as real * 1000000.0, ndirs as real, x);
  }

  lemma Fraction(a: real, total: real, n: real, x: real)
    requires total > 0.0 && n > 0.0
    ensures total / n > 0.0 && (a / (total / n) > x <==> a * n > x * total)
  {
    var d := total / n;
    assert d * n == total;
    var q := a / d;
    assert q * d == a;
    assert q * total == q * (d * n) == a * n;
    if q > x {
      ScaleStrictly(x, q, total);
    } else {
      Scale(q, x, total);
    }
  }

  lemma ScaleStrictly(a: real, b: real, m: real)
    requires a < b && m > 0.0
    ensures a * m < b * m
  {
  }

  /** Nothing goes at or below the target; above it as many files go as bring the usage
      down to the low-water mark, and not one more. */
  lemma EvictsExactly(o: Options, ndirs: nat, nfiles: nat, nbytes: nat)
    requires Sensible(o) && ndirs > 0
    ensures var u, n := Usage(o, ndirs, nfiles, nbytes), Nevict(o, ndirs, nfiles, nbytes);
            && (u <= o.target ==> n == 0)
            && (u > o.target ==>
                  && (nfiles - n) as real * u <= nfiles as real * o.lwm
                  && (n > 0 ==> (nfiles - n + 1) as real * u > nfiles as real * o.lwm))
  {
    hide *;
    var u, n := Usage(o, ndirs, nfiles, nbytes), Nevict(o, ndirs, nfiles, nbytes);
    NevictIs(o, ndirs, nfiles, nbytes);
    SensibleMark(o);
    if u > o.target {
      var f := nfiles as real;
      var x := ToGo(f, u, o.lwm);
      CeilExactly(x);
      Clipped(Ceil(x), nfiles, x, n);
      Marked(f, u, o.lwm, n as real, (nfiles - n) as real);
      Marked(f, u, o.lwm, n as real - 1.0, (nfiles - n + 1) as real);
      NothingKept(f, o.lwm, u);
    }
  }

  lemma NothingKept(f: real, lwm: real, u: real)
    requires f >= 0.0 && lwm >= 0.0
    ensures 0.0 * u <= f * lwm
  {
    Scale(0.0, lwm, f);
  }

  lemma SensibleMark(o: Options)
    requires Sensible(o)
    ensures 0.0 <= o.lwm && 0.0 <= o.target
  {
  }

  lemma NevictIs(o: Options, ndirs: nat, nfiles: nat, nbytes: nat)
    requires Sensible(o) && ndirs > 0
    ensures var u := Usage(o, ndirs, nfiles, nbytes);
            Nevict(o, ndirs, nfiles, nbytes)
            == if u > o.target then Clip(0, Ceil(ToGo(nfiles as real, u, o.lwm)), nfiles) else 0
  {
    hide Usage, Ceil, ToGo;
  }

  lemma Clipped(c: int, nfiles: nat, x: real, n: nat)
    requires (c - 1) as real < x <= c as real && n == Clip(0, c, nfiles)
    ensures n > 0 ==> n as real - 1.0 < x
    ensures x <= n as real || n == nfiles
  {
  }

  lemma ToGoIs(f: real, u: real, lwm: real)
    requires u > 0.0
    ensures ToGo(f, u, lwm) * u == u * f - f * lwm
  {
    Undo(u - lwm, u);
    Regroup(f, (u - lwm) / u, u);
    Distribute(f, u, lwm);
  }

  /** If n of f files go, the usage u comes down to the mark just when n is at least x. */
  lemma Marked(f: real, u: real, lwm: real, n: real, kept: real)
    requires u > 0.0 && kept == f - n
    ensures ToGo(f, u, lwm) <= n ==> kept * u <= f * lwm
    ensures n < ToGo(f, u, lwm) ==> kept * u > f * lwm
  {
    var x := ToGo(f, u, lwm);
    ToGoIs(f, u, lwm);
    hide ToGo;
    KeptIs(f, n, u, kept);
    var some, all, mark, left := n * u, u * f, f * lwm, kept * u;
    if x <= n {
      Scale(x, n, u);
      assert all - mark <= some;
    } else {
      ScaleStrictly(n, x, u);
      assert some < all - mark;
    }
    assert left == all - some;
  }

  lemma KeptIs(f: real, n: real, u: real, kept: real)
    requires kept == f - n
    ensures kept * u == u * f - n * u
  {
  }

  lemma Undo(a: real, d: real)
    requires d != 0.0
    ensures a / d * d == a
  {
  }

  lemma Regroup(a: real, b: real, c: real)
    ensures a * b * c == a * (b * c)
  {
  }

  lemma Distribute(a: real, b: real, c: real)
    ensures a * (b - c) == a * b - a * c
  {
  }

  lemma CeilExactly(x: real)
    ensures (Ceil(x) - 1) as real < x <= Ceil(x) as real
  {
  }

  lemma UsageCoversFiles(o: Options, ndirs: nat, nfiles: nat, nbytes: nat)
    requires Sensible(o) && ndirs > 0
    ensures nfiles as real <= Usage(o, ndirs, nfiles, nbytes) * FilesPerDir(o, ndirs)
  {
    var m, u := FilesPerDir(o, ndirs), Usage(o, ndirs, nfiles, nbytes);
    hide FilesPerDir;
    assert nfiles as real / m <= u;
    assert nfiles as real == nfiles as real / m * m;
    Scale(nfiles as real / m, u, m);
  }

  lemma Scale(a: real, b: real, m: real)
    requires a <= b && m >= 0.0
    ensures a * m <= b * m
  {
  }

  lemma Quotient(a: real, b: real, u: real)
    requires u > 0.0 && a == b * u
    ensures a / u == b
  {
    var d := a / u;
    assert d * u == a;
    assert (d - b) * u == 0.0;
  }

  /** What is not evicted is lwm / u of the files. */
  lemma KeptFraction(n: real, u: real, lwm: real)
    requires u > 0.0
    ensures n - n * ((u - lwm) / u) == n * (lwm / u)
  {
    var q := lwm / u;
    assert q * u == lwm;
    assert u - lwm == (1.0 - q) * u;
    Quotient(u - lwm, 1.0 - q, u);
    Spread(n, q);
  }

  lemma Spread(n: real, q: real)
    ensures n - n * (1.0 - q) == n * q
  {
  }

  lemma ScaleDown(n: real, u: real, m: real, lwm: real)
    requires u > 0.0 && lwm >= 0.0 && n <= u * m
    ensures n * (lwm / u) <= lwm * m
  {
    Nonnegative(lwm, u);
    Scale(n, u * m, lwm / u);
    assert u * m * (lwm / u) == (u * (lwm / u)) * m;
    assert u * (lwm / u) == lwm;
  }

  // ------------------------------------------------- the throttle

  function Injection(o: Options, u: real): real
    requires Sensible(o)
  {
    ClipReal(0.0, (1.0 - u) / (1.0 - o.throttleLwm), 1.0)
  }

  /** The probability of adding a file is one, up to the throttle's mark, and zero from
      full on, and never rises with usage. */
  lemma InjectionFalls(o: Options, u: real, v: real)
    requires Sensible(o) && u <= v
    ensures 0.0 <= Injection(o, v) <= Injection(o, u) <= 1.0
    ensures Injection(o, u) == 1.0 <==> u <= o.throttleLwm
    ensures Injection(o, u) == 0.0 <==> 1.0 <= u
  {
    var d := 1.0 - o.throttleLwm;
    Divide(1.0 - v, 1.0 - u, d);
    Divide(1.0 - u, d, d);
    Divide(d, 1.0 - u, d);
    Divide(1.0 - u, 0.0, d);
    Divide(0.0, 1.0 - u, d);
    UnitFractions(d);
  }

  lemma UnitFractions(d: real)
    requires d > 0.0
    ensures d / d == 1.0 && 0.0 / d == 0.0
  {
  }

  /** In between it falls in a straight line. */
  lemma InjectionIsLinear(o: Options, u: real)
    requires Sensible(o) && o.throttleLwm <= u <= 1.0
    ensures Injection(o, u) * (1.0 - o.throttleLwm) == 1.0 - u
  {
    var d := 1.0 - o.throttleLwm;
    Divide(1.0 - u, d, d);
    Divide(0.0, 1.0 - u, d);
    UnitFractions(d);
    Undo(1.0 - u, d);
  }

  lemma Divide(a: real, b: real, d: real)
    requires d > 0.0
    ensures a <= b <==> a / d <= b / d
  {
    if a <= b {
      assert (b - a) / d >= 0.0 by { Nonnegative(b - a, d); }
      assert (b - a) / d == b / d - a / d;
    } else {
      assert (a - b) / d > 0.0;
      assert (a - b) / d == a / d - b / d;
    }
  }

  // ------------------------------------------------- which files

  predicate Distinct(s: seq<string>) {
    forall i, j :: 0 <= i < j < |s| ==> s[i] != s[j]
  }

  function Elements(s: seq<string>): set<string> {
    set x | x in s
  }

  lemma {:induction false} DistinctSize(s: seq<string>)
    requires Distinct(s)
    ensures |Elements(s)| == |s|
  {
    if s != [] {
      DistinctSize(s[1..]);
      assert Elements(s) == {s[0]} + Elements(s[1..]);
    }
  }

  lemma SamePermutationDistinct(s: seq<string>, t: seq<string>)
    requires multiset(s) == multiset(t) && Distinct(s)
    ensures Distinct(t)
  {
    forall i, j | 0 <= i < j < |t| && t[i] == t[j] ensures false {
      assert t == t[..j] + [t[j]] + t[j + 1..];
      assert t[i] in t[..j];
      assert multiset(t)[t[i]] >= 2;
      assert multiset(s)[t[i]] >= 2;
      AtMostOnce(s, t[i]);
    }
  }

  lemma {:induction false} AtMostOnce(s: seq<string>, x: string)
    requires Distinct(s)
    ensures multiset(s)[x] <= 1
  {
    if s != [] {
      assert s == [s[0]] + s[1..];
      AtMostOnce(s[1..], x);
      assert forall k :: 0 <= k < |s[1..]| ==> s[1..][k] == s[k + 1];
      assert s[0] !in s[1..];
    }
  }

  /** A directory of the cache: other processes add and remove files too. */
  class Directory {
    var files: set<string>

    constructor (files: set<string>)
      ensures this.files == files
    {
      this.files := files;
    }
  }

  method Swap(a: array<string>, i: nat, j: nat)
    requires i < a.Length && j < a.Length
    modifies a
    ensures a[i] == old(a[j]) && a[j] == old(a[i])
    ensures forall k :: 0 <= k < a.Length && k != i && k != j ==> a[k] == old(a[k])
    ensures multiset(a[..]) == multiset(old(a[..]))
  {
    a[i], a[j] := a[j], a[i];
  }

  /** evict: n random names of those scanned are unlinked. One that is gone already is
      no error; any other failure throws, and ends it. */
  method Evict(n: nat, names: array<string>, dir: Directory, pick: nat -> nat, fails: string -> bool) returns (ok: bool)
    requires n <= names.Length && Distinct(names[..])
    requires forall i :: 0 <= i < n ==> i <= pick(i) < names.Length
    modifies names, dir
    ensures multiset(names[..]) == multiset(old(names[..]))
    ensures ok ==> dir.files == old(dir.files) - Elements(names[..n]) && |Elements(names[..n])| == n
    ensures ok ==> forall x :: x in Elements(names[..n]) ==> !fails(x)
    ensures !ok ==> exists k: nat :: k < n && fails(names[k]) && dir.files == old(dir.files) - Elements(names[..k])
  {
    for i: nat := 0 to n
      invariant multiset(names[..]) == multiset(old(names[..]))
      invariant dir.files == old(dir.files) - Elements(names[..i])
      invariant forall k :: 0 <= k < i ==> !fails(names[k])
    {
      ghost var done := names[..i];
      Swap(names, i, pick(i));
      assert names[..i] == done;
      assert names[..i + 1] == done + [names[i]];
      if fails(names[i]) {
        return false;
      }
      dir.files := dir.files - {names[i]};
    }
    SamePermutationDistinct(old(names[..]), names[..]);
    DistinctSize(names[..n]);
    ok := true;
  }

  // ------------------------------------------------- one call, and many

  function Next(d: nat, ndirs: nat): nat {
    if d + 1 >= ndirs then 0 else d + 1
  }

  /** The directories of a history of scans, each the next after the one before. */
  ghost predicate Cyclic(h: seq<nat>, ndirs: nat) {
    && (forall k :: 0 <= k < |h| ==> h[k] < ndirs)
    && (forall k :: 0 < k < |h| ==> h[k] == Next(h[k - 1], ndirs))
  }

  class Evictor {
    const o: Options
    const dirs: seq<Directory>
    var dirToEvict: nat
    var injection: real
    ghost var history: seq<nat>  // the directories of the successful calls so far

    ghost predicate Valid()
      reads this
    {
      && Sensible(o) && dirToEvict < |dirs| && 0.0 <= injection <= 1.0
      && (forall i, j :: 0 <= i < j < |dirs| ==> dirs[i] != dirs[j])
      && Cyclic(history, |dirs|)
      && dirToEvict == if history == [] then 0 else Next(history[|history| - 1], |dirs|)
    }

    constructor (o: Options, dirs: seq<Directory>)
      requires Sensible(o) && dirs != [] && forall i, j :: 0 <= i < j < |dirs| ==> dirs[i] != dirs[j]
      ensures Valid() && this.o == o && this.dirs == dirs && dirToEvict == 0 && injection == 1.0 && history == []
    {
      this.o, this.dirs := o, dirs;
      dirToEvict, injection, history := 0, 1.0, [];
    }

    /** evict_once: scans the directory whose turn it is, and evicts from it and no
        other; scanned is false if the scan throws, and names are those it finds. The
        result is how many minutes to wait. After a throw nothing is added to the
        cache, and the same directory is next. */
    method EvictOnce(scanned: bool, names: array<string>, nbytes: nat, pick: nat -> nat, fails: string -> bool)
      returns (sleep: real, ok: bool)
      requires Valid() && Distinct(names[..])
      requires forall i :: 0 <= i < names.Length ==> i <= pick(i) < names.Length
      modifies this, names, dirs[dirToEvict]
      ensures Valid() && 0.0 <= sleep
      ensures forall j :: 0 <= j < |dirs| && j != old(dirToEvict) ==> dirs[j].files == old(dirs[j].files)
      ensures ok ==>
                var dir, n := dirs[old(dirToEvict)], Nevict(o, |dirs|, names.Length, nbytes);
                && dirToEvict == Next(old(dirToEvict), |dirs|) && history == old(history) + [old(dirToEvict)]
                && dir.files == old(dir.files) - Elements(names[..n]) && |Elements(names[..n])| == n
                && multiset(names[..]) == multiset(old(names[..]))
                && injection == Injection(o, Usage(o, |dirs|, names.Length, nbytes))
                && sleep == o.period * (injection / |dirs| as real)
      ensures !ok ==> dirToEvict == old(dirToEvict) && history == old(history) && injection == 0.0 && sleep == 5.0
      ensures !scanned ==> !ok && dirs[old(dirToEvict)].files == old(dirs[dirToEvict].files)
    {
      hide Usage, Injection, Nevict, Elements, Distinct, Sensible, Next, Cyclic;
      if !scanned {
        injection := 0.0;
        return 5.0, false;
      }
      var ndirs := |dirs|;
      var usage := Usage(o, ndirs, names.Length, nbytes);
      var n := Nevict(o, ndirs, names.Length, nbytes);
      ok := Evict(n, names, dirs[dirToEvict], pick, fails);
      if !ok {
        injection := 0.0;
        return 5.0, false;
      }
      Turn(history, dirToEvict, ndirs);
      history := history + [dirToEvict];
      dirToEvict := dirToEvict + 1;
      if dirToEvict >= ndirs {
        dirToEvict := 0;
      }
      InjectionFalls(o, usage, usage);
      injection := Injection(o, usage);
      SleepIsNonnegative(o, injection, ndirs);
      sleep := o.period * (injection / ndirs as real);
    }

    /** Any |dirs| successful calls in a row, wherever they begin and whatever failures
        come between them, evict from each directory exactly once. */
    lemma EachDirectoryOnce(at: nat, d: nat) returns (k: nat)
      requires Valid() && at + |dirs| <= |history| && d < |dirs|
      ensures at <= k < at + |dirs| && history[k] == d
      ensures forall j :: at <= j < at + |dirs| && history[j] == d ==> j == k
    {
      var h, n := history, |dirs|;
      k := at + if h[at] <= d then d - h[at] else d + n - h[at];
      CyclicAt(h, n, at, k - at);
      forall j | at <= j < at + n && h[j] == d ensures j == k {
        CyclicAt(h, n, at, j - at);
      }
    }
  }

  lemma Turn(h: seq<nat>, d: nat, ndirs: nat)
    requires Cyclic(h, ndirs) && d < ndirs && d == if h == [] then 0 else Next(h[|h| - 1], ndirs)
    ensures Cyclic(h + [d], ndirs)
    ensures Next(d, ndirs) == if d + 1 >= ndirs then 0 else d + 1
  {
  }

  lemma SleepIsNonnegative(o: Options, injection: real, ndirs: nat)
    requires Sensible(o) && injection >= 0.0 && ndirs > 0
    ensures o.period * (injection / ndirs as real) >= 0.0
  {
    Nonnegative(injection, ndirs as real);
    Scale(0.0, injection / ndirs as real, o.period);
  }

  lemma {:induction false} CyclicAt(h: seq<nat>, ndirs: nat, at: nat, k: nat)
    requires Cyclic(h, ndirs) && k < ndirs && at + k < |h|
    ensures h[at + k] == if h[at] + k < ndirs then h[at] + k else h[at] + k - ndirs
    decreases k
  {
    if k > 0 {
      CyclicAt(h, ndirs, at, k - 1);
    }
  }
}
