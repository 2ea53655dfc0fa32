/** The server's validator: a version number made of a file's mtime and the clock. */
module Validators {

  /** A write, at its own time, and the mtime that the file system gives the file for
      it, which may lag. All times are nanoseconds. */
  datatype Write = Write(at: nat, mtime: nat)

  /** A file's writes, the first being its creation; mtimes do not go back, and are not
      in the future. */
  ghost predicate History(h: seq<Write>) {
    && h != []
    && (forall i :: 0 <= i < |h| ==> h[i].mtime <= h[i].at)
    && (forall i, j :: 0 <= i < j < |h| ==> h[i].at <= h[j].at && h[i].mtime <= h[j].mtime)
  }

  /** The mtime at `now`, which is that of the last write by then. */
  function MtimeAt(h: seq<Write>, now: nat): nat
    requires h != [] && h[0].at <= now
  {
    if |h| == 1 || h[|h| - 1].at <= now then h[|h| - 1].mtime else MtimeAt(h[..|h| - 1], now)
  }

  const TWO64: nat := 0x1_0000_0000_0000_0000

  /** monotonic_validator, in 64-bit unsigned arithmetic; g is the granularity. */
  function MonotonicValidator(mtime: nat, now: nat, g: nat): nat {
    var late := (now - 2 * g) % TWO64;
    if mtime < late then mtime else late
  }

  /** What an observation of the file at `now` yields. */
  function Validator(h: seq<Write>, now: nat, g: nat): nat
    requires h != [] && h[0].at <= now
  {
    MonotonicValidator(MtimeAt(h, now), now, g)
  }

  /** The file exists at `now`, and the clock is in the range where the subtraction
      does not wrap. */
  predicate Observable(h: seq<Write>, now: nat, g: nat) {
    h != [] && h[0].at <= now && 2 * g <= now < TWO64
  }

  lemma {:induction false} MtimeGrows(h: seq<Write>, s: nat, t: nat)
    requires History(h) && h[0].at <= s <= t
    ensures MtimeAt(h, s) <= MtimeAt(h, t) <= h[|h| - 1].mtime
    decreases |h|
  {
    if |h| > 1 && t < h[|h| - 1].at {
      MtimeGrows(h[..|h| - 1], s, t);
    } else if |h| > 1 && s < h[|h| - 1].at {
      MtimeGrows(h[..|h| - 1], s, s);
    }
  }

  lemma {:induction false} WriteRaisesMtime(h: seq<Write>, k: nat, t: nat)
    requires History(h) && k < |h| && h[0].at <= t && h[k].at <= t
    ensures h[k].mtime <= MtimeAt(h, t)
    decreases |h|
  {
    if |h| > 1 && t < h[|h| - 1].at {
      WriteRaisesMtime(h[..|h| - 1], k, t);
    }
  }

  /** Observations at later times never give a smaller validator. */
  lemma NeverDecreases(h: seq<Write>, s: nat, t: nat, g: nat)
    requires History(h) && Observable(h, s, g) && Observable(h, t, g) && s <= t
    ensures Validator(h, s, g) <= Validator(h, t, g)
  {
    MtimeGrows(h, s, t);
  }

  /** A later observation gives a greater validator exactly when the mtime it sees is
      beyond the earlier validator. */
  lemma IncreasesExactly(h: seq<Write>, s: nat, t: nat, g: nat)
    requires History(h) && Observable(h, s, g) && Observable(h, t, g) && s < t
    ensures Validator(h, s, g) < Validator(h, t, g) <==> Validator(h, s, g) < MtimeAt(h, t)
  {
    MtimeGrows(h, s, t);
  }

  /** A write between the two observations makes them differ, if the mtime lags that
      write by no more than twice the granularity. */
  lemma WritesAreSeen(h: seq<Write>, k: nat, s: nat, t: nat, g: nat)
    requires History(h) && Observable(h, s, g) && Observable(h, t, g)
    requires k < |h| && s < h[k].at <= t && h[k].at - h[k].mtime <= 2 * g
    ensures Validator(h, s, g) < Validator(h, t, g)
  {
    WriteRaisesMtime(h, k, t);
    IncreasesExactly(h, s, t, g);
  }

  /** The bound is sharp: one nanosecond more lag, and a write can go unseen. */
  lemma SlowMtimeHidesAWrite(m: nat, g: nat)
    requires m + 2 * g + 1 < TWO64
    ensures var h := [Write(m, m), Write(m + 2 * g + 1, m)];
            && History(h) && h[1].at - h[1].mtime == 2 * g + 1
            && Observable(h, m + 2 * g, g) && Observable(h, m + 2 * g + 1, g)
            && Validator(h, m + 2 * g, g) == Validator(h, m + 2 * g + 1, g)
  {
    var h := [Write(m, m), Write(m + 2 * g + 1, m)];
    assert h[..1] == [h[0]];
    assert MtimeAt(h[..1], m + 2 * g) == m;
    assert MtimeAt(h, m + 2 * g) == m && MtimeAt(h, m + 2 * g + 1) == m;
  }

  /** So equal validators mean that no such write came between. */
  lemma SameValidatorSameVersion(h: seq<Write>, s: nat, t: nat, g: nat)
    requires History(h) && Observable(h, s, g) && Observable(h, t, g) && s <= t
    requires forall k :: 0 <= k < |h| ==> h[k].at - h[k].mtime <= 2 * g
    requires Validator(h, s, g) == Validator(h, t, g)
    ensures forall k :: 0 <= k < |h| ==> !(s < h[k].at <= t)
  {
    forall k | 0 <= k < |h| && s < h[k].at <= t ensures false {
      WritesAreSeen(h, k, s, t, g);
    }
  }

  /** Once the mtime is twice the granularity old the validator is the mtime, and stays
      so while nothing is written. */
  lemma SettlesAtMtime(h: seq<Write>, s: nat, t: nat, g: nat)
    requires History(h) && Observable(h, s, g) && Observable(h, t, g) && s <= t
    requires MtimeAt(h, s) + 2 * g <= s && MtimeAt(h, t) == MtimeAt(h, s)
    ensures Validator(h, s, g) == Validator(h, t, g) == MtimeAt(h, s)
  {
  }
}
