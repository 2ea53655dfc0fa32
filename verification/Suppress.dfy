/** The request suppressor of the disk cache: at most one background refresh of a URL
    in any half second. */
module Suppress {

  type Url = string

  /** Milliseconds. */
  const WINDOW := 500

  /** An entry of `recently`, and also a call: a URL and the time it was asked about. */
  datatype Entry = Entry(url: Url, time: int)

  predicate Sorted(s: seq<Entry>) {
    forall i, j :: 0 <= i < j < |s| ==> s[i].time <= s[j].time
  }

  predicate OnePerUrl(s: seq<Entry>) {
    forall i, j :: 0 <= i < j < |s| ==> s[i].url != s[j].url
  }

  predicate Mentions(s: seq<Entry>, url: Url) {
    exists i :: 0 <= i < |s| && s[i].url == url
  }

  /** The entries that are not older than `cut`. */
  function Young(s: seq<Entry>, cut: int): seq<Entry> {
    if s == [] then []
    else if s[0].time < cut then Young(s[1..], cut)
    else [s[0]] + Young(s[1..], cut)
  }

  /** What one call does: forget the old, and admit the URL unless it is still there. */
  function Step(s: seq<Entry>, call: Entry): (seq<Entry>, bool) {
    var young := Young(s, call.time - WINDOW);
    if Mentions(young, call.url) then (young, true) else (young + [call], false)
  }

  lemma {:induction false} YoungIsSuffix(s: seq<Entry>, cut: int, k: nat)
    requires k <= |s|
    requires forall i :: 0 <= i < k ==> s[i].time < cut
    requires forall i :: k <= i < |s| ==> s[i].time >= cut
    ensures Young(s, cut) == s[k..]
  {
    if s != [] {
      if k == 0 {
        YoungIsSuffix(s[1..], cut, 0);
        assert [s[0]] + s[1..] == s;
      } else {
        YoungIsSuffix(s[1..], cut, k - 1);
        assert s[1..][k - 1..] == s[k..];
      }
    }
  }

  class Suppressor {
    var recently: seq<Entry>

    constructor ()
      ensures recently == []
    {
      recently := [];
    }

    /** std::lower_bound: the first entry that is not older than `cut`. */
    method LowerBound(cut: int) returns (lo: nat)
      requires Sorted(recently)
      ensures lo <= |recently|
      ensures forall i :: 0 <= i < lo ==> recently[i].time < cut
      ensures forall i :: lo <= i < |recently| ==> recently[i].time >= cut
    {
      lo := 0;
      var hi := |recently|;
      while lo < hi
        invariant lo <= hi <= |recently|
        invariant forall i :: 0 <= i < lo ==> recently[i].time < cut
        invariant forall i :: hi <= i < |recently| ==> recently[i].time >= cut
      {
        var mid := (lo + hi) / 2;
        if recently[mid].time < cut {
          lo := mid + 1;
        } else {
          hi := mid;
        }
      }
    }

    /** std::find_if on the URL. */
    method Find(url: Url) returns (k: nat)
      ensures k <= |recently|
      ensures k < |recently| ==> recently[k].url == url
      ensures k == |recently| <==> !Mentions(recently, url)
    {
      k := 0;
      while k < |recently| && recently[k].url != url
        invariant k <= |recently| && forall i :: 0 <= i < k ==> recently[i].url != url
      {
        k := k + 1;
      }
    }

    method RecentlyRefreshed(url: Url, now: int) returns (refused: bool)
      requires Sorted(recently)
      modifies this
      ensures (recently, refused) == Step(old(recently), Entry(url, now))
    {
      var e := LowerBound(now - WINDOW);
      YoungIsSuffix(recently, now - WINDOW, e);
      recently := recently[e..];
      e := Find(url);
      if e != |recently| {
        return true;
      }
      recently := recently + [Entry(url, now)];
      return false;
    }
  }

  // ------------------------------------------------------------- whole runs

  /** The calls are in lock order and their times do not go back. */
  predicate Ordered(calls: seq<Entry>) {
    Sorted(calls)
  }

  function After(calls: seq<Entry>): seq<Entry> {
    if calls == [] then [] else Step(After(calls[..|calls| - 1]), calls[|calls| - 1]).0
  }

  predicate Refused(calls: seq<Entry>, k: nat)
    requires k < |calls|
  {
    Step(After(calls[..k]), calls[k]).1
  }

  /** The list a call leaves, by what it was before. */
  lemma AfterStep(calls: seq<Entry>, k: nat)
    requires k < |calls|
    ensures After(calls[..k + 1]) == Step(After(calls[..k]), calls[k]).0
  {
    assert calls[..k + 1][..k] == calls[..k];
  }

  lemma {:induction false} YoungMembers(s: seq<Entry>, cut: int, e: Entry)
    ensures e in Young(s, cut) <==> e in s && e.time >= cut
  {
    if s != [] {
      YoungMembers(s[1..], cut, e);
      assert e in s <==> e == s[0] || e in s[1..];
    }
  }

  /** An entry is in the list just when it was admitted at most half a second ago. */
  lemma {:induction false} ListIsWindow(calls: seq<Entry>, k: nat, e: Entry)
    requires Ordered(calls) && 0 < k <= |calls|
    ensures e in After(calls[..k])
            <==> calls[k - 1].time - e.time <= WINDOW && exists i :: 0 <= i < k && calls[i] == e && !Refused(calls, i)
  {
    hide After, Young, Mentions;
    var last := calls[k - 1];
    var before := After(calls[..k - 1]);
    AfterStep(calls, k - 1);
    YoungMembers(before, last.time - WINDOW, e);
    if k == 1 {
      AfterNone(calls[..0]);
    } else {
      ListIsWindow(calls, k - 1, e);
      assert calls[k - 2].time <= last.time;
    }
    if exists i :: 0 <= i < k && calls[i] == e && !Refused(calls, i) {
      var i :| 0 <= i < k && calls[i] == e && !Refused(calls, i);
      assert i < k - 1 || i == k - 1;
    }
  }

  lemma AfterNone(calls: seq<Entry>)
    requires calls == []
    ensures After(calls) == []
  {
  }

  /** A call is refused exactly when some earlier call for the same URL was admitted
      at most half a second before it. */
  lemma RefusedExactly(calls: seq<Entry>, k: nat)
    requires Ordered(calls) && k < |calls|
    ensures Refused(calls, k) <==> exists i :: 0 <= i < k && !Refused(calls, i) && calls[i].url == calls[k].url
                                               && calls[k].time - calls[i].time <= WINDOW
  {
    hide After, Young;
    var before, cut := After(calls[..k]), calls[k].time - WINDOW;
    var young := Young(before, cut);
    if k == 0 {
      AfterNone(calls[..0]);
      YoungNone(cut);
    }
    if Mentions(young, calls[k].url) {
      var m :| 0 <= m < |young| && young[m].url == calls[k].url;
      YoungMembers(before, cut, young[m]);
      ListIsWindow(calls, k, young[m]);
    }
    forall i | 0 <= i < k && !Refused(calls, i) && calls[i].url == calls[k].url && calls[k].time - calls[i].time <= WINDOW
      ensures Mentions(young, calls[k].url)
    {
      assert calls[k - 1].time <= calls[k].time;
      ListIsWindow(calls, k, calls[i]);
      YoungMembers(before, cut, calls[i]);
      var m :| 0 <= m < |young| && young[m] == calls[i];
    }
  }

  lemma YoungNone(cut: int)
    ensures Young([], cut) == []
  {
  }

  /** Over any run, two admissions of one URL are more than half a second apart. */
  lemma AdmissionsAreApart(calls: seq<Entry>, i: nat, j: nat)
    requires Ordered(calls) && i < j < |calls|
    requires calls[i].url == calls[j].url && !Refused(calls, i) && !Refused(calls, j)
    ensures calls[j].time - calls[i].time > WINDOW
  {
    RefusedExactly(calls, j);
  }

  lemma {:induction false} YoungOfSorted(s: seq<Entry>, cut: int) returns (k: nat)
    requires Sorted(s)
    ensures k <= |s| && Young(s, cut) == s[k..]
  {
    if s == [] || s[0].time >= cut {
      k := 0;
      YoungIsSuffix(s, cut, 0);
    } else {
      k := YoungOfSorted(s[1..], cut);
      assert s[1..][k..] == s[k + 1..];
      k := k + 1;
    }
  }

  /** The list stays sorted, with one entry a URL, whatever is asked; so each call
      meets the requirement of RecentlyRefreshed. */
  lemma {:induction false} ListStaysSorted(calls: seq<Entry>)
    requires Ordered(calls)
    ensures Sorted(After(calls)) && OnePerUrl(After(calls))
    ensures calls != [] ==> forall e :: e in After(calls) ==> e.time <= calls[|calls| - 1].time
    decreases |calls|
  {
    if calls != [] {
      var before, last := calls[..|calls| - 1], calls[|calls| - 1];
      ListStaysSorted(before);
      assert before != [] ==> before[|before| - 1] == calls[|before| - 1];
      var k := YoungOfSorted(After(before), last.time - WINDOW);
      KeptSorted(After(before), k, last);
    }
  }

  lemma KeptSorted(s: seq<Entry>, k: nat, last: Entry)
    requires Sorted(s) && OnePerUrl(s) && k <= |s|
    requires forall e :: e in s ==> e.time <= last.time
    ensures var young := s[k..];
            && Sorted(young) && OnePerUrl(young) && (forall e :: e in young ==> e.time <= last.time)
            && (!Mentions(young, last.url) ==> Sorted(young + [last]) && OnePerUrl(young + [last]))
  {
    var young := s[k..];
    assert forall i :: 0 <= i < |young| ==> young[i] in s && young[i] == s[k + i];
  }
}
