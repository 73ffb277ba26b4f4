/**
 * Worked clusters: each method builds a few events and shows that the
 * contracts of the clustering engine alone fix its exact output.
 */
module Scenarios {
  import opened Events
  import opened RenderOrder
  import opened Clustering

  /** A cluster that keeps every event of `all`, as often as it occurs, is a permutation of it. */
  lemma KeepsEverything(r: seq<CalendarEvent>, all: seq<CalendarEvent>)
    requires multiset(r) <= multiset(all)
    requires forall x | x in r :: multiset(r)[x] == multiset(all)[x]
    requires forall x | x in all :: x in r
    ensures multiset(r) == multiset(all)
  {
  }

  /** The only render-sorted arrangement of two events with different keys. */
  lemma SortedPair(r: seq<CalendarEvent>, a: CalendarEvent, b: CalendarEvent)
    requires RenderSorted(r) && multiset(r) == multiset([a, b])
    requires SortByEarliestEvent(a, b) < 0
    ensures r == [a, b]
  {
  }

  /** The only render-sorted arrangement of three events with strictly increasing keys. */
  lemma SortedTriple(r: seq<CalendarEvent>, a: CalendarEvent, b: CalendarEvent, c: CalendarEvent)
    requires RenderSorted(r) && multiset(r) == multiset([a, b, c])
    requires SortByEarliestEvent(a, b) < 0 && SortByEarliestEvent(b, c) < 0
    ensures r == [a, b, c]
  {
  }

  /** A(0,60), B(30,30), C(120,30): the cluster of A is [A, B]; C touches neither. */
  method DisjointEventStaysOut() {
    var a := new CalendarEvent(0, 60);
    var b := new CalendarEvent(30, 30);
    var c := new CalendarEvent(120, 30);
    var all := [a, b, c];
    var r := GetConcurrentEvents(a, all);
    ReachableFirst(a, a, all);
    ReachableFirst(a, b, all);
    ReachableStaysInside(a, all, [a, b], [c]);
    assert c !in r;
    KeepsEverything(r, [a, b]) by {
      assert multiset(all) == multiset([a, b]) + multiset{c};
    }
    SortedPair(r, a, b);
  }

  /** A(0,60), B(50,60), C(100,30): A and C meet only through B, so the cluster is [A, B, C]. */
  method ChainThroughMiddleEvent() {
    var a := new CalendarEvent(0, 60);
    var b := new CalendarEvent(50, 60);
    var c := new CalendarEvent(100, 30);
    var all := [a, b, c];
    var r := GetConcurrentEvents(a, all);
    ReachableFirst(a, a, all);
    ReachableFirst(a, b, all);
    ReachableExtend(a, b, c, all);
    KeepsEverything(r, all);
    SortedTriple(r, a, b, c);
  }

  /** A(10,0), B(10,30): the empty A lies inside B, and the shorter A is rendered first. */
  method ZeroDurationInsideLonger() {
    var a := new CalendarEvent(10, 0);
    var b := new CalendarEvent(10, 30);
    var all := [a, b];
    var r := GetConcurrentEvents(a, all);
    ReachableFirst(a, a, all);
    ReachableFirst(a, b, all);
    KeepsEverything(r, all);
    SortedPair(r, a, b);
  }

  /** Two distinct empty events at the same minute do not overlap: each is its own cluster. */
  method EmptyTwinsStayApart() {
    var a := new CalendarEvent(10, 0);
    var b := new CalendarEvent(10, 0);
    var all := [a, b];
    var r := GetConcurrentEvents(a, all);
    ReachableFirst(a, a, all);
    ReachableStaysInside(a, all, [a], [b]);
    assert b !in r;
    KeepsEverything(r, [a]) by {
      assert multiset(all) == multiset([a]) + multiset{b};
    }
    assert |r| == |multiset(r)| == 1;
    assert r[0] in multiset(r);
    assert r == [a];
  }

  /** D(-100,50) ends before the window opens and is dropped; E(100,-20) is clamped to 0 and kept. */
  method ValidatorExamples() {
    var d := new CalendarEvent(-100, 50);
    var keepD := RemoveBadData(d);
    assert !keepD;
    var e := new CalendarEvent(100, -20);
    var keepE := RemoveBadData(e);
    assert keepE && e.duration == 0;
  }
}
