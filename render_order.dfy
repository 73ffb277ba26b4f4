/**
 * The render-order comparator and what it means for a cluster to be sorted
 * by it.
 */
module RenderOrder {
  import opened Events

  /**
   * `a` may be rendered before `b`: it starts earlier, or it starts at the
   * same minute and is no longer.
   */
  predicate RenderedNoLaterThan(a: CalendarEvent, b: CalendarEvent)
    reads a, b
  {
    a.startsAt < b.startsAt || (a.startsAt == b.startsAt && a.duration <= b.duration)
  }

  /**
   * The comparator handed to the sort: negative when `a` is rendered first,
   * zero when start and duration agree, positive when `b` is rendered first.
   */
  function SortByEarliestEvent(a: CalendarEvent, b: CalendarEvent): (r: int)
    reads a, b
    ensures r < 0 <==> a.startsAt < b.startsAt || (a.startsAt == b.startsAt && a.duration < b.duration)
    ensures r == 0 <==> a.startsAt == b.startsAt && a.duration == b.duration
    ensures r > 0 <==> b.startsAt < a.startsAt || (a.startsAt == b.startsAt && b.duration < a.duration)
    ensures r <= 0 <==> RenderedNoLaterThan(a, b)
  {
    var delta := a.startsAt - b.startsAt;
    if delta == 0 then a.duration - b.duration else delta
  }

  /** Swapping the arguments negates the comparator. */
  lemma ComparatorAntisymmetric(a: CalendarEvent, b: CalendarEvent)
    ensures SortByEarliestEvent(a, b) == -SortByEarliestEvent(b, a)
  {
  }

  /** The comparator is a total preorder: total and transitive. */
  lemma ComparatorTotalPreorder(a: CalendarEvent, b: CalendarEvent, c: CalendarEvent)
    ensures SortByEarliestEvent(a, b) <= 0 || SortByEarliestEvent(b, a) <= 0
    ensures SortByEarliestEvent(a, b) <= 0 && SortByEarliestEvent(b, c) <= 0 ==> SortByEarliestEvent(a, c) <= 0
  {
  }

  /** Every earlier element is rendered no later than every later one. */
  predicate RenderSorted(s: seq<CalendarEvent>)
    reads s
  {
    forall i, j | 0 <= i < j < |s| :: RenderedNoLaterThan(s[i], s[j])
  }

  /**
   * A render-sorted sequence is non-decreasing in start and, among equal
   * starts, non-decreasing in duration.
   */
  lemma RenderSortedFields(s: seq<CalendarEvent>, i: int, j: int)
    requires RenderSorted(s)
    requires 0 <= i <= j < |s|
    ensures s[i].startsAt <= s[j].startsAt
    ensures s[i].startsAt == s[j].startsAt ==> s[i].duration <= s[j].duration
  {
  }

  /** Places `x` before the first event of `s` it is rendered no later than. */
  function InsertInRenderOrder(x: CalendarEvent, s: seq<CalendarEvent>): (r: seq<CalendarEvent>)
    reads x, s
    ensures multiset(r) == multiset(s) + multiset{x}
  {
    if s == [] then [x]
    else if SortByEarliestEvent(x, s[0]) <= 0 then [x] + s
    else
      assert s == [s[0]] + s[1..];
      [s[0]] + InsertInRenderOrder(x, s[1..])
  }

  /** Inserting into a render-sorted sequence keeps it render-sorted. */
  lemma {:induction false} InsertKeepsRenderSorted(x: CalendarEvent, s: seq<CalendarEvent>)
    requires RenderSorted(s)
    ensures RenderSorted(InsertInRenderOrder(x, s))
  {
    if s != [] && SortByEarliestEvent(x, s[0]) > 0 {
      var tail := s[1..];
      assert RenderSorted(tail) by {
        forall i, j | 0 <= i < j < |tail| ensures RenderedNoLaterThan(tail[i], tail[j]) {
          assert tail[i] == s[i + 1] && tail[j] == s[j + 1];
        }
      }
      InsertKeepsRenderSorted(x, tail);
      var rest := InsertInRenderOrder(x, tail);
      forall y | y in rest ensures RenderedNoLaterThan(s[0], y) {
        assert y in multiset(rest);
        if y != x {
          var k :| 0 <= k < |tail| && tail[k] == y;
          assert s[k + 1] == y;
        }
      }
      var r := [s[0]] + rest;
      forall i, j | 0 <= i < j < |r| ensures RenderedNoLaterThan(r[i], r[j]) {
        if i == 0 {
          assert r[j] in rest;
        } else {
          assert r[i] == rest[i - 1] && r[j] == rest[j - 1];
        }
      }
    }
  }

  /** Sequences that are permutations of each other hold the same events. */
  lemma SameElements(s: seq<CalendarEvent>, t: seq<CalendarEvent>)
    requires multiset(s) == multiset(t)
    ensures forall y | y in s :: y in t
  {
    forall y | y in s ensures y in t {
      assert y in multiset(s);
    }
  }

  /**
   * One sorted permutation of `s` under the comparator. Only its contract,
   * "a permutation that is render-sorted", is relied upon.
   */
  function SortInRenderOrder(s: seq<CalendarEvent>): (r: seq<CalendarEvent>)
    reads set y | y in s
    ensures multiset(r) == multiset(s)
    ensures RenderSorted(r)
  {
    if s == [] then []
    else
      assert s == [s[0]] + s[1..];
      var sortedTail := SortInRenderOrder(s[1..]);
      SameElements(sortedTail, s[1..]);
      assert forall y | y in sortedTail :: y in s;
      InsertKeepsRenderSorted(s[0], sortedTail);
      InsertInRenderOrder(s[0], sortedTail)
  }
}
