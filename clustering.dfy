/**
 * The clustering engine: the events concurrent with a given event, that is,
 * its connected component in the overlap graph, in render order.
 */
module Clustering {
  import opened Events
  import opened RenderOrder

  /**
   * `path` lists indices into `pool` of a chain of events that starts next
   * to `e` and links each event to the next by an overlap.
   */
  ghost predicate IsChain(e: CalendarEvent, path: seq<int>, pool: seq<CalendarEvent>)
    reads e, set y | y in pool
  {
    && |path| > 0
    && (forall k | 0 <= k < |path| :: 0 <= path[k] < |pool|)
    && EventsOverlap(e, pool[path[0]])
    && (forall k | 0 <= k < |path| - 1 :: EventsOverlap(pool[path[k]], pool[path[k + 1]]))
  }

  /** `x` is linked to `e` by a chain of pairwise-overlapping events of `pool`. */
  ghost predicate Reachable(e: CalendarEvent, x: CalendarEvent, pool: seq<CalendarEvent>)
    reads e, set y | y in pool
  {
    exists path :: IsChain(e, path, pool) && pool[path[|path| - 1]] == x
  }

  /** An event of the pool that overlaps `e` is reachable in one step. */
  lemma ReachableFirst(e: CalendarEvent, x: CalendarEvent, pool: seq<CalendarEvent>)
    requires x in pool && EventsOverlap(e, x)
    ensures Reachable(e, x, pool)
  {
    var i :| 0 <= i < |pool| && pool[i] == x;
    assert IsChain(e, [i], pool);
  }

  /** An event of the pool that overlaps a reachable event is reachable. */
  lemma ReachableExtend(e: CalendarEvent, c: CalendarEvent, x: CalendarEvent, pool: seq<CalendarEvent>)
    requires Reachable(e, c, pool)
    requires x in pool && EventsOverlap(c, x)
    ensures Reachable(e, x, pool)
  {
    var path :| IsChain(e, path, pool) && pool[path[|path| - 1]] == c;
    var i :| 0 <= i < |pool| && pool[i] == x;
    var longer := path + [i];
    assert forall k | 0 <= k < |path| :: longer[k] == path[k];
    assert IsChain(e, longer, pool);
  }

  /**
   * A chain never leaves a part of the pool that holds every event touching
   * `e` and that no event of the rest of the pool overlaps.
   */
  lemma {:induction false} ChainStaysInside(
    e: CalendarEvent, path: seq<int>, pool: seq<CalendarEvent>,
    inside: seq<CalendarEvent>, outside: seq<CalendarEvent>)
    requires IsChain(e, path, pool)
    requires forall y | y in pool :: y in inside || y in outside
    requires forall y | y in outside :: !EventsOverlap(e, y)
    requires forall c, y | c in inside && y in outside :: !EventsOverlap(c, y)
    ensures pool[path[|path| - 1]] in inside
  {
    if |path| == 1 {
      assert pool[path[0]] in pool;
    } else {
      var prefix := path[..|path| - 1];
      assert forall k | 0 <= k < |prefix| :: prefix[k] == path[k];
      assert IsChain(e, prefix, pool);
      ChainStaysInside(e, prefix, pool, inside, outside);
      var last := pool[path[|path| - 1]];
      assert EventsOverlap(pool[prefix[|prefix| - 1]], last);
      assert last in pool;
    }
  }

  /** Every event reachable from `e` lies inside a part closed in that sense. */
  lemma ReachableStaysInside(
    e: CalendarEvent, pool: seq<CalendarEvent>,
    inside: seq<CalendarEvent>, outside: seq<CalendarEvent>)
    requires forall y | y in pool :: y in inside || y in outside
    requires forall y | y in outside :: !EventsOverlap(e, y)
    requires forall c, y | c in inside && y in outside :: !EventsOverlap(c, y)
    ensures forall x | Reachable(e, x, pool) :: x in inside
  {
    forall x | Reachable(e, x, pool) ensures x in inside {
      var path :| IsChain(e, path, pool) && pool[path[|path| - 1]] == x;
      ChainStaysInside(e, path, pool, inside, outside);
    }
  }

  /** No event occurs twice in `s`. */
  predicate Distinct(s: seq<CalendarEvent>)
  {
    forall i, j | 0 <= i < j < |s| :: s[i] != s[j]
  }

  /** In a sequence without repeats every event occurs at most once. */
  lemma {:induction false} DistinctCountsAtMostOne(s: seq<CalendarEvent>)
    requires Distinct(s)
    ensures forall x :: multiset(s)[x] <= 1
  {
    if s != [] {
      var tail := s[1..];
      assert Distinct(tail) by {
        forall i, j | 0 <= i < j < |tail| ensures tail[i] != tail[j] {
          assert tail[i] == s[i + 1] && tail[j] == s[j + 1];
        }
      }
      DistinctCountsAtMostOne(tail);
      assert s == [s[0]] + tail;
      assert s[0] !in tail;
    }
  }

  /**
   * Keeping some occurrences of the events of a sequence without repeats
   * yields a sequence without repeats.
   */
  lemma SubMultisetDistinct(r: seq<CalendarEvent>, s: seq<CalendarEvent>)
    requires multiset(r) <= multiset(s)
    requires Distinct(s)
    ensures Distinct(r)
  {
    DistinctCountsAtMostOne(s);
    forall i, j | 0 <= i < j < |r| ensures r[i] != r[j] {
      assert r == r[..j] + r[j..];
      assert r[i] in r[..j] && r[j] in r[j..];
      assert multiset(r)[r[j]] == multiset(r[..j])[r[j]] + multiset(r[j..])[r[j]];
    }
  }

  /**
   * The inner `while (j--)` loop for one frontier event `c`: scans the pool
   * from the last index down, splices out every event `c` overlaps and
   * pushes it onto the new frontier. No event is skipped or visited twice,
   * so what is kept and what is taken together are the pool again.
   */
  method TakeOverlapping(c: CalendarEvent, pool: seq<CalendarEvent>)
    returns (rest: seq<CalendarEvent>, taken: seq<CalendarEvent>)
    ensures multiset(rest) + multiset(taken) == multiset(pool)
    ensures |rest| + |taken| == |pool|
    ensures forall x | x in taken :: EventsOverlap(c, x)
    ensures forall x | x in rest :: !EventsOverlap(c, x)
  {
    rest, taken := pool, [];
    var j := |rest|;
    while j > 0
      invariant 0 <= j <= |rest|
      invariant multiset(rest) + multiset(taken) == multiset(pool)
      invariant |rest| + |taken| == |pool|
      invariant forall x | x in taken :: EventsOverlap(c, x)
      invariant forall k | j <= k < |rest| :: !EventsOverlap(c, rest[k])
    {
      j := j - 1;
      if EventsOverlap(c, rest[j]) {
        taken := taken + [rest[j]];
        assert rest == rest[..j] + [rest[j]] + rest[j + 1..];
        rest := rest[..j] + rest[j + 1..];
      }
    }
  }

  /**
   * The first `forEach`: splits `allEvents`, in order, into the events that
   * overlap `e` and those that do not.
   */
  method SplitByOverlap(e: CalendarEvent, allEvents: seq<CalendarEvent>)
    returns (concurrent: seq<CalendarEvent>, notConcurrent: seq<CalendarEvent>)
    ensures multiset(concurrent) + multiset(notConcurrent) == multiset(allEvents)
    ensures |concurrent| + |notConcurrent| == |allEvents|
    ensures forall x | x in concurrent :: EventsOverlap(e, x)
    ensures forall x | x in notConcurrent :: !EventsOverlap(e, x)
  {
    concurrent, notConcurrent := [], [];
    for i := 0 to |allEvents|
      invariant multiset(concurrent) + multiset(notConcurrent) == multiset(allEvents[..i])
      invariant |concurrent| + |notConcurrent| == i
      invariant forall x | x in concurrent :: EventsOverlap(e, x)
      invariant forall x | x in notConcurrent :: !EventsOverlap(e, x)
    {
      var thisE := allEvents[i];
      assert allEvents[..i + 1] == allEvents[..i] + [thisE];
      if EventsOverlap(e, thisE) {
        concurrent := concurrent + [thisE];
      } else {
        notConcurrent := notConcurrent + [thisE];
      }
    }
    assert allEvents[..|allEvents|] == allEvents;
  }

  /**
   * One pass of the outer `while`: every event of the frontier in turn
   * takes the events of the pool it overlaps. What is taken forms the next
   * frontier; what is left overlaps no event of this frontier.
   */
  method ExpandFrontier(frontier: seq<CalendarEvent>, pool: seq<CalendarEvent>)
    returns (adjacent: seq<CalendarEvent>, rest: seq<CalendarEvent>)
    ensures multiset(adjacent) + multiset(rest) == multiset(pool)
    ensures |adjacent| + |rest| == |pool|
    ensures forall x | x in adjacent :: exists k | 0 <= k < |frontier| :: EventsOverlap(frontier[k], x)
    ensures forall c, x | c in frontier && x in rest :: !EventsOverlap(c, x)
  {
    adjacent, rest := [], pool;
    for i := 0 to |frontier|
      invariant multiset(adjacent) + multiset(rest) == multiset(pool)
      invariant |adjacent| + |rest| == |pool|
      invariant forall x | x in adjacent :: exists k | 0 <= k < i :: EventsOverlap(frontier[k], x)
      invariant forall c, x | c in frontier[..i] && x in rest :: !EventsOverlap(c, x)
    {
      var concurrentE := frontier[i];
      var kept, taken := TakeOverlapping(concurrentE, rest);
      assert frontier[..i + 1] == frontier[..i] + [concurrentE];
      forall x | x in kept ensures x in rest {
        assert x in multiset(rest);
      }
      adjacent := adjacent + taken;
      rest := kept;
    }
    assert frontier[..|frontier|] == frontier;
  }

  /**
   * Events of the pool that overlap a reachable frontier event are
   * reachable themselves.
   */
  lemma NextFrontierReachable(
    e: CalendarEvent, allEvents: seq<CalendarEvent>,
    frontier: seq<CalendarEvent>, pool: seq<CalendarEvent>, adjacent: seq<CalendarEvent>)
    requires multiset(pool) <= multiset(allEvents)
    requires multiset(adjacent) <= multiset(pool)
    requires forall c | c in frontier :: Reachable(e, c, allEvents)
    requires forall x | x in adjacent :: exists k | 0 <= k < |frontier| :: EventsOverlap(frontier[k], x)
    ensures forall x | x in adjacent :: Reachable(e, x, allEvents)
  {
    forall x | x in adjacent ensures Reachable(e, x, allEvents) {
      var k :| 0 <= k < |frontier| && EventsOverlap(frontier[k], x);
      assert x in multiset(adjacent);
      assert x in multiset(allEvents);
      ReachableExtend(e, frontier[k], x, allEvents);
    }
  }

  /**
   * One pass of the outer `while` keeps its invariant: the cluster and the
   * pool still hold `allEvents`, the cluster holds only events reachable
   * from `e`, and no event of the pool touches `e` or an event whose
   * frontier has been scanned.
   */
  lemma GrowStep(
    e: CalendarEvent, allEvents: seq<CalendarEvent>,
    done: seq<CalendarEvent>, frontier: seq<CalendarEvent>, pool: seq<CalendarEvent>,
    adjacent: seq<CalendarEvent>, rest: seq<CalendarEvent>)
    requires multiset(done + frontier) + multiset(pool) == multiset(allEvents)
    requires forall x | x in done + frontier :: Reachable(e, x, allEvents)
    requires forall x | x in pool :: !EventsOverlap(e, x)
    requires forall c, x | c in done && x in pool :: !EventsOverlap(c, x)
    requires multiset(adjacent) + multiset(rest) == multiset(pool)
    requires forall x | x in adjacent :: exists k | 0 <= k < |frontier| :: EventsOverlap(frontier[k], x)
    requires forall c, x | c in frontier && x in rest :: !EventsOverlap(c, x)
    ensures multiset(done + frontier + adjacent) + multiset(rest) == multiset(allEvents)
    ensures forall x | x in done + frontier + adjacent :: Reachable(e, x, allEvents)
    ensures forall x | x in rest :: !EventsOverlap(e, x)
    ensures forall c, x | c in done + frontier && x in rest :: !EventsOverlap(c, x)
  {
    assert multiset(done + frontier + adjacent) == multiset(done + frontier) + multiset(adjacent);
    forall c | c in frontier ensures Reachable(e, c, allEvents) {
      assert c in done + frontier;
    }
    NextFrontierReachable(e, allEvents, frontier, pool, adjacent);
    forall x | x in rest ensures x in pool {
      assert x in multiset(pool);
    }
  }

  /**
   * Once nothing left over touches `e` or any event gathered so far, any
   * reordering `r` of the gathered events is exactly the component of `e`,
   * each event kept as often as it occurs in `allEvents`.
   */
  lemma GatheredIsComponent(
    e: CalendarEvent, allEvents: seq<CalendarEvent>,
    gathered: seq<CalendarEvent>, leftOver: seq<CalendarEvent>, r: seq<CalendarEvent>)
    requires multiset(gathered) + multiset(leftOver) == multiset(allEvents)
    requires forall x | x in gathered :: Reachable(e, x, allEvents)
    requires forall x | x in leftOver :: !EventsOverlap(e, x)
    requires forall c, x | c in gathered && x in leftOver :: !EventsOverlap(c, x)
    requires multiset(r) == multiset(gathered)
    ensures multiset(r) <= multiset(allEvents)
    ensures forall x | x in r :: multiset(r)[x] == multiset(allEvents)[x]
    ensures forall x | x in r :: Reachable(e, x, allEvents)
    ensures forall x | x in allEvents :: x in r <==> Reachable(e, x, allEvents)
    ensures forall c, x | c in r && x in allEvents && x !in r :: !EventsOverlap(c, x)
    ensures e in allEvents ==> e in r
    ensures Distinct(allEvents) ==> Distinct(r)
  {
    SameElements(r, gathered);
    SameElements(gathered, r);
    forall x | x in allEvents ensures x in gathered || x in leftOver {
      assert x in multiset(allEvents);
    }
    forall x | x in gathered ensures multiset(gathered)[x] == multiset(allEvents)[x] {
      assert EventsOverlap(x, x);
    }
    ReachableStaysInside(e, allEvents, gathered, leftOver);
    if e in allEvents {
      ReachableFirst(e, e, allEvents);
    }
    if Distinct(allEvents) {
      SubMultisetDistinct(r, allEvents);
    }
  }

  /**
   * The outer `while`: starting from the events that overlap `e` as the
   * first frontier, moves events from the pool into the cluster one
   * frontier at a time until a pass adds nothing. On return nothing left in
   * the pool overlaps `e` or any event of the cluster.
   */
  method GrowCluster(
    e: CalendarEvent, allEvents: seq<CalendarEvent>,
    initial: seq<CalendarEvent>, pool: seq<CalendarEvent>)
    returns (concurrent: seq<CalendarEvent>, notConcurrent: seq<CalendarEvent>)
    requires multiset(initial) + multiset(pool) == multiset(allEvents)
    requires |initial| + |pool| == |allEvents|
    requires forall x | x in initial :: Reachable(e, x, allEvents)
    requires forall x | x in pool :: !EventsOverlap(e, x)
    ensures multiset(concurrent) + multiset(notConcurrent) == multiset(allEvents)
    ensures forall x | x in concurrent :: Reachable(e, x, allEvents)
    ensures forall x | x in notConcurrent :: !EventsOverlap(e, x)
    ensures forall c, x | c in concurrent && x in notConcurrent :: !EventsOverlap(c, x)
  {
    concurrent, notConcurrent := initial, pool;
    ghost var done: seq<CalendarEvent> := [];
    var adjacentConcurrent := concurrent;
    while |adjacentConcurrent| > 0
      invariant multiset(concurrent) + multiset(notConcurrent) == multiset(allEvents)
      invariant |concurrent| + |notConcurrent| == |allEvents|
      invariant concurrent == done + adjacentConcurrent
      invariant forall x | x in concurrent :: Reachable(e, x, allEvents)
      invariant forall x | x in notConcurrent :: !EventsOverlap(e, x)
      invariant forall c, x | c in done && x in notConcurrent :: !EventsOverlap(c, x)
      decreases |notConcurrent| + |adjacentConcurrent|
    {
      var adjacent, rest := ExpandFrontier(adjacentConcurrent, notConcurrent);
      GrowStep(e, allEvents, done, adjacentConcurrent, notConcurrent, adjacent, rest);
      done := concurrent;
      concurrent := concurrent + adjacent;
      adjacentConcurrent := adjacent;
      notConcurrent := rest;
    }
  }

  /**
   * The events of `allEvents` concurrent with `e`: those linked to `e` by a
   * chain of pairwise-overlapping events, each kept as often as it occurs,
   * in render order.
   */
  method GetConcurrentEvents(e: CalendarEvent, allEvents: seq<CalendarEvent>) returns (r: seq<CalendarEvent>)
    ensures RenderSorted(r)
    ensures multiset(r) <= multiset(allEvents)
    ensures forall x | x in r :: multiset(r)[x] == multiset(allEvents)[x]
    ensures forall x | x in r :: Reachable(e, x, allEvents)
    ensures forall x | x in allEvents :: x in r <==> Reachable(e, x, allEvents)
    ensures forall c, x | c in r && x in allEvents && x !in r :: !EventsOverlap(c, x)
    ensures e in allEvents ==> e in r
    ensures Distinct(allEvents) ==> Distinct(r)
  {
    // get the events that overlap e
    var overlapping, rest := SplitByOverlap(e, allEvents);
    forall x | x in overlapping ensures Reachable(e, x, allEvents) {
      assert x in multiset(allEvents);
      ReachableFirst(e, x, allEvents);
    }
    // then everything that overlaps those, until nothing more does
    var concurrent, notConcurrent := GrowCluster(e, allEvents, overlapping, rest);
    // return the cluster sorted
    r := SortInRenderOrder(concurrent);
    GatheredIsComponent(e, allEvents, concurrent, notConcurrent, r);
  }
}
