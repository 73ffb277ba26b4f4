# Calendar event clustering, modelled in Dafny

This project models the event logic of a one-day calendar view, `scripts/calendar.js`. A
calendar event has a start (`starts_at`, in minutes from the opening of the visible window)
and a `duration` in minutes. The file holds four pieces of logic:

- **`removeBadData`** validates an event. It clamps a negative `duration` to zero in place. It then
  says whether the event can be drawn: it must end after the window opens and start no later
  than the window closes, at `HOURS_PER_DAY * 60 = 720` minutes.
- **`eventsOverlap`** is the overlap predicate. Two events overlap if they are the same object,
  or if the start of either lies in the other's half-open interval `[start, start + duration)`.
- **`getConcurrentEvents`** computes the cluster of an event `e`: every event linked to `e` by a
  chain of pairwise overlaps.
  - It first splits `allEvents` into the events that overlap `e` and those that do not.
  - It then grows a frontier. For each frontier event, a backward `while (j--)` scan splices
    the overlapping events out of the remaining pool. This repeats until a pass finds nothing.
- **`sortByEarliestEvent`** is the comparator that puts the cluster in render order: by start,
  then by duration.

Files:

- `events.dfy` (module `Events`):
  - the `CalendarEvent` class, whose references model JavaScript object identity (`===`);
  - the window constant;
  - the validator `RemoveBadData`, a method because it updates `duration` in place;
  - the overlap predicate and its properties.
- `render_order.dfy` (module `RenderOrder`):
  - the comparator;
  - the render-sorted predicate;
  - `SortInRenderOrder`, a function that specifies the final sort as "a render-sorted
    permutation".
- `clustering.dfy` (module `Clustering`):
  - reachability in the overlap graph, as a chain of indices into `allEvents`;
  - the partition loop, the backward splice scan and the frontier loop, as methods with
    loop invariants;
  - `GetConcurrentEvents`, proved to return exactly the connected component of `e`, sorted.
- `scenarios.dfy` (module `Scenarios`): a few concrete event sets. For each, the contracts alone
  fix the exact output of `GetConcurrentEvents` or `RemoveBadData`. Examples:
  - an event linked to `e` only through a middle event;
  - two distinct empty events at the same minute;
  - an event that ends before the window opens.

## Model

| member | source | states |
|---|---|---|
| Events.ClampDuration | scripts/calendar.js:90 | the clamped duration is non-negative, at least the original, and is either 0 or the original duration |
| Events.RemoveBadData | scripts/calendar.js:89-94 | afterwards `duration >= 0`; a non-negative duration is unchanged and `starts_at` is untouched; the result is true exactly when `starts_at + duration > 0` and `starts_at <= 720` |
| Events.RemoveBadDataIdempotent | scripts/calendar.js:89-94 | validating an event twice gives the same verdict and the same final state as validating it once, and the verdict is the window check applied to the clamped duration |
| Events.EventsOverlap | scripts/calendar.js:31-35 | every event overlaps itself; two distinct events that are both empty never overlap, even at the same minute; two events starting together overlap unless both are empty |
| Events.OverlapSymmetric | scripts/calendar.js:31-35 | overlap is symmetric |
| Events.OverlapIsSharedMinute | scripts/calendar.js:25-35 | for events of positive duration, overlapping is exactly sharing some minute of their half-open intervals |
| Events.EmptyOverlap | scripts/calendar.js:31-35 | an empty event overlaps a different event exactly when its start minute lies in that event's half-open interval |
| RenderOrder.SortByEarliestEvent | scripts/calendar.js:15-23 | the comparator is negative exactly when `a` starts earlier, or starts together and is shorter; it is zero exactly when start and duration both agree; it is positive in the mirror case |
| RenderOrder.ComparatorAntisymmetric | scripts/calendar.js:15-23 | swapping the two events negates the comparator |
| RenderOrder.ComparatorTotalPreorder | scripts/calendar.js:15-23 | "compares at most zero" is total and transitive, so the comparator is a valid sort order |
| RenderOrder.RenderSortedFields | scripts/calendar.js:42-43 | in a render-sorted sequence, starts never decrease, and among equal starts durations never decrease |
| RenderOrder.InsertInRenderOrder | scripts/calendar.js:80 | inserting an event adds exactly that event to the contents |
| RenderOrder.InsertKeepsRenderSorted | scripts/calendar.js:80 | inserting into a render-sorted sequence keeps it render-sorted |
| RenderOrder.SortInRenderOrder | scripts/calendar.js:80 | the sorted cluster is a permutation of its input and is render-sorted under the comparator |
| Clustering.ReachableFirst | scripts/calendar.js:54-59 | an event of `allEvents` that overlaps `e` is linked to `e` |
| Clustering.ReachableExtend | scripts/calendar.js:37-40 | an event of `allEvents` that overlaps an event linked to `e` is itself linked to `e` |
| Clustering.ChainStaysInside | scripts/calendar.js:62-77 | if `allEvents` is split so that no outside event overlaps `e` or any inside event, every overlap chain from `e` ends inside |
| Clustering.ReachableStaysInside | scripts/calendar.js:62-77 | under the same split, every event linked to `e` lies inside |
| Clustering.SubMultisetDistinct | scripts/calendar.js:76 | a sub-collection of a collection without repeats has no repeats |
| Clustering.TakeOverlapping | scripts/calendar.js:69-74 | the backward splice scan loses and duplicates nothing: pool = kept + taken as multisets, lengths add up; every taken event overlaps the frontier event and no kept one does |
| Clustering.SplitByOverlap | scripts/calendar.js:54-60 | the first pass is a partition of `allEvents` into the events that overlap `e` and those that do not |
| Clustering.ExpandFrontier | scripts/calendar.js:65-75 | one pass over the frontier partitions the pool: each newly taken event overlaps some frontier event, and no event left behind overlaps any frontier event |
| Clustering.NextFrontierReachable | scripts/calendar.js:71-72 | events taken because they overlap linked frontier events are themselves linked to `e` |
| Clustering.GrowStep | scripts/calendar.js:64-77 | one pass of the outer loop keeps its invariant: cluster + pool is a permutation of `allEvents`, every cluster event is linked to `e`, and no pool event overlaps `e` or any already expanded cluster event |
| Clustering.GatheredIsComponent | scripts/calendar.js:62-80 | a gathered set that is linked to `e`, and that nothing left over overlaps, is exactly the connected component of `e`, with multiplicities as in `allEvents` |
| Clustering.GrowCluster | scripts/calendar.js:62-77 | the frontier loop terminates, because pool plus frontier shrinks on every pass; at exit cluster + pool is a permutation of `allEvents`, every cluster event is linked to `e`, and no pool event overlaps `e` or any cluster event |
| Clustering.GetConcurrentEvents | scripts/calendar.js:48-81 | the result is render-sorted; it holds exactly the events of `allEvents` linked to `e` by an overlap chain, each as often as in `allEvents`; nothing outside it overlaps any member; it contains `e` when `e` is in `allEvents`; it has no repeats when `allEvents` has none |

## Left out

- `getTimeStr`, `START_TIME` and `START_OF_DAY` (scripts/calendar.js:6-7, 111-121) are left out. They read the host clock and time zone through `Date`.
- `getAMPM` (scripts/calendar.js:101-103) is left out. It serves only the time formatter.
- `window.renderEvents` (scripts/calendar.js:124-126) is left out. It is a user-interface stub that only raises an alert.
- The wrapper function and strict mode (scripts/calendar.js:1-3, 127) are left out. They have no behaviour.
- The algorithm and stability of the engine's `Array.prototype.sort` are not modelled. `SortInRenderOrder` is one render-sorted permutation. Only that contract is relied on, so events with equal start and duration may come out in either order.
- JavaScript numbers are modelled as unbounded integers. Fractional minutes, `NaN` and infinities are not modelled.
- Only the two timing fields of an event are modelled. Any other fields are payload that none of this logic reads.
- A collection-level validator is not modelled. The source has no loop that applies `removeBadData` to a sequence; it only states that the function is meant to be passed to `filter`. Idempotence is therefore proved for one event (`RemoveBadDataIdempotent`). The idempotence of filtering a whole collection follows event by event.
- Clustering.TakeOverlapping: states the split as multisets, not as orders. The source takes events in descending index order and keeps the rest in their original order. The contents decide the output, except among events with equal start and duration. Their relative order in the output comes from the order that the engine's stable sort keeps, which is not modelled (see the `Array.prototype.sort` line above).
- Clustering.SplitByOverlap: states the split as multisets, not the original order of each part.
- Clustering.ExpandFrontier: states the split as multisets, not the order of the new frontier.
- Clustering.GrowCluster: states the cluster as a multiset. The contents decide the sorted output, except among events with equal start and duration. The stable sort keeps those in their order in the unsorted cluster, and that order is not modelled (see the `Array.prototype.sort` line above).

Where the source's own doc comments (scripts/calendar.js:37-43) and its code differ, the model follows the code:

- If `allEvents` holds the same event twice, the cluster keeps it twice. `GetConcurrentEvents` promises the multiplicities of `allEvents`. It promises no repeats only when `allEvents` has none.
- The doc comment at scripts/calendar.js:42 says the result includes the given event. The code includes `e` only when `e` is a member of `allEvents`, and `GetConcurrentEvents` promises exactly that. When `e` is not in `allEvents`, `e` is absent from the result.
