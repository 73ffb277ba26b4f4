/**
 * Calendar events, the visible day window, the validator that clamps and
 * filters an event, and the overlap predicate used by the clustering engine.
 */
module Events {

  /** Number of hours shown in a calendar day. */
  const HoursPerDay: int := 12

  /** Length of the visible day window in minutes (720). */
  const DayLengthMinutes: int := HoursPerDay * 60

  /**
   * A calendar event. Times are minute offsets from the start of the visible
   * window. Events are objects: two events with equal fields are still two
   * events, and the overlap predicate tells them apart by reference.
   */
  class CalendarEvent {
    var startsAt: int
    var duration: int

    constructor (startsAt: int, duration: int)
      ensures this.startsAt == startsAt && this.duration == duration
    {
      this.startsAt := startsAt;
      this.duration := duration;
    }
  }

  /** `Math.max(0, d)`: the duration after clamping. */
  function ClampDuration(d: int): (r: int)
    ensures r >= 0 && r >= d
    ensures r == 0 || r == d
  {
    if d < 0 then 0 else d
  }

  /** An event with this start and (clamped) duration lies in the visible window. */
  predicate InWindow(startsAt: int, duration: int)
  {
    startsAt + duration > 0 && startsAt <= DayLengthMinutes
  }

  /**
   * Clamps `e.duration` to be non-negative in place and reports whether the
   * event is renderable, that is, ends after the window opens and starts no
   * later than the window closes.
   */
  method RemoveBadData(e: CalendarEvent) returns (renderable: bool)
    modifies e
    ensures e.startsAt == old(e.startsAt)
    ensures e.duration == ClampDuration(old(e.duration))
    ensures e.duration >= 0
    ensures old(e.duration) >= 0 ==> e.duration == old(e.duration)
    ensures renderable <==> e.startsAt + e.duration > 0 && e.startsAt <= 720
  {
    e.duration := if 0 < e.duration then e.duration else 0;
    renderable := InWindow(e.startsAt, e.duration);
  }

  /**
   * Validating an event a second time changes nothing: the state and the
   * verdict after two calls are those after one.
   */
  method RemoveBadDataIdempotent(e: CalendarEvent) returns (first: bool, second: bool)
    modifies e
    ensures first == second
    ensures e.startsAt == old(e.startsAt)
    ensures e.duration == ClampDuration(old(e.duration))
    ensures second <==> InWindow(old(e.startsAt), ClampDuration(old(e.duration)))
  {
    first := RemoveBadData(e);
    ghost var once := e.duration;
    second := RemoveBadData(e);
    assert e.duration == once;
  }

  /** Minute `t` lies in the half-open interval `[startsAt, startsAt + duration)` of `e`. */
  predicate Covers(e: CalendarEvent, t: int)
    reads e
  {
    e.startsAt <= t < e.startsAt + e.duration
  }

  /**
   * Two events overlap when they are the same event, or when the start of
   * either lies in the other's half-open interval.
   */
  function EventsOverlap(a: CalendarEvent, b: CalendarEvent): (r: bool)
    reads a, b
    ensures a == b ==> r
    // two distinct events whose intervals are both empty never overlap,
    // even when they start at the same minute
    ensures a != b && a.duration <= 0 && b.duration <= 0 ==> !r
    // events starting together overlap unless both are empty
    ensures a.startsAt == b.startsAt && (a.duration > 0 || b.duration > 0) ==> r
  {
    a == b
    || (a.startsAt >= b.startsAt && a.startsAt < b.startsAt + b.duration)
    || (b.startsAt >= a.startsAt && b.startsAt < a.startsAt + a.duration)
  }

  /** The overlap relation is symmetric. */
  lemma OverlapSymmetric(a: CalendarEvent, b: CalendarEvent)
    ensures EventsOverlap(a, b) == EventsOverlap(b, a)
  {
  }

  /**
   * An empty event overlaps a different event exactly when its start minute
   * lies in that event's interval.
   */
  lemma EmptyOverlap(a: CalendarEvent, b: CalendarEvent)
    requires a != b && a.duration <= 0
    ensures EventsOverlap(a, b) <==> Covers(b, a.startsAt)
  {
  }

  /**
   * For events of positive duration, overlapping is exactly sharing a
   * minute: the half-open intervals intersect.
   */
  lemma OverlapIsSharedMinute(a: CalendarEvent, b: CalendarEvent)
    requires a.duration > 0 && b.duration > 0
    ensures EventsOverlap(a, b) <==> exists t :: Covers(a, t) && Covers(b, t)
  {
    if EventsOverlap(a, b) {
      var t := if a.startsAt < b.startsAt then b.startsAt else a.startsAt;
      assert Covers(a, t) && Covers(b, t);
    }
  }
}
