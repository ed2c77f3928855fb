/** Dragging an integer number field: the gesture keeps an integer value and a
    fractional remainder, and together they follow a saturating real position. */
module DragGesture {
  import opened Wrappers

  /** The `min` and `max` attributes; an empty attribute is no bound. */
  datatype Bounds = Bounds(min: Option<int>, max: Option<int>) {
    predicate Ordered() {
      min.Some? && max.Some? ==> min.value <= max.value
    }

    predicate Contains(x: real) {
      && (min.Some? ==> min.value as real <= x)
      && (max.Some? ==> x <= max.value as real)
    }

    function Constrain(value: int): int {
      if min.Some? && value < min.value then min.value
      else if max.Some? && value > max.value then max.value
      else value
    }

    /** The nearest position within the bounds. */
    function Saturate(x: real): real {
      if min.Some? && x < min.value as real then min.value as real
      else if max.Some? && x > max.value as real then max.value as real
      else x
    }
  }

  /** `Math.round`: the nearest integer, halves upwards. */
  function Round(x: real): int { (x + 0.5).Floor }

  /** A pointer event, with the value the field holds at that moment. */
  datatype PointerEvent = PointerEvent(pointerId: int, clientX: real, shift: bool, stored: int)

  datatype Gesture = Gesture(
    pointerId: int, startX: real, previousX: real, value: int, remainder: real, dragging: bool)

  datatype Update = Update(value: int, commit: bool)

  // ------------------------------------------------------------ the idealised drag

  /** What a gesture stands for: nothing yet, or a real position following the pointer. */
  datatype Track = Pressed(startX: real) | Dragged(x: real, position: real)

  /** The movement of the pointer, a tenth of it with the shift key, in units of the value. */
  function Delta(speed: real, from: real, event: PointerEvent): real {
    var movement := (event.clientX - from) * if event.shift then 0.1 else 1.0;
    movement * speed
  }

  /** The idealised response to one movement. The first movement of three pixels
      starts from the value then stored and counts in full. */
  function Follow(bounds: Bounds, speed: real, track: Track, event: PointerEvent): Track {
    match track
    case Pressed(startX) =>
      if -3.0 < event.clientX - startX < 3.0 then track
      else Dragged(event.clientX, bounds.Saturate(event.stored as real + Delta(speed, startX, event)))
    case Dragged(x, position) =>
      Dragged(event.clientX, bounds.Saturate(position + Delta(speed, x, event)))
  }

  function FollowAll(bounds: Bounds, speed: real, track: Track, events: seq<PointerEvent>): Track {
    if events == [] then track
    else Follow(bounds, speed, FollowAll(bounds, speed, track, events[..|events| - 1]), events[|events| - 1])
  }

  /** The events that belong to a gesture. */
  function OwnEvents(events: seq<PointerEvent>, pointerId: int): seq<PointerEvent> {
    if events == [] then []
    else
      var before, last := OwnEvents(events[..|events| - 1], pointerId), events[|events| - 1];
      if last.pointerId == pointerId then before + [last] else before
  }

  /** The rounded position after every event once dragging. */
  function Reports(bounds: Bounds, speed: real, track: Track, events: seq<PointerEvent>): seq<Update> {
    if events == [] then []
    else
      Reports(bounds, speed, track, events[..|events| - 1])
      + Report(FollowAll(bounds, speed, track, events))
  }

  function TrackOf(g: Gesture): Track {
    if g.dragging then Dragged(g.previousX, g.value as real + g.remainder) else Pressed(g.startX)
  }

  /** A gesture is the rounding of its track: the value is the rounded position. */
  predicate Rounded(g: Gesture) {
    if g.dragging then g.value == Round(g.value as real + g.remainder)
    else g.previousX == g.startX && g.remainder == 0.0
  }

  // ------------------------------------------------------------ the field

  class DraggableNumber {
    const bounds: Bounds
    const speed: real
    var gesture: Option<Gesture>
    var updates: seq<Update>

    constructor (bounds: Bounds, speed: real)
      ensures this.bounds == bounds && this.speed == speed
      ensures gesture == None && updates == []
    {
      this.bounds, this.speed := bounds, speed;
      gesture, updates := None, [];
    }

    ghost predicate Valid()
      reads this
    {
      bounds.Ordered() && (gesture.Some? ==> Rounded(gesture.value))
    }

    /** A press starts a gesture only with the main button, on an enabled field that is
        not being edited, and while no other gesture is going on. */
    method PointerDown(event: PointerEvent, disabled: bool, readOnly: bool, button: int)
      requires Valid()
      modifies this
      ensures Valid() && updates == old(updates)
      ensures disabled || !readOnly || button != 0 || old(gesture).Some? ==> gesture == old(gesture)
      ensures !disabled && readOnly && button == 0 && old(gesture).None? ==>
        && gesture.Some? && gesture.value.pointerId == event.pointerId
        && TrackOf(gesture.value) == Pressed(event.clientX)
    {
      if disabled || !readOnly || button != 0 || gesture.Some? {
        return;
      }
      gesture := Some(Gesture(event.pointerId, event.clientX, event.clientX, event.stored, 0.0, false));
    }

    /** One movement takes the track of the gesture one idealised step, and hands
        the field the rounded position. */
    method Move(event: PointerEvent)
      requires Valid()
      modifies this
      ensures Valid()
      ensures gesture.Some? <==> old(gesture).Some?
      ensures old(gesture).None? || old(gesture).value.pointerId != event.pointerId ==>
        gesture == old(gesture) && updates == old(updates)
      ensures old(gesture).Some? && old(gesture).value.pointerId == event.pointerId ==>
        && gesture.value.pointerId == event.pointerId
        && TrackOf(gesture.value) == Follow(bounds, speed, TrackOf(old(gesture).value), event)
        && updates == old(updates) + Report(TrackOf(gesture.value))
    {
      hide Delta, Bounds.Constrain, Bounds.Saturate, Bounds.Ordered, Round;
      if gesture.None? || event.pointerId != gesture.value.pointerId {
        return;
      }
      var g := gesture.value;
      if !g.dragging {
        if -3.0 < event.clientX - g.startX < 3.0 {
          return;
        }
        g := g.(value := event.stored, dragging := true);
      }
      var delta := Delta(speed, g.previousX, event);
      var amount := g.remainder + delta;
      var units := Round(amount);
      var next := g.value + units;
      var value := bounds.Constrain(next);
      var remainder := amount - units as real;
      var outward := (remainder < 0.0 && bounds.min == Some(value)) || (remainder > 0.0 && bounds.max == Some(value));
      RoundingStep(bounds, g.value, g.remainder, delta);
      g := g.(previousX := event.clientX, value := value,
        remainder := if value == next && !outward then remainder else 0.0);
      gesture := Some(g);
      updates := updates + [Update(value, false)];
    }

    /** A whole sequence of movements takes the track along `FollowAll`, over the events
        of the gesture's own pointer, and reports every rounded position on the way. */
    method MoveThrough(events: seq<PointerEvent>)
      requires Valid() && gesture.Some?
      modifies this
      ensures Valid() && gesture.Some? && gesture.value.pointerId == old(gesture).value.pointerId
      ensures var own := OwnEvents(events, old(gesture).value.pointerId);
        && TrackOf(gesture.value) == FollowAll(bounds, speed, TrackOf(old(gesture).value), own)
        && updates == old(updates) + Reports(bounds, speed, TrackOf(old(gesture).value), own)
    {
      hide Follow, FollowAll, Reports, OwnEvents, Rounded, TrackOf, Bounds.Ordered;
      NothingFollowed(bounds, speed, TrackOf(gesture.value), gesture.value.pointerId);
      assert events[..0] == [];
      ghost var start, id, before := TrackOf(gesture.value), gesture.value.pointerId, updates;
      var k := 0;
      while k < |events|
        invariant k <= |events| && Valid() && gesture.Some? && gesture.value.pointerId == id
        invariant TrackOf(gesture.value) == FollowAll(bounds, speed, start, OwnEvents(events[..k], id))
        invariant updates == before + Reports(bounds, speed, start, OwnEvents(events[..k], id))
      {
        OneMoreFollowed(bounds, speed, start, events, k, id);
        Move(events[k]);
        k := k + 1;
      }
      assert events[..|events|] == events;
    }

    /** Releasing the pointer takes the last movement into account and commits the
        rounded position; a cancelled drag commits where it is. */
    method Finish(event: PointerEvent, released: bool, commit: bool)
      requires Valid()
      modifies this
      ensures Valid()
      ensures old(gesture).None? || old(gesture).value.pointerId != event.pointerId ==>
        gesture == old(gesture) && updates == old(updates)
      ensures old(gesture).Some? && old(gesture).value.pointerId == event.pointerId ==>
        var before := TrackOf(old(gesture).value);
        var after := if released then Follow(bounds, speed, before, event) else before;
        gesture == None && updates == old(updates) + match after
          case Pressed(_) => []
          case Dragged(_, position) =>
            (if released then [Update(Round(position), false)] else [])
            + (if commit then [Update(Round(position), true)] else [])
    {
      if gesture.None? || event.pointerId != gesture.value.pointerId {
        return;
      }
      if released {
        Move(event);
      }
      var g := gesture.value;
      gesture := None;
      if g.dragging && commit {
        updates := updates + [Update(g.value, true)];
      }
    }
  }

  function Report(track: Track): seq<Update> {
    match track
    case Pressed(_) => []
    case Dragged(_, position) => [Update(Round(position), false)]
  }

  lemma NothingFollowed(bounds: Bounds, speed: real, track: Track, pointerId: int)
    ensures OwnEvents([], pointerId) == [] && Reports(bounds, speed, track, []) == []
    ensures FollowAll(bounds, speed, track, []) == track
  {
  }

  /** One more event of a sequence: another pointer's changes nothing. */
  lemma OneMoreFollowed(bounds: Bounds, speed: real, track: Track, events: seq<PointerEvent>, k: nat, pointerId: int)
    requires k < |events|
    ensures var own, more := OwnEvents(events[..k], pointerId), OwnEvents(events[..k + 1], pointerId);
      var reached := FollowAll(bounds, speed, track, own);
      if events[k].pointerId == pointerId then
        && FollowAll(bounds, speed, track, more) == Follow(bounds, speed, reached, events[k])
        && Reports(bounds, speed, track, more)
           == Reports(bounds, speed, track, own) + Report(Follow(bounds, speed, reached, events[k]))
      else more == own
  {
    hide Follow;
    var soFar := events[..k + 1];
    assert soFar[..|soFar| - 1] == events[..k] && soFar[|soFar| - 1] == events[k];
    var own := OwnEvents(events[..k], pointerId);
    assert (own + [events[k]])[..|own|] == own;
  }

  /** The arithmetic of one movement: after constraining and dropping outward
      overshoot, value and remainder add up to the saturated position, and the value
      is that position rounded. */
  lemma RoundingStep(bounds: Bounds, value: int, remainder: real, delta: real)
    requires bounds.Ordered()
    ensures var amount := remainder + delta;
      var next := value + Round(amount);
      var kept := bounds.Constrain(next);
      var rest := amount - Round(amount) as real;
      var outward := (rest < 0.0 && bounds.min == Some(kept)) || (rest > 0.0 && bounds.max == Some(kept));
      var left := if kept == next && !outward then rest else 0.0;
      && kept as real + left == bounds.Saturate(value as real + remainder + delta)
      && kept == Round(kept as real + left)
  {
    var amount := remainder + delta;
    var units := Round(amount);
    var next := value + units;
    var rest := amount - units as real;
    assert -0.5 <= rest < 0.5;
    assert next as real == value as real + units as real;
    assert value as real + remainder + delta == next as real + rest;
  }

  // ------------------------------------------------------------ whole gestures

  /** The distance asked for by the events of a drag, before any bound is applied. */
  function Travel(speed: real, from: real, events: seq<PointerEvent>): real {
    if events == [] then 0.0
    else
      var before := events[..|events| - 1];
      Travel(speed, from, before) + Delta(speed, LastX(from, before), events[|events| - 1])
  }

  function LastX(from: real, events: seq<PointerEvent>): real {
    if events == [] then from else events[|events| - 1].clientX
  }

  predicate StaysInside(bounds: Bounds, speed: real, x: real, position: real, events: seq<PointerEvent>) {
    forall k :: 0 <= k <= |events| ==> bounds.Contains(position + Travel(speed, x, events[..k]))
  }

  /** Fractional motion is conserved: as long as the idealised position stays within
      the bounds, a drag has moved by exactly the distance its events asked for. */
  lemma {:induction false} MotionIsConserved(bounds: Bounds, speed: real, x: real, position: real, events: seq<PointerEvent>)
    requires StaysInside(bounds, speed, x, position, events)
    ensures FollowAll(bounds, speed, Dragged(x, position), events)
         == Dragged(LastX(x, events), position + Travel(speed, x, events))
  {
    hide Delta;
    if events != [] {
      var before := events[..|events| - 1];
      assert forall k :: 0 <= k <= |before| ==> events[..k] == before[..k];
      MotionIsConserved(bounds, speed, x, position, before);
      assert events[..|events|] == events;
    }
  }

  /** With the fine-adjustment key held throughout, or not at all, the distance depends
      only on the end points: all of it, or a tenth of it. */
  lemma {:induction false} TravelTelescopes(speed: real, from: real, events: seq<PointerEvent>, fine: bool)
    requires forall e <- events :: e.shift == fine
    ensures Travel(speed, from, events) == (LastX(from, events) - from) * (if fine then 0.1 else 1.0) * speed
  {
    if events != [] {
      var before, last := events[..|events| - 1], events[|events| - 1];
      TravelTelescopes(speed, from, before, fine);
      var scale := if fine then 0.1 else 1.0;
      Distribute((LastX(from, before) - from) * scale, (last.clientX - LastX(from, before)) * scale, speed);
      assert (LastX(from, before) - from) * scale + (last.clientX - LastX(from, before)) * scale == (last.clientX - from) * scale;
    }
  }

  lemma Distribute(a: real, b: real, speed: real)
    ensures (a + b) * speed == a * speed + b * speed
  {
  }

  /** A drag that meets no bound lands on the stored value plus the pointer's distance
      from where it went down (a tenth of it with the fine-adjustment key), however the
      movement was cut into events. */
  lemma DragIsPathIndependent(bounds: Bounds, speed: real, startX: real, first: PointerEvent, rest: seq<PointerEvent>)
    requires !(-3.0 < first.clientX - startX < 3.0)
    requires forall e <- rest :: e.shift == first.shift
    requires StaysInside(bounds, speed, startX, first.stored as real, [first] + rest)
    ensures var x := LastX(startX, [first] + rest);
      FollowAll(bounds, speed, Pressed(startX), [first] + rest)
      == Dragged(x, first.stored as real + (x - startX) * (if first.shift then 0.1 else 1.0) * speed)
  {
    hide Travel, FollowAll, StaysInside;
    StartsAsDragged(bounds, speed, startX, first, rest);
    MotionIsConserved(bounds, speed, startX, first.stored as real, [first] + rest);
    TravelTelescopes(speed, startX, [first] + rest, first.shift);
  }

  /** Crossing the threshold is a drag from the press point at the stored value. */
  lemma {:induction false} StartsAsDragged(bounds: Bounds, speed: real, startX: real, first: PointerEvent, rest: seq<PointerEvent>)
    requires !(-3.0 < first.clientX - startX < 3.0)
    ensures FollowAll(bounds, speed, Pressed(startX), [first] + rest)
         == FollowAll(bounds, speed, Dragged(startX, first.stored as real), [first] + rest)
  {
    hide Delta;
    var events := [first] + rest;
    if rest == [] {
      assert events[..0] == [] && events[0] == first;
    } else {
      assert events[..|events| - 1] == [first] + rest[..|rest| - 1];
      StartsAsDragged(bounds, speed, startX, first, rest[..|rest| - 1]);
    }
  }

  lemma SaturateContains(bounds: Bounds, x: real)
    requires bounds.Ordered()
    ensures bounds.Contains(bounds.Saturate(x))
  {
  }

  lemma RoundContains(bounds: Bounds, x: real)
    requires bounds.Contains(x)
    ensures bounds.Contains(Round(x) as real)
  {
    var rounded := (x + 0.5).Floor;
    assert x - 0.5 < rounded as real <= x + 0.5;
    if bounds.min.Some? {
      assert (bounds.min.value - 1) as real == bounds.min.value as real - 1.0;
      assert rounded > bounds.min.value - 1;
    }
    if bounds.max.Some? {
      assert (bounds.max.value + 1) as real == bounds.max.value as real + 1.0;
      assert rounded < bounds.max.value + 1;
    }
  }

  /** Once dragging, the position and the rounded value are within the bounds,
      whatever the stored value was. */
  lemma DragStaysInBounds(bounds: Bounds, speed: real, track: Track, event: PointerEvent)
    requires bounds.Ordered()
    ensures var after := Follow(bounds, speed, track, event);
      after.Dragged? ==>
        bounds.Contains(after.position) && bounds.Contains(Round(after.position) as real)
  {
    hide Delta, Bounds.Ordered, Bounds.Contains, Bounds.Saturate, Round;
    match track
    case Pressed(startX) =>
      var asked := event.stored as real + Delta(speed, startX, event);
      SaturateContains(bounds, asked);
      RoundContains(bounds, bounds.Saturate(asked));
    case Dragged(x, position) =>
      var asked := position + Delta(speed, x, event);
      SaturateContains(bounds, asked);
      RoundContains(bounds, bounds.Saturate(asked));
  }

  lemma {:induction false} FollowConcat(bounds: Bounds, speed: real, track: Track, a: seq<PointerEvent>, b: seq<PointerEvent>)
    ensures FollowAll(bounds, speed, track, a + b)
         == FollowAll(bounds, speed, FollowAll(bounds, speed, track, a), b)
  {
    hide Follow;
    if b == [] {
      assert a + b == a;
    } else {
      assert (a + b)[..|a + b| - 1] == a + b[..|b| - 1];
      FollowConcat(bounds, speed, track, a, b[..|b| - 1]);
    }
  }

  /** Overshoot is forgotten: after running past a bound, by any distance, the rest of
      the drag goes on as if it had stopped exactly at the bound. */
  lemma BoundsReverseAtOnce(bounds: Bounds, speed: real, x: real, position: real, out: PointerEvent, rest: seq<PointerEvent>)
    requires bounds.Ordered()
    ensures var asked := position + Delta(speed, x, out);
      var after := FollowAll(bounds, speed, Dragged(x, position), [out] + rest);
      && (bounds.max.Some? && asked >= bounds.max.value as real ==>
            after == FollowAll(bounds, speed, Dragged(out.clientX, bounds.max.value as real), rest))
      && (bounds.min.Some? && asked <= bounds.min.value as real ==>
            after == FollowAll(bounds, speed, Dragged(out.clientX, bounds.min.value as real), rest))
  {
    hide Delta;
    FollowConcat(bounds, speed, Dragged(x, position), [out], rest);
    assert [out][..0] == [];
    assert FollowAll(bounds, speed, Dragged(x, position), [out]) == Follow(bounds, speed, Dragged(x, position), out);
  }

  /** Rounding gives the one integer at most half a unit away, halves going up. */
  lemma RoundsToNearest(x: real, n: int)
    ensures Round(x) == n <==> n as real - 0.5 <= x < n as real + 0.5
  {
    var r := Round(x);
    assert r as real <= x + 0.5 < r as real + 1.0;
    if n as real - 0.5 <= x < n as real + 0.5 {
      assert n as real <= x + 0.5 < (n + 1) as real;
    }
  }

  /** Nothing is dragged until some event is three pixels from where the pointer went
      down, and then everything after it is. */
  lemma {:induction false} DragsFromThreePixels(bounds: Bounds, speed: real, startX: real, events: seq<PointerEvent>)
    ensures FollowAll(bounds, speed, Pressed(startX), events) == Pressed(startX) <==>
      forall k :: 0 <= k < |events| ==> -3.0 < events[k].clientX - startX < 3.0
    ensures FollowAll(bounds, speed, Pressed(startX), events).Pressed? ==>
      FollowAll(bounds, speed, Pressed(startX), events) == Pressed(startX)
  {
    hide Delta, Bounds.Saturate;
    if events != [] {
      DragsFromThreePixels(bounds, speed, startX, events[..|events| - 1]);
    }
  }
}
