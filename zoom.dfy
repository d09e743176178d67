/** The zoom controls of the heart-rate slide (initSlide1 in slides_logic.js):
    a button that arms and disarms a horizontal brush, the brush's end handler
    that zooms the time axis, and a button that resets it. */
module Zoom {
  import opened Options
  import opened HeartRate

  /** Whether the brush is armed (`brushing`), and the time axis' domain. */
  datatype State = State(brushing: bool, domain: Option<Interval>)

  /** The inputs the controls react to. A brush selection arrives already
      mapped from pixels to timestamps. */
  datatype Event =
    | ToggleClick
    | BrushEnd(selection: Option<Interval>)
    | ResetClick

  /** After loading: not armed, the domain is the data's time extent. */
  function Initial(extent: Option<Interval>): State
  {
    State(false, extent)
  }

  /** One handler: the toggle flips arming; a brush end with a selection zooms
      to it and disarms, one without a selection is ignored; reset restores
      the extent and leaves arming alone. */
  function Step(extent: Option<Interval>, s: State, e: Event): State
  {
    match e
    case ToggleClick => s.(brushing := !s.brushing)
    case BrushEnd(None) => s
    case BrushEnd(Some(selection)) => State(false, Some(selection))
    case ResetClick => s.(domain := extent)
  }

  /** Handlers run one after another, in the order the events arrive. */
  function Run(extent: Option<Interval>, s: State, events: seq<Event>): State
    decreases |events|
  {
    if events == [] then s else Run(extent, Step(extent, s, events[0]), events[1..])
  }

  lemma {:induction false} RunConcat(extent: Option<Interval>, s: State, a: seq<Event>, b: seq<Event>)
    ensures Run(extent, s, a + b) == Run(extent, Run(extent, s, a), b)
    decreases |a|
  {
    if a == [] {
      assert a + b == b;
    } else {
      assert (a + b)[0] == a[0] && (a + b)[1..] == a[1..] + b;
      RunConcat(extent, Step(extent, s, a[0]), a[1..], b);
    }
  }

  /** Reset restores the extent exactly, however many zooms came before, and
      does not touch arming. */
  lemma ResetRestoresExtent(extent: Option<Interval>, s: State, events: seq<Event>)
    ensures Run(extent, s, events + [ResetClick]).domain == extent
    ensures Run(extent, s, events + [ResetClick]).brushing == Run(extent, s, events).brushing
  {
    RunConcat(extent, s, events, [ResetClick]);
  }

  /** After a reset the time axis again spans every drawn sample of both
      series, whatever zooms came before. */
  lemma ResetShowsEveryDrawnSample(heartRaw: seq<Sample>, restingRaw: seq<Sample>, s: State, events: seq<Event>)
    requires Combined(heartRaw, restingRaw) != []
    ensures var d := Run(XExtent(heartRaw, restingRaw), s, events + [ResetClick]).domain;
      d.Some? && forall i :: 0 <= i < |Combined(heartRaw, restingRaw)| ==>
        d.value.lo <= Combined(heartRaw, restingRaw)[i].time <= d.value.hi
  {
    ResetRestoresExtent(XExtent(heartRaw, restingRaw), s, events);
  }

  /** Two toggle clicks change nothing. */
  lemma ToggleTwice(extent: Option<Interval>, s: State)
    ensures Run(extent, s, [ToggleClick, ToggleClick]) == s
  {
    var once := Step(extent, s, ToggleClick);
    assert Run(extent, s, [ToggleClick, ToggleClick]) == Run(extent, once, [ToggleClick]);
    assert Run(extent, once, [ToggleClick]) == Run(extent, Step(extent, once, ToggleClick), []);
  }

  /** A brush end with a selection zooms to exactly that selection and
      disarms; one without a selection changes neither domain nor arming. */
  lemma BrushEndEffect(extent: Option<Interval>, s: State, selection: Option<Interval>)
    ensures selection.Some? ==> Step(extent, s, BrushEnd(selection)) == State(false, selection)
    ensures selection.None? ==> Step(extent, s, BrushEnd(selection)) == s
  {
  }

  /** `lo <= hi`, and inside `outer`. */
  predicate Within(d: Interval, outer: Interval)
  {
    outer.lo <= d.lo <= d.hi <= outer.hi
  }

  /** The events a user can cause: a brush exists (and so can end) only while
      armed, and it spans the plot, so its selection maps to a part of the
      current domain. */
  predicate Possible(s: State, e: Event)
  {
    e.BrushEnd? ==> s.brushing && (e.selection.Some? ==> s.domain.Some? && Within(e.selection.value, s.domain.value))
  }

  predicate PossibleRun(extent: Option<Interval>, s: State, events: seq<Event>)
    decreases |events|
  {
    events == [] || (Possible(s, events[0]) && PossibleRun(extent, Step(extent, s, events[0]), events[1..]))
  }

  /** Zooming only ever narrows: along any run a user can cause, the domain
      stays a part of the data's extent. */
  lemma {:induction false} DomainStaysInExtent(extent: Option<Interval>, s: State, events: seq<Event>)
    requires extent.Some? && extent.value.lo <= extent.value.hi
    requires s.domain.Some? && Within(s.domain.value, extent.value)
    requires PossibleRun(extent, s, events)
    ensures Run(extent, s, events).domain.Some?
    ensures Within(Run(extent, s, events).domain.value, extent.value)
    decreases |events|
  {
    if events != [] {
      DomainStaysInExtent(extent, Step(extent, s, events[0]), events[1..]);
    }
  }

  /** The controls as the slide holds them: `brushing` and the domain of
      `xScale`, next to the fixed extent computed on load. */
  class ZoomControl {
    const extent: Option<Interval>
    var brushing: bool
    var domain: Option<Interval>

    function Current(): State
      reads this
    {
      State(brushing, domain)
    }

    /** `let brushing = false` and `d3.scaleTime().domain(xExtent)`; the slide
        passes `XExtent` of the loaded series. */
    constructor (extent: Option<Interval>)
      ensures this.extent == extent
      ensures Current() == Initial(extent)
    {
      this.extent := extent;
      brushing := false;
      domain := extent;
    }

    /** The toggle button's click handler: attach the brush when disarmed,
        remove it when armed. */
    method Toggle()
      modifies this
      ensures Current() == Step(extent, old(Current()), ToggleClick)
    {
      if !brushing {
        brushing := true;
      } else {
        brushing := false;
      }
    }

    /** The brush's "end" handler: nothing without a selection; otherwise the
        domain becomes the selection and the brush is removed. */
    method OnBrushEnd(selection: Option<Interval>)
      modifies this
      ensures Current() == Step(extent, old(Current()), BrushEnd(selection))
    {
      if selection.None? {
        return;
      }
      domain := selection;
      brushing := false;
    }

    /** The reset button's click handler. */
    method Reset()
      modifies this
      ensures Current() == Step(extent, old(Current()), ResetClick)
    {
      domain := extent;
    }
  }
}
