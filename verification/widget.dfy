/** The whole widget as one state value driven by its events: typing an
    option, pressing a delete button, pressing spin, and an animation frame.
    Each event handler of the page becomes one case of `Handle`. */
module Widget {
  import opened Wrappers
  import opened Registry
  import opened SpinControl
  import Winner
  import Angles

  /** The page's global state: `options` and the spin controller. */
  datatype Widget = Widget(options: seq<string>, spin: SpinState)

  /** What the user or the browser does. `index` is the delete button's
      `data-index`, `random` the draw of `Math.random()`, `now` the frame's
      timestamp. */
  datatype Event =
    | AddOption(input: string)
    | DeleteOption(index: int)
    | ClickSpin(random: real)
    | AnimationFrame(now: real)

  /** What the user sees besides the redrawn wheel: a session starting, or
      the result `alert` at its end (None standing for `undefined`). */
  datatype Output = Quiet | SessionStarted | Announce(winner: Option<string>)

  /** The page just after loading. */
  const Start: Widget := Widget([], Initial)

  /** `Math.random()` only returns values in [0, 1). */
  predicate WellFormed(e: Event)
  {
    e.ClickSpin? ==> 0.0 <= e.random < 1.0
  }

  predicate Inv(w: Widget)
  {
    Valid(w.options) && SpinControl.Inv(w.spin)
  }

  /** One event. Adding and deleting work at any time, also during a spin;
      a spin click is ignored while spinning or with fewer than two options;
      a frame only does something while a session runs, and the frame that
      ends it announces the option under the pointer, found with the
      corrected lookup `Winner.Resolve` rather than the truncating one the
      page uses (`Winner.ResolveAsWritten`). */
  function Handle(w: Widget, e: Event): (r: (Widget, Output))
    requires WellFormed(e)
    ensures Inv(w) ==> Inv(r.0)
    ensures r.1.SessionStarted? <==> e.ClickSpin? && w.spin.phase.Idle? && |w.options| >= 2
    ensures r.1.Announce? <==> w.spin.phase.Spinning? && r.0.spin.phase.Idle?
    ensures r.1.Announce? ==> r.1.winner == Winner.Resolve(r.0.options, r.0.spin.current)
    ensures e.ClickSpin? && w.spin.phase.Spinning? ==> r.0 == w
    ensures w.spin.phase.Spinning? && r.0.spin.phase.Spinning? ==> r.0.spin.target == w.spin.target
    ensures !e.AnimationFrame? ==> r.0.spin.current == w.spin.current
  {
    match e
    case AddOption(input) => (w.(options := Add(w.options, input)), Quiet)
    case DeleteOption(index) => (w.(options := Splice(w.options, index)), Quiet)
    case ClickSpin(random) =>
      var spin := Spin(w.spin, |w.options|, random);
      (w.(spin := spin), if spin == w.spin then Quiet else SessionStarted)
    case AnimationFrame(now) =>
      if w.spin.phase.Idle? then (w, Quiet)
      else
        var spin := Step(w.spin, now);
        var out := if spin.phase.Idle? then Announce(Winner.Resolve(w.options, spin.current)) else Quiet;
        (w.(spin := spin), out)
  }

  predicate AllWellFormed(events: seq<Event>)
  {
    forall i :: 0 <= i < |events| ==> WellFormed(events[i])
  }

  /** The widget after a series of events, with everything it showed. */
  function Run(w: Widget, events: seq<Event>): (Widget, seq<Output>)
    requires AllWellFormed(events)
    decreases |events|
  {
    if events == [] then (w, [])
    else
      var (next, out) := Handle(w, events[0]);
      var (last, outs) := Run(next, events[1..]);
      (last, [out] + outs)
  }

  function CountStarted(outs: seq<Output>): nat
  {
    if outs == [] then 0 else (if outs[0].SessionStarted? then 1 else 0) + CountStarted(outs[1..])
  }

  function CountAnnounced(outs: seq<Output>): nat
  {
    if outs == [] then 0 else (if outs[0].Announce? then 1 else 0) + CountAnnounced(outs[1..])
  }

  /** Whatever the user does, the option list stays free of empty, untrimmed
      and repeated labels, and a running spin never passes its target. */
  lemma {:induction false} RunKeepsInvariant(w: Widget, events: seq<Event>)
    requires Inv(w) && AllWellFormed(events)
    ensures Inv(Run(w, events).0)
    decreases |events|
  {
    if events != [] {
      RunKeepsInvariant(Handle(w, events[0]).0, events[1..]);
    }
  }

  /** In particular every state the page can reach from loading is sound. */
  lemma ReachableStatesValid(events: seq<Event>)
    requires AllWellFormed(events)
    ensures Inv(Run(Start, events).0)
  {
    RunKeepsInvariant(Start, events);
  }

  /** Sessions never overlap and each ends with exactly one announcement:
      the announcements so far, plus one if a session is still running, equal
      the sessions started, plus one if a session was running before. */
  lemma {:induction false} OneAnnouncementPerSession(w: Widget, events: seq<Event>)
    requires AllWellFormed(events)
    ensures var (last, outs) := Run(w, events);
      CountAnnounced(outs) + (if last.spin.phase.Spinning? then 1 else 0)
      == CountStarted(outs) + (if w.spin.phase.Spinning? then 1 else 0)
    decreases |events|
  {
    if events != [] {
      var (next, out) := Handle(w, events[0]);
      OneAnnouncementPerSession(next, events[1..]);
      var (last, outs) := Run(next, events[1..]);
      assert Run(w, events).1 == [out] + outs;
      assert ([out] + outs)[1..] == outs;
    }
  }

  /** The browser's frame timestamps never go back: every frame in `events`
      is no earlier than `last` or than the frames before it. */
  predicate FramesFrom(last: real, events: seq<Event>)
    decreases |events|
  {
    events == [] ||
      var e := events[0];
      && (e.AnimationFrame? ==> last <= e.now)
      && FramesFrom(if e.AnimationFrame? then e.now else last, events[1..])
  }

  /** The wheel has not turned back past its start, and a recorded session
      start is no later than the last frame seen. */
  predicate Forward(w: Widget, last: real)
  {
    && 0.0 <= w.spin.current
    && (w.spin.phase.Spinning? && w.spin.phase.startTime.Some? ==> w.spin.phase.startTime.value <= last)
  }

  /** One event with an in-order timestamp keeps the wheel turned forward. */
  lemma HandleForward(w: Widget, e: Event, last: real)
    requires Inv(w) && WellFormed(e) && Forward(w, last)
    requires e.AnimationFrame? ==> last <= e.now
    ensures Forward(Handle(w, e).0, if e.AnimationFrame? then e.now else last)
  {
  }

  /** With frames arriving in timestamp order, the rotation never becomes
      negative, so every announcement is made at a rotation of at least 0. */
  lemma {:induction false} RotationStaysNonNegative(w: Widget, last: real, events: seq<Event>)
    requires Inv(w) && AllWellFormed(events) && Forward(w, last) && FramesFrom(last, events)
    ensures 0.0 <= Run(w, events).0.spin.current
    decreases |events|
  {
    if events != [] {
      var e := events[0];
      HandleForward(w, e, last);
      RotationStaysNonNegative(Handle(w, e).0, if e.AnimationFrame? then e.now else last, events[1..]);
    }
  }

  /** From page load, with in-order frames, the page as written announces
      `undefined` whenever a spin stops short of a whole number of turns. */
  lemma ReachableRotationNonNegative(first: real, events: seq<Event>)
    requires AllWellFormed(events) && FramesFrom(first, events)
    ensures 0.0 <= Run(Start, events).0.spin.current
    ensures var w := Run(Start, events).0;
      w.options != [] && Winner.JsRemainder(w.spin.current, Angles.TwoPi) != 0.0 ==>
        Winner.ResolveAsWritten(w.options, w.spin.current).None?
  {
    RotationStaysNonNegative(Start, first, events);
  }
}
