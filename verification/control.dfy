/**
 * One iteration of the frame loop in `main` (src/main.rs:104-121): button A
 * reseeds the grid, button B with the `Ignore` state decides whether to
 * photo-negate it, and an empty grid is only reported. `Step` is the value
 * of one iteration, `Frame` the same iteration on the array and the
 * generator, and `Run` strings iterations together with the automaton's
 * update `life`, which this model takes as a parameter.
 */
module Control {
  import opened Board
  import opened Cooldown

  /** Levels of the two buttons in one frame; true is pressed (`is_low()`). */
  datatype Buttons = Buttons(a: bool, b: bool)

  /** The loop's locals: `state`, `leds`, and the number of random draws made so far. */
  datatype Locals = Locals(state: Ignore, leds: Grid, pos: nat)

  /** What the button-B match leaves, and whether it negated the grid. */
  datatype BOutcome = BOutcome(state: Ignore, leds: Grid, inverted: bool)

  /** One frame's outcome: the new locals, whether B negated, whether "Empty" was logged. */
  datatype FrameOut = FrameOut(next: Locals, inverted: bool, loggedEmpty: bool)

  /**
   * The loop's locals before the first iteration: a lit 0/1 pattern (the
   * glider), the cooldown accepting presses, and no draws made yet.
   */
  function Start(): (s: Locals)
    ensures s.state == Accept && s.pos == 0
    ensures IsBinary(s.leds) && !IsEmpty(s.leds)
  {
    assert GLIDER[1][2] == 1;
    Locals(Accept, GLIDER, 0)
  }

  /**
   * The button-B match. Only a press met in `Accept` negates the grid, and it
   * leaves the state as it is; a hold is released when its count is 0 and
   * counted down otherwise, whatever the button level.
   */
  function HandleButtonB(pressed: bool, state: Ignore, leds: Grid): (r: BOutcome)
    ensures r.inverted <==> pressed && state.Accept?
    ensures r.leds == (if r.inverted then Inverted(leds) else leds)
    ensures state.Accept? ==> r.state == Accept
    ensures state.Block? ==> r.state == (if state.ticks == 0 then Accept else Block(state.ticks - 1))
  {
    match state
    case Accept =>
      if pressed then BOutcome(state, Inverted(leds), true)
      else BOutcome(state, leds, false)
    case Block(ticks) =>
      if ticks == 0 then BOutcome(Flip(state), leds, false)
      else BOutcome(WaitOne(state), leds, false)
  }

  /** The `leds == EMPTY` test: every cell is dark. */
  function IsEmpty(leds: Grid): (empty: bool)
    ensures empty <==> forall r, c | 0 <= r < 5 && 0 <= c < 5 :: leds[r][c] == 0
  {
    assert (forall r, c | 0 <= r < 5 && 0 <= c < 5 :: leds[r][c] == 0) ==>
      forall r | 0 <= r < 5 :: leds[r] == EMPTY[r];
    leds == EMPTY
  }

  /**
   * One iteration of the loop body, up to the display call. Button A costs
   * exactly 25 draws and replaces the grid before B is looked at, so B
   * negates the fresh draws; B negates only in `Accept`, which it never
   * leaves, and a hold is released or counted down whatever B's level.
   * "Empty" is logged exactly when the grid the frame ends with is all dark.
   */
  function Step(draws: nat -> bool, s: Locals, buttons: Buttons): (r: FrameOut)
    ensures r.next.pos == s.pos + (if buttons.a then 25 else 0)
    ensures r.inverted <==> buttons.b && s.state.Accept?
    ensures var seen := if buttons.a then Randomized(draws, s.pos) else s.leds;
            r.next.leds == (if r.inverted then Inverted(seen) else seen)
    ensures s.state.Accept? ==> r.next.state == Accept
    ensures s.state.Block? ==>
            r.next.state == (if s.state.ticks == 0 then Accept else Block(s.state.ticks - 1))
    ensures r.loggedEmpty <==> forall row, col | 0 <= row < 5 && 0 <= col < 5 :: r.next.leds[row][col] == 0
  {
    var afterA := if buttons.a then s.(leds := Randomized(draws, s.pos), pos := s.pos + 25) else s;
    var b := HandleButtonB(buttons.b, afterA.state, afterA.leds);
    var next := afterA.(state := b.state, leds := b.leds);
    FrameOut(next, b.inverted, IsEmpty(next.leds))
  }

  /**
   * The state a frame ends with is the one the button-B match leaves, and
   * depends on B and the old state only, never on the grid, the stream or A.
   */
  lemma StepOrder(draws: nat -> bool, s: Locals, buttons: Buttons,
                  draws': nat -> bool, s': Locals, a': bool)
    requires s'.state == s.state
    ensures Step(draws, s, buttons).next.state == HandleButtonB(buttons.b, s.state, s.leds).state
    ensures Step(draws, s, buttons).next.state == Step(draws', s', Buttons(a', buttons.b)).next.state
  {
  }

  /** Pressing both buttons while accepting shows the negative of the fresh draws. */
  lemma BothButtonsNegateDraws(draws: nat -> bool, s: Locals)
    requires s.state == Accept
    ensures var g := Step(draws, s, Buttons(true, true)).next.leds;
            forall r, c | 0 <= r < 5 && 0 <= c < 5 :: (g[r][c] == 1 <==> !draws(s.pos + 5 * r + c))
  {
  }

  /**
   * The empty check only reports: it draws nothing and leaves the grid and
   * the state as the button steps left them, so an empty grid with neither
   * button pressed stays empty.
   */
  lemma EmptyCheckOnlyLogs(draws: nat -> bool, s: Locals, buttons: Buttons)
    ensures var out := Step(draws, s, buttons);
            && (out.loggedEmpty <==> out.next.leds == EMPTY)
            && (!buttons.a ==> out.next.pos == s.pos)
    ensures s.leds == EMPTY && !buttons.a && !buttons.b ==>
            Step(draws, s, buttons) == FrameOut(s.(state := HandleButtonB(false, s.state, EMPTY).state), false, true)
  {
  }

  /** The summary of a run of frames: the final locals and how many frames negated the grid. */
  datatype RunOut = RunOut(last: Locals, inversions: nat)

  /**
   * The loop over a finite sequence of button readings: each frame is a
   * Step followed by the automaton update `life`. A run consumes 25 draws per
   * press of A and no others, and negates at most once per press of B.
   */
  function Run(draws: nat -> bool, life: Grid -> Grid, s: Locals, frames: seq<Buttons>): (r: RunOut)
    ensures r.last.pos == s.pos + 25 * Reseeds(frames)
    ensures r.inversions <= Presses(frames)
    decreases |frames|
  {
    if frames == [] then RunOut(s, 0)
    else
      var out := Step(draws, s, frames[0]);
      var rest := Run(draws, life, out.next.(leds := life(out.next.leds)), frames[1..]);
      RunOut(rest.last, rest.inversions + if out.inverted then 1 else 0)
  }

  /** From `Accept` the state never changes: no frame ever enters a hold. */
  lemma {:induction false} AcceptIsForever(draws: nat -> bool, life: Grid -> Grid, s: Locals, frames: seq<Buttons>)
    requires s.state == Accept
    ensures Run(draws, life, s, frames).last.state == Accept
    decreases |frames|
  {
    if frames != [] {
      var out := Step(draws, s, frames[0]);
      AcceptIsForever(draws, life, out.next.(leds := life(out.next.leds)), frames[1..]);
    }
  }

  /** The number of frames in which B is pressed. */
  function Presses(frames: seq<Buttons>): (n: nat)
    ensures n <= |frames|
    ensures n == |frames| <==> forall i | 0 <= i < |frames| :: frames[i].b
    decreases |frames|
  {
    if frames == [] then 0
    else Presses(frames[1..]) + if frames[0].b then 1 else 0
  }

  /** The number of frames in which A is pressed. */
  function Reseeds(frames: seq<Buttons>): (n: nat)
    ensures n <= |frames|
    decreases |frames|
  {
    if frames == [] then 0
    else Reseeds(frames[1..]) + if frames[0].a then 1 else 0
  }

  /** From `Accept`, each frame negates the grid exactly when B is pressed in it. */
  lemma {:induction false} InversionsCountPresses(draws: nat -> bool, life: Grid -> Grid, s: Locals, frames: seq<Buttons>)
    requires s.state == Accept
    ensures Run(draws, life, s, frames).inversions == Presses(frames)
    decreases |frames|
  {
    if frames != [] {
      var out := Step(draws, s, frames[0]);
      InversionsCountPresses(draws, life, out.next.(leds := life(out.next.leds)), frames[1..]);
    }
  }

  /** B held for `k` frames from `Accept` negates the grid `k` times. */
  lemma HeldBInvertsEveryFrame(draws: nat -> bool, life: Grid -> Grid, s: Locals, frames: seq<Buttons>)
    requires s.state == Accept
    requires forall i | 0 <= i < |frames| :: frames[i].b
    ensures Run(draws, life, s, frames).inversions == |frames|
    ensures Run(draws, life, s, frames).last.state == Accept
  {
    InversionsCountPresses(draws, life, s, frames);
    AcceptIsForever(draws, life, s, frames);
  }

  /**
   * From the loop's initial locals the state is `Accept` after any number of
   * frames, so holding B negates the grid on every frame.
   */
  lemma FromStartNeverBlocks(draws: nat -> bool, life: Grid -> Grid, frames: seq<Buttons>)
    ensures Run(draws, life, Start(), frames).last.state == Accept
    ensures (forall i | 0 <= i < |frames| :: frames[i].b) ==>
            Run(draws, life, Start(), frames).inversions == |frames|
  {
    AcceptIsForever(draws, life, Start(), frames);
    if forall i | 0 <= i < |frames| :: frames[i].b {
      HeldBInvertsEveryFrame(draws, life, Start(), frames);
    }
  }

  /**
   * A hold of `n` frames, were one ever entered, would absorb B for `n + 1`
   * frames and then return to `Accept`.
   */
  lemma {:induction false} HoldReleasesAfterCountdown(draws: nat -> bool, life: Grid -> Grid, s: Locals, frames: seq<Buttons>)
    requires s.state.Block?
    requires |frames| == s.state.ticks as int + 1
    ensures Run(draws, life, s, frames).last.state == Accept
    ensures Run(draws, life, s, frames).inversions == 0
    decreases |frames|
  {
    var out := Step(draws, s, frames[0]);
    var s' := out.next.(leds := life(out.next.leds));
    if s.state.ticks > 0 {
      HoldReleasesAfterCountdown(draws, life, s', frames[1..]);
    }
  }

  /**
   * One iteration of the loop on the real grid and generator: `state` is the
   * state before the frame, `next` the one after it.
   */
  method Frame(rng: Rng, buttons: Buttons, state: Ignore, leds: array2<u8>) returns (next: Ignore, loggedEmpty: bool)
    requires leds.Length0 == 5 && leds.Length1 == 5
    modifies rng, leds
    ensures var out := Step(rng.draws, Locals(state, old(Cells(leds)), old(rng.pos)), buttons);
            && next == out.next.state
            && Cells(leds) == out.next.leds
            && rng.pos == out.next.pos
            && loggedEmpty == out.loggedEmpty
  {
    if buttons.a {
      RandomizeBoard(rng, leds);
    }
    next := state;
    match state {
      case Accept =>
        if buttons.b {
          InvertBoard(leds);
        }
      case Block(ticks) =>
        if ticks == 0 {
          next := Flip(state);
        } else {
          next := WaitOne(state);
        }
    }
    loggedEmpty := Cells(leds) == EMPTY;
  }
}
