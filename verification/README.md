# Game of Life on a 5×5 LED matrix: control core

This project models the control logic of a micro:bit program that runs a
cellular automaton on the 5×5 LED matrix. Button A reseeds the grid from a
pseudo-random generator. Button B photo-negates the grid, gated by a small
cooldown value `Ignore`. Each display frame then advances the automaton by
one generation.

The model has three modules:

- `Board` (board.dfy): the grid `[[u8; 5]; 5]` as an `array2<u8>`, its value
  `Grid`, and the in-place operations `randomize_board` (`RandomizeBoard`) and
  `invert_board` (`InvertBoard`). Each method is a pair of nested `for` loops,
  as in the source. `InvertBoard` is proved against `Inverted` of the old
  grid and `RandomizeBoard` against `Randomized` of the random stream. The generator is the class `Rng`. It is seen
  only through the booleans it hands out: `draws` is its output stream and
  `pos` is how many draws have been made.
- `Cooldown` (cooldown.dfy): the `Copy` enum `Ignore` with `Flip` and
  `WaitOne`, as pure functions. `WAIT_TIME` is 5 and the counter is a `u16`.
- `Control` (control.dfy): one iteration of the frame loop, up to the display
  call. `Step` gives it as a value and `Frame` runs it on the array and the
  generator. `Run` strings iterations together, applying the automaton's
  update `life` after each one. `life` is a parameter of `Run`.

Two behaviours of the loop are stated as lemmas:

- `Ignore::flip` and the `Block` arm (src/main.rs:112-115) exist, but no arm
  ever enters a hold. A press of B in `Accept` negates the grid and leaves the
  state alone (src/main.rs:110). The state starts as `Accept`
  (src/main.rs:102), so it never reaches `Block`, and holding B negates the
  grid on every frame. `AcceptIsForever`, `HeldBInvertsEveryFrame` and
  `FromStartNeverBlocks` state this. `HoldReleasesAfterCountdown` shows what
  the `Block` arm would do if a hold were ever entered.
- An empty grid is only reported: the loop prints "Empty" and does nothing
  else (src/main.rs:119-121). `Step` states that the grid and state a frame
  ends with are exactly what the two button steps leave.
  `EmptyCheckOnlyLogs` states that an empty grid with no button pressed stays
  empty and no draws are made.

## Model

| member | source | states |
|---|---|---|
| `Board.Inverted` | src/main.rs:46-52 | every cell that was 1 becomes 0 and every other cell becomes 1; the result is all 0/1; each cell depends only on its own old value |
| `Board.InvertedTwice` | src/main.rs:46-52 | negating twice gives back the grid exactly when every cell is 0 or 1, in both directions |
| `Board.InvertBoard` | src/main.rs:46-52 | the array afterwards holds the negative of its old contents |
| `Board.Randomized` | src/main.rs:34-44 | cell (row, col) is 1 exactly when draw `pos + 5*row + col` is true, and 0 otherwise |
| `Board.RandomizeBoard` | src/main.rs:34-44 | the array is overwritten from the next 25 draws in row-major order, whatever it held; the generator advances by exactly 25 |
| `Board.Rng.Generate` | src/main.rs:37 | `rng.generate()` returns the next value of the stream and consumes exactly one |
| `Cooldown.Flip` | src/main.rs:61-66 | `Accept` becomes a hold of `WAIT_TIME`; any hold becomes `Accept` |
| `Cooldown.WaitOne` | src/main.rs:68-73 | `Accept` is unchanged; a hold of n > 0 becomes n - 1; a hold of 0 stays 0, so the `u16` never underflows |
| `Cooldown.FlipRoundTrip` | src/main.rs:61-66 | `Flip(Accept) == Block(5)`, `Flip(Block(n)) == Accept` for every n, `Flip(Flip(Accept)) == Accept` |
| `Cooldown.WaitManyCountsDown` | src/main.rs:68-73 | k ticks of `Block(n)` give `Block(max(n - k, 0))` |
| `Cooldown.WaitManyKeepsAccept` | src/main.rs:68-73 | any number of ticks leaves `Accept` unchanged |
| `Cooldown.HoldRunsOut` | src/main.rs:25 | a fresh hold reaches 0 after exactly `WAIT_TIME` ticks, is at 1 one tick before, and stays at 0 after |
| `Control.HandleButtonB` | src/main.rs:108-117 | the grid is negated exactly when B is pressed and the state is `Accept`; `Accept` is never changed; `Block(0)` becomes `Accept` and `Block(n)` becomes `Block(n - 1)` whatever the button level |
| `Control.IsEmpty` | src/main.rs:119 | the grid equals `EMPTY` exactly when every cell is 0 |
| `Control.Start` | src/main.rs:92-102 | the loop starts in `Accept` with no draws made, on a lit 0/1 grid (the glider) |
| `Control.Step` | src/main.rs:105-121 | one frame: A costs exactly 25 draws and nothing is drawn without it; the grid the frame ends with is the fresh draws (with A) or the old grid (without), negated exactly when B is pressed in `Accept`; `Accept` stays `Accept`, `Block(0)` becomes `Accept` and `Block(n)` becomes `Block(n - 1)` whatever B's level; "Empty" is logged exactly when the final grid is all dark |
| `Control.StepOrder` | src/main.rs:108-117 | the state a frame ends with is the one the button-B match leaves, and depends only on B and the old state, not on the grid, the stream or A |
| `Control.Run` | src/main.rs:104-126 | a run of frames, each a Step followed by `life`, consumes exactly 25 draws per press of A and negates at most once per press of B |
| `Control.BothButtonsNegateDraws` | src/main.rs:105-110 | with both buttons pressed in `Accept`, cell (row, col) ends up lit exactly when its fresh draw was false |
| `Control.EmptyCheckOnlyLogs` | src/main.rs:119-121 | "Empty" is logged exactly when the grid is `EMPTY`; the check draws nothing; an empty grid with no button pressed stays empty |
| `Control.InversionsCountPresses` | src/main.rs:108-117 | from `Accept`, the number of frames that negate the grid equals the number of frames in which B is pressed |
| `Control.AcceptIsForever` | src/main.rs:109-117 | from `Accept`, the state is `Accept` after any number of frames |
| `Control.HeldBInvertsEveryFrame` | src/main.rs:109-117 | B held for k frames from `Accept` negates the grid k times |
| `Control.FromStartNeverBlocks` | src/main.rs:102-117 | from the initial locals (glider, `Accept`), the state never leaves `Accept`, and B held for k frames negates k times |
| `Control.HoldReleasesAfterCountdown` | src/main.rs:112-115 | a hold of n absorbs B for n + 1 frames, negating nothing, and then returns to `Accept` |
| `Control.Frame` | src/main.rs:105-121 | one iteration on the array and the generator ends in exactly the state, grid, stream position and log flag that `Step` gives |

## Left out

- `life` (src/life.rs) is not part of this model. `Run` takes it as a parameter `life: Grid -> Grid`, and no property depends on what it does.
- `display.show(&mut timer, leds, FRAME)` and the constant `FRAME` are left out. They drive the LED multiplexing and pace the frames.
- The `Pcg64` generator and its seed `1` (src/main.rs:84) are not modelled. The generator is an arbitrary boolean stream `draws`, so every property holds for any stream.
- `Board::take().unwrap()`, `Timer::new` and `Display::new` are left out, and so is the panic when a pin read fails. Button levels are inputs (`Buttons`).
- `rprintln!` output is modelled only as the `loggedEmpty` flag of a frame.
- The loop never ends. `Run` covers any finite prefix of frames, not the infinite execution.
- `Control.Frame` takes the state as a parameter and returns the next one. The source reassigns a local instead. The grid and the generator are updated in place.
