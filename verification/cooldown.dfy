/**
 * The `Ignore` cooldown of the button-B handler (src/main.rs:54-74): a
 * `Copy` enum whose two methods return a new value, modelled as a datatype
 * and two pure functions.
 */
module Cooldown {

  /** Rust's `u16`: the width of the hold counter. */
  newtype u16 = x: int | 0 <= x < 0x1_0000

  /** Length, in frames, of the hold that `Flip` enters. */
  const WAIT_TIME: u16 := 5

  /** `Accept` takes button presses; `Block(ticks)` holds them off. */
  datatype Ignore = Accept | Block(ticks: u16)

  /** Rust's `u16::max`. */
  function MaxU16(a: u16, b: u16): u16
  {
    if a < b then b else a
  }

  /** Enters a hold of WAIT_TIME frames, or releases any hold at once. */
  function Flip(s: Ignore): (r: Ignore)
    ensures r.Accept? <==> s.Block?
    ensures r.Block? ==> r.ticks == WAIT_TIME
  {
    match s
    case Accept => Block(WAIT_TIME)
    case Block(_) => Accept
  }

  /**
   * One tick of countdown, `ticks.max(1) - 1`: the hold shrinks by one and
   * stops at zero, so the `u16` subtraction never wraps.
   */
  function WaitOne(s: Ignore): (r: Ignore)
    ensures r.Accept? <==> s.Accept?
    ensures s.Block? && s.ticks > 0 ==> r.ticks == s.ticks - 1
    ensures s.Block? && s.ticks == 0 ==> r == s
  {
    match s
    case Accept => Accept
    case Block(ticks) => Block(MaxU16(ticks, 1) - 1)
  }

  /** `k` applications of WaitOne. */
  function WaitMany(s: Ignore, k: nat): Ignore
    decreases k
  {
    if k == 0 then s else WaitMany(WaitOne(s), k - 1)
  }

  /** Flip toggles between the two states: into a fresh hold and straight back out. */
  lemma FlipRoundTrip(n: u16)
    ensures Flip(Accept) == Block(5)
    ensures Flip(Block(n)) == Accept
    ensures Flip(Flip(Accept)) == Accept
  {
  }

  /** `k` ticks of a hold of `n` leave a hold of `max(n - k, 0)`. */
  lemma {:induction false} WaitManyCountsDown(n: u16, k: nat)
    ensures WaitMany(Block(n), k) == Block(if k <= n as int then n - k as u16 else 0)
    decreases k
  {
    if k > 0 {
      var m: u16 := if n == 0 then 0 else n - 1;
      assert WaitMany(Block(n), k) == WaitMany(Block(m), k - 1);
      WaitManyCountsDown(m, k - 1);
      if n == 0 {
        assert WaitMany(Block(n), k) == Block(0);
      } else {
        assert m as int - (k - 1) == n as int - k;
      }
    }
  }

  /** Counting down never leaves `Accept`. */
  lemma {:induction false} WaitManyKeepsAccept(k: nat)
    ensures WaitMany(Accept, k) == Accept
    decreases k
  {
    if k > 0 {
      WaitManyKeepsAccept(k - 1);
    }
  }

  /**
   * A fresh hold runs out after exactly WAIT_TIME ticks, and one more tick
   * leaves it at zero.
   */
  lemma HoldRunsOut()
    ensures WaitMany(Flip(Accept), WAIT_TIME as nat) == Block(0)
    ensures WaitMany(Flip(Accept), WAIT_TIME as nat - 1) == Block(1)
    ensures WaitOne(Block(0)) == Block(0)
  {
  }
}
