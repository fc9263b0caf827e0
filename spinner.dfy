/**
 * The status-bar spinner: a field `interval` that every `spin` advances by
 * one, modulo the number of frames, before returning the frame it now
 * points at.
 */
module Spinner {

  /** The ten braille frames, in order. */
  const Frames: seq<char> := ['⠋', '⠙', '⠹', '⠸', '⠼', '⠴', '⠦', '⠧', '⠇', '⠏']

  /** The frame shown after n spins of a new spinner. */
  function FrameAfter(n: nat): (c: char)
  {
    Frames[n % |Frames|]
  }

  class Spinner {
    var interval: nat
    /** How many times `spin` has been called. */
    ghost var spins: nat

    ghost predicate Valid()
      reads this
    {
      interval == spins % |Frames|
    }

    constructor ()
      ensures Valid() && interval == 0 && spins == 0
    {
      interval := 0;
      spins := 0;
    }

    /** `this.interval = ++this.interval % this.frames.length`, then that frame. */
    method Spin() returns (frame: char)
      requires Valid()
      modifies this
      ensures Valid() && interval < |Frames|
      ensures interval == (old(interval) + 1) % |Frames|
      ensures frame == Frames[interval]
      ensures spins == old(spins) + 1 && frame == FrameAfter(spins)
    {
      SpinStep(spins);
      interval := (interval + 1) % |Frames|;
      spins := spins + 1;
      frame := Frames[interval];
    }
  }

  /** One more spin from the position reached after n spins lands on the frame shown after n + 1 spins. */
  lemma SpinStep(n: nat)
    ensures (n % |Frames| + 1) % |Frames| == (n + 1) % |Frames|
    ensures Frames[(n % |Frames| + 1) % |Frames|] == FrameAfter(n + 1)
  {
    StepMod(n, 1);
  }

  /** Stepping k times from a position taken modulo 10 is stepping from the position itself. */
  lemma {:induction false} StepMod(start: nat, k: nat)
    ensures (start % |Frames| + k) % |Frames| == (start + k) % |Frames|
  {
    var q := start / |Frames|;
    assert start == q * |Frames| + start % |Frames|;
    assert start + k == q * |Frames| + (start % |Frames| + k);
    ModMultiple(q, start % |Frames| + k);
  }

  lemma {:induction false} ModMultiple(q: nat, r: nat)
    ensures (q * |Frames| + r) % |Frames| == r % |Frames|
    decreases q
  {
    if q > 0 {
      ModMultiple(q - 1, r);
      assert q * |Frames| + r == (q - 1) * |Frames| + r + |Frames|;
    }
  }

  /** A new spinner's first spin shows frames[1], not frames[0]. */
  lemma FirstSpin()
    ensures FrameAfter(1) == '⠙' && FrameAfter(1) != Frames[0]
  {
  }

  /** The frames repeat with period ten... */
  lemma Periodic(n: nat)
    ensures FrameAfter(n + |Frames|) == FrameAfter(n)
  {
    ModMultiple(1, n);
  }

  /** ...and with no shorter period. */
  lemma ExactPeriod(n: nat, p: nat)
    requires 0 < p < |Frames|
    ensures FrameAfter(n + p) != FrameAfter(n)
  {
    StepMod(n, p);
    DistinctFrames();
    assert (n + p) % |Frames| != n % |Frames|;
  }

  /** No frame appears twice. */
  lemma DistinctFrames()
    ensures forall i, j :: 0 <= i < j < |Frames| ==> Frames[i] != Frames[j]
  {
  }
}
