/**
 The energy consumed between two readings of a fixed-width hardware energy
 counter that may have rolled over once between the reads.
 */
module CounterDelta {

  /**
   The reading a counter of range `wrap` shows after it started at `reading`
   and advanced by `amount` (less than one full range): it rolls over to
   zero once it reaches `wrap`.
   */
  function Advance(reading: real, amount: real, wrap: real): real {
    if reading + amount < wrap then reading + amount else reading + amount - wrap
  }

  /**
   The amount the counter advanced from `before` to `after`, assuming at
   most one wraparound: a negative raw difference means the counter rolled
   over, and the counter's full range `wrap` is added back.
   */
  function DeltaWithWraparound(after: real, before: real, wrap: real): (d: real)
    // no rollover: the plain difference, exactly
    ensures after - before >= 0.0 ==> d == after - before
    // rollover: the counter passed its maximum once on its way to `after`
    ensures after - before < 0.0 ==> before + d == after + wrap
    ensures after - before < 0.0 && wrap >= before - after ==> d >= 0.0
    // for readings inside the counter's range, d is how far it advanced
    ensures 0.0 <= before < wrap && 0.0 <= after < wrap ==>
              0.0 <= d < wrap && Advance(before, d, wrap) == after
  {
    var d := after - before;
    if d < 0.0 then d + wrap else d
  }

  /** Advancing the counter by any amount below its range and reading the delta back recovers that amount. */
  lemma DeltaUndoesAdvance(before: real, amount: real, wrap: real)
    requires 0.0 <= before < wrap
    requires 0.0 <= amount < wrap
    ensures 0.0 <= Advance(before, amount, wrap) < wrap
    ensures DeltaWithWraparound(Advance(before, amount, wrap), before, wrap) == amount
  {
  }

  /** An example: 250 J before, 5 J after and a counter range of 262 J give 17 J. */
  lemma WraparoundExample()
    ensures DeltaWithWraparound(5.0, 250.0, 262.0) == 17.0
  {
  }
}
