/**
 Socket-count resolution, snapshot size validation and the per-socket
 delta rows. A snapshot holds three readings per socket, socket-major,
 in the fixed channel order DRAM, CPU, Package.
 */
module Sockets {
  import opened Wrappers
  import JavaInt
  import opened CounterDelta

  type Snapshot = seq<real>

  const CHANNELS: nat := 3
  const DRAM: nat := 0
  const CPU: nat := 1
  const PACKAGE: nat := 2

  /** Position of channel `c` of socket `s` in a snapshot. */
  function ChannelIndex(s: int, c: int): int {
    CHANNELS * s + c
  }

  /** Every channel of every socket below `n` has a reading in `xs`. */
  predicate AllChannelsInBounds(n: int, xs: Snapshot) {
    forall s, c :: 0 <= s < n && 0 <= c < CHANNELS ==> 0 <= ChannelIndex(s, c) < |xs|
  }

  /** For a positive count, every channel fits exactly when the snapshot holds `3 * n` readings. */
  lemma InBoundsIffLongEnough(n: int, xs: Snapshot)
    requires n > 0
    ensures AllChannelsInBounds(n, xs) <==> CHANNELS * n <= |xs|
  {
    if AllChannelsInBounds(n, xs) {
      assert 0 <= ChannelIndex(n - 1, PACKAGE) < |xs|;
    }
  }

  /**
   The socket count the report uses: the reader's hint when positive,
   otherwise the number of whole socket triples in the `before` snapshot.
   */
  function ResolveSocketCount(hint: int, beforeLength: nat): (n: int)
    ensures hint > 0 ==> n == hint
    ensures hint <= 0 ==> n >= 0 && CHANNELS * n <= beforeLength < CHANNELS * n + CHANNELS
  {
    if hint <= 0 then beforeLength / CHANNELS else hint
  }

  /**
   The size check guarding the report: `Some(n)` with the resolved socket
   count when it is positive and both snapshots hold all of its channels,
   `None` (skip the whole report) otherwise.
   */
  function CheckSizes(hint: int, before: Snapshot, after: Snapshot): (r: Option<nat>)
    ensures r.Some? <==>
              var n := ResolveSocketCount(hint, |before|);
              n > 0 && AllChannelsInBounds(n, before) && AllChannelsInBounds(n, after)
    ensures r.Some? ==> r.value == ResolveSocketCount(hint, |before|)
    ensures r.Some? ==> CHANNELS * r.value <= |before| && CHANNELS * r.value <= |after|
  {
    var n := ResolveSocketCount(hint, |before|);
    if n <= 0 then None
    else
      InBoundsIffLongEnough(n, before);
      InBoundsIffLongEnough(n, after);
      if |before| < CHANNELS * n || |after| < CHANNELS * n then None else Some(n)
  }

  /**
   With no usable hint the inferred count always fits the `before`
   snapshot, so the report is skipped only when `before` holds no whole
   socket or `after` is shorter than the triples of `before`.
   */
  lemma InferredCountFitsBefore(hint: int, before: Snapshot, after: Snapshot)
    requires hint <= 0
    ensures CheckSizes(hint, before, after).Some? <==>
              |before| >= CHANNELS && |after| >= CHANNELS * (|before| / CHANNELS)
  {
  }

  /** Two declared sockets and a snapshot shorter than six readings: the report is skipped. */
  lemma TwoSocketsNeedSixReadings(before: Snapshot, after: Snapshot)
    requires |before| < 6 || |after| < 6
    ensures CheckSizes(2, before, after).None?
  {
  }

  /**
   The size check exactly as the Java source computes it: `3 * socketNum`
   is a Java `int` product and wraps for large hints.
   */
  function CheckSizesAsWritten(hint: int, before: Snapshot, after: Snapshot): (r: Option<int>)
    requires JavaInt.IsInt(hint)
    requires JavaInt.IsInt(|before|)  // a Java array length
    ensures r.Some? ==> r.value == ResolveSocketCount(hint, |before|) && r.value > 0
  {
    var n := ResolveSocketCount(hint, |before|);
    assert JavaInt.IsInt(n) by {
      if hint <= 0 {
        assert n <= |before| / CHANNELS;
      }
    }
    var needed := JavaInt.Mul(3, n);
    if n <= 0 || |before| < needed || |after| < needed then None else Some(n)
  }

  /** For hints whose tripled value fits in a Java `int`, the source's check is the intended one. */
  lemma AsWrittenAgreesWithoutOverflow(hint: int, before: Snapshot, after: Snapshot)
    requires JavaInt.IsInt(hint) && (hint <= 0 || JavaInt.IsInt(3 * hint))
    requires JavaInt.IsInt(|before|)
    ensures CheckSizesAsWritten(hint, before, after) == CheckSizes(hint, before, after)
  {
  }

  /**
   A hint of 715827883 sockets with three-reading snapshots passes the
   source's check, because 3 * 715827883 wraps to -2147483647, although the
   loop would read channel indices far past the end of the snapshots.
   */
  lemma AsWrittenAcceptsOversizedHint()
    ensures var b := [10.0, 5.0, 20.0];
            && CheckSizesAsWritten(715827883, b, b) == Some(715827883)
            && !AllChannelsInBounds(715827883, b)
            && CheckSizes(715827883, b, b).None?
  {
    var b := [10.0, 5.0, 20.0];
    assert JavaInt.Mul(3, 715827883) == -2147483647;
    assert ChannelIndex(1, DRAM) == 3;
  }

  /**
   Whether an overflowing hint slips through depends on where the product
   wraps: to 2 it passes for 2-reading snapshots, which hold no whole triple;
   to 2147483645 it exceeds every snapshot here and the report is skipped.
   */
  lemma AsWrittenWrapDecides()
    ensures var b := [10.0, 5.0];
            && CheckSizesAsWritten(1431655766, b, b) == Some(1431655766)
            && !AllChannelsInBounds(1431655766, b)
    ensures var b := [10.0, 5.0, 20.0];
            CheckSizesAsWritten(2147483647, b, b).None?
  {
    assert JavaInt.Mul(3, 1431655766) == 2;
    assert ChannelIndex(0, PACKAGE) == 2;
    assert JavaInt.Mul(3, 2147483647) == 2147483645;
  }

  /** The three channel deltas of one socket. */
  datatype SocketDelta = SocketDelta(socket: nat, dram: real, cpu: real, package: real)

  /** The delta of channel `c` of socket `s`. */
  function ChannelDelta(before: Snapshot, after: Snapshot, s: nat, c: nat, wrap: real): real
    requires c < CHANNELS
    requires ChannelIndex(s, c) < |before| && ChannelIndex(s, c) < |after|
  {
    DeltaWithWraparound(after[ChannelIndex(s, c)], before[ChannelIndex(s, c)], wrap)
  }

  /** The row for socket `s`: its DRAM, CPU and Package deltas. */
  function SocketDeltaAt(before: Snapshot, after: Snapshot, s: nat, wrap: real): SocketDelta
    requires ChannelIndex(s, PACKAGE) < |before| && ChannelIndex(s, PACKAGE) < |after|
  {
    SocketDelta(s,
                ChannelDelta(before, after, s, DRAM, wrap),
                ChannelDelta(before, after, s, CPU, wrap),
                ChannelDelta(before, after, s, PACKAGE, wrap))
  }

  /**
   The per-socket loop of the report: one row per socket, in socket order
   0..n-1; row `s` is computed from the readings at positions 3s, 3s+1 and
   3s+2 of each snapshot only.
   */
  function SocketDeltas(before: Snapshot, after: Snapshot, n: nat, wrap: real): (rows: seq<SocketDelta>)
    requires CHANNELS * n <= |before| && CHANNELS * n <= |after|
    ensures |rows| == n
    ensures forall s :: 0 <= s < n ==> rows[s].socket == s
    ensures forall s :: 0 <= s < n ==>
              && rows[s].dram == DeltaWithWraparound(after[ChannelIndex(s, DRAM)], before[ChannelIndex(s, DRAM)], wrap)
              && rows[s].cpu == DeltaWithWraparound(after[ChannelIndex(s, CPU)], before[ChannelIndex(s, CPU)], wrap)
              && rows[s].package == DeltaWithWraparound(after[ChannelIndex(s, PACKAGE)], before[ChannelIndex(s, PACKAGE)], wrap)
    decreases n
  {
    if n == 0 then []
    else SocketDeltas(before, after, n - 1, wrap) + [SocketDeltaAt(before, after, n - 1, wrap)]
  }

  /** Readings past the first `3 * n` of either snapshot never influence the rows. */
  lemma SocketDeltasIgnoreTail(before: Snapshot, after: Snapshot, n: nat, wrap: real)
    requires CHANNELS * n <= |before| && CHANNELS * n <= |after|
    ensures SocketDeltas(before, after, n, wrap)
            == SocketDeltas(before[..CHANNELS * n], after[..CHANNELS * n], n, wrap)
  {
    var rows := SocketDeltas(before, after, n, wrap);
    var rows' := SocketDeltas(before[..CHANNELS * n], after[..CHANNELS * n], n, wrap);
    forall s | 0 <= s < n
      ensures rows[s] == rows'[s]
    {
    }
  }

  /** With no rollover on any channel each row is the plain difference of the readings. */
  lemma NoRolloverIsPlainDifference(before: Snapshot, after: Snapshot, n: nat, wrap: real, s: nat)
    requires CHANNELS * n <= |before| && CHANNELS * n <= |after|
    requires forall i :: 0 <= i < |before| && i < |after| ==> before[i] <= after[i]
    requires s < n
    ensures var row := SocketDeltas(before, after, n, wrap)[s];
            && row.dram == after[ChannelIndex(s, DRAM)] - before[ChannelIndex(s, DRAM)]
            && row.cpu == after[ChannelIndex(s, CPU)] - before[ChannelIndex(s, CPU)]
            && row.package == after[ChannelIndex(s, PACKAGE)] - before[ChannelIndex(s, PACKAGE)]
  {
  }
}
