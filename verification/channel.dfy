/**
 * The two ends of the covert channel together. The sender pauses after
 * every packet for its bit's delay; the receiver groups the gaps between
 * arrivals. Because the pause after the last packet of a bit is the gap
 * before the first packet of the next one, every group after the first
 * holds one gap of the previous bit and `bit_repeat_len - 1` gaps of its
 * own bit. Under ideal timing (every gap equal to the pause the sender
 * took) the receiver recovers the bitstream exactly when even such a mixed
 * group lands on the right side of the threshold (`Separated`).
 */
module Channel {
  import opened Common
  import opened Bitstream
  import opened Statistics
  import opened Sender
  import opened Receiver

  /** The bits sent back so far, followed by the bits still accumulating. */
  function Flatten(replies: seq<string>): string
  {
    if replies == [] then [] else Flatten(replies[..|replies| - 1]) + replies[|replies| - 1]
  }

  function Decoded(t: Trace): string
  {
    Flatten(t.replies) + t.state.resultingStream
  }

  /** Ideal timing: the gap before every packet after the first is the pause the sender took after the previous one. */
  predicate Paced(arrivals: seq<real>, sends: seq<Send>)
  {
    |arrivals| == |sends| && forall k :: 0 < k < |arrivals| ==> Gap(arrivals, k) == sends[k - 1].pause
  }

  /** The time between arrival k - 1 and arrival k. */
  function Gap(arrivals: seq<real>, k: nat): real
    requires 0 < k < |arrivals|
  {
    arrivals[k] - arrivals[k - 1]
  }

  /**
   * The delays are far enough apart for the decoder: a pure group of either
   * bit, and a group with one gap of the other bit, both decode correctly.
   */
  predicate Separated(threshold: real, zeroBitDelay: real, oneBitDelay: real, bitRepeatLen: int)
  {
    && bitRepeatLen >= 2
    && zeroBitDelay < threshold <= oneBitDelay
    && oneBitDelay + (bitRepeatLen - 1) as real * zeroBitDelay < bitRepeatLen as real * threshold
    && zeroBitDelay + (bitRepeatLen - 1) as real * oneBitDelay >= bitRepeatLen as real * threshold
  }

  function Repeated(x: real, m: nat): (r: seq<real>)
    ensures |r| == m && forall i :: 0 <= i < m ==> r[i] == x
  {
    if m == 0 then [] else [x] + Repeated(x, m - 1)
  }

  lemma {:induction false} SumRepeated(x: real, m: nat)
    ensures Sum(Repeated(x, m)) == m as real * x
  {
    if m > 0 {
      SumRepeated(x, m - 1);
    }
  }

  lemma DivBelow(x: real, n: real, t: real)
    requires n > 0.0
    ensures x / n < t <==> x < n * t
  {
    assert x == (x / n) * n;
  }

  /** r equal gaps of delay x sum below r times the threshold exactly when x is below it. */
  lemma UniformBelow(x: real, threshold: real, r: int)
    requires r >= 1
    ensures x + (r - 1) as real * x < r as real * threshold <==> x < threshold
  {
    assert x + (r - 1) as real * x == r as real * x;
    if x < threshold {
      assert r as real * x < r as real * threshold;
    } else {
      assert r as real * x >= r as real * threshold;
    }
  }

  /** The mean of m gaps of delay x is below the threshold exactly for the zero delay. */
  lemma PureSide(x: real, threshold: real, zeroBitDelay: real, oneBitDelay: real, m: int)
    requires Separated(threshold, zeroBitDelay, oneBitDelay, m + 1) && (x == zeroBitDelay || x == oneBitDelay)
    ensures (m as real * x) / m as real < threshold <==> x == zeroBitDelay
  {
    assert (m as real * x) / m as real == x;
  }

  /** The mean of one gap a and r - 1 gaps of delay x is below the threshold exactly for the zero delay x. */
  lemma MixedSide(a: real, x: real, threshold: real, zeroBitDelay: real, oneBitDelay: real, r: int)
    requires Separated(threshold, zeroBitDelay, oneBitDelay, r)
    requires (a == zeroBitDelay || a == oneBitDelay) && (x == zeroBitDelay || x == oneBitDelay)
    ensures (a + (r - 1) as real * x) / r as real < threshold <==> x == zeroBitDelay
  {
    DivBelow(a + (r - 1) as real * x, r as real, threshold);
    if a == x {
      UniformBelow(x, threshold, r);
    }
  }

  lemma SumMixed(a: real, x: real, m: nat)
    ensures Sum([a] + Repeated(x, m)) == a + m as real * x
  {
    SumRepeated(x, m);
    assert ([a] + Repeated(x, m))[1..] == Repeated(x, m);
  }

  /** The first group: `bit_repeat_len - 1` gaps of the first bit. */
  lemma PureGroupBit(c: Config, zeroBitDelay: real, oneBitDelay: real, bit: char)
    requires Separated(IpdThreshold(c), zeroBitDelay, oneBitDelay, c.bitRepeatLen) && IsDigit(bit)
    ensures var group := Repeated(BitDelay(bit, zeroBitDelay, oneBitDelay), c.bitRepeatLen - 1);
      group != [] && DecodeBit(c, group) == bit
  {
    var m := c.bitRepeatLen - 1;
    var x := BitDelay(bit, zeroBitDelay, oneBitDelay);
    SumRepeated(x, m);
    PureSide(x, IpdThreshold(c), zeroBitDelay, oneBitDelay, m);
  }

  /** A later group: one gap of the previous bit, then `bit_repeat_len - 1` gaps of its own bit. */
  lemma MixedGroupBit(c: Config, zeroBitDelay: real, oneBitDelay: real, previous: char, bit: char)
    requires Separated(IpdThreshold(c), zeroBitDelay, oneBitDelay, c.bitRepeatLen) && IsDigit(previous) && IsDigit(bit)
    ensures var group := [BitDelay(previous, zeroBitDelay, oneBitDelay)]
                         + Repeated(BitDelay(bit, zeroBitDelay, oneBitDelay), c.bitRepeatLen - 1);
      DecodeBit(c, group) == bit
  {
    var r := c.bitRepeatLen;
    var a := BitDelay(previous, zeroBitDelay, oneBitDelay);
    var x := BitDelay(bit, zeroBitDelay, oneBitDelay);
    SumMixed(a, x, r - 1);
    MixedSide(a, x, IpdThreshold(c), zeroBitDelay, oneBitDelay, r);
  }

  /** What separation buys: every group the receiver can see decodes to the bit it ends with. */
  ghost predicate GroupsDecode(c: Config, zeroBitDelay: real, oneBitDelay: real)
  {
    && c.bitRepeatLen >= 2
    && (forall bit | IsDigit(bit) ::
          DecodeBit(c, Repeated(BitDelay(bit, zeroBitDelay, oneBitDelay), c.bitRepeatLen - 1)) == bit)
    && (forall previous, bit | IsDigit(previous) && IsDigit(bit) ::
          DecodeBit(c, [BitDelay(previous, zeroBitDelay, oneBitDelay)]
                       + Repeated(BitDelay(bit, zeroBitDelay, oneBitDelay), c.bitRepeatLen - 1)) == bit)
  }

  lemma SeparatedGroupsDecode(c: Config, zeroBitDelay: real, oneBitDelay: real)
    requires Separated(IpdThreshold(c), zeroBitDelay, oneBitDelay, c.bitRepeatLen)
    ensures GroupsDecode(c, zeroBitDelay, oneBitDelay)
  {
    forall bit | IsDigit(bit)
      ensures DecodeBit(c, Repeated(BitDelay(bit, zeroBitDelay, oneBitDelay), c.bitRepeatLen - 1)) == bit
    {
      PureGroupBit(c, zeroBitDelay, oneBitDelay, bit);
    }
    forall previous, bit | IsDigit(previous) && IsDigit(bit)
      ensures DecodeBit(c, [BitDelay(previous, zeroBitDelay, oneBitDelay)]
                           + Repeated(BitDelay(bit, zeroBitDelay, oneBitDelay), c.bitRepeatLen - 1)) == bit
    {
      MixedGroupBit(c, zeroBitDelay, oneBitDelay, previous, bit);
    }
  }

  /** The index of the first packet of bit q: q·bit_repeat_len, counted up one burst at a time. */
  function Start(q: nat, r: nat): nat
  {
    if q == 0 then 0 else Start(q - 1, r) + r
  }

  lemma {:induction false} StartIsProduct(q: nat, r: nat)
    ensures Start(q, r) == q * r
  {
    if q > 0 {
      StartIsProduct(q - 1, r);
      assert (q - 1) * r + r == q * r;
    }
  }

  /** The schedule in burst coordinates. */
  lemma ScheduleBursts(bits: string, r: nat, zeroBitDelay: real, oneBitDelay: real, q: nat, d: nat)
    requires IsBinary(bits) && q < |bits| && d < r
    ensures |Schedule(bits, r, zeroBitDelay, oneBitDelay)| == Start(|bits|, r)
    ensures Start(q, r) + d < Start(|bits|, r)
    ensures Schedule(bits, r, zeroBitDelay, oneBitDelay)[Start(q, r) + d]
            == Send(bits[q], BitDelay(bits[q], zeroBitDelay, oneBitDelay))
  {
    ScheduleLength(bits, r, zeroBitDelay, oneBitDelay);
    StartIsProduct(q, r);
    StartIsProduct(|bits|, r);
    ScheduleAt(bits, r, zeroBitDelay, oneBitDelay, q, d);
  }

  /** The traces a step function goes through over the first k arrivals, from the initial one. */
  function Traces(step: (Trace, real) -> Trace, arrivals: seq<real>, k: nat): (ts: seq<Trace>)
    requires k <= |arrivals|
    ensures |ts| == k + 1
  {
    if k == 0 then [Trace(Initial, [], false)]
    else
      var front := Traces(step, arrivals, k - 1);
      front + [step(front[k - 1], arrivals[k - 1])]
  }

  /** The listener's step for configuration c. */
  function Step(c: Config): (Trace, real) -> Trace
  {
    (t, now) => Next(c, t, now)
  }

  /** The listener's trace after the first k arrivals. */
  function At(c: Config, arrivals: seq<real>, k: nat): Trace
    requires k <= |arrivals|
  {
    Traces(Step(c), arrivals, |arrivals|)[k]
  }

  /** Later arrivals do not change earlier traces. */
  lemma {:induction false} TracesPrefix(step: (Trace, real) -> Trace, arrivals: seq<real>, k: nat, m: nat, n: nat)
    requires k <= m <= n <= |arrivals|
    ensures Traces(step, arrivals, n)[k] == Traces(step, arrivals, m)[k]
    decreases n
  {
    if m < n {
      TracesPrefix(step, arrivals, k, m, n - 1);
    }
  }

  /** Each trace is the step from the previous one. */
  lemma TracesLast(step: (Trace, real) -> Trace, arrivals: seq<real>, k: nat, n: nat)
    requires 1 <= k <= n <= |arrivals|
    ensures Traces(step, arrivals, n)[k] == step(Traces(step, arrivals, n)[k - 1], arrivals[k - 1])
  {
    TracesPrefix(step, arrivals, k, k, n);
    TracesPrefix(step, arrivals, k - 1, k - 1, n);
  }

  /** Each trace is the listener's step from the previous one. */
  lemma TraceStep(c: Config, arrivals: seq<real>, k: nat)
    requires 1 <= k <= |arrivals|
    ensures At(c, arrivals, k) == Next(c, At(c, arrivals, k - 1), arrivals[k - 1])
  {
    TracesLast(Step(c), arrivals, k, |arrivals|);
  }

  /** The trace after the first k arrivals is the listener's run over them. */
  lemma {:induction false} TracesRun(c: Config, arrivals: seq<real>, k: nat)
    requires k <= |arrivals|
    ensures At(c, arrivals, k) == Run(c, arrivals[..k])
  {
    if k == 0 {
      TracesPrefix(Step(c), arrivals, 0, 0, |arrivals|);
      assert arrivals[..0] == [];
    } else {
      TracesRun(c, arrivals, k - 1);
      TraceStep(c, arrivals, k);
      RunSnoc(c, arrivals, k - 1);
    }
  }

  /** The k-th arrival, when it only queues a gap. */
  lemma AdvanceQueued(c: Config, arrivals: seq<real>, k: nat, pending: seq<real>)
    requires 1 <= k <= |arrivals| && !At(c, arrivals, k - 1).crashed
    requires pending == Pending(At(c, arrivals, k - 1).state, arrivals[k - 1])
    requires !DecodeDue(c, pending, At(c, arrivals, k - 1).state.isFirstDataReceived)
    ensures var before := At(c, arrivals, k - 1);
      At(c, arrivals, k)
      == Trace(Listener(Some(arrivals[k - 1]), pending, before.state.isFirstDataReceived, before.state.resultingStream),
               before.replies, false)
  {
    TraceStep(c, arrivals, k);
  }

  /** The k-th arrival, when it decodes a bit: the bit is appended to what has been decoded. */
  lemma AdvanceDecoded(c: Config, arrivals: seq<real>, k: nat, pending: seq<real>, bit: char)
    requires 1 <= k <= |arrivals| && !At(c, arrivals, k - 1).crashed
    requires pending == Pending(At(c, arrivals, k - 1).state, arrivals[k - 1])
    requires DecodeDue(c, pending, At(c, arrivals, k - 1).state.isFirstDataReceived)
    requires pending != [] && bit == DecodeBit(c, pending)
    ensures var t := At(c, arrivals, k);
      && !t.crashed
      && t.state.lastTimestamp == Some(arrivals[k - 1])
      && t.state.recvTimes == []
      && t.state.isFirstDataReceived
      && Decoded(t) == Decoded(At(c, arrivals, k - 1)) + [bit]
  {
    TraceStep(c, arrivals, k);
    var t := At(c, arrivals, k - 1);
    var produced := t.state.resultingStream + [bit];
    if |produced| >= c.bitstreamLen {
      assert At(c, arrivals, k) == Trace(Listener(Some(arrivals[k - 1]), [], true, ""), t.replies + [produced], false);
      assert (t.replies + [produced])[..|t.replies|] == t.replies;
      assert Flatten(t.replies + [produced]) == Flatten(t.replies) + produced;
    } else {
      assert At(c, arrivals, k) == Trace(Listener(Some(arrivals[k - 1]), [], true, produced), t.replies, false);
    }
  }

  lemma RepeatedSnoc(x: real, m: nat, n: nat)
    requires n == m + 1
    ensures Repeated(x, m) + [x] == Repeated(x, n)
  {
    assert (Repeated(x, m) + [x])[..m] == Repeated(x, m);
  }

  /** The packet schedule, read off at arrival j: the gap before packet d + 1 of bit q's burst is bit q's delay. */
  lemma GapAt(arrivals: seq<real>, bits: string, r: nat, zeroBitDelay: real, oneBitDelay: real, q: nat, d: nat, j: nat)
    requires IsBinary(bits) && q < |bits| && d < r
    requires Paced(arrivals, Schedule(bits, r, zeroBitDelay, oneBitDelay))
    requires j == Start(q, r) + d + 1 && j < |arrivals|
    ensures Gap(arrivals, j) == BitDelay(bits[q], zeroBitDelay, oneBitDelay)
  {
    ScheduleBursts(bits, r, zeroBitDelay, oneBitDelay, q, d);
    assert j - 1 == Start(q, r) + d;
  }

  lemma StartNext(q: nat, r: nat)
    ensures Start(q + 1, r) == Start(q, r) + r
  {
  }

  lemma TakeNext(s: string, i: nat)
    requires i < |s|
    ensures s[..i + 1] == s[..i] + [s[i]]
  {
  }

  /** Before the first bit is decoded: `k` packets give `k - 1` gaps of the first bit. */
  lemma {:induction false} FirstBurst(c: Config, zeroBitDelay: real, oneBitDelay: real, bits: string, arrivals: seq<real>, k: nat)
    requires c.bitRepeatLen >= 2
    requires IsBinary(bits) && bits != []
    requires Paced(arrivals, Schedule(bits, c.bitRepeatLen, zeroBitDelay, oneBitDelay))
    requires 1 <= k < c.bitRepeatLen
    ensures k <= |arrivals|
    ensures var t := At(c, arrivals, k);
      && !t.crashed && Decoded(t) == []
      && t.state == Listener(Some(arrivals[k - 1]), Repeated(BitDelay(bits[0], zeroBitDelay, oneBitDelay), k - 1), false, [])
  {
    var r := c.bitRepeatLen;
    ScheduleBursts(bits, r, zeroBitDelay, oneBitDelay, 0, k - 1);
    if k == 1 {
      TraceStep(c, arrivals, 1);
      TracesPrefix(Step(c), arrivals, 0, 0, |arrivals|);
      assert At(c, arrivals, 1) == Trace(Listener(Some(arrivals[0]), [], false, []), [], false);
    } else {
      FirstBurst(c, zeroBitDelay, oneBitDelay, bits, arrivals, k - 1);
      var x := BitDelay(bits[0], zeroBitDelay, oneBitDelay);
      GapAt(arrivals, bits, r, zeroBitDelay, oneBitDelay, 0, k - 2, k - 1);
      var before := At(c, arrivals, k - 1).state;
      var pending := Repeated(x, k - 1 - 1) + [Gap(arrivals, k - 1)];
      assert Pending(before, arrivals[k - 1]) == pending;
      RepeatedSnoc(x, k - 1 - 1, k - 1);
      AdvanceQueued(c, arrivals, k, Repeated(x, k - 1));
    }
  }

  /**
   * The gaps queued d packets into a burst: the last gap of the previous
   * bit (delay x), then d - 1 gaps of the current bit (delay y).
   */
  function Queue(x: real, y: real, d: nat): (r: seq<real>)
    ensures |r| == d
  {
    if d == 0 then [] else if d == 1 then [x] else Queue(x, y, d - 1) + [y]
  }

  lemma QueueStep(x: real, y: real, d: nat, e: nat)
    requires d >= 1 && e == d + 1
    ensures Queue(x, y, d) + [y] == Queue(x, y, e)
  {
  }

  /** A full queue is one gap of the previous bit followed by gaps of the current one. */
  lemma {:induction false} QueueMixed(x: real, y: real, m: nat, n: nat)
    requires n == m + 1
    ensures Queue(x, y, n) == [x] + Repeated(y, m)
  {
    if m > 0 {
      QueueMixed(x, y, m - 1, m);
      RepeatedSnoc(y, m - 1, m);
    }
  }

  /**
   * The state after the first k arrivals, where k = (q + 1)·bit_repeat_len + d
   * and d < bit_repeat_len: bit q has been decoded and d packets of the next
   * bit have arrived. The bits so far are exactly the first q + 1 bits, and
   * the queue holds the last gap of bit q and d - 1 gaps of bit q + 1.
   */
  ghost predicate Reached(c: Config, zeroBitDelay: real, oneBitDelay: real, bits: string, arrivals: seq<real>, q: nat, d: nat, k: nat)
    requires IsBinary(bits) && q < |bits| && (d >= 1 ==> q + 1 < |bits|)
  {
    && 1 <= k <= |arrivals|
    && var t := At(c, arrivals, k);
    && !t.crashed && Decoded(t) == bits[..q + 1]
    && t.state.lastTimestamp == Some(arrivals[k - 1])
    && t.state.isFirstDataReceived
    && t.state.recvTimes
       == Queue(BitDelay(bits[q], zeroBitDelay, oneBitDelay),
                if d == 0 then 0.0 else BitDelay(bits[q + 1], zeroBitDelay, oneBitDelay), d)
  }

  /** A full mixed queue decodes to the current bit. */
  lemma MixedQueueDecodes(c: Config, zeroBitDelay: real, oneBitDelay: real, previous: char, bit: char)
    requires GroupsDecode(c, zeroBitDelay, oneBitDelay)
    requires IsDigit(previous) && IsDigit(bit)
    ensures var x := BitDelay(previous, zeroBitDelay, oneBitDelay);
      var y := BitDelay(bit, zeroBitDelay, oneBitDelay);
      DecodeBit(c, Queue(x, y, c.bitRepeatLen)) == bit
  {
    var x := BitDelay(previous, zeroBitDelay, oneBitDelay);
    var y := BitDelay(bit, zeroBitDelay, oneBitDelay);
    QueueMixed(x, y, c.bitRepeatLen - 1, c.bitRepeatLen);
  }

  /** The first burst's last packet completes a group of `bit_repeat_len - 1` gaps of the first bit. */
  lemma FirstQueue(c: Config, zeroBitDelay: real, oneBitDelay: real, bits: string, arrivals: seq<real>)
    requires c.bitRepeatLen >= 2
    requires IsBinary(bits) && bits != []
    requires Paced(arrivals, Schedule(bits, c.bitRepeatLen, zeroBitDelay, oneBitDelay))
    ensures c.bitRepeatLen <= |arrivals|
    ensures var t := At(c, arrivals, c.bitRepeatLen - 1);
      && !t.crashed && Decoded(t) == [] && !t.state.isFirstDataReceived
      && Pending(t.state, arrivals[c.bitRepeatLen - 1])
         == Repeated(BitDelay(bits[0], zeroBitDelay, oneBitDelay), c.bitRepeatLen - 1)
  {
    var r := c.bitRepeatLen;
    ScheduleBursts(bits, r, zeroBitDelay, oneBitDelay, 0, r - 1);
    FirstBurst(c, zeroBitDelay, oneBitDelay, bits, arrivals, r - 1);
    var x := BitDelay(bits[0], zeroBitDelay, oneBitDelay);
    GapAt(arrivals, bits, r, zeroBitDelay, oneBitDelay, 0, r - 2, r - 1);
    var before := At(c, arrivals, r - 1).state;
    assert Pending(before, arrivals[r - 1]) == Repeated(x, r - 1 - 1) + [Gap(arrivals, r - 1)];
    RepeatedSnoc(x, r - 1 - 1, r - 1);
  }

  /** The first bit is decoded from the first `bit_repeat_len - 1` gaps. */
  lemma FirstBit(c: Config, zeroBitDelay: real, oneBitDelay: real, bits: string, arrivals: seq<real>)
    requires GroupsDecode(c, zeroBitDelay, oneBitDelay)
    requires IsBinary(bits) && bits != []
    requires Paced(arrivals, Schedule(bits, c.bitRepeatLen, zeroBitDelay, oneBitDelay))
    ensures Reached(c, zeroBitDelay, oneBitDelay, bits, arrivals, 0, 0, c.bitRepeatLen)
  {
    var r := c.bitRepeatLen;
    FirstQueue(c, zeroBitDelay, oneBitDelay, bits, arrivals);
    var x := BitDelay(bits[0], zeroBitDelay, oneBitDelay);
    assert DecodeBit(c, Repeated(x, r - 1)) == bits[0];
    AdvanceDecoded(c, arrivals, r, Repeated(x, r - 1), bits[0]);
    assert bits[..0 + 1] == [bits[0]];
  }

  /** Inside a burst: one more gap is queued and nothing is decoded. */
  lemma WithinBurst(c: Config, zeroBitDelay: real, oneBitDelay: real, bits: string, arrivals: seq<real>, q: nat, d: nat, k: nat)
    requires c.bitRepeatLen >= 2
    requires IsBinary(bits)
    requires Paced(arrivals, Schedule(bits, c.bitRepeatLen, zeroBitDelay, oneBitDelay))
    requires q + 1 < |bits| && 1 <= d < c.bitRepeatLen && k == Start(q + 1, c.bitRepeatLen) + d
    requires Reached(c, zeroBitDelay, oneBitDelay, bits, arrivals, q, d - 1, k - 1)
    ensures Reached(c, zeroBitDelay, oneBitDelay, bits, arrivals, q, d, k)
  {
    var r := c.bitRepeatLen;
    ScheduleBursts(bits, r, zeroBitDelay, oneBitDelay, q + 1, d);
    var x := BitDelay(bits[q], zeroBitDelay, oneBitDelay);
    var y := BitDelay(bits[q + 1], zeroBitDelay, oneBitDelay);
    var before := At(c, arrivals, k - 1).state;
    if d == 1 {
      StartNext(q, r);
      GapAt(arrivals, bits, r, zeroBitDelay, oneBitDelay, q, r - 1, k - 1);
      assert before.recvTimes == [];
      assert Pending(before, arrivals[k - 1]) == [Gap(arrivals, k - 1)] == Queue(x, y, d);
    } else {
      GapAt(arrivals, bits, r, zeroBitDelay, oneBitDelay, q + 1, d - 2, k - 1);
      assert before.recvTimes == Queue(x, y, d - 1);
      assert Pending(before, arrivals[k - 1]) == Queue(x, y, d - 1) + [Gap(arrivals, k - 1)];
      QueueStep(x, y, d - 1, d);
    }
    AdvanceQueued(c, arrivals, k, Queue(x, y, d));
  }

  /** The last packet of bit q completes a mixed group: one gap of bit q - 1 and `bit_repeat_len - 1` of bit q. */
  lemma MixedQueue(c: Config, zeroBitDelay: real, oneBitDelay: real, bits: string, arrivals: seq<real>, q: nat, k: nat)
    requires c.bitRepeatLen >= 2
    requires IsBinary(bits)
    requires Paced(arrivals, Schedule(bits, c.bitRepeatLen, zeroBitDelay, oneBitDelay))
    requires 1 <= q < |bits| && k == Start(q + 1, c.bitRepeatLen)
    requires Reached(c, zeroBitDelay, oneBitDelay, bits, arrivals, q - 1, c.bitRepeatLen - 1, k - 1)
    ensures k <= |arrivals|
    ensures Pending(At(c, arrivals, k - 1).state, arrivals[k - 1])
            == Queue(BitDelay(bits[q - 1], zeroBitDelay, oneBitDelay), BitDelay(bits[q], zeroBitDelay, oneBitDelay), c.bitRepeatLen)
  {
    var r := c.bitRepeatLen;
    assert q - 1 + 1 == q;
    var x := BitDelay(bits[q - 1], zeroBitDelay, oneBitDelay);
    var y := BitDelay(bits[q], zeroBitDelay, oneBitDelay);
    StartNext(q, r);
    ScheduleBursts(bits, r, zeroBitDelay, oneBitDelay, q, r - 1);
    GapAt(arrivals, bits, r, zeroBitDelay, oneBitDelay, q, r - 2, k - 1);
    var before := At(c, arrivals, k - 1).state;
    assert before.recvTimes == Queue(x, y, r - 1);
    assert Pending(before, arrivals[k - 1]) == Queue(x, y, r - 1) + [Gap(arrivals, k - 1)];
    QueueStep(x, y, r - 1, r);
  }

  /** The last packet of bit q completes its group, which decodes to that bit. */
  lemma NextBit(c: Config, zeroBitDelay: real, oneBitDelay: real, bits: string, arrivals: seq<real>, q: nat, k: nat)
    requires GroupsDecode(c, zeroBitDelay, oneBitDelay)
    requires IsBinary(bits)
    requires Paced(arrivals, Schedule(bits, c.bitRepeatLen, zeroBitDelay, oneBitDelay))
    requires 1 <= q < |bits| && k == Start(q + 1, c.bitRepeatLen)
    requires Reached(c, zeroBitDelay, oneBitDelay, bits, arrivals, q - 1, c.bitRepeatLen - 1, k - 1)
    ensures Reached(c, zeroBitDelay, oneBitDelay, bits, arrivals, q, 0, k)
  {
    MixedQueue(c, zeroBitDelay, oneBitDelay, bits, arrivals, q, k);
    assert q - 1 + 1 == q;
    var x := BitDelay(bits[q - 1], zeroBitDelay, oneBitDelay);
    var y := BitDelay(bits[q], zeroBitDelay, oneBitDelay);
    MixedQueueDecodes(c, zeroBitDelay, oneBitDelay, bits[q - 1], bits[q]);
    AdvanceDecoded(c, arrivals, k, Queue(x, y, c.bitRepeatLen), bits[q]);
    TakeNext(bits, q);
  }

  /** Every burst boundary and every point inside a burst is reached as described. */
  lemma {:induction false} Burst(c: Config, zeroBitDelay: real, oneBitDelay: real, bits: string, arrivals: seq<real>, q: nat, d: nat, k: nat)
    requires GroupsDecode(c, zeroBitDelay, oneBitDelay)
    requires IsBinary(bits)
    requires Paced(arrivals, Schedule(bits, c.bitRepeatLen, zeroBitDelay, oneBitDelay))
    requires q < |bits| && d < c.bitRepeatLen && (d >= 1 ==> q + 1 < |bits|)
    requires k == Start(q + 1, c.bitRepeatLen) + d
    ensures Reached(c, zeroBitDelay, oneBitDelay, bits, arrivals, q, d, k)
    decreases q, d, 1
  {
    if d >= 1 {
      BurstInside(c, zeroBitDelay, oneBitDelay, bits, arrivals, q, d, k);
    } else if q == 0 {
      assert k == c.bitRepeatLen;
      FirstBit(c, zeroBitDelay, oneBitDelay, bits, arrivals);
    } else {
      BurstBoundary(c, zeroBitDelay, oneBitDelay, bits, arrivals, q, k);
    }
  }

  lemma {:induction false} BurstInside(c: Config, zeroBitDelay: real, oneBitDelay: real, bits: string, arrivals: seq<real>, q: nat, d: nat, k: nat)
    requires GroupsDecode(c, zeroBitDelay, oneBitDelay)
    requires IsBinary(bits)
    requires Paced(arrivals, Schedule(bits, c.bitRepeatLen, zeroBitDelay, oneBitDelay))
    requires q + 1 < |bits| && 1 <= d < c.bitRepeatLen
    requires k == Start(q + 1, c.bitRepeatLen) + d
    ensures Reached(c, zeroBitDelay, oneBitDelay, bits, arrivals, q, d, k)
    decreases q, d, 0
  {
    Burst(c, zeroBitDelay, oneBitDelay, bits, arrivals, q, d - 1, k - 1);
    WithinBurst(c, zeroBitDelay, oneBitDelay, bits, arrivals, q, d, k);
  }

  lemma {:induction false} BurstBoundary(c: Config, zeroBitDelay: real, oneBitDelay: real, bits: string, arrivals: seq<real>, q: nat, k: nat)
    requires GroupsDecode(c, zeroBitDelay, oneBitDelay)
    requires IsBinary(bits)
    requires Paced(arrivals, Schedule(bits, c.bitRepeatLen, zeroBitDelay, oneBitDelay))
    requires 1 <= q < |bits| && k == Start(q + 1, c.bitRepeatLen)
    ensures Reached(c, zeroBitDelay, oneBitDelay, bits, arrivals, q, 0, k)
    decreases q, 0, 0
  {
    assert q - 1 + 1 == q;
    StartNext(q, c.bitRepeatLen);
    Burst(c, zeroBitDelay, oneBitDelay, bits, arrivals, q - 1, c.bitRepeatLen - 1, k - 1);
    NextBit(c, zeroBitDelay, oneBitDelay, bits, arrivals, q, k);
  }

  /**
   * The channel round trip: when the receiver is configured with the
   * sender's `bit_repeat_len`, the delays are separated and timing is
   * ideal, the listener survives every packet and the bits it sends back,
   * followed by those still accumulating, are exactly the bitstream sent.
   */
  lemma RoundTrip(c: Config, zeroBitDelay: real, oneBitDelay: real, message: string, arrivals: seq<real>)
    requires Separated(IpdThreshold(c), zeroBitDelay, oneBitDelay, c.bitRepeatLen)
    requires Paced(arrivals, Schedule(CreateBitstream(message), c.bitRepeatLen, zeroBitDelay, oneBitDelay))
    ensures !Run(c, arrivals).crashed
    ensures Decoded(Run(c, arrivals)) == CreateBitstream(message)
  {
    SeparatedGroupsDecode(c, zeroBitDelay, oneBitDelay);
    BitstreamRoundTrip(c, zeroBitDelay, oneBitDelay, CreateBitstream(message), arrivals);
  }

  /** The round trip for any bitstream whose groups decode correctly. */
  lemma BitstreamRoundTrip(c: Config, zeroBitDelay: real, oneBitDelay: real, bits: string, arrivals: seq<real>)
    requires GroupsDecode(c, zeroBitDelay, oneBitDelay)
    requires IsBinary(bits)
    requires Paced(arrivals, Schedule(bits, c.bitRepeatLen, zeroBitDelay, oneBitDelay))
    ensures !Run(c, arrivals).crashed
    ensures Decoded(Run(c, arrivals)) == bits
  {
    if bits == [] {
      ScheduleLength(bits, c.bitRepeatLen, zeroBitDelay, oneBitDelay);
      assert arrivals == [];
    } else {
      var n := |bits|;
      LastBurst(c, zeroBitDelay, oneBitDelay, bits, arrivals);
      TracesRun(c, arrivals, |arrivals|);
      assert arrivals[..|arrivals|] == arrivals;
      assert bits[..n - 1 + 1] == bits;
    }
  }

  /** The last packet completes the last bit. */
  lemma LastBurst(c: Config, zeroBitDelay: real, oneBitDelay: real, bits: string, arrivals: seq<real>)
    requires GroupsDecode(c, zeroBitDelay, oneBitDelay)
    requires IsBinary(bits) && bits != []
    requires Paced(arrivals, Schedule(bits, c.bitRepeatLen, zeroBitDelay, oneBitDelay))
    ensures Reached(c, zeroBitDelay, oneBitDelay, bits, arrivals, |bits| - 1, 0, |arrivals|)
  {
    var n := |bits|;
    assert n - 1 + 1 == n;
    ScheduleBursts(bits, c.bitRepeatLen, zeroBitDelay, oneBitDelay, n - 1, 0);
    Burst(c, zeroBitDelay, oneBitDelay, bits, arrivals, n - 1, 0, Start(n, c.bitRepeatLen));
  }

  /** The default configuration (delays 0.3 and 0.9, threshold 0.3 + 0.3, five packets per bit) is separated. */
  lemma DefaultsSeparated()
    ensures Separated(0.3 + 0.3, 0.3, 0.9, 5)
  {
  }

  /**
   * With two packets per bit and otherwise default delays, "10" is read as
   * "11": the group for the '0' holds the long gap after the '1' and one
   * short gap, whose mean 0.6 is not below the threshold.
   */
  lemma TwoPacketsPerBitMisreads()
    ensures !Separated(0.3 + 0.3, 0.3, 0.9, 2)
    ensures var c := Config(0.3, 0.3, 2, 10);
      var arrivals := [0.0, 0.9, 1.8, 2.1];
      && Paced(arrivals, Schedule("10", 2, 0.3, 0.9))
      && Decoded(Run(c, arrivals)) == "11"
  {
    var c := Config(0.3, 0.3, 2, 10);
    var arrivals := [0.0, 0.9, 1.8, 2.1];
    TwoPacketsPaced(arrivals);
    TwoPacketsFirstBit(c);
    TwoPacketsSecondBit(c);
    assert arrivals[..3] == [0.0, 0.9, 1.8];
  }

  lemma TwoPacketsPaced(arrivals: seq<real>)
    requires arrivals == [0.0, 0.9, 1.8, 2.1]
    ensures Paced(arrivals, Schedule("10", 2, 0.3, 0.9))
  {
    assert "10"[..1] == "1";
    assert "1"[..0] == "";
    assert Schedule("10", 2, 0.3, 0.9) == [Send('1', 0.9), Send('1', 0.9), Send('0', 0.3), Send('0', 0.3)];
    assert Gap(arrivals, 1) == 0.9 && Gap(arrivals, 2) == 0.9 && Gap(arrivals, 3) == 0.3;
  }

  lemma TwoPacketsFirstBit(c: Config)
    requires c == Config(0.3, 0.3, 2, 10)
    ensures Run(c, [0.0, 0.9, 1.8]) == Trace(Listener(Some(1.8), [0.9], true, "1"), [], false)
  {
    var a1, a2, a3 := [0.0], [0.0, 0.9], [0.0, 0.9, 1.8];
    assert a1[..0] == [] && a2[..1] == a1 && a3[..2] == a2;
    assert Run(c, a1) == Trace(Listener(Some(0.0), [], false, ""), [], false);
    assert Mean([0.9]) == 0.9;
    assert Run(c, a2) == Trace(Listener(Some(0.9), [], true, "1"), [], false);
  }

  lemma TwoPacketsSecondBit(c: Config)
    requires c == Config(0.3, 0.3, 2, 10)
    ensures Next(c, Trace(Listener(Some(1.8), [0.9], true, "1"), [], false), 2.1)
            == Trace(Listener(Some(2.1), [], true, "11"), [], false)
  {
    assert Sum([0.9, 0.3]) == 1.2 by {
      assert [0.9, 0.3][1..] == [0.3];
      assert [0.3][1..] == [];
    }
    assert Mean([0.9, 0.3]) == 0.6;
    assert Pending(Listener(Some(1.8), [0.9], true, "1"), 2.1) == [0.9, 0.3];
  }
}
