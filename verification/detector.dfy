/**
 * `CovertChannelDetector`: the sliding-window state that `add_packet` updates
 * and `detect` scores. The three deques become `seq` fields that the methods
 * reassign through `Fifo.BoundedAppend`; the ghost field `arrivals` records every
 * timestamp ever added, and `Valid` says what each buffer holds in terms of it.
 */
module Detector {
  import opened Fifo
  import opened Scoring

  /** Only IPDs below this cut-off (in seconds) are offered to the baseline. */
  const BaselineCutoff: real := 0.2
  /** `deque(maxlen=100)` for the baseline; full means established. */
  const BaselineCapacity: nat := 100

  /** The inter-packet delays of a timestamp sequence. */
  function Gaps(ts: seq<real>): (g: seq<real>)
    ensures |g| == if |ts| == 0 then 0 else |ts| - 1
  {
    if |ts| <= 1 then [] else Gaps(ts[..|ts| - 1]) + [ts[|ts| - 1] - ts[|ts| - 2]]
  }

  /** Each IPD is the difference of two consecutive timestamps. */
  lemma {:induction false} GapsAt(ts: seq<real>, i: nat)
    requires i + 1 < |ts|
    ensures Gaps(ts)[i] == ts[i + 1] - ts[i]
  {
    if i + 2 < |ts| {
      var init := ts[..|ts| - 1];
      GapsAt(init, i);
      assert init[i + 1] == ts[i + 1] && init[i] == ts[i];
    }
  }

  /** The IPDs below the baseline cut-off, in arrival order. */
  function LowDelays(g: seq<real>): (r: seq<real>)
    ensures |r| <= |g|
    ensures forall i :: 0 <= i < |r| ==> r[i] < BaselineCutoff
  {
    if g == [] then []
    else LowDelays(g[..|g| - 1]) + (if g[|g| - 1] < BaselineCutoff then [g[|g| - 1]] else [])
  }

  /**
   * The IPDs the detector computes over a whole run. With `window_size == 0` the
   * timestamp deque holds nothing, so no IPD is ever computed.
   */
  function Observed(arrivals: seq<real>, windowSize: nat): seq<real>
  {
    if windowSize == 0 then [] else Gaps(arrivals)
  }

  /** A timestamp adds one IPD (against the previous timestamp) to what has been observed. */
  lemma ObservedAppend(arrivals: seq<real>, t: real, windowSize: nat)
    ensures Observed(arrivals + [t], windowSize)
            == if windowSize > 0 && |arrivals| > 0
               then Observed(arrivals, windowSize) + [t - arrivals[|arrivals| - 1]]
               else Observed(arrivals, windowSize)
  {
    if windowSize > 0 && |arrivals| > 0 {
      assert (arrivals + [t])[..|arrivals|] == arrivals;
    }
  }

  lemma LowDelaysAppend(g: seq<real>, x: real)
    ensures LowDelays(g + [x]) == LowDelays(g) + (if x < BaselineCutoff then [x] else [])
  {
    assert (g + [x])[..|g|] == g;
  }

  /** One timestamp through the timestamp deque: the IPD it yields is against the previous arrival. */
  lemma TimesStep(arrivals: seq<real>, t: real, windowSize: nat, times: seq<real>)
    requires times == BoundedAppend(Last(arrivals, 2 * windowSize), t, 2 * windowSize)
    ensures times == Last(arrivals + [t], 2 * windowSize)
    ensures |times| >= 2 <==> windowSize > 0 && |arrivals| > 0
    ensures |times| >= 2 ==> times[|times| - 1] == t && times[|times| - 2] == arrivals[|arrivals| - 1]
  {
    LastAppend(arrivals, t, 2 * windowSize);
    if |times| >= 2 {
      var s := arrivals + [t];
      assert times == s[|s| - |times|..];
      assert times[|times| - 1] == s[|s| - 1];
      assert times[|times| - 2] == s[|s| - 2];
    }
  }

  /** One timestamp through the IPD deque. */
  lemma HistoryStep(arrivals: seq<real>, t: real, windowSize: nat, ipdCapacity: nat, ipd: real)
    requires windowSize > 0 && |arrivals| > 0 && ipd == t - arrivals[|arrivals| - 1]
    ensures Last(Observed(arrivals + [t], windowSize), ipdCapacity)
            == BoundedAppend(Last(Observed(arrivals, windowSize), ipdCapacity), ipd, ipdCapacity)
  {
    ObservedAppend(arrivals, t, windowSize);
    LastAppend(Observed(arrivals, windowSize), ipd, ipdCapacity);
  }

  /**
   * A timestamp that finds a predecessor in the timestamp deque: the IPD computed from
   * the deque's last two entries is the one it adds to what has been observed.
   */
  lemma IpdHistoryStep(arrivals: seq<real>, t: real, windowSize: nat, ipdCapacity: nat, times: seq<real>, ipd: real)
    requires times == BoundedAppend(Last(arrivals, 2 * windowSize), t, 2 * windowSize)
    requires |times| >= 2 && ipd == times[|times| - 1] - times[|times| - 2]
    ensures BoundedAppend(Last(Observed(arrivals, windowSize), ipdCapacity), ipd, ipdCapacity)
            == Last(Observed(arrivals + [t], windowSize), ipdCapacity)
  {
    TimesStep(arrivals, t, windowSize, times);
    HistoryStep(arrivals, t, windowSize, ipdCapacity, ipd);
  }

  /** The same IPD is the one offered to the baseline. */
  lemma IpdBaselineStep(arrivals: seq<real>, t: real, windowSize: nat, times: seq<real>, ipd: real)
    requires times == BoundedAppend(Last(arrivals, 2 * windowSize), t, 2 * windowSize)
    requires |times| >= 2 && ipd == times[|times| - 1] - times[|times| - 2]
    ensures var b := Take(LowDelays(Observed(arrivals, windowSize)), BaselineCapacity);
            Take(LowDelays(Observed(arrivals + [t], windowSize)), BaselineCapacity)
            == if |b| < BaselineCapacity && ipd < BaselineCutoff then b + [ipd] else b
  {
    TimesStep(arrivals, t, windowSize, times);
    BaselineStep(arrivals, t, windowSize, ipd);
  }

  /** A timestamp that finds no predecessor in the timestamp deque adds no IPD. */
  lemma NoIpdStep(arrivals: seq<real>, t: real, windowSize: nat, times: seq<real>)
    requires times == BoundedAppend(Last(arrivals, 2 * windowSize), t, 2 * windowSize)
    requires |times| < 2
    ensures Observed(arrivals + [t], windowSize) == Observed(arrivals, windowSize)
  {
    TimesStep(arrivals, t, windowSize, times);
    ObservedAppend(arrivals, t, windowSize);
  }

  /** One timestamp through the baseline: admitted only below the cut-off and while not full. */
  lemma BaselineStep(arrivals: seq<real>, t: real, windowSize: nat, ipd: real)
    requires windowSize > 0 && |arrivals| > 0 && ipd == t - arrivals[|arrivals| - 1]
    ensures var before := Take(LowDelays(Observed(arrivals, windowSize)), BaselineCapacity);
            Take(LowDelays(Observed(arrivals + [t], windowSize)), BaselineCapacity)
            == if |before| < BaselineCapacity && ipd < BaselineCutoff then before + [ipd] else before
  {
    var obs := Observed(arrivals, windowSize);
    ObservedAppend(arrivals, t, windowSize);
    LowDelaysAppend(obs, ipd);
    TakeAppend(LowDelays(obs), ipd, BaselineCapacity);
  }

  /** The state `add_packet` updates: the packet counter, the three deques and the baseline flag. */
  datatype Buffers = Buffers(totalPackets: nat, times: seq<real>, ipds: seq<real>, baseline: seq<real>,
                             established: bool)

  /**
   * What the buffers hold after the timestamps `arrivals`, stated directly: the last
   * `2 * window_size` timestamps, the last `ipdCapacity` IPDs, and the first
   * `BaselineCapacity` IPDs below the cut-off, full meaning established.
   */
  ghost predicate Consistent(arrivals: seq<real>, windowSize: nat, ipdCapacity: nat, b: Buffers)
  {
    && b.totalPackets == |arrivals|
    && b.times == Last(arrivals, 2 * windowSize)
    && b.ipds == Last(Observed(arrivals, windowSize), ipdCapacity)
    && b.baseline == Take(LowDelays(Observed(arrivals, windowSize)), BaselineCapacity)
    && b.established == (|b.baseline| == BaselineCapacity)
  }

  /** `add_packet` when the timestamp deque then holds fewer than two entries: no IPD is computed. */
  lemma AddWithoutIpd(arrivals: seq<real>, t: real, windowSize: nat, ipdCapacity: nat, b: Buffers, times: seq<real>)
    requires Consistent(arrivals, windowSize, ipdCapacity, b)
    requires times == BoundedAppend(b.times, t, 2 * windowSize) && |times| < 2
    ensures Consistent(arrivals + [t], windowSize, ipdCapacity,
                       Buffers(b.totalPackets + 1, times, b.ipds, b.baseline, b.established))
  {
    TimesStep(arrivals, t, windowSize, times);
    NoIpdStep(arrivals, t, windowSize, times);
  }

  /** The baseline offer of `add_packet`: below the cut-off and while not full, the IPD is kept. */
  lemma BaselineOffer(before: seq<real>, established: bool, ipd: real, after: seq<real>, established': bool)
    requires |before| <= BaselineCapacity && established == (|before| == BaselineCapacity)
    requires after == if !established && |before| < BaselineCapacity && ipd < BaselineCutoff
                      then BoundedAppend(before, ipd, BaselineCapacity) else before
    requires established' == (established || |after| == BaselineCapacity)
    ensures after == if |before| < BaselineCapacity && ipd < BaselineCutoff then before + [ipd] else before
    ensures established' == (|after| == BaselineCapacity)
  {
    BoundedAppendEvictsOldest(before, ipd, BaselineCapacity);
  }

  /**
   * `add_packet` when the timestamp deque then holds two entries or more: their
   * difference enters the IPD deque, and the baseline while it is not full.
   */
  lemma AddWithIpd(arrivals: seq<real>, t: real, windowSize: nat, ipdCapacity: nat, b: Buffers,
                   times: seq<real>, ipd: real, baseline: seq<real>, established: bool)
    requires Consistent(arrivals, windowSize, ipdCapacity, b)
    requires times == BoundedAppend(b.times, t, 2 * windowSize) && |times| >= 2
    requires ipd == times[|times| - 1] - times[|times| - 2]
    requires baseline == if !b.established && |b.baseline| < BaselineCapacity && ipd < BaselineCutoff
                         then BoundedAppend(b.baseline, ipd, BaselineCapacity) else b.baseline
    requires established == (b.established || |baseline| == BaselineCapacity)
    ensures Consistent(arrivals + [t], windowSize, ipdCapacity,
                       Buffers(b.totalPackets + 1, times, BoundedAppend(b.ipds, ipd, ipdCapacity), baseline, established))
  {
    TimesStep(arrivals, t, windowSize, times);
    IpdHistoryStep(arrivals, t, windowSize, ipdCapacity, times, ipd);
    IpdBaselineStep(arrivals, t, windowSize, times, ipd);
    BaselineOffer(b.baseline, b.established, ipd, baseline, established);
  }

  /**
   * A timestamp pushes one IPD, its difference from the previous arrival, into the
   * IPD deque, unless it is the first or `window_size` is zero. (By `TimesNewest`
   * the previous arrival is the newest entry of the timestamp deque.)
   */
  lemma AddPacketIpds(arrivals: seq<real>, t: real, windowSize: nat, ipdCapacity: nat)
    ensures Last(Observed(arrivals + [t], windowSize), ipdCapacity)
            == if windowSize > 0 && arrivals != []
               then BoundedAppend(Last(Observed(arrivals, windowSize), ipdCapacity), t - arrivals[|arrivals| - 1], ipdCapacity)
               else Last(Observed(arrivals, windowSize), ipdCapacity)
  {
    if windowSize > 0 && arrivals != [] {
      HistoryStep(arrivals, t, windowSize, ipdCapacity, t - arrivals[|arrivals| - 1]);
    } else {
      ObservedAppend(arrivals, t, windowSize);
    }
  }

  /**
   * The baseline takes that same IPD while it holds fewer than `BaselineCapacity`
   * entries and the IPD is below the cut-off, and is otherwise unchanged; in
   * particular a full (established) baseline never changes again.
   */
  lemma AddPacketBaseline(arrivals: seq<real>, t: real, windowSize: nat)
    ensures var baseline := Take(LowDelays(Observed(arrivals, windowSize)), BaselineCapacity);
            Take(LowDelays(Observed(arrivals + [t], windowSize)), BaselineCapacity)
            == if && windowSize > 0 && arrivals != [] && |baseline| < BaselineCapacity
                  && t - arrivals[|arrivals| - 1] < BaselineCutoff
               then baseline + [t - arrivals[|arrivals| - 1]]
               else baseline
  {
    if windowSize > 0 && arrivals != [] {
      BaselineStep(arrivals, t, windowSize, t - arrivals[|arrivals| - 1]);
    } else {
      ObservedAppend(arrivals, t, windowSize);
    }
  }

  /** The newest entry of the timestamp deque is the latest arrival; it is empty only before the first one or with `window_size` zero. */
  lemma TimesNewest(arrivals: seq<real>, windowSize: nat)
    ensures var times := Last(arrivals, 2 * windowSize);
            && (times != [] <==> windowSize > 0 && arrivals != [])
            && (times != [] ==> times[|times| - 1] == arrivals[|arrivals| - 1])
  {
    if windowSize > 0 && arrivals != [] {
      LastNewest(arrivals, 2 * windowSize);
    }
  }

  /**
   * Once `window_size` timestamps are held, an IPD deque whose capacity is at least
   * `window_size` holds at least `window_size - 1` IPDs, so the window `detect`
   * scores has `window_size - 1` or `window_size` entries.
   */
  lemma {:induction false} FullWindow(arrivals: seq<real>, windowSize: nat, ipdCapacity: nat)
    requires ipdCapacity >= windowSize
    requires |Last(arrivals, 2 * windowSize)| >= windowSize
    ensures var d := Window(Last(Observed(arrivals, windowSize), ipdCapacity), windowSize);
            |d| == windowSize || |d| + 1 == windowSize
  {
    if windowSize > 0 {
      assert |Observed(arrivals, windowSize)| == |arrivals| - 1;
    }
  }

  /** With `history_length >= 1` the IPD deque's capacity covers a whole window. */
  lemma CapacityCoversWindow(historyLength: nat, windowSize: nat)
    requires historyLength >= 1
    ensures historyLength * windowSize >= windowSize
  {
  }

  /**
   * The second guard of `detect` never fires when the IPD deque's capacity covers a
   * window: the scorer runs whenever enough timestamps are held.
   */
  lemma {:induction false} DetectScoresFullWindow(arrivals: seq<real>, windowSize: nat, ipdCapacity: nat,
                                                 baseline: seq<real>, established: bool, threshold: real)
    requires ipdCapacity >= windowSize
    requires |Last(arrivals, 2 * windowSize)| >= windowSize
    ensures Evaluate(|Last(arrivals, 2 * windowSize)|,
                     Last(Observed(arrivals, windowSize), ipdCapacity),
                     baseline, established, windowSize, threshold).details.Detailed?
  {
    FullWindow(arrivals, windowSize, ipdCapacity);
  }

  /** The statistics snapshot of `get_detection_stats`. */
  datatype DetectionStats = DetectionStats(detectionRate: real, totalPackets: nat, detections: nat,
                                           lastDetectionTime: real)

  class CovertChannelDetector {
    const windowSize: nat
    const threshold: real
    const historyLength: nat
    /** The `maxlen` of the IPD deque. */
    const ipdCapacity: nat

    /** `deque(maxlen=2 * window_size)` of timestamps. */
    var packetTimes: seq<real>
    /** `deque(maxlen=history_length * window_size)` of IPDs. */
    var ipdHistory: seq<real>
    /** `deque(maxlen=100)` of low IPDs, frozen once full. */
    var baselineDelays: seq<real>
    var baselineEstablished: bool
    var detectionCount: nat
    var totalPackets: nat
    /** Wall-clock time of the last positive verdict (of construction before any). */
    var lastDetectionTime: real

    /** Every timestamp ever passed to `AddPacket`, oldest first. */
    ghost var arrivals: seq<real>

    /** The buffers as a value. */
    function Snapshot(): Buffers
      reads this`totalPackets, this`packetTimes, this`ipdHistory, this`baselineDelays, this`baselineEstablished
    {
      Buffers(totalPackets, packetTimes, ipdHistory, baselineDelays, baselineEstablished)
    }

    /** The buffers hold what `Consistent` derives from the arrivals so far. */
    ghost predicate Valid()
      reads this`totalPackets, this`packetTimes, this`ipdHistory, this`baselineDelays,
            this`baselineEstablished, this`arrivals
    {
      && (historyLength >= 1 ==> ipdCapacity >= windowSize)
      && Consistent(arrivals, windowSize, ipdCapacity, Snapshot())
    }

    /** `__init__`; `now` stands for the `time.time()` it reads. */
    constructor (windowSize: nat, threshold: real, historyLength: nat, now: real)
      ensures Valid()
      ensures this.windowSize == windowSize && this.threshold == threshold && this.historyLength == historyLength
      ensures ipdCapacity == historyLength * windowSize
      ensures arrivals == [] && packetTimes == [] && ipdHistory == [] && baselineDelays == []
      ensures !baselineEstablished && detectionCount == 0 && totalPackets == 0 && lastDetectionTime == now
    {
      this.windowSize := windowSize;
      this.threshold := threshold;
      this.historyLength := historyLength;
      ipdCapacity := historyLength * windowSize;
      if historyLength >= 1 {
        CapacityCoversWindow(historyLength, windowSize);
      }
      packetTimes := [];
      ipdHistory := [];
      lastDetectionTime := now;
      detectionCount := 0;
      totalPackets := 0;
      baselineDelays := [];
      baselineEstablished := false;
      arrivals := [];
    }

    /**
     * `add_packet`. The new state is the one `Valid` derives from the arrivals with
     * `timestamp` appended; `AddPacketIpds`, `AddPacketBaseline`, `TimesNewest` and
     * `Fifo.LastAppend` say deque by deque what that means.
     */
    method AddPacket(timestamp: real)
      requires Valid()
      modifies this
      ensures arrivals == old(arrivals) + [timestamp]
      ensures Valid()
      ensures detectionCount == old(detectionCount) && lastDetectionTime == old(lastDetectionTime)
    {
      var times := BoundedAppend(packetTimes, timestamp, 2 * windowSize);
      var ipds, baseline, established := ipdHistory, baselineDelays, baselineEstablished;
      if |times| >= 2 {
        var ipd := times[|times| - 1] - times[|times| - 2];
        ipds := BoundedAppend(ipds, ipd, ipdCapacity);
        if !established && |baseline| < BaselineCapacity && ipd < BaselineCutoff {
          baseline := BoundedAppend(baseline, ipd, BaselineCapacity);
          if |baseline| == BaselineCapacity {
            established := true;
          }
        }
        AddWithIpd(arrivals, timestamp, windowSize, ipdCapacity, Snapshot(), times, ipd, baseline, established);
      } else {
        AddWithoutIpd(arrivals, timestamp, windowSize, ipdCapacity, Snapshot(), times);
      }
      totalPackets, packetTimes, ipdHistory, baselineDelays, baselineEstablished, arrivals
        := totalPackets + 1, times, ipds, baseline, established, arrivals + [timestamp];
    }

    /** `detect`; `now` stands for the `time.time()` it records on a positive verdict. */
    method Detect(now: real) returns (isCovert: bool, score: real, details: Details)
      requires Valid()
      modifies this`detectionCount, this`lastDetectionTime
      ensures Valid()
      ensures Verdict(isCovert, score, details)
              == Evaluate(|packetTimes|, ipdHistory, baselineDelays, baselineEstablished, windowSize, threshold)
      ensures detectionCount == old(detectionCount) + (if isCovert then 1 else 0)
      ensures lastDetectionTime == if isCovert then now else old(lastDetectionTime)
      // fail closed while fewer than `window_size` timestamps are held
      ensures |packetTimes| < windowSize ==> !isCovert && score == 0.0 && detectionCount == old(detectionCount)
      ensures historyLength >= 1 && |packetTimes| >= windowSize ==> details.Detailed?
    {
      if |packetTimes| < windowSize {
        return false, 0.0, TotalOnly;
      }
      var delays := Window(ipdHistory, windowSize);
      if |delays| < windowSize - 1 {
        if historyLength >= 1 {
          FullWindow(arrivals, windowSize, ipdCapacity);
          assert false;
        }
        return false, 0.0, TotalOnly;
      }
      var sub := Score(delays, baselineDelays, baselineEstablished);
      score := Total(sub);
      details := Detailed(sub);
      isCovert := score > threshold;
      EvaluateScored(|packetTimes|, ipdHistory, baselineDelays, baselineEstablished, windowSize, threshold);
      if isCovert {
        detectionCount := detectionCount + 1;
        lastDetectionTime := now;
      }
    }

    /** `get_detection_stats`: detections per packet seen, the denominator floored at one. */
    function GetDetectionStats(): (s: DetectionStats)
      reads this
      ensures s.detectionRate >= 0.0
      ensures s.detectionRate * (if totalPackets == 0 then 1 else totalPackets) as real == detectionCount as real
      ensures s.totalPackets == totalPackets && s.detections == detectionCount
      ensures s.lastDetectionTime == lastDetectionTime
    {
      var denominator := if totalPackets == 0 then 1 else totalPackets;
      DetectionStats(detectionCount as real / denominator as real, totalPackets, detectionCount, lastDetectionTime)
    }
  }
}
