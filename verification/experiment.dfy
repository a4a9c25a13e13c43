/**
 * The phase-2 experiment sender: the same message is sent in 100 trials;
 * after each trial the receiver's reply is compared with the bitstream
 * sent, giving a bit-error count, a bit-error rate and a capacity, which
 * are appended to three result lists. The first exception ends the
 * trials.
 *
 * The network and the clock are parameters: trial i's reply (or the
 * failure to get or decode one) and its duration are given.
 */
module Experiment {
  import opened Common
  import opened Bitstream

  /** The exceptions a trial's arithmetic can raise. */
  datatype Failure = ZeroDivision | NoReply

  /**
   * `sum(a != b for a, b in zip(sent, received))`: positions where the two
   * strings differ, up to the end of the shorter one.
   */
  function Errors(sent: string, received: string): (r: nat)
    ensures r <= |sent| && r <= |received|
  {
    if sent == [] || received == [] then 0
    else (if sent[0] != received[0] then 1 else 0) + Errors(sent[1..], received[1..])
  }

  /** The positions `zip` compares. */
  function Compared(sent: string, received: string): nat
  {
    if |sent| <= |received| then |sent| else |received|
  }

  /** The error count is zero exactly when the compared prefixes agree. */
  lemma {:induction false} NoErrorsIffPrefixesAgree(sent: string, received: string)
    ensures var n := Compared(sent, received);
      Errors(sent, received) == 0 <==> sent[..n] == received[..n]
  {
    if sent != [] && received != [] {
      var n := Compared(sent, received);
      NoErrorsIffPrefixesAgree(sent[1..], received[1..]);
      assert sent[..n] == [sent[0]] + sent[1..][..n - 1];
      assert received[..n] == [received[0]] + received[1..][..n - 1];
    }
  }

  /** Comparing is symmetric. */
  lemma {:induction false} ErrorsSymmetric(sent: string, received: string)
    ensures Errors(sent, received) == Errors(received, sent)
  {
    if sent != [] && received != [] {
      ErrorsSymmetric(sent[1..], received[1..]);
    }
  }

  /** Every compared position that differs is one error: the count is at least one when some position differs. */
  lemma {:induction false} DifferenceCounts(sent: string, received: string, i: nat)
    requires i < |sent| && i < |received| && sent[i] != received[i]
    ensures Errors(sent, received) >= 1
  {
    if i > 0 {
      DifferenceCounts(sent[1..], received[1..], i - 1);
    }
  }

  /** `errors / len(sent_bits)`, which raises when nothing was sent. */
  function BitErrorRate(sent: string, received: string): (r: Result<real, Failure>)
    ensures r.Err? <==> sent == []
    ensures r.Ok? ==> 0.0 <= r.value <= 1.0
    ensures r.Ok? ==> (r.value == 0.0 <==> Errors(sent, received) == 0)
  {
    if sent == [] then Err(ZeroDivision)
    else Ok(Errors(sent, received) as real / |sent| as real)
  }

  /** `(len(received_bits) - errors) / total_time`, which raises on a zero duration. */
  function Capacity(sent: string, received: string, totalTime: real): (r: Result<real, Failure>)
    ensures r.Err? <==> totalTime == 0.0
    ensures r.Ok? && totalTime > 0.0 ==> r.value >= 0.0
    ensures r.Ok? ==> r.value * totalTime == (|received| - Errors(sent, received)) as real
  {
    if totalTime == 0.0 then Err(ZeroDivision)
    else Ok((|received| - Errors(sent, received)) as real / totalTime)
  }

  /** The three numbers one completed trial appends. */
  datatype Metrics = Metrics(ber: real, capacity: real, time: real)

  /** One trial's outcome: its metrics, or the exception that ends the experiment. */
  function Trial(bitstream: string, reply: Option<string>, totalTime: real): (r: Result<Metrics, Failure>)
    ensures r.Ok? <==> reply.Some? && bitstream != [] && totalTime != 0.0
    ensures r.Ok? ==> 0.0 <= r.value.ber <= 1.0 && r.value.time == totalTime
  {
    match reply
    case None => Err(NoReply)
    case Some(received) =>
      match BitErrorRate(bitstream, received)
      case Err(e) => Err(e)
      case Ok(ber) =>
        match Capacity(bitstream, received, totalTime)
        case Err(e) => Err(e)
        case Ok(capacity) => Ok(Metrics(ber, capacity, totalTime))
  }

  const Trials := 100

  /** The number of trials that complete before the first failing one. */
  function Completed(bitstream: string, replies: seq<Option<string>>, times: seq<real>): (k: nat)
    requires |replies| == |times|
    ensures k <= |replies|
    ensures forall i :: 0 <= i < k ==> Trial(bitstream, replies[i], times[i]).Ok?
    ensures k < |replies| ==> Trial(bitstream, replies[k], times[k]).Err?
  {
    if replies == [] then 0
    else if Trial(bitstream, replies[0], times[0]).Err? then 0
    else 1 + Completed(bitstream, replies[1..], times[1..])
  }

  /**
   * The trial loop: `ber_list`, `capacity_list` and `transmission_times`
   * receive one entry per completed trial; the first exception stops it.
   */
  method RunTrials(message: string, replies: seq<Option<string>>, times: seq<real>)
    returns (berList: seq<real>, capacityList: seq<real>, transmissionTimes: seq<real>, failed: bool)
    requires |replies| == Trials && |times| == Trials
    ensures |berList| == |capacityList| == |transmissionTimes|
    ensures var bitstream := CreateBitstream(message);
      |berList| == Completed(bitstream, replies, times)
      && (failed <==> |berList| < Trials)
      && forall i :: 0 <= i < |berList| ==>
           Trial(bitstream, replies[i], times[i]) == Ok(Metrics(berList[i], capacityList[i], transmissionTimes[i]))
    ensures forall i :: 0 <= i < |berList| ==> 0.0 <= berList[i] <= 1.0
  {
    berList, capacityList, transmissionTimes, failed := [], [], [], false;
    var i := 0;
    while i < Trials
      invariant 0 <= i <= Trials
      invariant |berList| == |capacityList| == |transmissionTimes| == i
      invariant forall k :: 0 <= k < i ==>
        Trial(CreateBitstream(message), replies[k], times[k])
          == Ok(Metrics(berList[k], capacityList[k], transmissionTimes[k]))
    {
      var bitstream := CreateBitstream(message);
      var outcome := Trial(bitstream, replies[i], times[i]);
      if outcome.Err? {
        failed := true;
        CompletedIsFirstFailure(bitstream, replies, times, i);
        return;
      }
      berList := berList + [outcome.value.ber];
      capacityList := capacityList + [outcome.value.capacity];
      transmissionTimes := transmissionTimes + [outcome.value.time];
      i := i + 1;
    }
    CompletedIsFirstFailure(CreateBitstream(message), replies, times, i);
  }

  /** Completed counts exactly the leading successful trials. */
  lemma {:induction false} CompletedIsFirstFailure(bitstream: string, replies: seq<Option<string>>, times: seq<real>, i: nat)
    requires |replies| == |times| && i <= |replies|
    requires forall k :: 0 <= k < i ==> Trial(bitstream, replies[k], times[k]).Ok?
    requires i < |replies| ==> Trial(bitstream, replies[i], times[i]).Err?
    ensures Completed(bitstream, replies, times) == i
  {
    if i > 0 {
      CompletedIsFirstFailure(bitstream, replies[1..], times[1..], i - 1);
    }
  }

  /** An empty message gives an empty bitstream, so the first trial divides by zero and no result is kept. */
  lemma EmptyMessageKeepsNothing(replies: seq<Option<string>>, times: seq<real>)
    requires |replies| == |times| && |replies| > 0
    ensures Completed(CreateBitstream(""), replies, times) == 0
  {
  }
}
