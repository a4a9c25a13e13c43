/**
 * The receiver's bit decoder (the loop of `start_covert_channel_listener`).
 * Every arriving datagram is timestamped; from the second one on, the gap to
 * the previous arrival (the inter-packet delay, IPD) is queued. Once
 * `bit_repeat_len` gaps are queued (`bit_repeat_len - 1` for the very first
 * bit, whose first packet has no predecessor) their mean is compared with
 * `sender_bit_delay + given_delay_threshold`: below gives '0', otherwise
 * '1'. Decoded bits accumulate until `bitstream_len` of them are sent back
 * to the sender and the accumulator is emptied.
 *
 * Sockets and the clock are replaced by the sequence of arrival times; the
 * datagrams sent back are collected in order.
 */
module Receiver {
  import opened Common
  import opened Bitstream
  import opened Statistics

  /** The command-line parameters the decoder uses. */
  datatype Config = Config(senderBitDelay: real, givenDelayThreshold: real, bitRepeatLen: int, bitstreamLen: int)

  /** `ipd_threshold`. */
  function IpdThreshold(c: Config): real
  {
    c.senderBitDelay + c.givenDelayThreshold
  }

  /**
   * The decoder's state between datagrams. Only the newest timestamp of the
   * source's ever-growing `timestamps` list is ever read, so only it is kept.
   */
  datatype Listener = Listener(lastTimestamp: Option<real>, recvTimes: seq<real>, isFirstDataReceived: bool, resultingStream: string)

  const Initial := Listener(None, [], false, "")

  /** What one datagram does: the listener either goes on, possibly replying, or dies on `mean([])`. */
  datatype Step = Crashed | Stepped(next: Listener, reply: Option<string>)

  /** The queued gaps once the gap before `now` is added. */
  function Pending(s: Listener, now: real): seq<real>
  {
    match s.lastTimestamp
    case None => s.recvTimes
    case Some(t) => s.recvTimes + [now - t]
  }

  /** The condition on which a bit is decoded. */
  predicate DecodeDue(c: Config, pending: seq<real>, isFirstDataReceived: bool)
  {
    |pending| >= c.bitRepeatLen || (|pending| >= c.bitRepeatLen - 1 && !isFirstDataReceived)
  }

  /** The bit a non-empty group of gaps stands for. */
  function DecodeBit(c: Config, pending: seq<real>): (bit: char)
    requires pending != []
    ensures IsDigit(bit)
    ensures bit == '0' <==> Mean(pending) < IpdThreshold(c)
  {
    if Mean(pending) < IpdThreshold(c) then '0' else '1'
  }

  /** The number of decoded bits that are sent back at once: `bitstream_len`, at least one. */
  function ReplyLength(c: Config): nat
  {
    if c.bitstreamLen >= 1 then c.bitstreamLen else 1
  }

  /** One iteration of the listening loop, for a datagram arriving at `now`. */
  function OnPacket(c: Config, s: Listener, now: real): Step
  {
    var pending := Pending(s, now);
    if !DecodeDue(c, pending, s.isFirstDataReceived) then
      Stepped(Listener(Some(now), pending, s.isFirstDataReceived, s.resultingStream), None)
    else if pending == [] then
      Crashed
    else
      var stream := s.resultingStream + [DecodeBit(c, pending)];
      if |stream| >= c.bitstreamLen then
        Stepped(Listener(Some(now), [], true, ""), Some(stream))
      else
        Stepped(Listener(Some(now), [], true, stream), None)
  }

  /** The states the loop can be in between datagrams. */
  ghost predicate WellFormed(c: Config, s: Listener)
  {
    && IsBinary(s.resultingStream)
    && |s.resultingStream| < ReplyLength(c)
    && (!s.isFirstDataReceived ==> s.resultingStream == [])
    && (s.lastTimestamp.None? ==> s.recvTimes == [] && !s.isFirstDataReceived)
  }

  /** A gap is queued only once a previous arrival exists, and it is the time since that arrival. */
  lemma GapQueued(c: Config, s: Listener, now: real)
    requires OnPacket(c, s, now).Stepped? && !DecodeDue(c, Pending(s, now), s.isFirstDataReceived)
    ensures var next := OnPacket(c, s, now).next;
      && (s.lastTimestamp.None? ==> next.recvTimes == s.recvTimes)
      && (s.lastTimestamp.Some? ==> next.recvTimes == s.recvTimes + [now - s.lastTimestamp.value])
      && next.lastTimestamp == Some(now)
      && OnPacket(c, s, now).reply.None?
  {
  }

  /**
   * A decode empties the queue, marks the first bit as received and appends
   * exactly one bit to the accumulated stream, which is sent back and
   * emptied once it holds `bitstream_len` bits; the bit is '0' iff the
   * mean gap is below the threshold.
   */
  lemma BitDecoded(c: Config, s: Listener, now: real)
    requires OnPacket(c, s, now).Stepped? && DecodeDue(c, Pending(s, now), s.isFirstDataReceived)
    ensures Pending(s, now) != []
    ensures var st := OnPacket(c, s, now);
      var produced := s.resultingStream + [DecodeBit(c, Pending(s, now))];
      && st.next.recvTimes == [] && st.next.isFirstDataReceived
      && (produced[|produced| - 1] == '0' <==> Mean(Pending(s, now)) < IpdThreshold(c))
      && (if |produced| >= c.bitstreamLen
          then st.reply == Some(produced) && st.next.resultingStream == []
          else st.reply.None? && st.next.resultingStream == produced)
  {
  }

  /** The listener dies exactly on its first datagram, and only when `bit_repeat_len` is at most 1. */
  lemma CrashIff(c: Config, s: Listener, now: real)
    requires WellFormed(c, s)
    ensures OnPacket(c, s, now).Crashed? <==> s.lastTimestamp.None? && c.bitRepeatLen <= 1
  {
  }

  /** Each step keeps the state well formed, never clears the first-bit flag, and replies with exactly `bitstream_len` binary digits. */
  lemma OnPacketPreserves(c: Config, s: Listener, now: real)
    requires WellFormed(c, s) && OnPacket(c, s, now).Stepped?
    ensures var st := OnPacket(c, s, now);
      && WellFormed(c, st.next)
      && (s.isFirstDataReceived ==> st.next.isFirstDataReceived)
      && (st.reply.Some? ==> IsBinary(st.reply.value) && |st.reply.value| == ReplyLength(c))
  {
  }

  /** What the loop has done after a sequence of arrivals: its state, its replies, and whether it died. */
  datatype Trace = Trace(state: Listener, replies: seq<string>, crashed: bool)

  /** The loop's progress after one more datagram; nothing happens once it has died. */
  function Next(c: Config, t: Trace, now: real): Trace
  {
    if t.crashed then t
    else
      match OnPacket(c, t.state, now)
      case Crashed => Trace(t.state, t.replies, true)
      case Stepped(next, reply) => Trace(next, t.replies + (if reply.Some? then [reply.value] else []), false)
  }

  function Run(c: Config, arrivals: seq<real>): Trace
  {
    if arrivals == [] then Trace(Initial, [], false)
    else Next(c, Run(c, arrivals[..|arrivals| - 1]), arrivals[|arrivals| - 1])
  }

  /** Every state reached is well formed and every reply is `bitstream_len` binary digits. */
  lemma {:induction false} RunWellFormed(c: Config, arrivals: seq<real>)
    ensures WellFormed(c, Run(c, arrivals).state)
    ensures forall i :: 0 <= i < |Run(c, arrivals).replies| ==>
      IsBinary(Run(c, arrivals).replies[i]) && |Run(c, arrivals).replies[i]| == ReplyLength(c)
  {
    if arrivals != [] {
      var t := Run(c, arrivals[..|arrivals| - 1]);
      RunWellFormed(c, arrivals[..|arrivals| - 1]);
      if !t.crashed && OnPacket(c, t.state, arrivals[|arrivals| - 1]).Stepped? {
        OnPacketPreserves(c, t.state, arrivals[|arrivals| - 1]);
      }
    }
  }

  /** The loop dies iff at least one datagram arrives and `bit_repeat_len` is at most 1. */
  lemma {:induction false} RunCrashIff(c: Config, arrivals: seq<real>)
    ensures Run(c, arrivals).crashed <==> arrivals != [] && c.bitRepeatLen <= 1
  {
    if arrivals != [] {
      var front := arrivals[..|arrivals| - 1];
      RunCrashIff(c, front);
      RunWellFormed(c, front);
      CrashIff(c, Run(c, front).state, arrivals[|arrivals| - 1]);
      if front != [] && !Run(c, front).crashed {
        RunStarted(c, front);
      }
    }
  }

  /** After the first datagram the newest arrival time is known. */
  lemma {:induction false} RunStarted(c: Config, arrivals: seq<real>)
    requires arrivals != [] && !Run(c, arrivals).crashed
    ensures Run(c, arrivals).state.lastTimestamp == Some(arrivals[|arrivals| - 1])
  {
  }

  function LastOf(timestamps: seq<real>): Option<real>
  {
    if timestamps == [] then None else Some(timestamps[|timestamps| - 1])
  }

  /**
   * The listening loop over a finite sequence of arrival times; it stops
   * when `mean` raises on an empty queue.
   */
  method Listen(c: Config, arrivals: seq<real>) returns (replies: seq<string>, crashed: bool)
    ensures replies == Run(c, arrivals).replies && crashed == Run(c, arrivals).crashed
  {
    var recvTimes: seq<real> := [];
    var timestamps: seq<real> := [];
    var isFirstDataReceived := false;
    var resultingStream := "";
    replies, crashed := [], false;
    var i := 0;
    while i < |arrivals|
      invariant 0 <= i <= |arrivals|
      invariant timestamps == arrivals[..i]
      invariant Run(c, arrivals[..i])
                == Trace(Listener(LastOf(timestamps), recvTimes, isFirstDataReceived, resultingStream), replies, false)
    {
      var now := arrivals[i];
      ghost var before := Listener(LastOf(timestamps), recvTimes, isFirstDataReceived, resultingStream);
      ghost var reply: Option<string> := None;
      timestamps := timestamps + [now];
      if |timestamps| >= 2 {
        var ipd := timestamps[|timestamps| - 1] - timestamps[|timestamps| - 2];
        recvTimes := recvTimes + [ipd];
      }
      assert recvTimes == Pending(before, now);
      if |recvTimes| >= c.bitRepeatLen || (|recvTimes| >= c.bitRepeatLen - 1 && !isFirstDataReceived) {
        isFirstDataReceived := true;
        if recvTimes == [] {
          crashed := true;
          RunCrashed(c, arrivals, i);
          return;
        }
        var avgIpd := Mean(recvTimes);
        var bit := if avgIpd < IpdThreshold(c) then '0' else '1';
        recvTimes := [];
        resultingStream := resultingStream + [bit];
        if |resultingStream| >= c.bitstreamLen {
          if resultingStream != [] {
            replies := replies + [resultingStream];
            reply := Some(resultingStream);
          }
          resultingStream := "";
        }
        assert OnPacket(c, before, now) == Stepped(Listener(Some(now), recvTimes, isFirstDataReceived, resultingStream), reply);
      } else {
        assert OnPacket(c, before, now) == Stepped(Listener(Some(now), recvTimes, isFirstDataReceived, resultingStream), reply);
      }
      RunStepped(c, arrivals, i, Listener(Some(now), recvTimes, isFirstDataReceived, resultingStream), reply);
      i := i + 1;
    }
    assert arrivals[..i] == arrivals;
  }

  /** The run over one more arrival is one more step of the run so far. */
  lemma RunSnoc(c: Config, arrivals: seq<real>, i: nat)
    requires i < |arrivals|
    ensures Run(c, arrivals[..i + 1]) == Next(c, Run(c, arrivals[..i]), arrivals[i])
  {
    assert arrivals[..i + 1][..i] == arrivals[..i];
  }

  /** The run over one more arrival, when that arrival is handled. */
  lemma RunStepped(c: Config, arrivals: seq<real>, i: nat, next: Listener, reply: Option<string>)
    requires i < |arrivals| && !Run(c, arrivals[..i]).crashed
    requires OnPacket(c, Run(c, arrivals[..i]).state, arrivals[i]) == Stepped(next, reply)
    ensures Run(c, arrivals[..i + 1])
            == Trace(next, Run(c, arrivals[..i]).replies + (if reply.Some? then [reply.value] else []), false)
  {
    RunSnoc(c, arrivals, i);
  }

  /** The run over one more arrival, when that arrival kills the listener. */
  lemma RunCrashed(c: Config, arrivals: seq<real>, i: nat)
    requires i < |arrivals| && !Run(c, arrivals[..i]).crashed
    requires OnPacket(c, Run(c, arrivals[..i]).state, arrivals[i]).Crashed?
    ensures Run(c, arrivals).crashed && Run(c, arrivals).replies == Run(c, arrivals[..i]).replies
  {
    RunSnoc(c, arrivals, i);
    CrashIsFinal(c, arrivals, i + 1);
  }

  /** Once dead, the listener stays dead and sends nothing more. */
  lemma {:induction false} CrashIsFinal(c: Config, arrivals: seq<real>, k: nat)
    requires k <= |arrivals| && Run(c, arrivals[..k]).crashed
    ensures Run(c, arrivals) == Run(c, arrivals[..k])
  {
    if k < |arrivals| {
      var front := arrivals[..|arrivals| - 1];
      assert front[..k] == arrivals[..k];
      CrashIsFinal(c, front, k);
    } else {
      assert arrivals[..k] == arrivals;
    }
  }
}
