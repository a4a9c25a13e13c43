/**
 * The sender's packet schedule (`start_covert_channel_sender`, and the
 * same loops in the phase-2 experiment sender): every bit of the
 * bitstream is sent as `bit_repeat_len` packets, and each packet is
 * followed by a pause of `zero_bit_delay` for a '0' and `one_bit_delay`
 * for a '1'. Sockets and `time.sleep` are replaced by the list of
 * (bit, pause) pairs the loops go through, in order.
 */
module Sender {
  import opened Bitstream

  /** One datagram: the bit it stands for and the pause that follows it. */
  datatype Send = Send(bit: char, pause: real)

  /** The `BIT_DELAY` table. */
  function BitDelay(bit: char, zeroBitDelay: real, oneBitDelay: real): (r: real)
    requires IsDigit(bit)
    ensures r == zeroBitDelay || r == oneBitDelay
    ensures r == zeroBitDelay <== bit == '0'
    ensures r == oneBitDelay <== bit == '1'
  {
    if bit == '0' then zeroBitDelay else oneBitDelay
  }

  /** Python's `range(n)` runs max(n, 0) times. */
  function Repeats(bitRepeatLen: int): nat
  {
    if bitRepeatLen > 0 then bitRepeatLen else 0
  }

  function Copies(p: Send, n: nat): (r: seq<Send>)
    ensures |r| == n && forall k :: 0 <= k < n ==> r[k] == p
  {
    if n == 0 then [] else Copies(p, n - 1) + [p]
  }

  /** The packets sent for one bit. */
  function Burst(bit: char, bitRepeatLen: int, zeroBitDelay: real, oneBitDelay: real): seq<Send>
    requires IsDigit(bit)
  {
    Copies(Send(bit, BitDelay(bit, zeroBitDelay, oneBitDelay)), Repeats(bitRepeatLen))
  }

  /** The packets sent for a bitstream, bit after bit. */
  function Schedule(bits: string, bitRepeatLen: int, zeroBitDelay: real, oneBitDelay: real): seq<Send>
    requires IsBinary(bits)
  {
    if bits == [] then []
    else
      Schedule(bits[..|bits| - 1], bitRepeatLen, zeroBitDelay, oneBitDelay)
        + Burst(bits[|bits| - 1], bitRepeatLen, zeroBitDelay, oneBitDelay)
  }

  /** `bit_repeat_len` packets per bit, so len(bitstream)·bit_repeat_len packets in all. */
  lemma {:induction false} ScheduleLength(bits: string, bitRepeatLen: int, zeroBitDelay: real, oneBitDelay: real)
    requires IsBinary(bits)
    ensures |Schedule(bits, bitRepeatLen, zeroBitDelay, oneBitDelay)| == |bits| * Repeats(bitRepeatLen)
  {
    if bits != [] {
      var n, r := |bits|, Repeats(bitRepeatLen);
      ScheduleLength(bits[..n - 1], bitRepeatLen, zeroBitDelay, oneBitDelay);
      assert (n - 1) * r + r == n * r;
    }
  }

  /** Packet q·bit_repeat_len + d, for d < bit_repeat_len, belongs to bit q and pauses for that bit's delay. */
  lemma {:induction false} ScheduleAt(bits: string, bitRepeatLen: int, zeroBitDelay: real, oneBitDelay: real, q: nat, d: nat)
    requires IsBinary(bits) && q < |bits| && d < bitRepeatLen
    ensures q * bitRepeatLen + d < |Schedule(bits, bitRepeatLen, zeroBitDelay, oneBitDelay)|
    ensures Schedule(bits, bitRepeatLen, zeroBitDelay, oneBitDelay)[q * bitRepeatLen + d]
            == Send(bits[q], BitDelay(bits[q], zeroBitDelay, oneBitDelay))
  {
    var r := bitRepeatLen;
    var n := |bits|;
    var front := bits[..n - 1];
    ScheduleLength(bits, r, zeroBitDelay, oneBitDelay);
    ScheduleLength(front, r, zeroBitDelay, oneBitDelay);
    MulMonotone(q + 1, n, r);
    if q < n - 1 {
      MulMonotone(q + 1, n - 1, r);
      ScheduleAt(front, r, zeroBitDelay, oneBitDelay, q, d);
      assert front[q] == bits[q];
    } else {
      assert q * r + d - (n - 1) * r == d;
    }
  }

  lemma MulMonotone(a: nat, b: nat, r: nat)
    requires a <= b
    ensures a * r <= b * r
  {
    assert b * r == a * r + (b - a) * r;
  }

  /** No packet of `s` asks for a negative pause. */
  predicate NoNegativePause(s: seq<Send>)
  {
    forall k :: 0 <= k < |s| ==> s[k].pause >= 0.0
  }

  /**
   * The packets that go out when `time.sleep` raises on a negative pause: each
   * packet is sent before its pause, so the first packet with a negative pause
   * is the last one sent.
   */
  function Delivered(s: seq<Send>): (r: seq<Send>)
    ensures |r| <= |s|
  {
    if s == [] then []
    else if s[0].pause < 0.0 then [s[0]]
    else [s[0]] + Delivered(s[1..])
  }

  /**
   * What goes out is a prefix of the schedule: all of it when no pause is
   * negative, and otherwise up to and including the first negative pause.
   */
  lemma {:induction false} DeliveredPrefix(s: seq<Send>)
    ensures var r := Delivered(s);
            && r == s[..|r|]
            && (NoNegativePause(s) ==> r == s)
            && (r != s ==> r != [] && r[|r| - 1].pause < 0.0 && NoNegativePause(r[..|r| - 1]))
  {
    if s != [] && s[0].pause >= 0.0 {
      var rest := Delivered(s[1..]);
      DeliveredPrefix(s[1..]);
      assert NoNegativePause(s) ==> NoNegativePause(s[1..]);
      assert Delivered(s) == [s[0]] + rest;
      assert s == [s[0]] + s[1..];
      assert rest != [] ==> ([s[0]] + rest)[..|rest|] == [s[0]] + rest[..|rest| - 1];
    }
  }

  /** A prefix sent without a negative pause is sent in full before the rest. */
  lemma {:induction false} DeliveredAppend(a: seq<Send>, b: seq<Send>)
    requires NoNegativePause(a)
    ensures Delivered(a + b) == a + Delivered(b)
  {
    if a != [] {
      var ab := a + b;
      assert ab[0] == a[0] && ab[0].pause >= 0.0;
      assert ab[1..] == a[1..] + b;
      assert NoNegativePause(a[1..]);
      DeliveredAppend(a[1..], b);
      calc {
        Delivered(ab);
        [a[0]] + Delivered(ab[1..]);
        [a[0]] + (a[1..] + Delivered(b));
        { assert a == [a[0]] + a[1..]; }
        a + Delivered(b);
      }
    } else {
      assert a + b == b;
    }
  }

  /** A schedule is the schedule of its first bits, then that of the rest. */
  lemma {:induction false} ScheduleSplit(bits: string, i: nat, bitRepeatLen: int, zeroBitDelay: real, oneBitDelay: real)
    requires IsBinary(bits) && i <= |bits|
    ensures Schedule(bits, bitRepeatLen, zeroBitDelay, oneBitDelay)
            == Schedule(bits[..i], bitRepeatLen, zeroBitDelay, oneBitDelay)
               + Schedule(bits[i..], bitRepeatLen, zeroBitDelay, oneBitDelay)
    decreases |bits| - i
  {
    if i < |bits| {
      var n := |bits|;
      ScheduleSplit(bits[..n - 1], if i < n then i else n - 1, bitRepeatLen, zeroBitDelay, oneBitDelay);
      assert bits[..n - 1][..i] == bits[..i];
      assert bits[i..][..|bits[i..]| - 1] == bits[..n - 1][i..];
      assert bits[i..][|bits[i..]| - 1] == bits[n - 1];
    } else {
      assert bits[..i] == bits;
      assert bits[i..] == [];
    }
  }

  /**
   * The sending loops: the bitstream is built from the message, then each bit
   * is sent `bit_repeat_len` times with its pause after every packet. A negative
   * pause makes `time.sleep` raise, which ends the loops after that packet.
   */
  method SendMessage(message: string, bitRepeatLen: int, zeroBitDelay: real, oneBitDelay: real)
    returns (bitstream: string, sent: seq<Send>, raised: bool)
    ensures bitstream == CreateBitstream(message)
    ensures sent == Delivered(Schedule(bitstream, bitRepeatLen, zeroBitDelay, oneBitDelay))
    ensures raised <==> !NoNegativePause(Schedule(bitstream, bitRepeatLen, zeroBitDelay, oneBitDelay))
  {
    bitstream := CreateBitstream(message);
    sent, raised := [], false;
    var i := 0;
    while i < |bitstream|
      invariant 0 <= i <= |bitstream|
      invariant sent == Schedule(bitstream[..i], bitRepeatLen, zeroBitDelay, oneBitDelay)
      invariant NoNegativePause(sent)
    {
      var bit := bitstream[i];
      var packet := Send(bit, BitDelay(bit, zeroBitDelay, oneBitDelay));
      if bitRepeatLen > 0 && packet.pause < 0.0 {
        Interrupted(bitstream, i, bitRepeatLen, zeroBitDelay, oneBitDelay);
        sent, raised := sent + [packet], true;
        return;
      }
      var burst := SendBurst(packet, bitRepeatLen);
      BurstKeepsPauses(sent, packet, Repeats(bitRepeatLen));
      sent := sent + burst;
      ScheduleStep(bitstream, i, bitRepeatLen, zeroBitDelay, oneBitDelay);
      i := i + 1;
    }
    assert bitstream[..i] == bitstream;
    DeliveredPrefix(sent);
  }

  /** The inner loop: `bit_repeat_len` copies of one bit's packet. */
  method SendBurst(packet: Send, bitRepeatLen: int) returns (burst: seq<Send>)
    ensures burst == Copies(packet, Repeats(bitRepeatLen))
  {
    burst := [];
    var j := 0;
    while j < bitRepeatLen
      invariant j <= Repeats(bitRepeatLen)
      invariant burst == Copies(packet, j)
    {
      burst := burst + [packet];
      j := j + 1;
    }
  }

  lemma BurstKeepsPauses(sent: seq<Send>, packet: Send, n: nat)
    requires NoNegativePause(sent) && (n > 0 ==> packet.pause >= 0.0)
    ensures NoNegativePause(sent + Copies(packet, n))
  {
    var all := sent + Copies(packet, n);
    forall k | 0 <= k < |all|
      ensures all[k].pause >= 0.0
    {
      if k >= |sent| {
        assert all[k] == Copies(packet, n)[k - |sent|];
      }
    }
  }

  /** The first packet of a bit whose pause is negative is the last one delivered. */
  lemma Interrupted(bits: string, i: nat, bitRepeatLen: int, zeroBitDelay: real, oneBitDelay: real)
    requires IsBinary(bits) && i < |bits| && bitRepeatLen > 0
    requires BitDelay(bits[i], zeroBitDelay, oneBitDelay) < 0.0
    requires NoNegativePause(Schedule(bits[..i], bitRepeatLen, zeroBitDelay, oneBitDelay))
    ensures Delivered(Schedule(bits, bitRepeatLen, zeroBitDelay, oneBitDelay))
            == Schedule(bits[..i], bitRepeatLen, zeroBitDelay, oneBitDelay)
               + [Send(bits[i], BitDelay(bits[i], zeroBitDelay, oneBitDelay))]
    ensures !NoNegativePause(Schedule(bits, bitRepeatLen, zeroBitDelay, oneBitDelay))
  {
    var front := Schedule(bits[..i], bitRepeatLen, zeroBitDelay, oneBitDelay);
    var rest := Schedule(bits[i..], bitRepeatLen, zeroBitDelay, oneBitDelay);
    ScheduleSplit(bits, i, bitRepeatLen, zeroBitDelay, oneBitDelay);
    ScheduleAt(bits[i..], bitRepeatLen, zeroBitDelay, oneBitDelay, 0, 0);
    assert bits[i..][0] == bits[i];
    DeliveredAppend(front, rest);
    assert (front + rest)[|front|] == rest[0];
  }

  lemma ScheduleStep(bits: string, i: nat, bitRepeatLen: int, zeroBitDelay: real, oneBitDelay: real)
    requires IsBinary(bits) && i < |bits|
    ensures Schedule(bits[..i + 1], bitRepeatLen, zeroBitDelay, oneBitDelay)
            == Schedule(bits[..i], bitRepeatLen, zeroBitDelay, oneBitDelay)
               + Burst(bits[i], bitRepeatLen, zeroBitDelay, oneBitDelay)
  {
    assert bits[..i + 1][..i] == bits[..i];
  }
}
