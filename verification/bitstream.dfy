/**
 * The message encoder shared by both sender scripts
 * (`create_bitstream_from_message`): a message made only of the
 * characters '0' and '1' is already a bitstream and is sent as it is;
 * any other message becomes the concatenation of its character codes,
 * each written in binary and zero-padded to at least eight digits
 * (Python's `format(ord(c), '08b')`).
 *
 * `Decode` is the reference reader used to state the round trip: it reads
 * eight-digit groups back as numbers.
 */
module Bitstream {

  predicate IsDigit(c: char)
  {
    c == '0' || c == '1'
  }

  /** Every character is '0' or '1'; the empty string qualifies. */
  predicate IsBinary(s: string)
  {
    forall i :: 0 <= i < |s| ==> IsDigit(s[i])
  }

  function Digit(b: nat): char
    requires b < 2
  {
    if b == 0 then '0' else '1'
  }

  /** 2 to the power k. */
  function Pow2(k: nat): (r: nat)
    ensures r >= 1
  {
    if k == 0 then 1 else 2 * Pow2(k - 1)
  }

  /** The number a string of binary digits denotes, most significant digit first. */
  function Value(s: string): (r: nat)
    ensures r < Pow2(|s|)
  {
    if s == [] then 0
    else 2 * Value(s[..|s| - 1]) + (if s[|s| - 1] == '1' then 1 else 0)
  }

  /** Python's `format(n, 'b')`: the shortest binary numeral of n ("0" for zero). */
  function Binary(n: nat): (r: string)
    ensures IsBinary(r) && |r| >= 1
    ensures n >= 1 ==> r[0] == '1'
  {
    if n < 2 then [Digit(n)] else Binary(n / 2) + [Digit(n % 2)]
  }

  function Zeros(k: nat): (r: string)
    ensures |r| == k && IsBinary(r)
    ensures forall i :: 0 <= i < k ==> r[i] == '0'
  {
    if k == 0 then [] else Zeros(k - 1) + ['0']
  }

  /** Python's `format(n, '08b')`: the binary numeral of n, left-padded with zeros to eight digits. */
  function Format08b(n: nat): (r: string)
    ensures IsBinary(r) && |r| >= 8
  {
    var b := Binary(n);
    if |b| < 8 then Zeros(8 - |b|) + b else b
  }

  /** The binary numeral reads back as the number it was written from. */
  lemma {:induction false} ValueOfBinary(n: nat)
    ensures Value(Binary(n)) == n
  {
    if n >= 2 {
      var b := Binary(n / 2) + [Digit(n % 2)];
      assert b[..|b| - 1] == Binary(n / 2);
      ValueOfBinary(n / 2);
    }
  }

  /** Leading zeros do not change the value. */
  lemma {:induction false} ValueIgnoresLeadingZeros(k: nat, s: string)
    ensures Value(Zeros(k) + s) == Value(s)
  {
    if s == [] {
      assert Zeros(k) + s == Zeros(k);
      ZerosHaveNoValue(k);
    } else {
      var t := Zeros(k) + s;
      assert t[..|t| - 1] == Zeros(k) + s[..|s| - 1];
      ValueIgnoresLeadingZeros(k, s[..|s| - 1]);
    }
  }

  lemma {:induction false} ZerosHaveNoValue(k: nat)
    ensures Value(Zeros(k)) == 0
  {
    if k > 0 {
      assert Zeros(k)[..k - 1] == Zeros(k - 1);
      ZerosHaveNoValue(k - 1);
    }
  }

  /** The shortest numeral fits in k digits exactly when n < 2^k. */
  lemma {:induction false} BinaryFits(n: nat, k: nat)
    requires k >= 1
    ensures |Binary(n)| <= k <==> n < Pow2(k)
  {
    if n >= 2 {
      if k == 1 {
        assert Pow2(1) == 2;
      } else {
        BinaryFits(n / 2, k - 1);
      }
    } else {
      PowAtLeastTwo(k);
    }
  }

  lemma {:induction false} PowAtLeastTwo(k: nat)
    requires k >= 1
    ensures Pow2(k) >= 2
  {
    if k > 1 {
      PowAtLeastTwo(k - 1);
    }
  }

  /** Each code reads back from its padded numeral. */
  lemma ValueOfFormat(n: nat)
    ensures Value(Format08b(n)) == n
  {
    var b := Binary(n);
    ValueOfBinary(n);
    if |b| < 8 {
      ValueIgnoresLeadingZeros(8 - |b|, b);
    }
  }

  /** The padded numeral has exactly eight digits iff the code is below 256; larger codes take more. */
  lemma FormatLength(n: nat)
    ensures |Format08b(n)| == 8 <==> n < 256
  {
    BinaryFits(n, 8);
    assert Pow2(8) == 256;
  }

  /** The non-binary branch: every character's padded code, in order. */
  function EncodeChars(m: string): (r: string)
    ensures IsBinary(r)
  {
    if m == [] then [] else Format08b(m[0] as nat) + EncodeChars(m[1..])
  }

  /** `create_bitstream_from_message`. */
  function CreateBitstream(message: string): (r: string)
    ensures IsBinary(r)
    ensures IsBinary(message) ==> r == message
  {
    if IsBinary(message) then message else EncodeChars(message)
  }

  /** Every character has a code below 256 (Latin-1 text). */
  predicate Narrow(m: string)
  {
    forall i :: 0 <= i < |m| ==> (m[i] as int) < 256
  }

  /** Reads consecutive eight-digit groups back as characters; a shorter tail is dropped. */
  function Decode(s: string): (r: string)
    ensures |r| == |s| / 8 && Narrow(r)
  {
    if |s| < 8 then []
    else
      assert Pow2(8) == 256;
      [Value(s[..8]) as char] + Decode(s[8..])
  }

  /** The encoding of Latin-1 text is eight digits per character. */
  lemma {:induction false} EncodeLength(m: string)
    requires Narrow(m)
    ensures |EncodeChars(m)| == 8 * |m|
  {
    if m != [] {
      FormatLength(m[0] as nat);
      EncodeLength(m[1..]);
    }
  }

  /** Reading eight-digit groups back recovers Latin-1 text. */
  lemma {:induction false} DecodeEncode(m: string)
    requires Narrow(m)
    ensures Decode(EncodeChars(m)) == m
  {
    if m != [] {
      var f := Format08b(m[0] as nat);
      var rest := EncodeChars(m[1..]);
      FormatLength(m[0] as nat);
      ValueOfFormat(m[0] as nat);
      EncodeLength(m[1..]);
      assert (f + rest)[..8] == f;
      assert (f + rest)[8..] == rest;
      DecodeEncode(m[1..]);
    }
  }

  /** Length of the bitstream: unchanged for a binary message, eight digits per character otherwise. */
  lemma CreateBitstreamLength(message: string)
    requires Narrow(message)
    ensures |CreateBitstream(message)| == if IsBinary(message) then |message| else 8 * |message|
  {
    if !IsBinary(message) {
      EncodeLength(message);
    }
  }

  /** A Latin-1 message that is not already binary is recovered from its bitstream. */
  lemma CreateBitstreamRoundTrip(message: string)
    requires Narrow(message) && !IsBinary(message)
    ensures Decode(CreateBitstream(message)) == message
  {
    DecodeEncode(message);
  }
}
