/**
 The length-prefixed codec (a little-endian u32 length, then the payload) and the
 codecs built on it by serialising a message into the payload. Both meet the codec
 contract of the framed reader and writer; which messages they frame soundly is
 characterised exactly.
 */
module LengthCodec {
  import opened Prelude
  import opened Codec
  import opened Framed

  const MSG_LENGTH_SIZE := 4
  const MAX_BUFFER_SIZE := 4 * 1024 * 1024
  const U32_LIMIT := 0x1_0000_0000

  /** `len as u32`, fixed-size little-endian: what does not fit is cut off. */
  function EncodeU32(len: nat): (b: Bytes)
    ensures |b| == MSG_LENGTH_SIZE
  {
    [len % 256, len / 256 % 256, len / 0x1_0000 % 256, len / 0x100_0000 % 256]
  }

  function DecodeU32(b: Bytes): (len: nat)
    requires |b| >= MSG_LENGTH_SIZE
    ensures len < U32_LIMIT
  {
    b[0] as int + 256 * (b[1] as int) + 0x1_0000 * (b[2] as int) + 0x100_0000 * (b[3] as int)
  }

  /** The digits to base 256 by repeated division. */
  lemma Digits(n: nat)
    ensures n / 0x1_0000 == n / 256 / 256
    ensures n / 0x100_0000 == n / 256 / 256 / 256
    ensures n / U32_LIMIT == n / 256 / 256 / 256 / 256
  {
  }

  lemma FourDigits(n: nat, a: nat, b: nat, c: nat, d: nat)
    requires a == n / 256 && b == a / 256 && c == b / 256 && d == c / 256
    ensures n == n % 256 + 256 * (a % 256) + 0x1_0000 * (b % 256) + 0x100_0000 * (c % 256) + U32_LIMIT * d
  {
    assert n == 256 * a + n % 256;
    assert a == 256 * b + a % 256;
    assert b == 256 * c + b % 256;
    assert c == 256 * d + c % 256;
  }

  lemma U32RoundTrip(len: nat)
    ensures DecodeU32(EncodeU32(len)) == len % U32_LIMIT
  {
    var a := len / 256;
    var b := a / 256;
    var c := b / 256;
    Digits(len);
    FourDigits(len, a, b, c, c / 256);
    Remainder(len, DecodeU32(EncodeU32(len)), c / 256);
  }

  lemma Remainder(n: nat, low: nat, high: nat)
    requires n == low + U32_LIMIT * high && low < U32_LIMIT
    ensures low == n % U32_LIMIT
  {
  }

  /** The prefix is little-endian. */
  lemma LittleEndian(b: Bytes)
    requires |b| >= MSG_LENGTH_SIZE
    ensures var n := DecodeU32(b);
            n % 256 == b[0] && n / 256 % 256 == b[1] && n / 0x1_0000 % 256 == b[2] && n / 0x100_0000 == b[3]
  {
    LastDigit(b[0], b[1] as int + 256 * (b[2] as int + 256 * (b[3] as int)));
    LastDigit(b[1], b[2] as int + 256 * (b[3] as int));
    LastDigit(b[2], b[3]);
    Digits(DecodeU32(b));
  }

  lemma LastDigit(digit: byte, higher: nat)
    ensures (digit + 256 * higher) % 256 == digit && (digit + 256 * higher) / 256 == higher
  {
  }

  function Encode(max: nat, src: Bytes): Option<Bytes> {
    if |src| > max then None else Some(EncodeU32(|src|) + src)
  }

  function Decode(max: nat, src: Bytes): Decoded<Bytes> {
    if |src| < MSG_LENGTH_SIZE then NeedMore
    else
      var length := DecodeU32(src);
      if length > max then Bad
      else if |src| - MSG_LENGTH_SIZE >= length then
        Item(length + MSG_LENGTH_SIZE, src[MSG_LENGTH_SIZE..length + MSG_LENGTH_SIZE])
      else NeedMore
  }

  function Of(max: nat): Codec<Bytes> {
    Codec(src => Encode(max, src), src => Decode(max, src))
  }

  lemma IsStable(max: nat)
    ensures Stable(Of(max))
  {
    forall b: Bytes, ext: Bytes ensures Steady(Of(max), b, ext) {
      if |b| >= MSG_LENGTH_SIZE {
        assert DecodeU32(b + ext) == DecodeU32(b);
        var n := DecodeU32(b) + MSG_LENGTH_SIZE;
        if n <= |b| {
          assert (b + ext)[MSG_LENGTH_SIZE..n] == b[MSG_LENGTH_SIZE..n];
        }
      }
    }
  }

  /** A payload survives framing exactly when it is within the limit of the codec and
      its length fits the u32 prefix. */
  lemma FrameableIff(max: nat, m: Bytes)
    ensures Frameable(Of(max), m) <==> |m| <= max && |m| < U32_LIMIT
    ensures Exact(Of(max), m) <==> Frameable(Of(max), m)
  {
    IsStable(max);
    StableExactIff(Of(max), m);
    FrameDecodesIff(max, m);
  }

  lemma FrontReads(front: Bytes, m: Bytes)
    requires |front| == MSG_LENGTH_SIZE
    ensures DecodeU32(front + m) == DecodeU32(front)
  {
  }

  lemma Reduced(n: nat, low: nat)
    requires low == n % U32_LIMIT
    ensures if n < U32_LIMIT then low == n else low < n
  {
  }

  /** The prefix of a frame is the length of its payload, if that fits, and less if not. */
  lemma PrefixReads(m: Bytes)
    ensures var length := DecodeU32(EncodeU32(|m|) + m);
            if |m| < U32_LIMIT then length == |m| else length < |m|
  {
    U32RoundTrip(|m|);
    FrontReads(EncodeU32(|m|), m);
    Reduced(|m|, DecodeU32(EncodeU32(|m|) + m));
  }

  lemma FrameDecodesIff(max: nat, m: Bytes)
    ensures Frameable(Of(max), m) <==> |m| <= max && |m| < U32_LIMIT
  {
    if |m| <= max {
      var frame := EncodeU32(|m|) + m;
      assert Frame(Of(max), m) == frame;
      PrefixReads(m);
      assert frame[MSG_LENGTH_SIZE..|m| + MSG_LENGTH_SIZE] == m;
    }
  }

  /** Exactly which bytes are refused and for which more are awaited; the payload found is
      as long as the prefix says and follows it. */
  lemma DecodesIff(max: nat, src: Bytes, n: nat, m: Bytes)
    ensures Decode(max, src) == Bad <==> |src| >= 4 && DecodeU32(src) > max
    ensures Decode(max, src) == NeedMore <==> |src| < 4 || (DecodeU32(src) <= max && |src| < 4 + DecodeU32(src))
    ensures Decode(max, src) == Item(n, m) <==>
            4 <= n <= |src| && DecodeU32(src) == |m| <= max && n == 4 + |m| && src[4..n] == m
  {
  }

  /** Every payload the codec accepts survives framing. */
  ghost predicate SoundOnAccepted(max: nat) {
    forall m: Bytes :: Encode(max, m).Some? ==> Frameable(Of(max), m)
  }

  /** That is so iff the limit is below 2^32, as the default of 4 MB is. */
  lemma SoundIffLimitFits(max: nat)
    ensures SoundOnAccepted(max) <==> max < U32_LIMIT
  {
    if max < U32_LIMIT {
      forall m: Bytes | Encode(max, m).Some? ensures Frameable(Of(max), m) {
        FrameableIff(max, m);
      }
    } else {
      TooLongIsUnsound(max, seq(U32_LIMIT, _ => 0));
    }
  }

  lemma TooLongIsUnsound(max: nat, m: Bytes)
    requires U32_LIMIT <= |m| <= max
    ensures !SoundOnAccepted(max)
  {
    FrameableIff(max, m);
    assert Encode(max, m).Some?;
  }

  /** `Codec::encode`: appends to the buffer. Returns the length of the whole buffer,
      not of the frame, when something was already in it. */
  method EncodeInto(max: nat, src: Bytes, dst: Buffer) returns (r: Option<nat>)
    modifies dst
    ensures Encode(max, src).None? ==> r == None && dst.data == old(dst.data)
    ensures Encode(max, src).Some? ==> r == Some(|dst.data|) && dst.data == old(dst.data) + Encode(max, src).value
  {
    if |src| > max {
      return None;
    }
    dst.ExtendFromSlice(EncodeU32(|src|));
    dst.ExtendFromSlice(src);
    Regroup(old(dst.data), EncodeU32(|src|), src);
    return Some(|dst.data|);
  }

  // ---- serialised messages on top of it ----

  /** A serialiser. `read` ignores bytes behind the value, as bincode does. */
  datatype Serde<!M> = Serde(write: M -> Option<Bytes>, read: Bytes -> Option<M>)

  ghost predicate RoundTrips<M>(s: Serde<M>, m: M) {
    s.write(m).Some? && s.read(s.write(m).value) == Some(m)
  }

  /** `PeerNetMsgCodec` and `KadNetMsgCodec`: the serialised message as payload of
      the length codec with its default limit. */
  function Serialised<M>(s: Serde<M>): Codec<M> {
    Codec(
      (m: M) =>
        var payload := s.write(m);
        if payload.None? then None else Encode(MAX_BUFFER_SIZE, payload.value),
      (src: Bytes) =>
        match Decode(MAX_BUFFER_SIZE, src)
        case NeedMore => NeedMore
        case Bad => Bad
        case Item(n, payload) =>
          var m := s.read(payload);
          if m.None? then Bad else Item(n, m.value))
  }

  lemma SerialisedIsStable<M>(s: Serde<M>)
    ensures Stable(Serialised(s))
  {
    IsStable(MAX_BUFFER_SIZE);
    forall b: Bytes, ext: Bytes ensures Steady(Serialised(s), b, ext) {
      assert Steady(Of(MAX_BUFFER_SIZE), b, ext);
    }
  }

  /** A frame whose payload does not read back is refused; every other answer is that of
      the length codec, with the message in place of the payload. */
  lemma SerialisedDecodes<M>(s: Serde<M>, src: Bytes)
    ensures var d, raw := Serialised(s).decode(src), Decode(MAX_BUFFER_SIZE, src);
            && (d == NeedMore <==> raw == NeedMore)
            && (d == Bad <==> raw == Bad || (raw.Item? && s.read(raw.msg).None?))
            && (d.Item? ==> raw.Item? && d.consumed == raw.consumed && s.read(raw.msg) == Some(d.msg))
  {
  }

  /** A message keeps the framing contract exactly when its serialised form reads back
      and fits. */
  lemma SerialisedFrames<M>(s: Serde<M>, m: M)
    ensures Exact(Serialised(s), m) <==> RoundTrips(s, m) && |s.write(m).value| <= MAX_BUFFER_SIZE
  {
    SerialisedIsStable(s);
    StableExactIff(Serialised(s), m);
    if s.write(m).Some? {
      FrameDecodesIff(MAX_BUFFER_SIZE, s.write(m).value);
    }
  }
}
