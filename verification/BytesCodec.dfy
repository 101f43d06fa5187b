/**
 The codec without framing: whatever is in the buffer is the next message. It keeps no
 message boundary, and is not stable; what a framed reader over it keeps is the bytes.
 */
module BytesCodec {
  import opened Prelude
  import opened Codec
  import opened Framed

  function Of(max: nat): Codec<Bytes> {
    Codec(
      (m: Bytes) => if |m| > max then None else Some(m),
      (src: Bytes) => if |src| > max then Bad else if src == [] then NeedMore else Item(|src|, src))
  }

  lemma ItemsFit(max: nat)
    ensures Fits(Of(max))
  {
    forall b: Bytes ensures FitsAt(Of(max), b) {
    }
  }

  /** Bytes beyond the limit are refused, both ways; any others are the message. */
  lemma RefusedIff(max: nat, b: Bytes)
    ensures Of(max).encode(b).None? <==> |b| > max
    ensures Of(max).decode(b) == Bad <==> |b| > max
    ensures 0 < |b| <= max ==> Of(max).encode(b) == Some(b) && Of(max).decode(b) == Item(|b|, b)
  {
  }

  /** No message keeps the framing contract: one more byte behind it changes the answer. */
  lemma NeverExact(max: nat, m: Bytes)
    ensures !Exact(Of(max), m)
  {
    assert !Decodes(Of(max), m, [0]);
  }

  lemma PiecesAreMessages(max: nat, pieces: seq<Bytes>, yielded: seq<Bytes>)
    requires |pieces| == |yielded| && forall i | 0 <= i < |pieces| :: Piece(Of(max), pieces[i], yielded[i])
    ensures pieces == yielded
  {
    forall i | 0 <= i < |pieces| ensures pieces[i] == yielded[i] {
      assert Piece(Of(max), pieces[i], yielded[i]);
    }
  }

  /** After any reads, failures and cancellations, the messages received, put together,
      are the bytes received up to what is still buffered. */
  lemma BytesComeThrough(max: nat, r: FramedReader<Bytes>)
    requires r.Valid() && r.codec == Of(max)
    ensures r.received == Flat(r.yielded) + r.buffer.data
  {
    PiecesAreMessages(max, r.pieces, r.yielded);
  }
}
