/**
 What stands on the wire, byte for byte, in a message that is encoded (sections 6 and 15
 of RFC 5389), and exactly which bytes are accepted.
 */
module StunWire {
  import opened Prelude
  import opened Codec
  import opened Framed
  import opened Net
  import opened StunAttrs
  import opened StunMessage

  /** Class and method of a message. */
  function TypeBytes(t: MessageType): Bytes {
    match t
    case BindingRequest => [0x00, 0x01]
    case BindingResponse => [0x01, 0x01]
    case BindingError => [0x01, 0x11]
  }

  function AttrType(a: Attribute): u16 {
    match a
    case MappedAddress(_) => 0x0001
    case XorMappedAddress(_) => 0x0020
    case ErrorCode(_, _) => 0x0009
    case Software(_) => 0x8022
    case Unknown(t, _) => t
  }

  /** A message starts with its type, the length of what follows the header, the magic
      cookie and the transaction id; the attributes follow one behind the other. */
  lemma HeaderBytes(m: StunMessage)
    requires Encode(m).Some?
    ensures var b := Encode(m).value;
            && |b| >= 20 && b[0..2] == TypeBytes(m.msgType)
            && FromBe16(b[2], b[3]) == |b| - 20
            && b[4..8] == [0x21, 0x12, 0xA4, 0x42] && b[8..20] == m.txn
            && EncodeAttrs(m.attrs, m.txn) == Some(b[20..])
  {
    var body := EncodeAttrs(m.attrs, m.txn).value;
    HeaderFields(m.msgType, |body|, m.txn, body);
    TypeIs(m.msgType, |body|, m.txn, body);
  }

  lemma TypeIs(t: MessageType, length: u16, txn: TransactionId, body: Bytes)
    ensures (Header(t, length, txn) + body)[0..2] == TypeBytes(t)
  {
  }

  /** An attribute starts with its type and the length of its value without padding; the
      value follows, and zeros up to the next multiple of four. */
  lemma AttrBytes(a: Attribute, txn: TransactionId)
    requires EncodeAttr(a, txn).Some?
    ensures var b, value := EncodeAttr(a, txn).value, ValueOf(a, txn);
            && |b| % 4 == 0 && 4 + |value| <= |b| < 8 + |value|
            && FromBe16(b[0], b[1]) == AttrType(a) && FromBe16(b[2], b[3]) == |value|
            && b[4..4 + |value|] == value
            && forall i | 4 + |value| <= i < |b| :: b[i] == 0
  {
    var value := ValueOf(a, txn);
    var b := EncodeAttr(a, txn).value;
    assert b + [] == b;
    TlvFields(TypeOf(a), value, []);
    PaddingLast(Be16(TypeOf(a)) + Be16(|value|), value, Padding(|value|));
  }

  lemma PaddingLast(head: Bytes, value: Bytes, padding: Bytes)
    requires |head| == 4 && forall i | 0 <= i < |padding| :: padding[i] == 0
    ensures forall i | 4 + |value| <= i < 4 + |value| + |padding| :: (head + value + padding)[i] == 0
  {
  }

  /** An address value: a zero, the family, the port and the octets. */
  lemma AddressBytes(sa: SocketAddr)
    ensures var v := ValueOf(MappedAddress(sa), seq(12, _ => 0));
            && |v| == (if sa.ip.V4? then 8 else 20)
            && v[0] == 0 && v[1] == (if sa.ip.V4? then 1 else 2)
            && FromBe16(v[2], v[3]) == sa.port
            && v[4..] == if sa.ip.V4? then sa.ip.v4 else sa.ip.v6
  {
    Be16RoundTrip(sa.port);
    var v := EncodeAddress(sa);
    assert v[2] == Be16(sa.port)[0] && v[3] == Be16(sa.port)[1];
  }

  /** Exactly the values of the right length for their family are addresses, and what is
      read from one stands in its bytes. */
  lemma AddressAcceptedIff(v: Bytes)
    ensures DecodeAddress(v).Some? <==> (|v| == 8 && v[1] == 1) || (|v| == 20 && v[1] == 2)
    ensures DecodeAddress(v).Some? ==>
              var sa := DecodeAddress(v).value;
              && (sa.ip.V4? <==> v[1] == 1) && sa.port == FromBe16(v[2], v[3])
              && v[4..] == if sa.ip.V4? then sa.ip.v4 else sa.ip.v6
  {
    if |v| == 8 {
      assert v[4..] == v[4..8];
    } else if |v| == 20 {
      assert v[4..] == v[4..20];
    }
  }

  /** An error value: two zeros, the hundreds, the rest of the code, and the reason. */
  lemma ErrorBytes(code: u16, reason: Bytes, txn: TransactionId)
    requires code < 800
    ensures var v := ValueOf(ErrorCode(code, reason), txn);
            && |v| == 4 + |reason| && v[0] == 0 && v[1] == 0
            && v[2] == code / 100 && v[3] == code % 100 && v[4..] == reason
  {
  }

  /** Only values that are no address, and error values without a code, are refused; any
      other is read as an attribute of its type. */
  lemma ValueRefusedIff(lossy: Lossy, txn: TransactionId, t: u16, v: Bytes)
    ensures FromValue(lossy, txn, t, v).None? <==>
            || ((t == 0x0001 || t == 0x0020) && DecodeAddress(v).None?)
            || (t == 0x0009 && |v| < 4)
    ensures FromValue(lossy, txn, t, v).Some? ==> AttrType(FromValue(lossy, txn, t, v).value) == t
    ensures t == 0x0009 && |v| >= 4 ==> FromValue(lossy, txn, t, v) == Some(ErrorCode(v[2] as int % 8 * 100 + v[3] as int, lossy(v[4..])))
  {
  }

  /** An attribute is found exactly if all its bytes are there, padding included, and its
      value is not refused. */
  lemma AttrAcceptedIff(lossy: Lossy, txn: TransactionId, src: Bytes, n: nat, a: Attribute)
    ensures DecodeAttr(lossy, txn, src) == Item(n, a) <==>
            && |src| >= 4
            && var length := FromBe16(src[2], src[3]);
            && n <= |src| && n % 4 == 0 && 4 + length <= n < 8 + length
            && FromValue(lossy, txn, FromBe16(src[0], src[1]), src[4..4 + length]) == Some(a)
  {
    if |src| >= 4 {
      var length: nat := FromBe16(src[2], src[3]);
      FourMore(Padded(length));
      OneMultiple(4 + Padded(length), n, 4 + length);
    }
  }

  lemma OneMultiple(a: nat, b: nat, low: nat)
    requires a % 4 == 0 && low <= a < low + 4
    ensures b % 4 == 0 && low <= b < low + 4 <==> b == a
  {
  }

  /** The parts of a header that no further byte can mend are sound. */
  predicate HeaderOk(src: Bytes)
    requires |src| >= 20
  {
    && src[0] < 0x40
    && FromBe16(src[2], src[3]) % 4 == 0
    && src[4..8] == [0x21, 0x12, 0xA4, 0x42]
  }

  lemma TopBits(hi: byte, lo: byte)
    ensures FromBe16(hi, lo) >= 0x4000 <==> hi >= 0x40
  {
  }

  lemma KnownType(hi: byte, lo: byte, t: MessageType)
    ensures TypeFromCode(FromBe16(hi, lo)) == Some(t) <==> [hi, lo] == TypeBytes(t)
  {
    assert [hi, lo][0] == hi && [hi, lo][1] == lo;
    assert [hi, lo] == TypeBytes(t) <==> hi == TypeBytes(t)[0] && lo == TypeBytes(t)[1];
  }

  /** More bytes are asked for exactly while the header is incomplete, or sound and the
      body incomplete. */
  lemma WaitsIff(lossy: Lossy, src: Bytes)
    ensures Decode(lossy, src) == NeedMore <==>
            |src| < 20 || (HeaderOk(src) && |src| < 20 + FromBe16(src[2], src[3]))
  {
    if |src| >= 20 {
      TopBits(src[0], src[1]);
    }
  }

  /** A message is accepted exactly if its header is sound, its type is one of the three
      and attributes tile its body; and it is what those bytes say. */
  lemma AcceptedIff(lossy: Lossy, src: Bytes, m: StunMessage)
    requires |src| >= 20
    ensures var length := FromBe16(src[2], src[3]);
            Decode(lossy, src) == Item(20 + length, m) <==>
            && HeaderOk(src) && |src| >= 20 + length
            && src[0..2] == TypeBytes(m.msgType) && src[8..20] == m.txn
            && DecodeAttrs(lossy, m.txn, src[20..20 + length]) == Some(m.attrs)
    ensures Decode(lossy, src).Item? ==> Decode(lossy, src).consumed == 20 + FromBe16(src[2], src[3])
  {
    TopBits(src[0], src[1]);
    KnownType(src[0], src[1], m.msgType);
    assert src[0..2] == [src[0], src[1]];
  }
}
