/**
 STUN attributes (section 15 of RFC 5389): the type-length-value encoding padded to
 four bytes, the address values with and without the XOR of section 15.2, and the
 ERROR-CODE value of section 15.6.

 Text is represented by its UTF-8 bytes. `lossy` stands for `String::from_utf8_lossy`:
 a byte sequence is a string exactly when it leaves it alone.
 */
module StunAttrs {
  import opened Prelude
  import opened Bits
  import opened Codec
  import opened Framed
  import opened Net

  type TransactionId = s: seq<byte> | |s| == 12 witness seq(12, _ => 0)
  type Lossy = Bytes -> Bytes

  datatype Attribute =
    | MappedAddress(addr: SocketAddr)
    | XorMappedAddress(addr: SocketAddr)
    | ErrorCode(code: u16, reason: Bytes)
    | Software(text: Bytes)
    | Unknown(attrType: u16, value: Bytes)

  const ATTR_MAPPED_ADDRESS: u16 := 0x0001
  const ATTR_ERROR_CODE: u16 := 0x0009
  const ATTR_XOR_MAPPED_ADDRESS: u16 := 0x0020
  const ATTR_SOFTWARE: u16 := 0x8022
  const FAMILY_IPV4: byte := 1
  const FAMILY_IPV6: byte := 2
  const U16_MAX := 0xFFFF

  /** 0x2112_A442 in network order, and its upper half. */
  const COOKIE: Octets4 := [0x21, 0x12, 0xA4, 0x42]
  const COOKIE_HIGH: u16 := 0x2112

  /** Big-endian u16. */
  function Be16(n: u16): (b: Bytes)
    ensures |b| == 2
  {
    [n / 256, n % 256]
  }

  function FromBe16(hi: byte, lo: byte): (n: u16)
    ensures n / 256 == hi && n % 256 == lo
  {
    256 * (hi as int) + lo as int
  }

  /** Zero padding up to the next multiple of four. */
  function Padding(len: nat): (b: Bytes)
    ensures |b| < 4 && (len + |b|) % 4 == 0
  {
    seq((4 - len % 4) % 4, _ => 0)
  }

  /** `(len + 3) & !3`. */
  function Padded(len: nat): (n: nat)
    ensures n == len + |Padding(len)| && n % 4 == 0
  {
    (len + 3) / 4 * 4
  }

  lemma FourMore(n: nat)
    requires n % 4 == 0
    ensures (4 + n) % 4 == 0
  {
  }

  // ---- addresses ----

  function XorOctets(octets: seq<byte>, key: seq<byte>): (r: seq<byte>)
    requires |octets| == |key|
    ensures |r| == |octets|
  {
    seq(|octets|, i requires 0 <= i < |octets| => Xor(octets[i], key[i]))
  }

  lemma XorOctetsTwice(octets: seq<byte>, key: seq<byte>)
    requires |octets| == |key|
    ensures XorOctets(XorOctets(octets, key), key) == octets
  {
    forall i | 0 <= i < |octets| ensures XorOctets(XorOctets(octets, key), key)[i] == octets[i] {
      XorTwice(octets[i], key[i]);
    }
  }

  function XorPort(port: u16): u16 {
    PowersUsed();
    XorBits(port, COOKIE_HIGH, 16)
  }

  function XorKey(txn: TransactionId): Octets16 {
    COOKIE + txn
  }

  function XorAddress(sa: SocketAddr, txn: TransactionId): SocketAddr {
    SocketAddr(
      match sa.ip
      case V4(o) => V4(XorOctets(o, COOKIE))
      case V6(o) => V6(XorOctets(o, XorKey(txn))),
      XorPort(sa.port))
  }

  /** XOR-ing an address twice, with the same transaction id, gives it back. */
  lemma XorAddressInvolutive(sa: SocketAddr, txn: TransactionId)
    ensures XorAddress(XorAddress(sa, txn), txn) == sa
  {
    PowersUsed();
    XorInvolutive(sa.port, COOKIE_HIGH, 16);
    match sa.ip
    case V4(o) => XorOctetsTwice(o, COOKIE);
    case V6(o) => XorOctetsTwice(o, XorKey(txn));
  }

  /** The octets are changed in place, one after the other. */
  method XorInPlace(octets: array<byte>, key: seq<byte>)
    requires octets.Length == |key|
    modifies octets
    ensures octets[..] == XorOctets(old(octets[..]), key)
  {
    for i := 0 to octets.Length
      invariant forall j | 0 <= j < i :: octets[j] == Xor(old(octets[j]), key[j])
      invariant forall j | i <= j < octets.Length :: octets[j] == old(octets[j])
    {
      octets[i] := Xor(octets[i], key[i]);
    }
  }

  method XorAddressOf(sa: SocketAddr, txn: TransactionId) returns (r: SocketAddr)
    ensures r == XorAddress(sa, txn)
  {
    var port := XorPort(sa.port);
    match sa.ip {
      case V4(o) =>
        var octets := new byte[4](i requires 0 <= i < 4 => o[i]);
        assert octets[..] == o;
        XorInPlace(octets, COOKIE);
        return SocketAddr(V4(octets[..]), port);
      case V6(o) =>
        var octets := new byte[16](i requires 0 <= i < 16 => o[i]);
        assert octets[..] == o;
        XorInPlace(octets, XorKey(txn));
        return SocketAddr(V6(octets[..]), port);
    }
  }

  function EncodeAddress(sa: SocketAddr): Bytes {
    match sa.ip
    case V4(o) => [0, FAMILY_IPV4] + Be16(sa.port) + o
    case V6(o) => [0, FAMILY_IPV6] + Be16(sa.port) + o
  }

  function DecodeAddress(value: Bytes): Option<SocketAddr> {
    if |value| < 4 then None
    else
      var port := FromBe16(value[2], value[3]);
      if value[1] == FAMILY_IPV4 && |value| == 8 then Some(SocketAddr(V4(value[4..8]), port))
      else if value[1] == FAMILY_IPV6 && |value| == 20 then Some(SocketAddr(V6(value[4..20]), port))
      else None
  }

  lemma AddressRoundTrip(sa: SocketAddr)
    ensures DecodeAddress(EncodeAddress(sa)) == Some(sa)
  {
    var v := EncodeAddress(sa);
    match sa.ip
    case V4(o) => assert v[4..8] == o;
    case V6(o) => assert v[4..20] == o;
  }

  /** The bits of `sa` with those of the magic cookie flipped, and for IPv6 those of the
      transaction id after it: what stands in the bytes of XOR-MAPPED-ADDRESS. */
  ghost predicate Flipped(sa: SocketAddr, txn: TransactionId, port: u16, octets: Bytes) {
    && DiffersIn(sa.port, 0x2112, 16, port)
    && match sa.ip
       case V4(o) => |octets| == 4 && forall j | 0 <= j < 4 :: DiffersIn(o[j], [0x21, 0x12, 0xA4, 0x42][j], 8, octets[j])
       case V6(o) => |octets| == 16 && forall j | 0 <= j < 16 :: DiffersIn(o[j], ([0x21, 0x12, 0xA4, 0x42] + txn)[j], 8, octets[j])
  }

  /** So the bytes determine the address. */
  lemma FlippedOnce(a: SocketAddr, b: SocketAddr, txn: TransactionId, port: u16, octets: Bytes)
    requires Flipped(a, txn, port, octets) && Flipped(b, txn, port, octets) && (a.ip.V4? <==> b.ip.V4?)
    ensures a == b
  {
    PowersUsed();
    SameBits(a.port, b.port, 16);
    match a.ip
    case V4(o) =>
      forall j | 0 <= j < 4 ensures o[j] == b.ip.v4[j] {
        SameBits(o[j], b.ip.v4[j], 8);
      }
      assert o == b.ip.v4;
    case V6(o) =>
      forall j | 0 <= j < 16 ensures o[j] == b.ip.v6[j] {
        SameBits(o[j], b.ip.v6[j], 8);
      }
      assert o == b.ip.v6;
  }

  lemma XorFlips(sa: SocketAddr, txn: TransactionId)
    ensures var x := XorAddress(sa, txn);
            Flipped(sa, txn, x.port, if x.ip.V4? then x.ip.v4 else x.ip.v6)
  {
    XorDiffers(sa.port, COOKIE_HIGH, 16);
    match sa.ip
    case V4(o) =>
      forall j | 0 <= j < 4 ensures DiffersIn(o[j], COOKIE[j], 8, Xor(o[j], COOKIE[j])) {
        XorDiffers(o[j], COOKIE[j], 8);
      }
    case V6(o) =>
      forall j | 0 <= j < 16 ensures DiffersIn(o[j], XorKey(txn)[j], 8, Xor(o[j], XorKey(txn)[j])) {
        XorDiffers(o[j], XorKey(txn)[j], 8);
      }
  }

  // ---- error codes ----

  /** The class is kept modulo 8 (three bits of a byte), the rest modulo 100. */
  function EncodeError(code: u16, reason: Bytes): Bytes {
    [0, 0, code / 100 % 256 % 8, code % 100] + reason
  }

  function DecodeError(lossy: Lossy, value: Bytes): Option<Attribute> {
    if |value| < 4 then None
    else Some(ErrorCode(value[2] as int % 8 * 100 + value[3] as int, lossy(value[4..])))
  }

  lemma ErrorRoundTripIff(lossy: Lossy, code: u16, reason: Bytes)
    ensures DecodeError(lossy, EncodeError(code, reason)) == Some(ErrorCode(code, reason))
            <==> code < 800 && lossy(reason) == reason
  {
  }

  // ---- one attribute ----

  function TypeOf(a: Attribute): u16 {
    match a
    case MappedAddress(_) => ATTR_MAPPED_ADDRESS
    case XorMappedAddress(_) => ATTR_XOR_MAPPED_ADDRESS
    case ErrorCode(_, _) => ATTR_ERROR_CODE
    case Software(_) => ATTR_SOFTWARE
    case Unknown(t, _) => t
  }

  function ValueOf(a: Attribute, txn: TransactionId): Bytes {
    match a
    case MappedAddress(sa) => EncodeAddress(sa)
    case XorMappedAddress(sa) => EncodeAddress(XorAddress(sa, txn))
    case ErrorCode(code, reason) => EncodeError(code, reason)
    case Software(text) => text
    case Unknown(_, value) => value
  }

  /** Type, length, value, padding. */
  function Tlv(attrType: u16, value: Bytes): (b: Bytes)
    requires |value| <= U16_MAX
    ensures |b| == 4 + Padded(|value|) && |b| % 4 == 0
  {
    FourMore(Padded(|value|));
    Be16(attrType) + Be16(|value|) + value + Padding(|value|)
  }

  function EncodeAttr(a: Attribute, txn: TransactionId): Option<Bytes> {
    var value := ValueOf(a, txn);
    if |value| > U16_MAX then None else Some(Tlv(TypeOf(a), value))
  }

  /** The attribute with the given type and value, if the value is acceptable. */
  function FromValue(lossy: Lossy, txn: TransactionId, attrType: u16, value: Bytes): Option<Attribute> {
    if attrType == ATTR_MAPPED_ADDRESS then
      var sa := DecodeAddress(value);
      if sa.Some? then Some(MappedAddress(sa.value)) else None
    else if attrType == ATTR_XOR_MAPPED_ADDRESS then
      var sa := DecodeAddress(value);
      if sa.Some? then Some(XorMappedAddress(XorAddress(sa.value, txn))) else None
    else if attrType == ATTR_ERROR_CODE then DecodeError(lossy, value)
    else if attrType == ATTR_SOFTWARE then Some(Software(lossy(value)))
    else Some(Unknown(attrType, value))
  }

  function DecodeAttr(lossy: Lossy, txn: TransactionId, src: Bytes): (d: Decoded<Attribute>)
    ensures d.Item? ==> 4 <= d.consumed <= |src| && d.consumed % 4 == 0
  {
    if |src| < 4 then NeedMore
    else
      var len := FromBe16(src[2], src[3]);
      if |src| < 4 + Padded(len) then NeedMore
      else
        FourMore(Padded(len));
        var a := FromValue(lossy, txn, FromBe16(src[0], src[1]), src[4..4 + len]);
        if a.Some? then Item(4 + Padded(len), a.value) else Bad
  }

  predicate IsKnownType(t: u16) {
    t == ATTR_MAPPED_ADDRESS || t == ATTR_XOR_MAPPED_ADDRESS || t == ATTR_ERROR_CODE || t == ATTR_SOFTWARE
  }

  /** The attributes the encoding can tell apart: text is text, error codes are below
      800, and an unknown attribute does not use the type of a known one. */
  predicate Sound(lossy: Lossy, a: Attribute) {
    match a
    case MappedAddress(_) => true
    case XorMappedAddress(_) => true
    case ErrorCode(code, reason) => code < 800 && lossy(reason) == reason
    case Software(text) => lossy(text) == text
    case Unknown(t, _) => !IsKnownType(t)
  }

  lemma ValueRoundTripIff(lossy: Lossy, txn: TransactionId, a: Attribute)
    ensures FromValue(lossy, txn, TypeOf(a), ValueOf(a, txn)) == Some(a) <==> Sound(lossy, a)
  {
    match a
    case MappedAddress(sa) => AddressRoundTrip(sa);
    case XorMappedAddress(sa) =>
      AddressRoundTrip(XorAddress(sa, txn));
      XorAddressInvolutive(sa, txn);
    case ErrorCode(code, reason) => ErrorRoundTripIff(lossy, code, reason);
    case Software(_) =>
    case Unknown(_, _) =>
  }

  /** The bytes of XOR-MAPPED-ADDRESS (section 15.2 of RFC 5389). */
  lemma XorMappedBytes(sa: SocketAddr, txn: TransactionId)
    ensures var v := ValueOf(XorMappedAddress(sa), txn);
            && |v| == (if sa.ip.V4? then 8 else 20)
            && v[0] == 0 && v[1] == (if sa.ip.V4? then 1 else 2)
            && Flipped(sa, txn, FromBe16(v[2], v[3]), v[4..])
  {
    XorFlips(sa, txn);
    var x := XorAddress(sa, txn);
    var v := EncodeAddress(x);
    Be16RoundTrip(x.port);
    assert v[2] == Be16(x.port)[0] && v[3] == Be16(x.port)[1];
    assert v[4..] == if x.ip.V4? then x.ip.v4 else x.ip.v6;
  }

  /** And what is read from such bytes: the same bits flipped back. */
  lemma XorMappedRead(lossy: Lossy, txn: TransactionId, v: Bytes, sa: SocketAddr)
    requires FromValue(lossy, txn, 0x0020, v) == Some(XorMappedAddress(sa))
    ensures |v| >= 4 && Flipped(sa, txn, FromBe16(v[2], v[3]), v[4..])
  {
    var x := DecodeAddress(v).value;
    XorAddressInvolutive(x, txn);
    XorFlips(sa, txn);
    assert v[4..] == if x.ip.V4? then x.ip.v4 else x.ip.v6;
  }

  lemma Be16RoundTrip(n: u16)
    ensures FromBe16(Be16(n)[0], Be16(n)[1]) == n
  {
  }

  lemma Layout(t: Bytes, l: Bytes, value: Bytes, padding: Bytes, rest: Bytes)
    requires |t| == 2 && |l| == 2
    ensures var src := t + l + value + padding + rest;
            src[0] == t[0] && src[1] == t[1] && src[2] == l[0] && src[3] == l[1] && src[4..4 + |value|] == value
  {
  }

  lemma TlvFields(attrType: u16, value: Bytes, rest: Bytes)
    requires |value| <= U16_MAX
    ensures var src := Tlv(attrType, value) + rest;
            && FromBe16(src[0], src[1]) == attrType && FromBe16(src[2], src[3]) == |value|
            && src[4..4 + |value|] == value
  {
    Layout(Be16(attrType), Be16(|value|), value, Padding(|value|), rest);
    Be16RoundTrip(attrType);
    Be16RoundTrip(|value|);
  }

  /** Whatever follows it, an encoded attribute is looked at as a whole and alone. */
  lemma DecodeTlv(lossy: Lossy, txn: TransactionId, attrType: u16, value: Bytes, rest: Bytes)
    requires |value| <= U16_MAX
    ensures var a := FromValue(lossy, txn, attrType, value);
            DecodeAttr(lossy, txn, Tlv(attrType, value) + rest)
            == if a.Some? then Item(|Tlv(attrType, value)|, a.value) else Bad
  {
    var src := Tlv(attrType, value) + rest;
    TlvFields(attrType, value, rest);
    assert |src| >= 4 + Padded(|value|);
  }

  /** An attribute that can be encoded comes back, with its exact length and whatever
      follows it, iff it is sound. */
  lemma AttrRoundTripIff(lossy: Lossy, txn: TransactionId, a: Attribute, rest: Bytes)
    requires EncodeAttr(a, txn).Some?
    ensures var e := EncodeAttr(a, txn).value;
            DecodeAttr(lossy, txn, e + rest) == Item(|e|, a) <==> Sound(lossy, a)
  {
    DecodeTlv(lossy, txn, TypeOf(a), ValueOf(a, txn), rest);
    ValueRoundTripIff(lossy, txn, a);
  }

  /** Pads with zeros, byte by byte. */
  method Pad(dst: Buffer, len: nat)
    modifies dst
    ensures dst.data == old(dst.data) + Padding(len)
  {
    for i := 0 to (4 - len % 4) % 4
      invariant dst.data == old(dst.data) + Padding(len)[..i]
    {
      dst.ExtendFromSlice([0]);
      assert Padding(len)[..i + 1] == Padding(len)[..i] + [0];
    }
  }

  lemma AppendedTlv(d: Bytes, attrType: u16, value: Bytes)
    requires |value| <= U16_MAX
    ensures d + Be16(attrType) + Be16(|value|) + value + Padding(|value|) == d + Tlv(attrType, value)
  {
  }

  /** `Attribute::encode`: appends type, length, value and the padding; an oversized
      value leaves the destination alone. */
  method EncodeAttrInto(a: Attribute, txn: TransactionId, dst: Buffer) returns (ok: bool)
    modifies dst
    ensures ok <==> EncodeAttr(a, txn).Some?
    ensures dst.data == old(dst.data) + (if ok then EncodeAttr(a, txn).value else [])
  {
    var value := ValueOf(a, txn);
    if |value| > U16_MAX {
      return false;
    }
    dst.ExtendFromSlice(Be16(TypeOf(a)));
    dst.ExtendFromSlice(Be16(|value|));
    dst.ExtendFromSlice(value);
    Pad(dst, |value|);
    AppendedTlv(old(dst.data), TypeOf(a), value);
    return true;
  }
}
