/**
 STUN messages (section 6 of RFC 5389): a 20-byte header and a body tiled by
 attributes; the codec built from them; and the Binding exchange between the
 server's reply and the client's check of it.
 */
module StunMessage {
  import opened Prelude
  import opened Codec
  import opened Framed
  import opened Net
  import opened StunAttrs

  const HEADER_SIZE := 20

  datatype MessageType = BindingRequest | BindingResponse | BindingError

  datatype StunMessage = StunMessage(msgType: MessageType, txn: TransactionId, attrs: seq<Attribute>)

  function TypeCode(t: MessageType): u16 {
    match t
    case BindingRequest => 0x0001
    case BindingResponse => 0x0101
    case BindingError => 0x0111
  }

  function TypeFromCode(code: u16): Option<MessageType> {
    if code == 0x0001 then Some(BindingRequest)
    else if code == 0x0101 then Some(BindingResponse)
    else if code == 0x0111 then Some(BindingError)
    else None
  }

  // ---- the body ----

  /** All attributes, one behind the other; nothing if one of them is oversized. */
  function EncodeAttrs(attrs: seq<Attribute>, txn: TransactionId): (b: Option<Bytes>)
    ensures b.Some? ==> |b.value| % 4 == 0
  {
    if attrs == [] then Some([])
    else
      var first, others := EncodeAttr(attrs[0], txn), EncodeAttrs(attrs[1..], txn);
      if first.Some? && others.Some? then
        AlignedSum(|first.value|, |others.value|);
        Some(first.value + others.value)
      else None
  }

  lemma AlignedSum(a: nat, b: nat)
    requires a % 4 == 0 && b % 4 == 0
    ensures (a + b) % 4 == 0
  {
  }

  /** The attributes that tile `body` exactly; nothing if one is unacceptable or
      sticks out at the end. */
  function DecodeAttrs(lossy: Lossy, txn: TransactionId, body: Bytes): Option<seq<Attribute>>
    decreases |body|
  {
    if body == [] then Some([])
    else
      match DecodeAttr(lossy, txn, body)
      case Item(n, a) =>
        var others := DecodeAttrs(lossy, txn, body[n..]);
        if others.Some? then Some([a] + others.value) else None
      case _ => None
  }

  /** `done` in front of a result, if there is one. */
  function Prepend(done: seq<Attribute>, left: Option<seq<Attribute>>): Option<seq<Attribute>> {
    if left.Some? then Some(done + left.value) else None
  }

  lemma PrependTwice(done: seq<Attribute>, a: Attribute, left: Option<seq<Attribute>>)
    ensures Prepend(done, Prepend([a], left)) == Prepend(done + [a], left)
    ensures Prepend([], left) == left
    ensures left == Some([]) ==> Prepend(done, left) == Some(done)
  {
    if left.Some? {
      assert done + ([a] + left.value) == (done + [a]) + left.value;
      assert [] + left.value == left.value && done + [] == done;
    }
  }

  /** `[a]` in front of a result is `attrs` exactly when head and tail agree. */
  lemma PrependIs(a: Attribute, left: Option<seq<Attribute>>, attrs: seq<Attribute>)
    requires attrs != []
    ensures Prepend([a], left) == Some(attrs) <==> a == attrs[0] && left == Some(attrs[1..])
  {
    assert attrs == [attrs[0]] + attrs[1..];
    if left.Some? {
      assert ([a] + left.value)[0] == a && ([a] + left.value)[1..] == left.value;
    }
  }

  /** The attribute at the front decides how the body is cut. */
  lemma DecodeAttrsStep(lossy: Lossy, txn: TransactionId, body: Bytes)
    requires body != []
    ensures var d := DecodeAttr(lossy, txn, body);
            DecodeAttrs(lossy, txn, body) ==
            if d.Item? then Prepend([d.msg], DecodeAttrs(lossy, txn, body[d.consumed..])) else None
  {
  }

  ghost predicate AllSound(lossy: Lossy, attrs: seq<Attribute>) {
    forall i | 0 <= i < |attrs| :: Sound(lossy, attrs[i])
  }

  /** A body comes back as the same attributes iff each of them is sound. */
  lemma {:induction false} BodyRoundTripIff(lossy: Lossy, txn: TransactionId, attrs: seq<Attribute>)
    requires EncodeAttrs(attrs, txn).Some?
    ensures DecodeAttrs(lossy, txn, EncodeAttrs(attrs, txn).value) == Some(attrs) <==> AllSound(lossy, attrs)
  {
    if attrs != [] {
      var a, first, others := attrs[0], EncodeAttr(attrs[0], txn).value, EncodeAttrs(attrs[1..], txn).value;
      BodyRoundTripIff(lossy, txn, attrs[1..]);
      AttrRoundTripIff(lossy, txn, a, others);
      DecodeTlv(lossy, txn, TypeOf(a), ValueOf(a, txn), others);
      DecodeAttrsStep(lossy, txn, first + others);
      assert (first + others)[|first|..] == others;
      var d := DecodeAttr(lossy, txn, first + others);
      if d.Item? {
        PrependIs(d.msg, DecodeAttrs(lossy, txn, others), attrs);
      }
      assert AllSound(lossy, attrs) <==> Sound(lossy, a) && AllSound(lossy, attrs[1..]);
    }
  }

  // ---- whole messages ----

  function Header(t: MessageType, length: u16, txn: TransactionId): (b: Bytes)
    ensures |b| == HEADER_SIZE
  {
    Be16(TypeCode(t)) + Be16(length) + COOKIE + txn
  }

  function Encode(m: StunMessage): Option<Bytes> {
    var body := EncodeAttrs(m.attrs, m.txn);
    if body.None? || |body.value| > U16_MAX then None
    else Some(Header(m.msgType, |body.value|, m.txn) + body.value)
  }

  function Decode(lossy: Lossy, src: Bytes): Decoded<StunMessage> {
    if |src| < HEADER_SIZE then NeedMore
    else
      var rawType, length := FromBe16(src[0], src[1]), FromBe16(src[2], src[3]);
      if rawType >= 0x4000 then Bad               // a top bit is set
      else if length % 4 != 0 then Bad
      else if src[4..8] != COOKIE then Bad
      else if |src| < HEADER_SIZE + length then NeedMore
      else if TypeFromCode(rawType).None? then Bad
      else
        var txn: TransactionId := src[8..HEADER_SIZE];
        var attrs := DecodeAttrs(lossy, txn, src[HEADER_SIZE..HEADER_SIZE + length]);
        if attrs.None? then Bad
        else Item(HEADER_SIZE + length, StunMessage(TypeFromCode(rawType).value, txn, attrs.value))
  }

  function Of(lossy: Lossy): Codec<StunMessage> {
    Codec(m => Encode(m), src => Decode(lossy, src))
  }

  lemma SteadyDecode(lossy: Lossy, b: Bytes, ext: Bytes)
    ensures Steady(Of(lossy), b, ext)
  {
    if |b| >= HEADER_SIZE {
      assert (b + ext)[4..8] == b[4..8] && (b + ext)[8..HEADER_SIZE] == b[8..HEADER_SIZE];
      var end := HEADER_SIZE + FromBe16(b[2], b[3]);
      if end <= |b| {
        assert (b + ext)[HEADER_SIZE..end] == b[HEADER_SIZE..end];
      }
    }
  }

  /** Any answer of the decoder stands, whatever arrives later. */
  lemma IsStable(lossy: Lossy)
    ensures Stable(Of(lossy))
  {
    forall b: Bytes, ext: Bytes ensures Steady(Of(lossy), b, ext) {
      SteadyDecode(lossy, b, ext);
    }
  }

  lemma HeaderFields(t: MessageType, length: u16, txn: TransactionId, body: Bytes)
    ensures var b := Header(t, length, txn) + body;
            && FromBe16(b[0], b[1]) == TypeCode(t) && FromBe16(b[2], b[3]) == length
            && b[4..8] == COOKIE && b[8..HEADER_SIZE] == txn && b[HEADER_SIZE..] == body
  {
  }

  /** Decoding a well-formed header in front of its body is decoding the body. */
  lemma DecodeFrame(lossy: Lossy, t: MessageType, txn: TransactionId, body: Bytes)
    requires |body| <= U16_MAX && |body| % 4 == 0
    ensures var attrs := DecodeAttrs(lossy, txn, body);
            Decode(lossy, Header(t, |body|, txn) + body) ==
            if attrs.Some? then Item(HEADER_SIZE + |body|, StunMessage(t, txn, attrs.value)) else Bad
  {
    var frame := Header(t, |body|, txn) + body;
    HeaderFields(t, |body|, txn, body);
    assert frame[HEADER_SIZE..HEADER_SIZE + |body|] == body;
  }

  /** A message that can be encoded is framed soundly iff all its attributes are
      sound: it decodes, with its exact length and whatever follows, to itself. */
  lemma FrameableIff(lossy: Lossy, m: StunMessage)
    requires Encode(m).Some?
    ensures Frameable(Of(lossy), m) <==> AllSound(lossy, m.attrs)
    ensures Exact(Of(lossy), m) <==> AllSound(lossy, m.attrs)
  {
    IsStable(lossy);
    StableExactIff(Of(lossy), m);
    FrameDecodesIff(lossy, m);
  }

  lemma FrameDecodesIff(lossy: Lossy, m: StunMessage)
    requires Encode(m).Some?
    ensures Frameable(Of(lossy), m) <==> AllSound(lossy, m.attrs)
  {
    var body := EncodeAttrs(m.attrs, m.txn).value;
    DecodeFrame(lossy, m.msgType, m.txn, body);
    BodyRoundTripIff(lossy, m.txn, m.attrs);
    assert Frame(Of(lossy), m) == Header(m.msgType, |body|, m.txn) + body;
  }

  /** Every proper prefix of an encoded message, sound or not, needs more bytes. */
  lemma PrefixIncomplete(lossy: Lossy, m: StunMessage, prefix: Bytes)
    requires Encode(m).Some? && prefix < Encode(m).value
    ensures Decode(lossy, prefix) == NeedMore
  {
  }

  // ---- the loops of the source ----

  /** `done` followed by the encoding of the remaining attributes, if they have one. */
  function Behind(done: Bytes, attrs: seq<Attribute>, txn: TransactionId): Option<Bytes> {
    var left := EncodeAttrs(attrs, txn);
    if left.Some? then Some(done + left.value) else None
  }

  lemma BehindStep(done: Bytes, attrs: seq<Attribute>, txn: TransactionId)
    ensures Behind([], attrs, txn) == EncodeAttrs(attrs, txn)
    ensures attrs == [] ==> Behind(done, attrs, txn) == Some(done)
    ensures attrs != [] ==>
              var first := EncodeAttr(attrs[0], txn);
              Behind(done, attrs, txn) == if first.Some? then Behind(done + first.value, attrs[1..], txn) else None
  {
    assert done + [] == done;
    if EncodeAttrs(attrs, txn).Some? {
      assert [] + EncodeAttrs(attrs, txn).value == EncodeAttrs(attrs, txn).value;
    }
    if attrs != [] && EncodeAttrs(attrs, txn).Some? {
      Regroup(done, EncodeAttr(attrs[0], txn).value, EncodeAttrs(attrs[1..], txn).value);
    }
  }

  /** `StunMessage::encode`. */
  method EncodeMessage(m: StunMessage) returns (r: Option<Bytes>)
    ensures r == Encode(m)
  {
    var body := new Buffer();
    BehindStep([], m.attrs, m.txn);
    assert m.attrs[0..] == m.attrs;
    for i := 0 to |m.attrs|
      invariant fresh(body)
      invariant EncodeAttrs(m.attrs, m.txn) == Behind(body.data, m.attrs[i..], m.txn)
    {
      BehindStep(body.data, m.attrs[i..], m.txn);
      assert m.attrs[i..][1..] == m.attrs[i + 1..];
      var ok := EncodeAttrInto(m.attrs[i], m.txn, body);
      if !ok {
        return None;
      }
    }
    BehindStep(body.data, m.attrs[|m.attrs|..], m.txn);
    if |body.data| > U16_MAX {
      return None;
    }
    return Some(Header(m.msgType, |body.data|, m.txn) + body.data);
  }

  /** What the attribute loop asks of the attribute decoder: an attribute found in `b`
      is not empty and lies inside `b`. */
  ghost predicate Advances(find: Bytes -> Decoded<Attribute>, b: Bytes) {
    find(b).Item? ==> 0 < find(b).consumed <= |b|
  }

  ghost predicate AlwaysAdvances(find: Bytes -> Decoded<Attribute>) {
    forall b: Bytes :: Advances(find, b)
  }

  /** The items that tile `body`, for any such decoder. */
  ghost function Tiles(find: Bytes -> Decoded<Attribute>, body: Bytes): Option<seq<Attribute>>
    requires AlwaysAdvances(find)
    decreases |body|
  {
    if body == [] then Some([])
    else
      assert Advances(find, body);
      var d := find(body);
      if d.Item? then Prepend([d.msg], Tiles(find, body[d.consumed..])) else None
  }

  function AttrDecoder(lossy: Lossy, txn: TransactionId): Bytes -> Decoded<Attribute> {
    b => DecodeAttr(lossy, txn, b)
  }

  lemma {:induction false} TilesAreAttrs(lossy: Lossy, txn: TransactionId, body: Bytes)
    ensures AlwaysAdvances(AttrDecoder(lossy, txn))
    ensures Tiles(AttrDecoder(lossy, txn), body) == DecodeAttrs(lossy, txn, body)
    decreases |body|
  {
    if body != [] {
      DecodeAttrsStep(lossy, txn, body);
      var d := DecodeAttr(lossy, txn, body);
      if d.Item? {
        TilesAreAttrs(lossy, txn, body[d.consumed..]);
      }
    }
  }

  /** The result the loop works towards, having found `attrs` before `off`. */
  ghost function Goal(find: Bytes -> Decoded<Attribute>, src: Bytes, off: nat, end: nat, attrs: seq<Attribute>): Option<seq<Attribute>>
    requires AlwaysAdvances(find) && off <= end <= |src|
  {
    Prepend(attrs, Tiles(find, src[off..end]))
  }

  lemma GoalEnds(find: Bytes -> Decoded<Attribute>, src: Bytes, off: nat, end: nat, attrs: seq<Attribute>)
    requires AlwaysAdvances(find) && off <= end <= |src|
    ensures Goal(find, src, off, end, []) == Tiles(find, src[off..end])
    ensures Goal(find, src, end, end, attrs) == Some(attrs)
  {
    var body := Tiles(find, src[off..end]);
    if body.Some? {
      assert [] + body.value == body.value;
    }
    assert attrs + [] == attrs;
  }

  lemma GoalStep(find: Bytes -> Decoded<Attribute>, src: Bytes, off: nat, end: nat, attrs: seq<Attribute>, d: Decoded<Attribute>)
    requires AlwaysAdvances(find) && off < end <= |src| && d == find(src[off..end])
    ensures d.Item? ==> off < off + d.consumed <= end
    ensures Goal(find, src, off, end, attrs) ==
            if d.Item? then Goal(find, src, off + d.consumed, end, attrs + [d.msg]) else None
  {
    assert Advances(find, src[off..end]);
    if d.Item? {
      assert src[off..end][d.consumed..] == src[off + d.consumed..end];
      PrependTwice(attrs, d.msg, Tiles(find, src[off + d.consumed..end]));
    }
  }

  /** The attribute loop of `StunMessage::decode`: walks `src` from `start` to `end`. */
  method Walk(find: Bytes -> Decoded<Attribute>, src: Bytes, start: nat, end: nat) returns (r: Option<seq<Attribute>>)
    requires AlwaysAdvances(find) && start <= end <= |src|
    ensures r == Tiles(find, src[start..end])
  {
    var attrs: seq<Attribute> := [];
    var off := start;
    ghost var goal := Goal(find, src, off, end, attrs);
    GoalEnds(find, src, off, end, attrs);
    while off < end
      invariant off <= end
      invariant goal == Goal(find, src, off, end, attrs)
    {
      var d := find(src[off..end]);
      GoalStep(find, src, off, end, attrs, d);
      if !d.Item? {
        return None;
      }
      attrs := attrs + [d.msg];
      off := off + d.consumed;
    }
    GoalEnds(find, src, off, end, attrs);
    return Some(attrs);
  }

  method DecodeBody(lossy: Lossy, txn: TransactionId, src: Bytes, end: nat) returns (r: Option<seq<Attribute>>)
    requires HEADER_SIZE <= end <= |src|
    ensures r == DecodeAttrs(lossy, txn, src[HEADER_SIZE..end])
  {
    TilesAreAttrs(lossy, txn, src[HEADER_SIZE..end]);
    r := Walk(AttrDecoder(lossy, txn), src, HEADER_SIZE, end);
  }

  /** `StunMessage::decode`. */
  method DecodeMessage(lossy: Lossy, src: Bytes) returns (d: Decoded<StunMessage>)
    ensures d == Decode(lossy, src)
  {
    if |src| < HEADER_SIZE {
      return NeedMore;
    }
    var rawType, length := FromBe16(src[0], src[1]), FromBe16(src[2], src[3]);
    if rawType >= 0x4000 || length % 4 != 0 || src[4..8] != COOKIE {
      return Bad;
    }
    if |src| < HEADER_SIZE + length {
      return NeedMore;
    }
    var msgType := TypeFromCode(rawType);
    if msgType.None? {
      return Bad;
    }
    var attrs := DecodeBody(lossy, src[8..HEADER_SIZE], src, HEADER_SIZE + length);
    if attrs.None? {
      return Bad;
    }
    return Item(HEADER_SIZE + length, StunMessage(msgType.value, src[8..HEADER_SIZE], attrs.value));
  }

  // ---- the Binding exchange ----

  datatype Answer =
    | Address(addr: SocketAddr)
    | TransactionMismatch
    | NoMappedAddress
    | ErrorResponse(code: u16, reason: Bytes)
    | ErrorWithoutCode
    | NotAResponse

  predicate IsXorMapped(a: Attribute) { a.XorMappedAddress? }
  predicate IsMapped(a: Attribute) { a.MappedAddress? }
  predicate IsError(a: Attribute) { a.ErrorCode? }

  /** The first attribute of a kind. */
  function First(attrs: seq<Attribute>, kind: Attribute -> bool): (r: Option<Attribute>)
    ensures r.Some? ==> kind(r.value)
  {
    if attrs == [] then None
    else if kind(attrs[0]) then Some(attrs[0])
    else First(attrs[1..], kind)
  }

  function FirstMapped(attrs: seq<Attribute>): Option<SocketAddr> {
    var x, plain := First(attrs, IsXorMapped), First(attrs, IsMapped);
    if x.Some? then Some(x.value.addr) else if plain.Some? then Some(plain.value.addr) else None
  }

  /** XOR-MAPPED-ADDRESS first, wherever it stands, then MAPPED-ADDRESS. */
  method MappedAddressOf(m: StunMessage) returns (r: Option<SocketAddr>)
    ensures r == FirstMapped(m.attrs)
  {
    for i := 0 to |m.attrs|
      invariant First(m.attrs, IsXorMapped) == First(m.attrs[i..], IsXorMapped)
    {
      if m.attrs[i].XorMappedAddress? {
        return Some(m.attrs[i].addr);
      }
      assert m.attrs[i..][1..] == m.attrs[i + 1..];
    }
    for i := 0 to |m.attrs|
      invariant First(m.attrs, IsMapped) == First(m.attrs[i..], IsMapped)
    {
      if m.attrs[i].MappedAddress? {
        return Some(m.attrs[i].addr);
      }
      assert m.attrs[i..][1..] == m.attrs[i + 1..];
    }
    return None;
  }

  /** `validate_response`. */
  function Validate(request: StunMessage, response: StunMessage): Answer {
    if response.txn != request.txn then TransactionMismatch
    else
      match response.msgType
      case BindingResponse =>
        var sa := FirstMapped(response.attrs);
        if sa.Some? then Address(sa.value) else NoMappedAddress
      case BindingError =>
        var e := First(response.attrs, IsError);
        if e.Some? then ErrorResponse(e.value.code, e.value.reason) else ErrorWithoutCode
      case BindingRequest => NotAResponse
  }

  /** `attrs[i]` is the first of its kind. */
  ghost predicate FirstAt(attrs: seq<Attribute>, i: nat, kind: Attribute -> bool) {
    i < |attrs| && kind(attrs[i]) && forall j | 0 <= j < i :: !kind(attrs[j])
  }

  ghost predicate HasNo(attrs: seq<Attribute>, kind: Attribute -> bool) {
    forall j | 0 <= j < |attrs| :: !kind(attrs[j])
  }

  lemma FirstBehind(attrs: seq<Attribute>, i: nat, kind: Attribute -> bool)
    requires attrs != [] && !kind(attrs[0])
    ensures FirstAt(attrs, i, kind) <==> i > 0 && FirstAt(attrs[1..], i - 1, kind)
    ensures HasNo(attrs, kind) <==> HasNo(attrs[1..], kind)
  {
    assert forall j | 0 < j < |attrs| :: attrs[j] == attrs[1..][j - 1];
    if i > 0 && FirstAt(attrs[1..], i - 1, kind) {
      forall j | 0 <= j < i ensures !kind(attrs[j]) {
        assert j > 0 ==> attrs[j] == attrs[1..][j - 1];
      }
    }
    if i > 0 && FirstAt(attrs, i, kind) {
      forall j | 0 <= j < i - 1 ensures !kind(attrs[1..][j]) {
        assert attrs[1..][j] == attrs[j + 1];
      }
    }
  }

  lemma {:induction false} FirstIs(attrs: seq<Attribute>, kind: Attribute -> bool)
    ensures First(attrs, kind).None? <==> HasNo(attrs, kind)
    ensures forall i: nat :: FirstAt(attrs, i, kind) ==> First(attrs, kind) == Some(attrs[i])
  {
    if attrs != [] && !kind(attrs[0]) {
      FirstIs(attrs[1..], kind);
      forall i: nat ensures FirstAt(attrs, i, kind) ==> First(attrs, kind) == Some(attrs[i]) {
        FirstBehind(attrs, i, kind);
      }
      FirstBehind(attrs, 0, kind);
    }
  }

  /** Of a response to its own request the client reports the first XOR-mapped address,
      failing that the first plain one, failing that none. */
  lemma ResponseAnswer(request: StunMessage, response: StunMessage, i: nat)
    requires response.txn == request.txn && response.msgType == BindingResponse
    ensures var attrs, answer := response.attrs, Validate(request, response);
            && (FirstAt(attrs, i, IsXorMapped) ==> answer == Address(attrs[i].addr))
            && (HasNo(attrs, IsXorMapped) && FirstAt(attrs, i, IsMapped) ==> answer == Address(attrs[i].addr))
            && (HasNo(attrs, IsXorMapped) && HasNo(attrs, IsMapped) <==> answer == NoMappedAddress)
  {
    FirstIs(response.attrs, IsXorMapped);
    FirstIs(response.attrs, IsMapped);
  }

  /** Of an error response it reports the code and the reason of the first ERROR-CODE. */
  lemma ErrorAnswer(request: StunMessage, response: StunMessage, i: nat)
    requires response.txn == request.txn && response.msgType == BindingError
    ensures var attrs, answer := response.attrs, Validate(request, response);
            && (FirstAt(attrs, i, IsError) ==> answer == ErrorResponse(attrs[i].code, attrs[i].reason))
            && (HasNo(attrs, IsError) <==> answer == ErrorWithoutCode)
  {
    FirstIs(response.attrs, IsError);
  }

  /** Which kind of answer a message is depends on its transaction and its type alone. */
  lemma AnswerKind(request: StunMessage, response: StunMessage)
    ensures var answer, mine := Validate(request, response), response.txn == request.txn;
            && (answer.TransactionMismatch? <==> !mine)
            && (answer.NotAResponse? <==> mine && response.msgType == BindingRequest)
            && (answer.Address? || answer.NoMappedAddress? <==> mine && response.msgType == BindingResponse)
            && (answer.ErrorResponse? || answer.ErrorWithoutCode? <==> mine && response.msgType == BindingError)
  {
  }

  /** `handle_binding`, including the SOFTWARE attribute when configured. */
  function HandleBinding(request: StunMessage, source: SocketAddr, software: Option<Bytes>): StunMessage {
    StunMessage(BindingResponse, request.txn,
      [XorMappedAddress(source)] + (if software.Some? then [Software(software.value)] else []))
  }

  /** Bytes of the address attribute in a reply. */
  function AddressAttrSize(source: SocketAddr): nat {
    if source.ip.V4? then 12 else 24
  }

  /** The server has a reply exactly when the software string leaves room for it. */
  lemma ReplyEncodableIff(request: StunMessage, source: SocketAddr, software: Option<Bytes>)
    ensures Encode(HandleBinding(request, source, software)).Some? <==>
            software.None? || AddressAttrSize(source) + 4 + Padded(|software.value|) <= U16_MAX
  {
    var reply := HandleBinding(request, source, software);
    assert EncodeAttr(reply.attrs[0], reply.txn).Some?;
    assert |EncodeAttr(reply.attrs[0], reply.txn).value| == AddressAttrSize(source);
    if software.None? {
      assert reply.attrs == [XorMappedAddress(source)];
      assert EncodeAttrs(reply.attrs, reply.txn) == Some(EncodeAttr(reply.attrs[0], reply.txn).value + []);
    } else {
      var s := Software(software.value);
      assert reply.attrs[1..] == [s] && [s][1..] == [];
      assert EncodeAttrs([s], reply.txn).Some? <==> |software.value| <= U16_MAX;
    }
  }

  /** The server's reply survives the wire and, as sent, answers the request. */
  lemma ReplyAnswers(lossy: Lossy, request: StunMessage, source: SocketAddr, software: Option<Bytes>)
    requires software.Some? ==> lossy(software.value) == software.value
    requires Encode(HandleBinding(request, source, software)).Some?
    ensures var reply := HandleBinding(request, source, software);
            Frameable(Of(lossy), reply) && Validate(request, reply) == Address(source)
  {
    var reply := HandleBinding(request, source, software);
    assert AllSound(lossy, reply.attrs);
    FrameableIff(lossy, reply);
    assert First(reply.attrs, IsXorMapped) == Some(XorMappedAddress(source));
  }

  /** Discovery end to end: whatever the request, the source the server saw and the
      software string, the client that decodes the server's reply, alone or in front
      of other bytes, and checks it against its request obtains exactly that source. */
  lemma DiscoveryIsCorrect(lossy: Lossy, request: StunMessage, source: SocketAddr, software: Option<Bytes>, rest: Bytes)
    requires software.Some? ==> lossy(software.value) == software.value
    requires Encode(HandleBinding(request, source, software)).Some?
    ensures var wire := Encode(HandleBinding(request, source, software)).value + rest;
            var got := Decode(lossy, wire);
            got.Item? && Validate(request, got.msg) == Address(source)
  {
    var reply := HandleBinding(request, source, software);
    ReplyAnswers(lossy, request, source, software);
    SteadyDecode(lossy, Frame(Of(lossy), reply), rest);
    assert Of(lossy).decode(Encode(reply).value + rest) == Decode(lossy, Encode(reply).value + rest);
  }

  /** A reply to another transaction is never taken for an answer. */
  lemma OtherTransactionRejected(lossy: Lossy, mine: StunMessage, theirs: StunMessage, source: SocketAddr, software: Option<Bytes>)
    requires software.Some? ==> lossy(software.value) == software.value
    requires Encode(HandleBinding(theirs, source, software)).Some?
    ensures var got := Decode(lossy, Encode(HandleBinding(theirs, source, software)).value);
            got.Item? && (Validate(mine, got.msg) == TransactionMismatch <==> mine.txn != theirs.txn)
  {
    var reply := HandleBinding(theirs, source, software);
    assert AllSound(lossy, reply.attrs);
    FrameableIff(lossy, reply);
    assert Of(lossy).decode(Frame(Of(lossy), reply)) == Decode(lossy, Encode(reply).value);
  }

  /** Discovery over a byte stream: however the stream cuts and delays the bytes of
      the replies, each reply the client's reader yields answers its own request with
      the source the server saw. */
  lemma StreamDiscovery(lossy: Lossy, trace: seq<Pipe<StunMessage>>, events: seq<PipeEvent<StunMessage>>, i: nat,
                        requests: seq<StunMessage>, sources: seq<SocketAddr>, software: Option<Bytes>)
    requires PipeRun(Of(lossy), trace, events) && i < |trace|
    requires software.Some? ==> lossy(software.value) == software.value
    requires |requests| == |sources| == |trace[i].accepted|
    requires forall j | 0 <= j < |requests| ::
               && trace[i].accepted[j] == HandleBinding(requests[j], sources[j], software)
               && Encode(trace[i].accepted[j]).Some?
    ensures |trace[i].yielded| <= |requests|
    ensures forall j | 0 <= j < |trace[i].yielded| :: Validate(requests[j], trace[i].yielded[j]) == Address(sources[j])
  {
    var s := trace[i];
    IsStable(lossy);
    forall j | 0 <= j < |s.accepted| ensures Frameable(Of(lossy), s.accepted[j]) {
      ReplyAnswers(lossy, requests[j], sources[j], software);
    }
    StableFramingIsExact(Of(lossy), trace, events, i);
    forall j | 0 <= j < |s.yielded| ensures Validate(requests[j], s.yielded[j]) == Address(sources[j]) {
      assert s.yielded[j] == s.accepted[j];
      ReplyAnswers(lossy, requests[j], sources[j], software);
    }
  }
}
