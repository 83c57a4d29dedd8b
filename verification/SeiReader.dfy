// SEI message lists, reading: messages of unknown types, which are kept as raw bytes, and
// the extension bits of a message of a known type.

module SeiReader {
  import opened Wrappers
  import opened Bits
  import opened Golomb
  import opened Arith
  import opened Sei

  datatype RawMessage = RawMessage(kind: nat, data: seq<byte>) {
    /** The type fits its 32-bit variable, and so does the size with one added. */
    predicate Fits() {
      kind <= UINT32_MAX && |data| < UINT32_MAX
    }
  }

  function AsMessage(m: RawMessage): Message {
    Message(m.kind, |m.data|, Raw(m.data))
  }

  function AsMessages(messages: seq<RawMessage>): (r: seq<Message>)
    ensures |r| == |messages| && forall k :: 0 <= k < |messages| ==> r[k] == AsMessage(messages[k])
  {
    seq(|messages|, k requires 0 <= k < |messages| => AsMessage(messages[k]))
  }

  // ---- Types and sizes ----

  /** What a uint32_t variable keeps of a sum. */
  function Wrapped(v: nat): (r: nat)
    ensures r <= v && r <= UINT32_MAX && (r == v <==> v <= UINT32_MAX)
    ensures v > UINT32_MAX ==> r <= v - 0x1_0000_0000
  {
    v % 0x1_0000_0000
  }

  /** The loops that read a type or a size; the bytes add up to `value`. */
  function DecodeRun(data: seq<bool>, pos: nat): (p: Parse<nat>)
    ensures p.Parsed? ==> 8 <= p.used && pos + p.used <= |data|
    decreases |data| - pos
  {
    if pos + 8 > |data| then Bad
    else
      var b := FromBits(data[pos..pos + 8]);
      if b < 255 then Parsed(b, 8)
      else
        match DecodeRun(data, pos + 8)
        case Bad => Bad
        case Parsed(v, used) => Parsed(255 + v, 8 + used)
  }

  /** A type or size comes back from its 0xFF run. */
  lemma {:induction false} RunRoundTrip(data: seq<bool>, pos: nat, v: nat)
    requires At(data, pos, EncodeRun(v))
    ensures DecodeRun(data, pos) == Parsed(v, |EncodeRun(v)|)
    decreases v
  {
    hide ToBits, FromBits, Pow2;
    Pow2Bytes();
    if v >= 255 {
      FromTo(8, 255);
      AtConcat(data, pos, ToBits(8, 255), EncodeRun(v - 255));
      RunRoundTrip(data, pos + 8, v - 255);
    } else {
      FromTo(8, v);
    }
  }

  /** A type or size read stands there as it would be written. */
  lemma {:induction false} RunCanonical(data: seq<bool>, pos: nat)
    requires DecodeRun(data, pos).Parsed?
    ensures At(data, pos, EncodeRun(DecodeRun(data, pos).value))
    ensures |EncodeRun(DecodeRun(data, pos).value)| == DecodeRun(data, pos).used
    decreases |data| - pos
  {
    hide ToBits, FromBits, Pow2;
    Pow2Bytes();
    ToFrom(data[pos..pos + 8]);
    if FromBits(data[pos..pos + 8]) >= 255 {
      assert FromBits(data[pos..pos + 8]) == 255;
      RunCanonical(data, pos + 8);
      AtConcat(data, pos, ToBits(8, 255), EncodeRun(DecodeRun(data, pos + 8).value));
    }
  }

  lemma {:induction false} RunLength(v: nat)
    ensures |EncodeRun(v)| == 8 * (v / 255 + 1)
    decreases v
  {
    hide ToBits;
    if v >= 255 {
      RunLength(v - 255);
    }
  }

  /** A sum that wrapped would be written with fewer bytes. */
  lemma {:induction false} WrappedIsShorter(v: nat)
    ensures |EncodeRun(Wrapped(v))| <= |EncodeRun(v)|
    ensures |EncodeRun(Wrapped(v))| == |EncodeRun(v)| <==> v <= UINT32_MAX
  {
    hide EncodeRun, Wrapped;
    RunLength(v);
    RunLength(Wrapped(v));
  }

  // ---- Payload bytes ----

  /** The payload bytes from a position on. */
  function ReadBytes(data: seq<bool>, pos: nat, n: nat): (b: seq<byte>)
    requires pos + 8 * n <= |data|
    ensures |b| == n
    decreases n
  {
    if n == 0 then []
    else
      Pow2Bytes();
      [FromBits(data[pos..pos + 8])] + ReadBytes(data, pos + 8, n - 1)
  }

  lemma {:induction false} BytesRoundTrip(data: seq<bool>, pos: nat, bytes: seq<byte>)
    requires At(data, pos, BytesBits(bytes))
    ensures ReadBytes(data, pos, |bytes|) == bytes
    decreases |bytes|
  {
    hide ToBits, FromBits, Pow2;
    if |bytes| > 0 {
      Pow2Bytes();
      FromTo(8, bytes[0]);
      AtConcat(data, pos, ToBits(8, bytes[0]), BytesBits(bytes[1..]));
      BytesRoundTrip(data, pos + 8, bytes[1..]);
    }
  }

  /** One byte more. */
  lemma {:induction false} BytesSnoc(data: seq<bool>, pos: nat, n: nat)
    requires pos + 8 * n + 8 <= |data|
    ensures ReadBytes(data, pos, n + 1) == ReadBytes(data, pos, n) + [FromBits(data[pos + 8 * n..pos + 8 * n + 8])]
    decreases n
  {
    hide FromBits, Pow2;
    if n > 0 {
      BytesSnoc(data, pos + 8, n - 1);
      assert pos + 8 + 8 * (n - 1) == pos + 8 * n;
    }
  }

  lemma {:induction false} BytesCanonical(data: seq<bool>, pos: nat, n: nat)
    requires pos + 8 * n <= |data|
    ensures At(data, pos, BytesBits(ReadBytes(data, pos, n)))
    decreases n
  {
    hide ToBits, FromBits, Pow2;
    if n > 0 {
      Pow2Bytes();
      BytesCanonical(data, pos + 8, n - 1);
      ToFrom(data[pos..pos + 8]);
      var bytes := ReadBytes(data, pos, n);
      assert bytes[1..] == ReadBytes(data, pos + 8, n - 1);
      AtConcat(data, pos, ToBits(8, bytes[0]), BytesBits(bytes[1..]));
    }
  }

  // ---- Messages ----

  /** One round of the reader's loop; the payload and a byte more must be there. The largest
      size passes that test, since one more is zero, but the reader of its payload is given
      an end before its beginning. */
  function DecodeRaw(data: seq<bool>, pos: nat): (p: Parse<RawMessage>)
    ensures p.Parsed? ==> 16 <= p.used && pos + p.used + 8 <= |data| && p.value.Fits()
  {
    match DecodeRun(data, pos)
    case Bad => Bad
    case Parsed(kind, k) =>
      match DecodeRun(data, pos + k)
      case Bad => Bad
      case Parsed(sum, n) =>
        var size, left := Wrapped(sum), (|data| - pos - k - n) / 8;
        if Wrapped(size + 1) > left || size == UINT32_MAX then Bad
        else Parsed(RawMessage(Wrapped(kind), ReadBytes(data, pos + k + n, size)), k + n + 8 * size)
  }

  /** A message written with numbers of any size is read with what 32 bits keep of them. */
  lemma {:induction false} RawRead(data: seq<bool>, pos: nat, kind: nat, size: nat, bytes: seq<byte>)
    requires At(data, pos, EncodeRun(kind) + EncodeRun(size) + BytesBits(bytes))
    requires |bytes| == Wrapped(size) < UINT32_MAX
    requires pos + |EncodeRun(kind)| + |EncodeRun(size)| + |BytesBits(bytes)| + 8 <= |data|
    ensures DecodeRaw(data, pos)
      == Parsed(RawMessage(Wrapped(kind), bytes), |EncodeRun(kind)| + |EncodeRun(size)| + |BytesBits(bytes)|)
  {
    hide EncodeRun, DecodeRun, BytesBits, ReadBytes, Wrapped;
    var k, n, b := EncodeRun(kind), EncodeRun(size), BytesBits(bytes);
    AtConcat(data, pos, k + n, b);
    AtConcat(data, pos, k, n);
    RunRoundTrip(data, pos, kind);
    RunRoundTrip(data, pos + |k|, size);
    BytesRoundTrip(data, pos + |k| + |n|, bytes);
  }

  /** A raw message comes back when at least the byte of the trailing bits follows it. */
  lemma {:induction false} RawRoundTrip(data: seq<bool>, pos: nat, m: RawMessage)
    requires At(data, pos, MessageBits(AsMessage(m))) && pos + |MessageBits(AsMessage(m))| + 8 <= |data| && m.Fits()
    ensures DecodeRaw(data, pos) == Parsed(m, |MessageBits(AsMessage(m))|)
  {
    hide EncodeRun, DecodeRaw, BytesBits, ReadBytes, Wrapped;
    RawRead(data, pos, m.kind, |m.data|, m.data);
  }

  /** The numbers of the message at a position did not wrap. */
  predicate RawUnwrapped(data: seq<bool>, pos: nat)
    requires DecodeRaw(data, pos).Parsed?
  {
    var kind := DecodeRun(data, pos);
    kind.value <= UINT32_MAX && DecodeRun(data, pos + kind.used).value <= UINT32_MAX
  }

  lemma {:induction false} RawUsed(data: seq<bool>, pos: nat)
    requires DecodeRaw(data, pos).Parsed?
    ensures DecodeRun(data, pos).Parsed? && DecodeRun(data, pos + DecodeRun(data, pos).used).Parsed?
    ensures var m, kind := DecodeRaw(data, pos).value, DecodeRun(data, pos);
      var size := DecodeRun(data, pos + kind.used);
      && m.kind == Wrapped(kind.value) && |m.data| == Wrapped(size.value)
      && DecodeRaw(data, pos).used == |EncodeRun(kind.value)| + |EncodeRun(size.value)| + 8 * |m.data|
  {
    hide EncodeRun, DecodeRun, ReadBytes, Wrapped;
    RunCanonical(data, pos);
    RunCanonical(data, pos + DecodeRun(data, pos).used);
  }

  /** A message read would be written with no more bits than were read, and with as many
      exactly when its numbers did not wrap. */
  lemma {:induction false} RawLength(data: seq<bool>, pos: nat)
    requires DecodeRaw(data, pos).Parsed?
    ensures var written, used := |MessageBits(AsMessage(DecodeRaw(data, pos).value))|, DecodeRaw(data, pos).used;
      written <= used && (written == used <==> RawUnwrapped(data, pos))
  {
    hide EncodeRun, DecodeRun, DecodeRaw, BytesBits, ReadBytes, Wrapped;
    RawUsed(data, pos);
    var kind := DecodeRun(data, pos);
    WrappedIsShorter(kind.value);
    WrappedIsShorter(DecodeRun(data, pos + kind.used).value);
  }

  /** A message read whose numbers did not wrap stands there as it would be written. */
  lemma {:induction false} RawCanonical(data: seq<bool>, pos: nat)
    requires DecodeRaw(data, pos).Parsed? && RawUnwrapped(data, pos)
    ensures At(data, pos, MessageBits(AsMessage(DecodeRaw(data, pos).value)))
  {
    hide EncodeRun, DecodeRun, BytesBits, ReadBytes, Wrapped;
    var m := DecodeRaw(data, pos).value;
    var k := DecodeRun(data, pos).used;
    var n := DecodeRun(data, pos + k).used;
    RunCanonical(data, pos);
    RunCanonical(data, pos + k);
    BytesCanonical(data, pos + k + n, |m.data|);
    AtConcat(data, pos, EncodeRun(m.kind), EncodeRun(|m.data|));
    AtConcat(data, pos, EncodeRun(m.kind) + EncodeRun(|m.data|), BytesBits(m.data));
  }

  /** cbs_h2645_read_more_rbsp_data: the bits left, up to a byte of them, are masked but for
      the first one. */
  predicate MoreData(data: seq<bool>, pos: nat)
    requires pos <= |data|
  {
    var left := |data| - pos;
    left > 8 || (left != 0 && FromBits(data[pos..]) % Pow2(left - 1) != 0)
  }

  /** Nothing is left to read exactly when at most one bit and fewer than eight zeros are. */
  lemma {:induction false} MoreDataIff(data: seq<bool>, pos: nat)
    requires pos <= |data|
    ensures !MoreData(data, pos) <==> pos == |data| || (|data| - pos <= 8 && forall i :: pos < i < |data| ==> !data[i])
  {
    hide FromBits, Pow2;
    if pos < |data| {
      MaskedTail(data[pos..]);
      ZeroBits(data[pos..][1..]);
      assert forall i :: pos < i < |data| ==> data[i] == data[pos..][1..][i - pos - 1];
      assert forall i :: 0 <= i < |data| - pos - 1 ==> data[pos..][1..][i] == data[pos + 1 + i];
    }
  }

  /** Masking off the first bit leaves the number of the others. */
  lemma {:induction false} MaskedTail(b: seq<bool>)
    requires |b| > 0
    ensures FromBits(b) % Pow2(|b| - 1) == FromBits(b[1..])
  {
    hide FromBits, Pow2;
    assert b == [b[0]] + b[1..];
    FromBitsConcat([b[0]], b[1..]);
    OneBitValue(b[0]);
    Quotient(FromBits(b), Pow2(|b| - 1), if b[0] then 1 else 0, FromBits(b[1..]));
  }

  lemma {:induction false} OneBitValue(b: bool)
    ensures FromBits([b]) == if b then 1 else 0
  {
    assert [b] == [] + [b];
    FromNothing([]);
    FromBitsSnoc([], b);
  }

  lemma {:induction false} ZeroBits(b: seq<bool>)
    ensures FromBits(b) == 0 <==> forall i :: 0 <= i < |b| ==> !b[i]
  {
    if |b| > 0 {
      ZeroBits(b[..|b| - 1]);
      assert forall i :: 0 <= i < |b| - 1 ==> b[..|b| - 1][i] == b[i];
    }
  }

  predicate AllFit(messages: seq<RawMessage>) {
    forall i :: 0 <= i < |messages| ==> messages[i].Fits()
  }

  /** message_list, for reading. */
  function DecodeList(data: seq<bool>, pos: nat): (p: Parse<seq<RawMessage>>)
    ensures p.Parsed? ==> |p.value| > 0 && pos + p.used + 8 == |data| && AllFit(p.value)
    decreases |data| - pos
  {
    match DecodeRaw(data, pos)
    case Bad => Bad
    case Parsed(m, used) =>
      if !MoreData(data, pos + used) then Parsed([m], used)
      else
        match DecodeList(data, pos + used)
        case Bad => Bad
        case Parsed(more, rest) => Parsed([m] + more, used + rest)
  }

  /** rbsp_trailing_bits at a byte boundary. */
  function Trailing(): (b: seq<bool>)
    ensures |b| == 8 && b[0] && forall i :: 0 < i < 8 ==> !b[i]
  {
    [true] + Zeros(7)
  }

  /** What a list of raw messages is written as. */
  function RawListBits(messages: seq<RawMessage>): seq<bool> {
    ListBits(AsMessages(messages))
  }

  lemma {:induction false} RawListCons(messages: seq<RawMessage>)
    requires |messages| > 0
    ensures RawListBits(messages) == MessageBits(AsMessage(messages[0])) + RawListBits(messages[1..])
  {
    hide MessageBits;
    assert AsMessages(messages)[1..] == AsMessages(messages[1..]);
    assert Settled(AsMessage(messages[0])) == AsMessage(messages[0]);
  }

  lemma {:induction false} RawListEmpty(messages: seq<RawMessage>)
    requires |messages| == 0
    ensures RawListBits(messages) == []
  {
  }

  lemma {:induction false} TrailingIsLast(data: seq<bool>, pos: nat)
    requires At(data, pos, Trailing()) && pos + 8 == |data|
    ensures !MoreData(data, pos)
  {
    assert data[pos..pos + 8][0] == data[pos];
    assert forall i :: pos < i < |data| ==> data[i] == data[pos..pos + 8][i - pos];
    MoreDataIff(data, pos);
  }

  lemma {:induction false} FittingListRead(data: seq<bool>, pos: nat, messages: seq<RawMessage>)
    requires |messages| > 0 && AllFit(messages)
    requires At(data, pos, RawListBits(messages) + Trailing()) && pos + |RawListBits(messages)| + 8 == |data|
    ensures DecodeList(data, pos) == Parsed(messages, |RawListBits(messages)|)
    decreases |messages|
  {
    hide MessageBits, DecodeRaw, MoreData, Trailing, RawListBits, RawMessage.Fits;
    var first, rest := MessageBits(AsMessage(messages[0])), RawListBits(messages[1..]);
    RawListCons(messages);
    assert first + rest + Trailing() == first + (rest + Trailing());
    AtConcat(data, pos, first, rest + Trailing());
    RawRoundTrip(data, pos, messages[0]);
    if |messages| == 1 {
      RawListEmpty(messages[1..]);
      assert rest + Trailing() == Trailing();
      TrailingIsLast(data, pos + |first|);
      assert messages == [messages[0]];
    } else {
      MoreMessages(data, pos + |first|, messages[1..]);
      FittingListRead(data, pos + |first|, messages[1..]);
      assert messages == [messages[0]] + messages[1..];
    }
  }

  /** A nonempty list of raw messages, written and followed by the trailing bits, is read
      back as it was exactly when every type has 32 bits and every size is below 2^32 - 1. */
  lemma {:induction false} ListRoundTrip(data: seq<bool>, pos: nat, messages: seq<RawMessage>)
    requires |messages| > 0
    requires At(data, pos, RawListBits(messages) + Trailing()) && pos + |RawListBits(messages)| + 8 == |data|
    ensures DecodeList(data, pos) == Parsed(messages, |RawListBits(messages)|) <==> AllFit(messages)
  {
    hide DecodeList, RawListBits, Trailing, RawMessage.Fits;
    if AllFit(messages) {
      FittingListRead(data, pos, messages);
    }
  }

  lemma {:induction false} MoreMessages(data: seq<bool>, pos: nat, messages: seq<RawMessage>)
    requires |messages| > 0 && pos + |RawListBits(messages)| + 8 == |data|
    ensures MoreData(data, pos)
  {
  }

  /** The empty list does not come back: its trailing byte would be read as a type. */
  lemma {:induction false} EmptyListIsLost(data: seq<bool>, pos: nat)
    requires At(data, pos, Trailing()) && pos + 8 == |data|
    ensures DecodeList(data, pos) == Bad
  {
  }

  /** No type or size of the list at a position wraps. */
  predicate Unwrapped(data: seq<bool>, pos: nat)
    requires DecodeList(data, pos).Parsed?
    decreases |data| - pos
  {
    var next := pos + DecodeRaw(data, pos).used;
    RawUnwrapped(data, pos) && (MoreData(data, next) ==> Unwrapped(data, next))
  }

  lemma {:induction false} ListParts(data: seq<bool>, pos: nat)
    requires DecodeList(data, pos).Parsed?
    ensures DecodeRaw(data, pos).Parsed?
    ensures var m, used := DecodeRaw(data, pos).value, DecodeRaw(data, pos).used;
      var p, bits := DecodeList(data, pos), MessageBits(AsMessage(m));
      if !MoreData(data, pos + used) then p == Parsed([m], used) && RawListBits(p.value) == bits
      else
        var rest := DecodeList(data, pos + used);
        rest.Parsed? && p.used == used + rest.used && RawListBits(p.value) == bits + RawListBits(rest.value)
  {
    hide MessageBits, DecodeRaw, MoreData, RawListBits;
    var used, all := DecodeRaw(data, pos).used, DecodeList(data, pos).value;
    RawListCons(all);
    if MoreData(data, pos + used) {
      assert all[1..] == DecodeList(data, pos + used).value;
    } else {
      RawListEmpty(all[1..]);
      assert MessageBits(AsMessage(all[0])) + [] == MessageBits(AsMessage(all[0]));
    }
  }

  lemma {:induction false} ListLength(data: seq<bool>, pos: nat)
    requires DecodeList(data, pos).Parsed?
    ensures var written, used := |RawListBits(DecodeList(data, pos).value)|, DecodeList(data, pos).used;
      written <= used && (written == used <==> Unwrapped(data, pos))
    decreases |data| - pos
  {
    hide MessageBits, DecodeRaw, DecodeList, MoreData, RawListBits, RawUnwrapped;
    ListParts(data, pos);
    RawLength(data, pos);
    var next := pos + DecodeRaw(data, pos).used;
    if MoreData(data, next) {
      ListLength(data, next);
    }
  }

  lemma {:induction false} UnwrappedList(data: seq<bool>, pos: nat)
    requires DecodeList(data, pos).Parsed? && Unwrapped(data, pos)
    ensures At(data, pos, RawListBits(DecodeList(data, pos).value))
    decreases |data| - pos
  {
    hide MessageBits, DecodeRaw, DecodeList, MoreData, RawListBits, RawUnwrapped;
    ListParts(data, pos);
    RawCanonical(data, pos);
    RawLength(data, pos);
    var m, used := DecodeRaw(data, pos).value, DecodeRaw(data, pos).used;
    if MoreData(data, pos + used) {
      UnwrappedList(data, pos + used);
      AtConcat(data, pos, MessageBits(AsMessage(m)), RawListBits(DecodeList(data, pos + used).value));
    }
  }

  /** A list read is the list written exactly when no type and no size wrapped. What
      follows it is a byte whose last seven bits are zero. */
  lemma {:induction false} ListCanonical(data: seq<bool>, pos: nat)
    requires DecodeList(data, pos).Parsed?
    ensures var p := DecodeList(data, pos);
      At(data, pos, RawListBits(p.value)) && |RawListBits(p.value)| == p.used <==> Unwrapped(data, pos)
    ensures var end := pos + DecodeList(data, pos).used;
      end + 8 == |data| && forall i :: end < i < |data| ==> !data[i]
  {
    hide DecodeList, MoreData, RawListBits, Unwrapped;
    ListEnd(data, pos);
    MoreDataIff(data, pos + DecodeList(data, pos).used);
    ListLength(data, pos);
    if Unwrapped(data, pos) {
      UnwrappedList(data, pos);
    }
  }

  lemma {:induction false} ListEnd(data: seq<bool>, pos: nat)
    requires DecodeList(data, pos).Parsed?
    ensures !MoreData(data, pos + DecodeList(data, pos).used)
    decreases |data| - pos
  {
    hide DecodeRaw, MoreData;
    var next := pos + DecodeRaw(data, pos).used;
    if MoreData(data, next) {
      ListEnd(data, next);
    }
  }

  lemma {:induction false} WrappedIsLong(data: seq<bool>, pos: nat)
    requires DecodeRaw(data, pos).Parsed? && !RawUnwrapped(data, pos)
    ensures DecodeRaw(data, pos).used > 8 * 16_843_010
  {
    hide EncodeRun, DecodeRun, DecodeRaw, Wrapped;
    RawUsed(data, pos);
    var kind := DecodeRun(data, pos);
    RunLength(kind.value);
    RunLength(DecodeRun(data, pos + kind.used).value);
  }

  /** A type or size wraps only behind 16,843,009 bytes 0xFF. */
  lemma {:induction false} ShortListUnwrapped(data: seq<bool>, pos: nat)
    requires DecodeList(data, pos).Parsed? && DecodeList(data, pos).used <= 8 * 16_843_010
    ensures Unwrapped(data, pos)
    decreases |data| - pos
  {
    hide DecodeRaw, DecodeList, MoreData, RawUnwrapped, RawListBits, MessageBits;
    ListParts(data, pos);
    if !RawUnwrapped(data, pos) {
      WrappedIsLong(data, pos);
    }
    var next := pos + DecodeRaw(data, pos).used;
    if MoreData(data, next) {
      ShortListUnwrapped(data, next);
    }
  }

  /** A type of 32 bits with 2^32 added is read as if it had not been added. */
  lemma {:induction false} WrappedTypeRead(data: seq<bool>, pos: nat, m: RawMessage)
    requires m.Fits()
    requires At(data, pos, MessageBits(AsMessage(m.(kind := m.kind + 0x1_0000_0000))) + Trailing())
    requires pos + |MessageBits(AsMessage(m.(kind := m.kind + 0x1_0000_0000)))| + 8 == |data|
    ensures DecodeList(data, pos).Parsed? && DecodeList(data, pos).value == [m]
    ensures !Unwrapped(data, pos)
  {
    hide EncodeRun, DecodeRun, BytesBits, DecodeRaw, MoreData, Trailing, ReadBytes;
    var far := m.(kind := m.kind + 0x1_0000_0000);
    var bits := MessageBits(AsMessage(far));
    AtConcat(data, pos, bits, Trailing());
    RawRead(data, pos, far.kind, |m.data|, m.data);
    TrailingIsLast(data, pos + |bits|);
    assert Wrapped(far.kind) == m.kind;
    RawUsed(data, pos);
    RawLength(data, pos);
    WrappedIsShorter(far.kind);
  }

  // ---- The extension of a message of a known type ----

  /** extension_bit_length as the reader finds it behind a body of `body` bits in a payload
      of `size` bytes: the bits before the last 1 bit of the payload, and None without one
      in the last eight. */
  function ExtensionLength(payload: seq<bool>, body: nat): Option<nat>
    requires body <= |payload|
  {
    var left := |payload| - body;
    var last := FromBits(payload[|payload| - (if left < 8 then left else 8)..]);
    if last == 0 then None
    else if left - 1 - TrailingZeros(last) < 0 then None
    else Some(left - 1 - TrailingZeros(last))
  }

  lemma {:induction false} TrailingZerosBits(front: seq<bool>, z: nat)
    ensures FromBits(front + [true] + Zeros(z)) > 0
    ensures TrailingZeros(FromBits(front + [true] + Zeros(z))) == z
    decreases z
  {
    hide FromBits, TrailingZeros;
    assert TrailingZeros(FromBits(front + [true])) == 0 by { TrailingZerosOdd(front); }
    var b := front + [true] + Zeros(z);
    if z == 0 {
      assert b == front + [true];
      FromBitsSnoc(front, true);
    } else {
      assert b == (front + [true] + Zeros(z - 1)) + [false];
      FromBitsSnoc(front + [true] + Zeros(z - 1), false);
      TrailingZerosBits(front, z - 1);
      TrailingZerosTwice(FromBits(front + [true] + Zeros(z - 1)));
    }
  }

  lemma {:induction false} TrailingZerosOdd(front: seq<bool>)
    ensures FromBits(front + [true]) > 0 && TrailingZeros(FromBits(front + [true])) == 0
  {
    FromBitsSnoc(front, true);
  }

  lemma {:induction false} TrailingZerosTwice(v: nat)
    requires v > 0
    ensures TrailingZeros(2 * v) == 1 + TrailingZeros(v)
  {
  }

  /** The reader finds the extension the writer put behind the body. */
  lemma {:induction false} ExtensionRecovered(body: seq<bool>, present: bool, extension: seq<bool>, size: nat)
    ensures var payload := PayloadBits(Typed(body, present, extension), size);
      if |body| % 8 != 0 || |body| < |payload| then ExtensionLength(payload, |body|) == Some(|extension|)
      else |extension| == 0
    ensures var payload := PayloadBits(Typed(body, present, extension), size);
      |body| + |extension| <= |payload| && payload[|body|..|body| + |extension|] == extension
  {
    hide FromBits, TrailingZeros;
    var payload := PayloadBits(Typed(body, present, extension), size);
    var whole := body + extension + [true];
    if payload != body {
      var z := |payload| - |whole|;
      assert payload == whole + Zeros(z);
      var left := |payload| - |body|;
      var n := if left < 8 then left else 8;
      var tail := payload[|payload| - n..];
      assert tail == tail[..n - 1 - z] + [true] + Zeros(z);
      TrailingZerosBits(tail[..n - 1 - z], z);
    } else {
      assert |payload| == |body|;
    }
  }

  // ---- The reader's loops ----

  /** The show_bits test of the loops; past the end the padding reads as zeros. */
  predicate ShowsFF(data: seq<bool>, pos: nat) {
    pos + 8 <= |data| && FromBits(data[pos..pos + 8]) == 255
  }

  /** The two loops that read a type and a size. */
  method ReadRun(r: BitReader) returns (value: Option<nat>)
    requires r.Valid()
    modifies r
    ensures r.Valid()
    ensures match DecodeRun(r.data, old(r.pos))
      case Bad => value == None
      case Parsed(v, used) => value == Some(Wrapped(v)) && r.pos == old(r.pos) + used
  {
    hide FromBits, Pow2, Wrapped;
    Pow2Bytes();
    var v := 0;
    ghost var sum := 0;
    ghost var start := r.pos;
    while ShowsFF(r.data, r.pos)
      invariant r.Valid() && start <= r.pos
      invariant v == Wrapped(sum)
      invariant DecodeRun(r.data, start) == Above(sum, r.pos - start, DecodeRun(r.data, r.pos))
      decreases r.Left()
    {
      var ff := r.Get(8);
      WrappedSum(sum, ff);
      v, sum := Wrapped(v + ff), sum + ff;
    }
    if r.Left() < 8 {
      return None;
    }
    var last := r.Get(8);
    WrappedSum(sum, last);
    return Some(Wrapped(v + last));
  }

  /** Wrapping in every addition is wrapping once. */
  lemma {:induction false} WrappedSum(sum: nat, more: nat)
    ensures Wrapped(Wrapped(sum) + more) == Wrapped(sum + more)
  {
  }

  function Above(low: nat, taken: nat, rest: Parse<nat>): Parse<nat> {
    match rest
    case Bad => Bad
    case Parsed(v, used) => Parsed(low + v, taken + used)
  }

  /** The payload of a message without a descriptor. */
  method ReadPayload(r: BitReader, size: nat) returns (data: array<byte>)
    requires r.Valid() && 8 * size <= r.Left()
    modifies r
    ensures r.Valid() && r.pos == old(r.pos) + 8 * size
    ensures data[..] == ReadBytes(r.data, old(r.pos), size)
  {
    hide FromBits, Pow2, ReadBytes;
    data := new byte[size];
    ghost var start := r.pos;
    for i := 0 to size
      invariant r.Valid() && r.pos == start + 8 * i
      invariant data[..i] == ReadBytes(r.data, start, i)
    {
      Pow2Bytes();
      var b := r.Get(8);
      data[i] := b;
      BytesSnoc(r.data, start, i);
      assert data[..i + 1] == data[..i] + [b];
    }
    assert data[..] == data[..size];
  }

  /** One round of the reader's loop, for a type without a descriptor. */
  method ReadRaw(r: BitReader) returns (message: Option<RawMessage>)
    requires r.Valid()
    modifies r
    ensures r.Valid()
    ensures match DecodeRaw(r.data, old(r.pos))
      case Bad => message == None
      case Parsed(m, used) => message == Some(m) && r.pos == old(r.pos) + used
  {
    hide DecodeRun, ReadBytes, Wrapped;
    var kind := ReadRun(r);
    if kind.None? {
      return None;
    }
    var size := ReadRun(r);
    if size.None? || Wrapped(size.value + 1) > r.Left() / 8 {
      return None;
    }
    // The end of a payload of the largest size is before its beginning.
    if size.value == UINT32_MAX {
      return None;
    }
    var data := ReadPayload(r, size.value);
    return Some(RawMessage(kind.value, data[..]));
  }

  /** message_list, for reading a list of messages of types without a descriptor. */
  method ReadList(r: BitReader) returns (messages: Option<seq<RawMessage>>)
    requires r.Valid()
    modifies r
    ensures r.Valid()
    ensures match DecodeList(r.data, old(r.pos))
      case Bad => messages == None
      case Parsed(list, used) => messages == Some(list) && r.pos == old(r.pos) + used
  {
    hide DecodeRaw, MoreData;
    var acc: seq<RawMessage> := [];
    ghost var start := r.pos;
    ListedNothing(DecodeList(r.data, start));
    while true
      invariant r.Valid() && start <= r.pos
      invariant DecodeList(r.data, start) == Listed(acc, r.pos - start, DecodeList(r.data, r.pos))
      decreases r.Left()
    {
      ListedStep(r.data, r.pos, acc, r.pos - start);
      var message := ReadRaw(r);
      if message.None? {
        return None;
      }
      acc := acc + [message.value];
      if !MoreData(r.data, r.pos) {
        return Some(acc);
      }
    }
  }

  function Listed(before: seq<RawMessage>, taken: nat, rest: Parse<seq<RawMessage>>): Parse<seq<RawMessage>> {
    match rest
    case Bad => Bad
    case Parsed(list, used) => Parsed(before + list, taken + used)
  }

  lemma {:induction false} ListedNothing(p: Parse<seq<RawMessage>>)
    ensures Listed([], 0, p) == p
  {
    if p.Parsed? {
      assert [] + p.value == p.value;
    }
  }

  lemma {:induction false} ListedStep(data: seq<bool>, pos: nat, before: seq<RawMessage>, taken: nat)
    ensures Listed(before, taken, DecodeList(data, pos)) ==
      match DecodeRaw(data, pos)
      case Bad => Bad
      case Parsed(m, used) =>
        if !MoreData(data, pos + used) then Parsed(before + [m], taken + used)
        else Listed(before + [m], taken + used, DecodeList(data, pos + used))
  {
    hide DecodeRaw, MoreData;
    if DecodeRaw(data, pos).Parsed? {
      var m, used := DecodeRaw(data, pos).value, DecodeRaw(data, pos).used;
      if MoreData(data, pos + used) && DecodeList(data, pos + used).Parsed? {
        var more := DecodeList(data, pos + used).value;
        assert before + ([m] + more) == before + [m] + more;
      }
    }
  }
}
