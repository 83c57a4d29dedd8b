// SEI message lists (section 7.3.2.3 of ITU-T H.264): message and message_list of the
// syntax template, as they write and as they read.

module Sei {
  import opened Bits

  // ---- What a message is coded as ----

  /** A payload of a known type, with the bits its own syntax writes, whether that syntax
      sets extension_present itself, and the reserved extension bits; or the bytes of an
      unknown type. */
  datatype Payload = Typed(body: seq<bool>, present: bool, extension: seq<bool>) | Raw(data: seq<byte>)

  /** SEIRawMessage: `size` is payload_size, which writing replaces for known types. */
  datatype Message = Message(kind: nat, size: nat, payload: Payload)

  /** A payload of an unknown type is payload_size bytes. */
  predicate Sized(m: Message) {
    m.payload.Raw? ==> m.size == |m.payload.data|
  }

  /** What one write of the payload produces while payload_size is `size`. */
  function PayloadBits(p: Payload, size: nat): seq<bool> {
    match p
    case Raw(data) => BytesBits(data)
    case Typed(body, present, extension) =>
      if |body| % 8 != 0 || present || |extension| > 0 || |body| < 8 * size then PaddedToByte(body + extension + [true])
      else body
  }

  /** payload_size after one write that started with `size`. */
  function SettledSize(p: Payload, size: nat): nat {
    |PayloadBits(p, size)| / 8
  }

  function Settled(m: Message): Message {
    m.(size := SettledSize(m.payload, m.size))
  }

  /** Two passes suffice: whatever size the first one started with, the second starts with
      the size of the very bits it is about to write. */
  lemma {:induction false} TwoPassesSuffice(p: Payload, size: nat)
    ensures var settled := SettledSize(p, size);
      && PayloadBits(p, settled) == PayloadBits(p, size)
      && |PayloadBits(p, settled)| == 8 * settled
      && SettledSize(p, settled) == settled
      && (p.Raw? ==> settled == |p.data|)
  {
  }

  /** The code of a type or a size: 0xFF for every 255, then the rest. */
  function EncodeRun(v: nat): (b: seq<bool>)
    ensures |b| % 8 == 0 && |b| > 0
  {
    if v >= 255 then ToBits(8, 255) + EncodeRun(v - 255) else ToBits(8, v)
  }

  /** One pass over a message. */
  function MessageBits(m: Message): seq<bool> {
    EncodeRun(m.kind) + EncodeRun(m.size) + PayloadBits(m.payload, m.size)
  }

  /** The list as written: every size is that of its payload. */
  function ListBits(messages: seq<Message>): seq<bool> {
    if |messages| == 0 then [] else MessageBits(Settled(messages[0])) + ListBits(messages[1..])
  }

  /** Both passes of every message find room. */
  predicate ListFits(messages: seq<Message>, room: int) {
    |messages| == 0 ||
    (var final := |MessageBits(Settled(messages[0]))|;
     |MessageBits(messages[0])| <= room && final <= room && ListFits(messages[1..], room - final))
  }

  // ---- Writing ----

  /** A write of the bits, or an error without room for them. */
  method PutField(w: BitWriter, bits: seq<bool>) returns (ok: bool)
    requires w.Valid()
    modifies w
    ensures w.Valid() && ok == (|bits| <= old(w.Left()))
    ensures w.bits == old(w.bits) + if ok then bits else []
  {
    ok := |bits| <= w.Left();
    if ok {
      w.bits := w.bits + bits;
    }
  }

  /** The two loops that write a type and a size. */
  method PutRun(w: BitWriter, v: nat) returns (ok: bool)
    requires w.Valid()
    modifies w
    ensures w.Valid() && ok == (|EncodeRun(v)| <= old(w.Left()))
    ensures ok ==> w.bits == old(w.bits) + EncodeRun(v)
  {
    hide ToBits;
    var tmp := v;
    while tmp >= 255
      invariant w.Valid() && w.bits + EncodeRun(tmp) == old(w.bits) + EncodeRun(v)
      decreases tmp
    {
      assert w.bits + (ToBits(8, 255) + EncodeRun(tmp - 255)) == w.bits + ToBits(8, 255) + EncodeRun(tmp - 255);
      ghost var whole := w.bits + EncodeRun(tmp);
      ok := PutField(w, ToBits(8, 255));
      if !ok {
        assert |whole| == |w.bits| + |EncodeRun(tmp)|;
        return;
      }
      tmp := tmp - 255;
    }
    ghost var whole := w.bits + EncodeRun(tmp);
    assert |whole| == |w.bits| + |EncodeRun(tmp)|;
    ok := PutField(w, ToBits(8, tmp));
  }

  /** The extension bits, eight at a time. */
  method PutExtension(w: BitWriter, extension: seq<bool>) returns (ok: bool)
    requires w.Valid()
    modifies w
    ensures w.Valid() && ok == (|extension| <= old(w.Left()))
    ensures ok ==> w.bits == old(w.bits) + extension
  {
    var done, left := 0, |extension|;
    while left > 0
      invariant 0 <= left && done + left == |extension| && w.Valid() && w.bits == old(w.bits) + extension[..done]
    {
      var length := if left < 8 then left else 8;
      ok := PutField(w, extension[done..done + length]);
      if !ok {
        return;
      }
      assert extension[..done + length] == extension[..done] + extension[done..done + length];
      done, left := done + length, left - length;
    }
    assert extension[..done] == extension;
    return true;
  }

  /** The stop bit and zeros up to a byte boundary. */
  method PutStop(w: BitWriter) returns (ok: bool)
    requires w.Valid() && w.capacity % 8 == 0
    modifies w
    ensures w.Valid() && ok == (old(w.Left()) > 0)
    ensures ok ==> w.bits == PaddedToByte(old(w.bits) + [true])
  {
    ok := PutField(w, [true]);
    if !ok {
      return;
    }
    ghost var b := w.bits;
    PaddedForm(b);
    while |w.bits| % 8 != 0
      invariant w.Valid() && ok && |b| <= |w.bits| <= |PaddedToByte(b)| && w.bits == PaddedToByte(b)[..|w.bits|]
      decreases |PaddedToByte(b)| - |w.bits|
    {
      ok := PutField(w, [false]);
    }
  }

  /** The payload of a known type. */
  method PutTyped(w: BitWriter, body: seq<bool>, present: bool, extension: seq<bool>, size: nat) returns (ok: bool)
    requires w.Valid() && w.capacity % 8 == 0 && |w.bits| % 8 == 0
    modifies w
    ensures w.Valid() && ok == (|PayloadBits(Typed(body, present, extension), size)| <= old(w.Left()))
    ensures ok ==> w.bits == old(w.bits) + PayloadBits(Typed(body, present, extension), size)
  {
    hide PaddedToByte, PayloadBits;
    var start := |w.bits|;
    ghost var before, whole := w.bits, body + extension + [true];
    TypedForm(before, body, present, extension, size);
    RoomForPadding(whole, w.Left());
    ok := PutField(w, body);
    if !ok {
      return;
    }
    var extensionPresent := |extension| > 0 || present;
    if |w.bits| % 8 != 0 || extensionPresent || |w.bits| - start < 8 * size {
      ok := PutExtension(w, extension);
      if !ok {
        return;
      }
      ok := PutStop(w);
    }
  }

  /** message, for writing: the payload, and payload_size for a known type. */
  method WritePayload(w: BitWriter, messages: array<Message>, k: nat) returns (ok: bool)
    requires w.Valid() && w.capacity % 8 == 0 && |w.bits| % 8 == 0 && k < messages.Length && Sized(messages[k])
    modifies w, messages
    ensures w.Valid()
    ensures ok == (|PayloadBits(old(messages[k].payload), old(messages[k].size))| <= old(w.Left()))
    ensures ok ==> w.bits == old(w.bits) + PayloadBits(old(messages[k].payload), old(messages[k].size))
    ensures messages[..] == old(messages[..])[k := if ok then Settled(old(messages[k])) else old(messages[k])]
  {
    var m := messages[k];
    var start := |w.bits|;
    match m.payload {
      case Raw(data) =>
        ok := PutField(w, BytesBits(data));
      case Typed(body, present, extension) =>
        ok := PutTyped(w, body, present, extension, m.size);
        if ok {
          messages[k] := m.(size := (|w.bits| - start) / 8);
        }
    }
  }

  lemma {:induction false} TypedForm(before: seq<bool>, body: seq<bool>, present: bool, extension: seq<bool>, size: nat)
    requires |before| % 8 == 0
    ensures var bits := PayloadBits(Typed(body, present, extension), size);
      if |before + body| % 8 != 0 || present || |extension| > 0 || |body| < 8 * size
      then |bits| == |PaddedToByte(body + extension + [true])|
        && before + bits == PaddedToByte(before + body + extension + [true])
      else bits == body
  {
    hide PaddedToByte;
    var whole := body + extension + [true];
    assert before + whole == before + body + extension + [true];
    assert |before + body| % 8 == |body| % 8;
    PaddedBehind(before, whole);
  }

  lemma {:induction false} RoomForPadding(b: seq<bool>, room: nat)
    requires room % 8 == 0
    ensures |PaddedToByte(b)| <= room <==> |b| <= room
  {
  }

  lemma {:induction false} PaddedBehind(start: seq<bool>, b: seq<bool>)
    requires |start| % 8 == 0
    ensures PaddedToByte(start + b) == start + PaddedToByte(b)
  {
    assert |start + b| % 8 == |b| % 8;
    hide PaddedToByte;
    PaddedForm(b);
    PaddedForm(start + b);
  }

  /** One pass over a message. */
  method WritePass(w: BitWriter, messages: array<Message>, k: nat) returns (ok: bool)
    requires w.Valid() && w.capacity % 8 == 0 && |w.bits| % 8 == 0 && k < messages.Length && Sized(messages[k])
    modifies w, messages
    ensures w.Valid() && ok == (|MessageBits(old(messages[k]))| <= old(w.Left()))
    ensures ok ==> w.bits == old(w.bits) + MessageBits(old(messages[k]))
    ensures messages[..] == old(messages[..])[k := if ok then Settled(old(messages[k])) else old(messages[k])]
  {
    hide EncodeRun, PayloadBits, Settled;
    ghost var m, before := messages[k], w.bits;
    MessageParts(before, m);
    ok := PutRun(w, messages[k].kind);
    if !ok {
      return;
    }
    ok := PutRun(w, messages[k].size);
    if !ok {
      return;
    }
    ok := WritePayload(w, messages, k);
  }

  lemma {:induction false} MessageParts(before: seq<bool>, m: Message)
    ensures before + MessageBits(m) == before + EncodeRun(m.kind) + EncodeRun(m.size) + PayloadBits(m.payload, m.size)
    ensures |MessageBits(m)| == |EncodeRun(m.kind)| + |EncodeRun(m.size)| + |PayloadBits(m.payload, m.size)|
    ensures |EncodeRun(m.kind)| % 8 == 0 && |EncodeRun(m.size)| % 8 == 0
  {
  }

  /** The body of the loop over the list: the message is written twice from the same
      state, and its size becomes that of its payload. */
  method WriteMessage(w: BitWriter, messages: array<Message>, k: nat) returns (ok: bool)
    requires w.Valid() && w.capacity % 8 == 0 && |w.bits| % 8 == 0 && k < messages.Length && Sized(messages[k])
    modifies w, messages
    ensures w.Valid()
    ensures ok <==>
      && |MessageBits(old(messages[k]))| <= old(w.Left())
      && |MessageBits(Settled(old(messages[k])))| <= old(w.Left())
    ensures ok ==> w.bits == old(w.bits) + MessageBits(Settled(old(messages[k])))
    ensures ok ==> messages[..] == old(messages[..])[k := Settled(old(messages[k]))]
  {
    hide MessageBits, PayloadBits, Settled;
    ghost var m := messages[k];
    SettledOnce(m);
    var start := w.bits;
    ok := WritePass(w, messages, k);
    if !ok {
      return;
    }
    w.bits := start;
    assert messages[k] == messages[..][k];
    ok := WritePass(w, messages, k);
    if ok {
      assert messages[..] == old(messages[..])[k := Settled(m)];
    }
  }

  lemma {:induction false} SettledOnce(m: Message)
    requires Sized(m)
    ensures Settled(Settled(m)) == Settled(m) && Sized(Settled(m))
    ensures |MessageBits(Settled(m))| % 8 == 0
  {
    hide EncodeRun, PayloadBits, SettledSize;
    TwoPassesSuffice(m.payload, m.size);
  }

  /** message_list, for writing. When both passes of every message find room, the list is
      appended with every size field equal to the bytes of the payload behind it, and the
      sizes in memory are those written. */
  method WriteList(w: BitWriter, messages: array<Message>) returns (ok: bool)
    requires w.Valid() && w.capacity % 8 == 0 && |w.bits| % 8 == 0
    requires forall k :: 0 <= k < messages.Length ==> Sized(messages[k])
    modifies w, messages
    ensures w.Valid() && ok == ListFits(old(messages[..]), old(w.Left()))
    ensures ok ==> w.bits == old(w.bits) + ListBits(old(messages[..]))
    ensures ok ==> forall k :: 0 <= k < messages.Length ==> messages[k] == Settled(old(messages[k]))
  {
    hide MessageBits, ListBits, ListFits, Settled, Sized;
    ghost var were, goal := messages[..], w.bits + ListBits(messages[..]);
    assert were[0..] == were;
    for k := 0 to messages.Length
      invariant w.Valid() && |w.bits| % 8 == 0
      invariant w.bits + ListBits(were[k..]) == goal
      invariant ListFits(were, old(w.Left())) == ListFits(were[k..], w.Left())
      invariant forall j :: 0 <= j < messages.Length ==> messages[..][j] == if j < k then Settled(were[j]) else were[j]
    {
      assert messages[k] == messages[..][k];
      ListStep(were, k, w.bits, w.Left());
      SettledOnce(were[k]);
      ok := WriteMessage(w, messages, k);
      if !ok {
        return;
      }
    }
    ListEnd(were[messages.Length..], w.Left());
    assert w.bits + [] == w.bits;
    return true;
  }

  lemma {:induction false} ListStep(messages: seq<Message>, k: nat, before: seq<bool>, room: nat)
    requires k < |messages|
    ensures before + ListBits(messages[k..]) == before + MessageBits(Settled(messages[k])) + ListBits(messages[k + 1..])
    ensures var final := |MessageBits(Settled(messages[k]))|;
      ListFits(messages[k..], room) ==
      (|MessageBits(messages[k])| <= room && final <= room && ListFits(messages[k + 1..], room - final))
  {
    hide MessageBits, Settled;
    assert messages[k..][1..] == messages[k + 1..] && messages[k..][0] == messages[k];
  }

  lemma {:induction false} ListEnd(messages: seq<Message>, room: nat)
    requires |messages| == 0
    ensures ListBits(messages) == [] && ListFits(messages, room)
  {
  }
}
