// The loops of the byte stream splitter, against the functions of NalSplit.

module NalReader {
  import opened Wrappers
  import opened Bits
  import opened Nal
  import opened NalSplit

  /** Two zero bytes that the fast scan has to stop at: an escape, a start code or a
      third zero byte follows. */
  predicate StopAt(src: seq<byte>, k: nat) {
    k + 2 < |src| && src[k] == 0 && src[k + 1] == 0 && src[k + 2] <= 3
  }

  lemma {:induction false} ExtractShort(src: seq<byte>)
    requires |src| < 3
    ensures Extract(src) == (src, |src|)
  {
  }

  /** Bytes before the first stop are copied as they are. */
  lemma {:induction false} ExtractSkip(src: seq<byte>, i: nat)
    requires i <= |src| && forall k :: 0 <= k < i ==> !StopAt(src, k)
    ensures Extract(src) == (src[..i] + Extract(src[i..]).0, i + Extract(src[i..]).1)
  {
    hide Extract;
    if i == 0 {
      assert src[..0] + Extract(src).0 == Extract(src).0 && src[0..] == src;
    } else if |src| < 3 {
      ExtractShort(src);
      ExtractShort(src[i..]);
      assert src[..i] + src[i..] == src;
    } else {
      ExtractSkipOne(src);
      forall k | 0 <= k < i - 1 ensures !StopAt(src[1..], k) {
        assert !StopAt(src, k + 1);
      }
      ExtractSkip(src[1..], i - 1);
      assert src[1..][i - 1..] == src[i..];
      assert [src[0]] + (src[1..][..i - 1] + Extract(src[i..]).0) == src[..i] + Extract(src[i..]).0;
    }
  }

  lemma {:induction false} ExtractSkipOne(src: seq<byte>)
    requires |src| >= 3 && !StopAt(src, 0)
    ensures Extract(src) == ([src[0]] + Extract(src[1..]).0, 1 + Extract(src[1..]).1)
  {
  }

  /** The fast scan: how far the bytes hold no stop, and whether it ended at one. */
  method FastScan(src: seq<byte>) returns (i: nat, stopped: bool)
    ensures forall k :: 0 <= k < i ==> !StopAt(src, k)
    ensures if stopped then StopAt(src, i) else i + 1 >= |src| && forall k :: 0 <= k < |src| ==> !StopAt(src, k)
  {
    i := 0;
    while i + 1 < |src|
      invariant forall k :: 0 <= k <= i - 2 ==> !StopAt(src, k)
      decreases |src| - i
    {
      if src[i] != 0 {
        assert i > 0 ==> !StopAt(src, i - 1);
        assert !StopAt(src, i);
        i := i + 2;
        continue;
      }
      ghost var top := i;
      if i > 0 && src[i - 1] == 0 {
        i := i - 1;
      } else {
        assert i > 0 ==> !StopAt(src, i - 1);
      }
      if i + 2 < |src| && src[i + 1] == 0 && src[i + 2] <= 3 {
        return i, true;
      }
      assert !StopAt(src, i);
      i := i + 2;
    }
    return i, false;
  }

  lemma {:induction false} ExtractAll(src: seq<byte>)
    requires forall k :: 0 <= k < |src| ==> !StopAt(src, k)
    ensures Extract(src) == (src, |src|)
  {
    ExtractSkip(src, |src|);
    assert src[..|src|] == src && src + [] == src && src[|src|..] == [];
  }

  /** What the copy loop has written so far and what is still to come. */
  ghost predicate Copied(src: seq<byte>, dst: array<byte>, di: nat, si: nat)
    reads dst
  {
    && di <= si <= |src| <= dst.Length
    && Extract(src) == (dst[..di] + Extract(src[si..]).0, si + Extract(src[si..]).1)
  }

  /** One byte copied, in front of bytes that are not an escape or a start code. */
  method CopyByte(src: seq<byte>, dst: array<byte>, di: nat, si: nat) returns (d: nat, s: nat)
    requires Copied(src, dst, di, si) && si < |src|
    requires si + 2 < |src| ==> src[si] != 0 || src[si + 1] != 0 || src[si + 2] == 0 || src[si + 2] > 3
    modifies dst
    ensures s == si + 1 && Copied(src, dst, d, s)
  {
    hide Extract;
    ExtractByte(src, si, dst[..di]);
    ghost var before := dst[..di];
    dst[di] := src[si];
    d, s := di + 1, si + 1;
    assert dst[..d] == before + [src[si]];
  }

  /** Extraction passes a byte that begins no escape and no start code. */
  lemma {:induction false} ExtractByte(src: seq<byte>, si: nat, before: seq<byte>)
    requires si < |src|
    requires si + 2 < |src| ==> src[si] != 0 || src[si + 1] != 0 || src[si + 2] == 0 || src[si + 2] > 3
    ensures before + Extract(src[si..]).0 == before + [src[si]] + Extract(src[si + 1..]).0
    ensures Extract(src[si..]).1 == 1 + Extract(src[si + 1..]).1
  {
    assert src[si..] == [src[si]] + src[si + 1..];
    assert src[si + 1..] == src[si..][1..];
    var rest := Extract(src[si + 1..]).0;
    assert |src[si..]| < 3 ==> src[si..] == [src[si]] + rest;
    hide Extract;
    assert before + ([src[si]] + rest) == before + [src[si]] + rest;
  }

  lemma {:induction false} CopiedEscape(src: seq<byte>, si: nat, before: seq<byte>)
    requires si + 2 < |src| && src[si] == 0 && src[si + 1] == 0 && src[si + 2] == 3
    ensures before + Extract(src[si..]).0 == before + [0, 0] + Extract(src[si + 3..]).0
    ensures Extract(src[si..]).1 == 3 + Extract(src[si + 3..]).1
  {
    assert src[si..][3..] == src[si + 3..];
  }

  /** The loop that copies the bytes and drops the escapes. */
  method CopyUnescaped(src: seq<byte>, dst: array<byte>, start: nat) returns (di: nat, si: nat)
    requires Copied(src, dst, start, start)
    modifies dst
    ensures di <= dst.Length && Extract(src) == (dst[..di], si)
  {
    hide Extract;
    di, si := start, start;
    while si + 2 < |src|
      invariant Copied(src, dst, di, si)
      decreases |src| - si
    {
      if src[si + 2] > 3 {
        di, si := CopyByte(src, dst, di, si);
        di, si := CopyByte(src, dst, di, si);
      } else if src[si] == 0 && src[si + 1] == 0 && src[si + 2] != 0 {
        if src[si + 2] == 3 {
          di, si := CopyEscape(src, dst, di, si);
        } else {
          StartCodeEnds(src, si, dst[..di]);
          return;
        }
      } else {
        di, si := CopyByte(src, dst, di, si);
      }
    }
    while si < |src|
      invariant Copied(src, dst, di, si) && si + 2 >= |src|
    {
      di, si := CopyByte(src, dst, di, si);
    }
    ExtractShort(src[si..]);
    assert dst[..di] + [] == dst[..di];
  }

  /** The two zeros of an escape. */
  method CopyEscape(src: seq<byte>, dst: array<byte>, di: nat, si: nat) returns (d: nat, s: nat)
    requires Copied(src, dst, di, si) && si + 2 < |src| && src[si] == 0 && src[si + 1] == 0 && src[si + 2] == 3
    modifies dst
    ensures s == si + 3 && Copied(src, dst, d, s)
  {
    hide Extract;
    CopiedEscape(src, si, dst[..di]);
    ghost var before := dst[..di];
    dst[di] := 0;
    dst[di + 1] := 0;
    d, s := di + 2, si + 3;
    assert dst[..d] == before + [0, 0];
  }

  lemma {:induction false} StartCodeEnds(src: seq<byte>, si: nat, before: seq<byte>)
    requires si + 2 < |src| && src[si] == 0 && src[si + 1] == 0 && 0 < src[si + 2] < 3
    ensures before + Extract(src[si..]).0 == before && Extract(src[si..]).1 == 0
  {
    assert before + [] == before;
  }

  /** ff_h2645_extract_rbsp, with small_padding as cbs calls it. */
  method ExtractRbsp(src: seq<byte>) returns (data: seq<byte>, consumed: nat)
    ensures (data, consumed) == Extract(src)
  {
    var i, stopped := FastScan(src);
    if !stopped {
      ExtractAll(src);
      return src, |src|;
    }
    ExtractSkip(src, i);
    if src[i + 2] != 3 && src[i + 2] != 0 {
      assert src[i..][0] == 0 && src[i..][1] == 0 && src[i..][2] == src[i + 2];
      assert src[..i] + [] == src[..i];
      return src[..i], i;
    }
    var dst := new byte[|src|];
    for k := 0 to i
      invariant dst[..k] == src[..k]
    {
      dst[k] := src[k];
      assert dst[..k + 1] == dst[..k] + [src[k]];
      assert src[..k + 1] == src[..k] + [src[k]];
    }
    var di, si := CopyUnescaped(src, dst, i);
    return dst[..di], si;
  }

  /** find_next_start_code */
  method FindNextStart(s: seq<byte>) returns (k: nat)
    requires |s| >= 3
    ensures k == NextStart(s)
  {
    if |s| == 3 {
      return 3;
    }
    var i := 0;
    while i + 3 < |s|
      invariant i + 3 <= |s| && NextStart(s) == i + NextStart(s[i..])
    {
      if s[i] == 0 && s[i + 1] == 0 && s[i + 2] == 1 {
        break;
      }
      assert s[i..][1..] == s[i + 1..];
      i := i + 1;
    }
    k := i + 3;
  }

  /** The strip loops of get_bit_length and cbs_h2645_fragment_add_nals. */
  method StripTrailing(data: seq<byte>) returns (size: nat)
    ensures size == |StripZeros(data)|
  {
    size := |data|;
    assert data[..size] == data;
    while size > 0 && data[size - 1] == 0
      invariant size <= |data| && StripZeros(data) == StripZeros(data[..size])
    {
      assert data[..size][..size - 1] == data[..size - 1];
      size := size - 1;
    }
  }

  /** One pass of the packet loop. */
  lemma {:induction false} SplitPass(codec: Codec, buf: seq<byte>, pos: nat, acc: seq<Found>)
    requires pos + 4 <= |buf|
    ensures var at := pos + NextStart(buf[pos..]);
      Split(codec, buf[pos..], acc) ==
        if at == |buf| then (if |acc| > 0 then Some(acc) else None)
        else
          var (data, used) := Extract(buf[at..]);
          Split(codec, buf[at + used..], acc + Listed(Kept(codec, data, buf[at + used..])))
  {
    hide Extract, Kept, NextStart;
    var k := NextStart(buf[pos..]);
    assert buf[pos..][k..] == buf[pos + k..];
    if pos + k < |buf| {
      var used := Extract(buf[pos + k..]).1;
      assert buf[pos + k..][used..] == buf[pos + k + used..];
    }
  }

  lemma {:induction false} SplitOver(codec: Codec, s: seq<byte>, acc: seq<Found>)
    requires |s| < 4
    ensures Split(codec, s, acc) == Some(acc)
  {
  }

  /** ff_h2645_packet_split on a byte stream. */
  method PacketSplit(codec: Codec, buf: seq<byte>) returns (nals: Option<seq<Found>>)
    ensures nals == Split(codec, buf, [])
    ensures nals.Some? ==> forall k :: 0 <= k < |nals.value| ==>
      StatesHeader(codec, nals.value[k].data, nals.value[k].kind, nals.value[k].layer)
  {
    hide Split, Extract, Kept, NextStart, StatesHeader;
    if Split(codec, buf, []).Some? {
      SplitHeaders(codec, buf, []);
    }
    var pos: nat := 0;
    var acc: seq<Found> := [];
    assert buf[0..] == buf;
    while |buf| - pos >= 4
      invariant pos <= |buf| && Split(codec, buf[pos..], acc) == Split(codec, buf, [])
    {
      SplitPass(codec, buf, pos, acc);
      var k := FindNextStart(buf[pos..]);
      pos := pos + k;
      if pos == |buf| {
        return if |acc| > 0 then Some(acc) else None;
      }
      var data, consumed := ExtractRbsp(buf[pos..]);
      pos := pos + consumed;
      var kept := Kept(codec, data, buf[pos..]);
      acc := acc + if kept.Some? then [kept.value] else [];
    }
    SplitOver(codec, buf[pos..], acc);
    return Some(acc);
  }

  /** cbs_h2645_fragment_add_nals */
  method AddNals(nals: seq<Found>) returns (units: seq<Unit>)
    ensures units == Added(nals)
  {
    units := [];
    for i := 0 to |nals|
      invariant units == Added(nals[..i])
    {
      assert nals[..i + 1][..i] == nals[..i];
      if nals[i].layer > 0 {
        continue;
      }
      var size := StripTrailing(nals[i].data);
      if size == 0 {
        continue;
      }
      units := units + [Unit(nals[i].kind, nals[i].data[..size])];
    }
    assert nals[..|nals|] == nals;
  }
}
