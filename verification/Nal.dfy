// H.264 and H.265 byte streams: cbs_h2645_assemble_fragment, and the splitter it is read
// back with (ff_h2645_packet_split, ff_h2645_extract_rbsp, cbs_h2645_fragment_add_nals).

module Nal {
  import opened Bits
  import opened Buffers

  datatype Codec = H264 | HEVC

  datatype Unit = Unit(kind: nat, data: seq<byte>)

  const H264_NAL_SPS := 7
  const H264_NAL_PPS := 8
  const HEVC_NAL_VPS := 32
  const HEVC_NAL_SPS := 33
  const HEVC_NAL_PPS := 34

  // ---- Emulation prevention (section 7.3.1 of ITU-T H.264) ----

  /** The payload as written after `run` zero bytes. */
  function Escape(data: seq<byte>, run: nat): seq<byte>
    requires run <= 2
  {
    if |data| == 0 then []
    else (if run == 2 && data[0] < 4 then [3] else []) + [data[0]] + Escape(data[1..], NextRun(run, data[0]))
  }

  /** zero_run after one more byte of payload. */
  function NextRun(run: nat, b: byte): nat {
    if b != 0 then 0 else if run < 2 then run + 1 else 1
  }

  /** What ff_h2645_extract_rbsp makes of a buffer: the payload without its escapes, up
      to the next start code, and how many bytes it consumed. */
  function Extract(src: seq<byte>): (r: (seq<byte>, nat))
    ensures r.1 <= |src|
  {
    if |src| < 3 then (src, |src|)
    else if src[0] == 0 && src[1] == 0 && src[2] == 3 then
      var (data, used) := Extract(src[3..]);
      ([0, 0] + data, 3 + used)
    else if src[0] == 0 && src[1] == 0 && src[2] != 0 && src[2] < 3 then ([], 0)
    else
      var (data, used) := Extract(src[1..]);
      ([src[0]] + data, 1 + used)
  }

  /** Two zero bytes followed by a byte that may not follow them in a payload. */
  predicate BadAt(e: seq<byte>, i: nat) {
    i + 2 < |e| && e[i] == 0 && e[i + 1] == 0 && e[i + 2] < 3
  }

  /** Escaping adds at most one byte for every two. */
  lemma {:induction false} EscapeLength(data: seq<byte>, run: nat)
    requires run <= 2
    ensures |data| <= |Escape(data, run)| <= |data| + (|data| + run) / 2
  {
    if |data| > 0 {
      EscapeLength(data[1..], NextRun(run, data[0]));
    }
  }

  /** The bytes that one byte of payload settles, after `run` zero bytes. */
  function SettledBytes(run: nat, b: byte): seq<byte>
    requires run <= 2
  {
    if run < 2 then (if b == 0 then [] else ZeroBytes(run) + [b])
    else if b == 0 then [0, 0, 3]
    else if b < 4 then [0, 0, 3, b]
    else [0, 0, b]
  }

  lemma {:induction false} EscapeStep(data: seq<byte>, run: nat)
    requires run <= 2 && |data| > 0
    ensures ZeroBytes(run) + Escape(data, run)
      == SettledBytes(run, data[0]) + (ZeroBytes(NextRun(run, data[0])) + Escape(data[1..], NextRun(run, data[0])))
  {
    EscapeStepFrom(run, data[0], Escape(data[1..], NextRun(run, data[0])));
    Regroup([], if run == 2 && data[0] < 4 then [3] else [], [data[0]], Escape(data[1..], NextRun(run, data[0])));
  }

  lemma {:induction false} EscapeStepFrom(run: nat, b: byte, e: seq<byte>)
    requires run <= 2
    ensures ZeroBytes(run) + ((if run == 2 && b < 4 then [3] else []) + [b] + e)
      == SettledBytes(run, b) + (ZeroBytes(NextRun(run, b)) + e)
  {
    if run == 2 && b < 4 {
      assert ZeroBytes(2) + ([3] + [b] + e) == [0, 0, 3, b] + e;
    } else {
      assert [] + [b] + e == [b] + e;
    }
  }

  lemma {:induction false} SettledIsClean(run: nat, b: byte, inner: seq<byte>, i: nat)
    requires run <= 2 && BadAt(SettledBytes(run, b) + inner, i)
    ensures i >= |SettledBytes(run, b)| && BadAt(inner, i - |SettledBytes(run, b)|)
  {
  }

  lemma {:induction false} CleanFrom(data: seq<byte>, run: nat, i: nat)
    requires run <= 2
    ensures !BadAt(ZeroBytes(run) + Escape(data, run), i)
  {
    if |data| > 0 && BadAt(ZeroBytes(run) + Escape(data, run), i) {
      var next := NextRun(run, data[0]);
      EscapeStep(data, run);
      SettledIsClean(run, data[0], ZeroBytes(next) + Escape(data[1..], next), i);
      CleanFrom(data[1..], next, i - |SettledBytes(run, data[0])|);
    }
  }

  /** No 00 00 00, 00 00 01 or 00 00 02 occurs in an escaped payload. */
  lemma {:induction false} EscapeIsClean(data: seq<byte>)
    ensures var e := Escape(data, 0);
      forall i :: 0 <= i < |e| - 2 ==> !(e[i] == 0 && e[i + 1] == 0 && e[i + 2] < 3)
  {
    var e := Escape(data, 0);
    assert ZeroBytes(0) + e == e;
    forall i | 0 <= i < |e| - 2 ensures !(e[i] == 0 && e[i + 1] == 0 && e[i + 2] < 3) {
      CleanFrom(data, 0, i);
    }
  }

  /** Two zero bytes and a byte that has to be escaped behind them. */
  predicate TripleAt(s: seq<byte>, i: nat) {
    i + 2 < |s| && s[i] == 0 && s[i + 1] == 0 && s[i + 2] < 4
  }

  predicate NoTriple(s: seq<byte>) {
    forall i :: 0 <= i < |s| ==> !TripleAt(s, i)
  }

  lemma {:induction false} TriplesBehind(run: nat, b: byte, rest: seq<byte>)
    requires run <= 2 && b != 0 && !(run == 2 && b < 4)
    ensures NoTriple(ZeroBytes(run) + ([b] + rest)) <==> NoTriple(rest)
  {
    var whole := ZeroBytes(run) + ([b] + rest);
    forall i | 0 <= i < |rest| ensures TripleAt(rest, i) <==> TripleAt(whole, i + run + 1) {
    }
    forall i | 0 <= i < |whole| && TripleAt(whole, i) ensures i >= run + 1 && TripleAt(rest, i - run - 1) {
    }
  }

  lemma {:induction false} SameFrom(data: seq<byte>, run: nat)
    requires run <= 2
    ensures Escape(data, run) == data <==> NoTriple(ZeroBytes(run) + data)
  {
    hide NoTriple;
    if |data| == 0 {
      NoneInZeros(run);
      assert ZeroBytes(run) + data == ZeroBytes(run);
    } else {
      var b, rest := data[0], data[1..];
      var next := NextRun(run, b);
      assert data == [b] + rest;
      EscapeLength(rest, next);
      if run == 2 && b < 4 {
        FirstTriple(data);
      } else {
        SameFrom(rest, next);
        SameTail(data, run);
        if b == 0 {
          assert ZeroBytes(run) + data == ZeroBytes(run + 1) + rest;
        } else {
          TriplesBehind(run, b, rest);
          assert ZeroBytes(0) + rest == rest;
        }
      }
    }
  }

  lemma {:induction false} SameTail(data: seq<byte>, run: nat)
    requires |data| > 0 && run <= 2 && !(run == 2 && data[0] < 4)
    ensures Escape(data, run) == data <==> Escape(data[1..], NextRun(run, data[0])) == data[1..]
  {
    var e := Escape(data[1..], NextRun(run, data[0]));
    assert Escape(data, run) == [data[0]] + e;
    assert Escape(data, run)[1..] == e;
  }

  lemma {:induction false} NoneInZeros(run: nat)
    requires run <= 2
    ensures NoTriple(ZeroBytes(run))
  {
  }

  lemma {:induction false} FirstTriple(data: seq<byte>)
    requires |data| > 0 && data[0] < 4
    ensures !NoTriple(ZeroBytes(2) + data)
  {
    assert TripleAt(ZeroBytes(2) + data, 0);
  }

  /** A payload is changed only where it has to be: it is written as it is exactly when none
      of 00 00 00 to 00 00 03 occurs in it. */
  lemma {:induction false} EscapeSameIff(data: seq<byte>)
    ensures Escape(data, 0) == data
      <==> forall i :: 0 <= i < |data| - 2 ==> !(data[i] == 0 && data[i + 1] == 0 && data[i + 2] < 4)
  {
    hide Escape;
    SameFrom(data, 0);
    assert ZeroBytes(0) + data == data;
    assert forall i :: 0 <= i < |data| - 2 ==>
      (TripleAt(data, i) <==> data[i] == 0 && data[i + 1] == 0 && data[i + 2] < 4);
  }

  // ---- Extracting an escaped payload ----

  lemma {:induction false} EscapeCons(b: byte, v: seq<byte>)
    requires b != 0
    ensures Escape([b] + v, 0) == [b] + Escape(v, 0)
  {
    assert ([b] + v)[1..] == v;
  }

  lemma {:induction false} EscapeZero(b: byte, v: seq<byte>)
    requires b != 0
    ensures Escape([0, b] + v, 0) == [0, b] + Escape(v, 0)
  {
    assert ([0, b] + v)[1..] == [b] + v && ([b] + v)[1..] == v;
  }

  lemma {:induction false} EscapeZeros(v: seq<byte>)
    requires |v| > 0
    ensures Escape([0, 0] + v, 0) == [0, 0] + if v[0] < 4 then [3] + Escape(v, 0) else Escape(v, 0)
  {
    assert ([0, 0] + v)[1..] == [0] + v && ([0] + v)[1..] == v;
    assert Escape([0, 0] + v, 0) == [0, 0] + Escape(v, 2);
  }

  lemma {:induction false} EscapeFirst(v: seq<byte>)
    requires |v| > 0
    ensures |Escape(v, 0)| > 0 && Escape(v, 0)[0] == v[0]
  {
  }

  /** Where an escaped payload ends: at the end of the buffer or before a start code. */
  ghost predicate Boundary(tail: seq<byte>) {
    tail == [] || (|tail| >= 3 && tail[0] == 0 && tail[1] == 0 && tail[2] < 2)
  }

  lemma {:induction false} ExtractCons(b: byte, s: seq<byte>)
    requires b != 0 || (|s| > 0 && s[0] != 0) || (|s| > 1 && s[1] > 3)
    ensures Extract([b] + s) == ([b] + Extract(s).0, 1 + Extract(s).1)
  {
    assert ([b] + s)[1..] == s;
  }

  lemma {:induction false} ExtractEscape(s: seq<byte>)
    ensures Extract([0, 0, 3] + s) == ([0, 0] + Extract(s).0, 3 + Extract(s).1)
  {
    assert ([0, 0, 3] + s)[3..] == s;
  }

  /** Extracting undoes escaping: the payload comes first, then what follows it. */
  lemma {:induction false} ExtractEscaped(u: seq<byte>, tail: seq<byte>)
    requires |u| > 0 ==> u[|u| - 1] != 0
    requires Boundary(tail)
    ensures Extract(Escape(u, 0) + tail) == (u + Extract(tail).0, |Escape(u, 0)| + Extract(tail).1)
    decreases |u|
  {
    if |u| == 0 {
      assert Escape(u, 0) + tail == tail && u + Extract(tail).0 == Extract(tail).0;
    } else if u[0] != 0 {
      ExtractEscapedPlain(u, tail);
    } else if u[1] != 0 {
      ExtractEscapedZero(u, tail);
    } else {
      ExtractEscapedZeros(u, tail);
    }
  }

  lemma {:induction false} ExtractEscapedPlain(u: seq<byte>, tail: seq<byte>)
    requires |u| > 0 && u[|u| - 1] != 0 && u[0] != 0 && Boundary(tail)
    ensures Extract(Escape(u, 0) + tail) == (u + Extract(tail).0, |Escape(u, 0)| + Extract(tail).1)
    decreases |u|, 0
  {
    hide Extract, Escape;
    var v := u[1..];
    assert u == [u[0]] + v;
    EscapeCons(u[0], v);
    ExtractEscaped(v, tail);
    ExtractCons(u[0], Escape(v, 0) + tail);
    assert Escape(u, 0) + tail == [u[0]] + (Escape(v, 0) + tail);
    assert [u[0]] + (v + Extract(tail).0) == u + Extract(tail).0;
  }

  lemma {:induction false} ExtractEscapedZero(u: seq<byte>, tail: seq<byte>)
    requires |u| > 1 && u[|u| - 1] != 0 && u[0] == 0 && u[1] != 0 && Boundary(tail)
    ensures Extract(Escape(u, 0) + tail) == (u + Extract(tail).0, |Escape(u, 0)| + Extract(tail).1)
    decreases |u|, 0
  {
    hide Extract, Escape;
    var v := u[2..];
    assert u == [0, u[1]] + v;
    EscapeZero(u[1], v);
    ExtractEscaped(v, tail);
    var s := Escape(v, 0) + tail;
    ExtractCons(u[1], s);
    ExtractCons(0, [u[1]] + s);
    assert Escape(u, 0) + tail == [0] + ([u[1]] + s);
    assert [0] + ([u[1]] + (v + Extract(tail).0)) == u + Extract(tail).0;
  }

  lemma {:induction false} ExtractEscapedZeros(u: seq<byte>, tail: seq<byte>)
    requires |u| > 2 && u[|u| - 1] != 0 && u[0] == 0 && u[1] == 0 && Boundary(tail)
    ensures Extract(Escape(u, 0) + tail) == (u + Extract(tail).0, |Escape(u, 0)| + Extract(tail).1)
    decreases |u|, 0
  {
    hide Extract, Escape;
    var v := u[2..];
    assert u == [0, 0] + v;
    EscapeZeros(v);
    ExtractEscaped(v, tail);
    var s := Escape(v, 0) + tail;
    assert [0, 0] + (v + Extract(tail).0) == u + Extract(tail).0;
    if v[0] < 4 {
      ExtractEscape(s);
      assert Escape(u, 0) + tail == [0, 0, 3] + s;
    } else {
      assert s[0] == v[0] by { EscapeFirst(v); }
      ExtractCons(0, s);
      ExtractCons(0, [0] + s);
      assert Escape(u, 0) + tail == [0] + ([0] + s);
      assert [0] + ([0] + Extract(s).0) == [0, 0] + Extract(s).0;
    }
  }
}
