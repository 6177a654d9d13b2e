/** The codec as it runs: the reverse table, the decoding and the measuring pass of
    src/b64_decode.c, the encoder of src/b64_encode.c, and the buffer sizes of src/crypt.cpp. */
module Base64Codec {
  import opened Wrappers
  import opened Base64

  const RMAP_SPECIAL := 0xF0
  const RMAP_END := 0xFD
  const RMAP_SPACE := 0xFE
  const RMAP_INVALID := 0xFF

  /** The table entry for a character. */
  function Code(c: Byte): int {
    match Classify(c)
    case End => RMAP_END
    case Space => RMAP_SPACE
    case Invalid => RMAP_INVALID
    case Value(v) => v
  }

  ghost predicate IsRmap(rmap: array<int>)
    reads rmap
  {
    rmap.Length == 256 && forall c: Byte :: rmap[c] == Code(c)
  }

  method InitializeRmap() returns (rmap: array<int>)
    ensures fresh(rmap) && IsRmap(rmap)
  {
    rmap := new int[256];
    rmap[0] := RMAP_END;
    var i := 1;
    while i < 256
      invariant 1 <= i <= 256 && rmap[0] == RMAP_END
      invariant forall c :: 1 <= c < i ==>
                  rmap[c] == if IsSpace(c) then RMAP_SPACE else if c == PAD then RMAP_END else RMAP_INVALID
    {
      if IsSpace(i) {
        rmap[i] := RMAP_SPACE;
      } else if i == PAD {
        rmap[i] := RMAP_END;
      } else {
        rmap[i] := RMAP_INVALID;
      }
      i := i + 1;
    }
    i := 0;
    while i < 64
      invariant 0 <= i <= 64
      invariant forall c: Byte :: rmap[c] == if Classify(c).Value? && Classify(c).v >= i then RMAP_INVALID else Code(c)
    {
      DigitCharClass(i);
      rmap[DigitChar(i)] := i;
      i := i + 1;
    }
  }

  /** What decoding into `size` bytes returns. */
  function DecodeResult(s: Bytes, size: nat): int {
    match Accept(s, 0, START)
    case Some(d) => if d.Part() == 0 && Needs(d) <= size then |d.out| else -1
    case None => -1
  }

  /** What measuring returns. */
  function MeasureResult(s: Bytes): int {
    match Accept(s, 0, START)
    case Some(d) => |d.out|
    case None => -1
  }

  lemma {:induction false} NeedsGrow(s: Bytes, i: nat, d: Decoder)
    requires i <= |s| && d.state < 4
    ensures Accept(s, i, d).Some? ==> Needs(d) <= Needs(Accept(s, i, d).value) && Accept(s, i, d).value.state < 4
    decreases |s| - i
  {
    match Classify(At(s, i))
    case Space => NeedsGrow(s, i + 1, d);
    case Value(v) => NeedsGrow(s, i + 1, Put(d, v));
    case Invalid =>
    case End =>
  }

  /** The target holds what the decoder has: whole bytes, then the bits of the next one. */
  ghost predicate Filled(target: array<Byte>, tarindex: int, d: Decoder)
    reads target
  {
    && d.state < 4 && tarindex == |d.out| && Needs(d) <= target.Length
    && target[..tarindex] == d.out
    && (d.state > 0 ==> target[tarindex] == d.Part())
  }

  /** Fills the cleared low bits of a byte. */
  method OrInto(a: Byte, low: Byte, ghost high: nat, ghost shift: nat) returns (r: Byte)
    requires a == high * Pow2(shift) && low < Pow2(shift) && a + low < 0x100
    ensures r == a + low
  {
    OrFillsIn(high, low, shift);
    r := BitOr(a, low);
  }

  /** One digit into the target; fails when there is no room for what it touches. */
  method StoreDigit(target: array<Byte>, state: nat, tarindex: int, ofs: Digit, ghost d: Decoder)
    returns (ok: bool, state': nat, tarindex': int)
    requires Filled(target, tarindex, d) && state == d.state
    modifies target
    ensures ok <==> Needs(Put(d, ofs)) <= target.Length
    ensures ok ==> Filled(target, tarindex', Put(d, ofs)) && state' == Put(d, ofs).state
    ensures ok ==> forall k :: Needs(Put(d, ofs)) <= k < target.Length ==> target[k] == old(target[k])
  {
    ok, state', tarindex' := false, state, tarindex;
    assert Pow2(2) == 4 && Pow2(4) == 16 && Pow2(6) == 64;
    if state == 0 {
      if tarindex >= target.Length { return; }
      target[tarindex] := ofs * 4;
      state' := 1;
    } else if state == 1 {
      if tarindex + 1 >= target.Length { return; }
      var b := OrInto(target[tarindex], ofs / 16, d.last, 2);
      target[tarindex] := b;
      target[tarindex + 1] := ofs % 16 * 16;
      tarindex' := tarindex + 1;
      state' := 2;
    } else if state == 2 {
      if tarindex + 1 >= target.Length { return; }
      var b := OrInto(target[tarindex], ofs / 4, d.last % 16, 4);
      target[tarindex] := b;
      target[tarindex + 1] := ofs % 4 * 64;
      tarindex' := tarindex + 1;
      state' := 3;
    } else {
      if tarindex >= target.Length { return; }
      var b := OrInto(target[tarindex], ofs, d.last % 4, 6);
      target[tarindex] := b;
      tarindex' := tarindex + 1;
      state' := 0;
    }
    ok := true;
    assert target[..tarindex'] == Put(d, ofs).out;
  }

  /** Reads what may follow the digits, from the character at `i` that is none; shared by the
      decoding and the measuring pass. */
  method CheckEnding(rmap: array<int>, s: Bytes, i: nat, state: nat) returns (ok: bool)
    requires IsRmap(rmap) && CString(s) && i <= |s| && Classify(At(s, i)) == End && state < 4
    ensures ok <==> Padded(s, i, state)
  {
    if At(s, i) != PAD {
      return state == 0;
    }
    var j := i + 1;
    if state == 0 || state == 1 {
      return false;
    }
    if state == 2 {
      while At(s, j) != 0 && rmap[At(s, j)] == RMAP_SPACE
        invariant i + 1 <= j <= |s| && SkipSpaces(s, j) == SkipSpaces(s, i + 1)
        decreases |s| - j
      {
        j := j + 1;
      }
      if At(s, j) != PAD {
        return false;
      }
      j := j + 1;
    }
    ghost var start := j;
    while At(s, j) != 0
      invariant start <= j <= |s| && SkipSpaces(s, j) == SkipSpaces(s, start)
      decreases |s| - j
    {
      if rmap[At(s, j)] != RMAP_SPACE {
        return false;
      }
      j := j + 1;
    }
    ok := true;
  }

  method DecodeDo(rmap: array<int>, s: Bytes, target: array<Byte>) returns (r: int)
    requires IsRmap(rmap) && CString(s)
    modifies target
    ensures r == DecodeResult(s, target.Length)
    ensures r >= 0 ==> Decode(s) == Some(target[..r])
    ensures r >= 0 ==> forall k :: r <= k < target.Length ==> target[k] == old(target[k]) || target[k] == 0
  {
    var i, state, tarindex := 0, 0, 0;
    ghost var d := START;
    ghost var all := Accept(s, 0, START);
    while true
      invariant i <= |s| && Filled(target, tarindex, d) && state == d.state
      invariant Accept(s, i, d) == all
      invariant forall k :: Needs(d) <= k < target.Length ==> target[k] == old(target[k])
      decreases |s| - i
    {
      var ofs := Entry(rmap, At(s, i));
      if ofs >= RMAP_SPECIAL {
        if ofs == RMAP_SPACE {
          i := i + 1;
          continue;
        }
        if ofs == RMAP_END { break; }
        return -1;
      }
      ghost var next := Put(d, ofs);
      NeedsGrow(s, i + 1, next);
      var ok;
      ok, state, tarindex := StoreDigit(target, state, tarindex, ofs, d);
      if !ok { return -1; }
      d := next;
      i := i + 1;
    }
    var ended := CheckEnding(rmap, s, i, state);
    if !ended { return -1; }
    if state != 0 && target[tarindex] != 0 { return -1; }
    r := tarindex;
  }

  /** A table lookup. */
  method Entry(rmap: array<int>, c: Byte) returns (ofs: int)
    requires IsRmap(rmap)
    ensures ofs == Code(c)
  {
    ofs := rmap[c];
  }

  method DecodeLen(rmap: array<int>, s: Bytes) returns (r: int)
    requires IsRmap(rmap) && CString(s)
    ensures r == MeasureResult(s)
  {
    var i, state, tarindex := 0, 0, 0;
    ghost var d := START;
    while true
      invariant i <= |s| && tarindex == |d.out| && state == d.state < 4
      invariant Accept(s, i, d) == Accept(s, 0, START)
      decreases |s| - i
    {
      var ofs := rmap[At(s, i)];
      if ofs >= RMAP_SPECIAL {
        if ofs == RMAP_SPACE {
          i := i + 1;
          continue;
        }
        if ofs == RMAP_END { break; }
        return -1;
      }
      d := Put(d, ofs);
      if state == 0 {
        state := 1;
      } else {
        tarindex := tarindex + 1;
        state := (state + 1) % 4;
      }
      i := i + 1;
    }
    var ended := CheckEnding(rmap, s, i, state);
    r := if ended then tarindex else -1;
  }

  /** An accepted text ends a quantum exactly when it holds a multiple of three bytes. */
  lemma {:induction false} AcceptShape(s: Bytes, i: nat, d: Decoder)
    requires i <= |s| && d.state < 4 && |d.out| % 3 == if d.state < 2 then 0 else d.state - 1
    ensures Accept(s, i, d).Some? ==>
              var d' := Accept(s, i, d).value;
              d'.state < 4 && (d'.state == 0 <==> |d'.out| % 3 == 0)
    decreases |s| - i
  {
    match Classify(At(s, i))
    case Space => AcceptShape(s, i + 1, d);
    case Value(v) => AcceptShape(s, i + 1, Put(d, v));
    case Invalid =>
    case End =>
  }

  /** The two passes accept the same texts and agree on the length, except that decoding also
      rejects a text that leaves bits over. Room is needed for the bytes, and for one more when
      the text is padded; so one byte more than measured is always enough. */
  lemma PassesAgree(s: Bytes, size: nat)
    ensures Decode(s).Some? ==>
              var n := |Decode(s).value|;
              && MeasureResult(s) == n
              && DecodeResult(s, size) == if size >= n + (if n % 3 == 0 then 0 else 1) then n else -1
    ensures Decode(s).None? ==> DecodeResult(s, size) == -1
    ensures MeasureResult(s) >= 0 ==> (Decode(s).None? <==> Accept(s, 0, START).value.Part() != 0)
  {
    AcceptShape(s, 0, START);
  }

  /** The bytes of one quantum, up to three of them, into the target; `e` is the encoding. */
  method PutQuantum(target: array<Byte>, at: int, input: Bytes, ghost e: Bytes)
    requires 1 <= |input| <= 3 && 0 <= at && at + 4 <= target.Length && at + 4 <= |e|
    requires forall k :: 0 <= k < at ==> target[k] == e[k]
    requires IsQuantum(e, at, input)
    modifies target
    ensures forall k :: 0 <= k < at + 4 ==> target[k] == e[k]
  {
    var x := input[0];
    var y: Byte := if |input| > 1 then input[1] else 0;
    var z: Byte := if |input| > 2 then input[2] else 0;
    var o0: Digit, o1: Digit, o2: Digit, o3: Digit := x / 4, x % 4 * 16 + y / 16, y % 16 * 4 + z / 64, z % 64;
    target[at] := DigitChar(o0);
    target[at + 1] := DigitChar(o1);
    target[at + 2] := if |input| == 1 then PAD else DigitChar(o2);
    target[at + 3] := if |input| <= 2 then PAD else DigitChar(o3);
  }

  /** The four characters at `at` stand for the bytes of the input. */
  ghost predicate IsQuantum(e: Bytes, at: int, input: Bytes)
    requires 0 <= at && at + 4 <= |e| && 1 <= |input| <= 3
  {
    var x, y, z := input[0], ByteAt(input, 1), ByteAt(input, 2);
    && e[at] == DigitChar(x / 4)
    && e[at + 1] == DigitChar(x % 4 * 16 + y / 16)
    && e[at + 2] == (if |input| == 1 then PAD else DigitChar(y % 16 * 4 + z / 64))
    && e[at + 3] == (if |input| <= 2 then PAD else DigitChar(z % 64))
  }

  function Quantum(b: Bytes, q: nat): (r: Bytes)
    requires 3 * q < |b|
    ensures 1 <= |r| <= 3
  {
    if 3 * q + 3 <= |b| then b[3 * q..3 * q + 3] else b[3 * q..]
  }

  lemma QuantumAt(b: Bytes, q: nat)
    requires 3 * q < |b|
    ensures 4 * q + 4 <= |Encode(b)| && IsQuantum(Encode(b), 4 * q, Quantum(b, q))
  {
    SextetsOf(b, q);
    QuantumEnds(|b|, q);
    QuantumBytes(b, q);
    var r, e := Quantum(b, q), Encode(b);
    assert e[4 * q] == DigitChar(SextetAt(b, 4 * q)) && e[4 * q + 1] == DigitChar(SextetAt(b, 4 * q + 1));
    assert e[4 * q + 2] == if |r| == 1 then PAD else DigitChar(SextetAt(b, 4 * q + 2));
    assert e[4 * q + 3] == if |r| <= 2 then PAD else DigitChar(SextetAt(b, 4 * q + 3));
  }

  lemma QuantumBytes(b: Bytes, q: nat)
    requires 3 * q < |b|
    ensures var r := Quantum(b, q);
            && |r| == (if |b| - 3 * q > 2 then 3 else |b| - 3 * q)
            && r[0] == ByteAt(b, 3 * q) && ByteAt(r, 1) == ByteAt(b, 3 * q + 1) && ByteAt(r, 2) == ByteAt(b, 3 * q + 2)
  {
  }

  lemma QuantumEnds(n: nat, q: nat)
    requires 3 * q < n
    ensures 4 * q + 4 <= EncodedLength(n) && 4 * q + 1 < DigitCount(n)
    ensures (4 * q + 2 < DigitCount(n) <==> n > 3 * q + 1) && (4 * q + 3 < DigitCount(n) <==> n > 3 * q + 2)
  {
  }

  /** The encoder: succeeds exactly when the target takes the encoding and its terminator. */
  method B64Encode(src: Bytes, target: array<Byte>) returns (r: int)
    modifies target
    ensures r == if target.Length > EncodedLength(|src|) then EncodedLength(|src|) else -1
    ensures r >= 0 ==> target[..r] == Encode(src) && target[r] == 0
  {
    hide IsQuantum, SextetAt, DigitChar;
    var pos, srclength, datalength := 0, |src|, 0;
    ghost var q := 0;
    while 2 < srclength
      invariant q >= 0 && pos == 3 * q && datalength == 4 * q && pos + srclength == |src| && srclength >= 0
      invariant datalength <= target.Length && datalength <= |Encode(src)|
      invariant forall k :: 0 <= k < datalength ==> target[k] == Encode(src)[k]
    {
      QuantumAt(src, q);
      if datalength + 4 > target.Length {
        return -1;
      }
      PutQuantum(target, datalength, src[pos..pos + 3], Encode(src));
      pos, srclength, datalength, q := pos + 3, srclength - 3, datalength + 4, q + 1;
    }
    if srclength != 0 {
      QuantumAt(src, q);
      if datalength + 4 > target.Length {
        return -1;
      }
      PutQuantum(target, datalength, src[pos..], Encode(src));
      datalength := datalength + 4;
    }
    assert datalength == EncodedLength(|src|);
    if datalength >= target.Length {
      return -1;
    }
    assert target[..datalength] == Encode(src);
    target[datalength] := 0;
    assert target[..datalength] == Encode(src);
    r := datalength;
  }

  const TWO_TO_32 := 0x1_0000_0000

  /** crypt_get_base64_encode_length, in 32-bit unsigned arithmetic. */
  function EncodeLength(n: nat): nat
    requires n < TWO_TO_32
  {
    var third := 4 * n % TWO_TO_32 / 3;
    var up := (third + 3) % TWO_TO_32;
    (up - up % 4 + 1) % TWO_TO_32
  }

  /** The computed buffer size is the smallest with which encoding succeeds, exactly as long as
      four times the length does not overflow. */
  lemma EncodeLengthExact(n: nat)
    requires n < TWO_TO_32
    ensures EncodeLength(n) == EncodedLength(n) + 1 <==> n < TWO_TO_32 / 4
  {
    if n < TWO_TO_32 / 4 {
      NoWrap(n);
    } else {
      Wraps(n);
    }
  }

  lemma NoWrap(n: nat)
    requires n < TWO_TO_32 / 4
    ensures EncodeLength(n) == EncodedLength(n) + 1
  {
    var q, r := n / 3, n % 3;
    assert n == 3 * q + r;
    Exact(4 * n);
    RoundUp(q, r);
    var up := 4 * n / 3 + 3;
    Exact(up);
    Exact(up - up % 4 + 1);
  }

  /** A number that fits in 32 bits is not wrapped. */
  lemma Exact(x: nat)
    requires x < TWO_TO_32
    ensures x % TWO_TO_32 == x
  {
  }

  lemma Wraps(n: nat)
    requires TWO_TO_32 / 4 <= n < TWO_TO_32
    ensures EncodeLength(n) < EncodedLength(n) + 1
  {
    var wrapped := 4 * n % TWO_TO_32;
    assert wrapped <= 4 * n - TWO_TO_32;
    assert EncodeLength(n) <= wrapped / 3 + 4;
    assert EncodedLength(n) >= 4 * n / 3;
  }

  /** A third of four times the length, rounded up to a multiple of four. */
  lemma RoundUp(q: nat, r: nat)
    requires r < 3
    ensures var up := 4 * (3 * q + r) / 3 + 3;
            up - up % 4 == 4 * q + if r == 0 then 0 else 4
  {
    assert 4 * (3 * q + r) / 3 == 4 * q + 4 * r / 3;
    assert (4 * q + 4 * r / 3 + 3) % 4 == (4 * r / 3 + 3) % 4;
  }
}
