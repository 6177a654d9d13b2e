/** The base64 encoding of section 4 of RFC 4648, as src/b64_encode.c and src/b64_decode.c
    handle it. Bytes and characters are numbers; shifts and masks are written with division and
    remainder, and the bitwise or of the decoder bit by bit. */
module Base64 {
  import opened Wrappers

  type Byte = b: int | 0 <= b < 0x100
  type Digit = d: int | 0 <= d < 0x40
  type Bytes = seq<Byte>

  const PAD := 0x3D

  /** The alphabet: A-Z, a-z, 0-9, + and /. */
  function DigitChar(v: Digit): (c: Byte)
    ensures c > 0 && c != PAD
  {
    if v < 26 then 0x41 + v
    else if v < 52 then 0x61 + (v - 26)
    else if v < 62 then 0x30 + (v - 52)
    else if v == 62 then 0x2B
    else 0x2F
  }

  /** White space of the C locale. */
  predicate IsSpace(c: int) {
    c == 0x20 || 0x09 <= c <= 0x0D
  }

  datatype Class = End | Space | Invalid | Value(v: Digit)

  /** What a character means to the decoder. */
  function Classify(c: Byte): (r: Class)
    ensures r.Value? ==> DigitChar(r.v) == c
    ensures r == End <==> c == 0 || c == PAD
    ensures r == Space <==> IsSpace(c)
  {
    if c == 0 || c == PAD then End
    else if IsSpace(c) then Space
    else if 0x41 <= c <= 0x5A then Value(c - 0x41)
    else if 0x61 <= c <= 0x7A then Value(c - 0x61 + 26)
    else if 0x30 <= c <= 0x39 then Value(c - 0x30 + 52)
    else if c == 0x2B then Value(62)
    else if c == 0x2F then Value(63)
    else Invalid
  }

  /** The alphabet, spelled out. */
  const ALPHABET := UPPERCASE + LOWERCASE + DECIMALS + "+/"

  lemma DigitIsInAlphabet(v: Digit)
    ensures |ALPHABET| == 64 && DigitChar(v) == ALPHABET[v] as int
  {
    hide UPPERCASE, LOWERCASE, DECIMALS;
    AlphabetParts();
    if v < 26 {
      UppercaseAt(v);
    } else if v < 52 {
      LowercaseAt(v - 26);
    } else if v < 62 {
      DecimalAt(v - 52);
    }
  }

  lemma AlphabetParts()
    ensures |UPPERCASE| == 26 && |LOWERCASE| == 26 && |DECIMALS| == 10
    ensures |ALPHABET| == 64 && ALPHABET[62] == '+' && ALPHABET[63] == '/'
  {
  }

  /** White space, spelled out. */
  lemma SpaceIs(c: Byte)
    ensures Classify(c) == Space <==> c in {0x09, 0x0A, 0x0B, 0x0C, 0x0D, 0x20}
  {
  }

  lemma DigitCharClass(v: Digit)
    ensures Classify(DigitChar(v)) == Value(v)
  {
  }

  /** Byte `j`; zero bits behind the end. */
  function ByteAt(b: Bytes, j: nat): Byte {
    if j < |b| then b[j] else 0
  }

  /** Sextet `i` of a byte string: four sextets to three bytes. */
  function SextetAt(b: Bytes, i: nat): Digit {
    var j := i / 4 * 3;
    match i % 4
    case 0 => ByteAt(b, j) / 4
    case 1 => ByteAt(b, j) % 4 * 16 + ByteAt(b, j + 1) / 16
    case 2 => ByteAt(b, j + 1) % 16 * 4 + ByteAt(b, j + 2) / 64
    case _ => ByteAt(b, j + 2) % 64
  }

  /** Digits that carry `n` bytes, and characters with the padding to a multiple of four. */
  function DigitCount(n: nat): nat { n / 3 * 4 + if n % 3 == 0 then 0 else n % 3 + 1 }
  function EncodedLength(n: nat): nat { n / 3 * 4 + if n % 3 == 0 then 0 else 4 }

  /** Bytes that `m` digits complete. */
  function Held(m: nat): nat { m / 4 * 3 + if m % 4 == 0 then 0 else m % 4 - 1 }

  /** The encoding of a byte string. */
  function Encode(b: Bytes): (e: Bytes)
    ensures |e| == EncodedLength(|b|)
    ensures forall i :: 0 <= i < |e| ==> e[i] == if i < DigitCount(|b|) then DigitChar(SextetAt(b, i)) else PAD
  {
    seq(EncodedLength(|b|), i requires 0 <= i => if i < DigitCount(|b|) then DigitChar(SextetAt(b, i)) else PAD)
  }

  /** `c` is the `v`-th character of the alphabet. */
  ghost predicate Spells(c: int, v: nat) {
    v < 64 && |ALPHABET| == 64 && c == ALPHABET[v] as int
  }

  /** Three bytes stand in four characters of the alphabet, the first byte in the highest of their
      24 bits. */
  lemma QuantumCarries(b: Bytes, q: nat) returns (d: seq<nat>)
    requires 3 * q + 3 <= |b|
    ensures |d| == 4 && |Encode(b)| >= 4 * q + 4
    ensures forall k :: 0 <= k < 4 ==> Spells(Encode(b)[4 * q + k], d[k])
    ensures ((d[0] * 64 + d[1]) * 64 + d[2]) * 64 + d[3] ==
            (b[3 * q] as int * 0x100 + b[3 * q + 1] as int) * 0x100 + b[3 * q + 2] as int
  {
    hide Spells, DigitChar, SextetAt;
    d := DigitsOfQuantum(b, q);
  }

  /** One byte at the end stands in two characters, two bytes stand in three, their low bits clear;
      `=` fills up the four. */
  lemma EndCarries(b: Bytes, q: nat) returns (d: seq<nat>)
    requires |b| == 3 * q + 1 || |b| == 3 * q + 2
    ensures |d| == |b| - 3 * q + 1 && |Encode(b)| == 4 * q + 4 && Encode(b)[4 * q + 3] == '=' as int
    ensures forall k :: 0 <= k < |d| ==> Spells(Encode(b)[4 * q + k], d[k])
    ensures |b| == 3 * q + 1 ==> d[0] * 64 + d[1] == b[3 * q] as int * 16 && Encode(b)[4 * q + 2] == '=' as int
    ensures |b| == 3 * q + 2 ==> (d[0] * 64 + d[1]) * 64 + d[2] == (b[3 * q] as int * 0x100 + b[3 * q + 1] as int) * 4
  {
    hide Spells, DigitChar, SextetAt;
    d := DigitsOfQuantum(b, q);
    d := d[..|b| - 3 * q + 1];
  }

  lemma DigitsOfQuantum(b: Bytes, q: nat) returns (d: seq<nat>)
    requires 3 * q < |b|
    ensures |d| == 4 && d[3] == ByteAt(b, 3 * q + 2) % 64
    ensures forall k :: 0 <= k < 4 ==> d[k] == SextetAt(b, 4 * q + k) && Spells(DigitChar(SextetAt(b, 4 * q + k)), d[k])
    ensures ((d[0] * 64 + d[1]) * 64 + d[2]) * 64 + d[3] ==
            (b[3 * q] as int * 0x100 + ByteAt(b, 3 * q + 1)) * 0x100 + ByteAt(b, 3 * q + 2)
  {
    hide ALPHABET, DigitChar;
    assert (4 * q) / 4 == q && (4 * q + 1) / 4 == q && (4 * q + 2) / 4 == q && (4 * q + 3) / 4 == q;
    d := [SextetAt(b, 4 * q), SextetAt(b, 4 * q + 1), SextetAt(b, 4 * q + 2), SextetAt(b, 4 * q + 3)];
    forall k | 0 <= k < 4
      ensures d[k] == SextetAt(b, 4 * q + k) && Spells(DigitChar(SextetAt(b, 4 * q + k)), d[k])
    {
      DigitIsInAlphabet(SextetAt(b, 4 * q + k));
    }
  }

  /** Bitwise or, bit by bit. */
  function BitOr(a: nat, b: nat): nat
    decreases a + b
  {
    if a == 0 && b == 0 then 0
    else (if a % 2 == 1 || b % 2 == 1 then 1 else 0) + 2 * BitOr(a / 2, b / 2)
  }

  function Pow2(n: nat): (p: nat)
    ensures p > 0
  {
    if n == 0 then 1 else 2 * Pow2(n - 1)
  }

  lemma {:induction false} OrWithZero(a: nat)
    ensures BitOr(a, 0) == a
    decreases a
  {
    if a > 0 { OrWithZero(a / 2); }
  }

  /** An or that fills in cleared low bits adds. */
  lemma {:induction false} OrFillsIn(v: nat, low: nat, shift: nat)
    requires low < Pow2(shift)
    ensures BitOr(v * Pow2(shift), low) == v * Pow2(shift) + low
    decreases shift
  {
    if shift == 0 {
      OrWithZero(v);
    } else {
      var half := v * Pow2(shift - 1);
      assert v * Pow2(shift) == 2 * half;
      OrFillsIn(v, low / 2, shift - 1);
    }
  }

  /** The decoder between two characters: where it is in a quantum, the bytes completed, and the
      last digit read. */
  datatype Decoder = Decoder(state: nat, out: Bytes, last: Digit) {
    /** The bits of the last digit that belong to the next byte. */
    function Part(): Byte {
      if state == 1 then last * 4 else if state == 2 then last % 16 * 16 else if state == 3 then last % 4 * 64 else 0
    }
  }

  const START := Decoder(0, [], 0)

  /** One more digit: it completes a byte, except at the start of a quantum. */
  function Put(d: Decoder, v: Digit): (d': Decoder)
    requires d.state < 4
    ensures d'.state < 4
  {
    match d.state
    case 0 => Decoder(1, d.out, v)
    case 1 => Decoder(2, d.out + [d.last * 4 + v / 16], v)
    case 2 => Decoder(3, d.out + [d.last % 16 * 16 + v / 4], v)
    case _ => Decoder(0, d.out + [d.last % 4 * 64 + v], v)
  }

  /** The character at `i`; the terminator at the end. */
  function At(s: Bytes, i: nat): Byte
    requires i <= |s|
  {
    if i < |s| then s[i] else 0
  }

  function SkipSpaces(s: Bytes, i: nat): (j: nat)
    requires i <= |s|
    ensures i <= j <= |s| && (j < |s| ==> !IsSpace(s[j]))
    ensures forall k :: i <= k < j ==> IsSpace(s[k])
    decreases |s| - i
  {
    if i < |s| && IsSpace(s[i]) then SkipSpaces(s, i + 1) else i
  }

  /** The decoder after the last digit, if the text from `i` on is well formed: digits and white
      space, then the right padding and nothing but white space behind it. Bits left over in the
      last digit are not looked at here. */
  function Accept(s: Bytes, i: nat, d: Decoder): Option<Decoder>
    requires i <= |s| && d.state < 4
    decreases |s| - i
  {
    match Classify(At(s, i))
    case Space => Accept(s, i + 1, d)
    case Invalid => None
    case Value(v) => Accept(s, i + 1, Put(d, v))
    case End => if Padded(s, i, d.state) then Some(d) else None
  }

  /** How a text may end in `state`, read from the character that is no digit. */
  predicate Padded(s: Bytes, i: nat, state: nat)
    requires i <= |s|
  {
    if i == |s| || s[i] != PAD then state == 0
    else if state == 2 then
      var j := SkipSpaces(s, i + 1);
      j < |s| && s[j] == PAD && SkipSpaces(s, j + 1) == |s|
    else state == 3 && SkipSpaces(s, i + 1) == |s|
  }

  /** What a text decodes to: it must be well formed and leave no bits over. */
  function Decode(s: Bytes): Option<Bytes> {
    match Accept(s, 0, START)
    case Some(d) => if d.Part() == 0 then Some(d.out) else None
    case None => None
  }

  /** Bytes of target space the decoder has touched. */
  function Needs(d: Decoder): nat {
    |d.out| + if d.state == 0 then 0 else 1
  }

  /** The text without its white space. */
  function Squeezed(s: Bytes, i: nat): Bytes
    requires i <= |s|
    decreases |s| - i
  {
    if i == |s| then []
    else if IsSpace(s[i]) then Squeezed(s, i + 1)
    else [s[i]] + Squeezed(s, i + 1)
  }

  ghost predicate CString(s: Bytes) {
    forall k :: 0 <= k < |s| ==> s[k] != 0
  }

  /** The text `t` of digits read so far is the encoding of what the decoder holds; the last
      digit of an unfinished quantum agrees with the bits already known of it. */
  ghost predicate Mirrors(t: Bytes, d: Decoder) {
    && d.state == |t| % 4 && |d.out| == Held(|t|)
    && (forall i :: 0 <= i < |t| - (if d.state == 0 then 0 else 1) ==> t[i] == DigitChar(SextetAt(d.out, i)))
    && (d.state > 0 ==> t[|t| - 1] == DigitChar(d.last))
    && (d.state == 2 ==> d.out[|d.out| - 1] % 4 == d.last / 16)
    && (d.state == 3 ==> d.out[|d.out| - 1] % 16 == d.last / 4)
  }

  /** Bytes behind those a sextet is made of do not matter to it. */
  lemma SextetKept(a: Bytes, b: Bytes, i: nat)
    requires Held(i + 1) <= |a| <= |b| && a == b[..|a|] && (i % 4 < 3 ==> Held(i + 1) < |a|)
    ensures SextetAt(a, i) == SextetAt(b, i)
  {
    assert ByteAt(a, i / 4 * 3) == ByteAt(b, i / 4 * 3);
    if i % 4 > 0 { assert ByteAt(a, i / 4 * 3 + 1) == ByteAt(b, i / 4 * 3 + 1); }
    if i % 4 > 1 { assert ByteAt(a, i / 4 * 3 + 2) == ByteAt(b, i / 4 * 3 + 2); }
  }

  /** The new byte completes the last digit. */
  lemma LastSextet(t: Bytes, d: Decoder, v: Digit)
    requires Mirrors(t, d) && d.state > 0
    ensures SextetAt(Put(d, v).out, |t| - 1) == d.last
    ensures d.state == 3 ==> SextetAt(Put(d, v).out, |t|) == v
  {
  }

  /** Every digit but the first of a quantum completes a byte. */
  lemma HeldStep(n: nat)
    ensures Held(n + 1) == Held(n) + if n % 4 == 0 then 0 else 1
    ensures (n + 1) % 4 == if n % 4 == 3 then 0 else n % 4 + 1
  {
  }

  lemma HeldBelow(i: nat, n: nat)
    requires i + 1 < n && n % 4 > 0
    ensures Held(i + 1) <= Held(n) && (i % 4 < 3 ==> Held(i + 1) < Held(n))
  {
  }

  /** All digits but the last are those of the bytes, still after one byte more. */
  lemma EarlierSextets(t: Bytes, d: Decoder, v: Digit, i: nat)
    requires Mirrors(t, d) && d.state > 0 && i < |t| - 1
    ensures t[i] == DigitChar(SextetAt(Put(d, v).out, i))
  {
    hide DigitChar, SextetAt, Held;
    assert t[i] == DigitChar(SextetAt(d.out, i));
    assert d.out == Put(d, v).out[..|d.out|];
    HeldBelow(i, |t|);
    SextetKept(d.out, Put(d, v).out, i);
  }

  /** The bits of the new digit that its byte already holds. */
  lemma PutBits(d: Decoder, v: Digit)
    requires d.state < 4
    ensures var d' := Put(d, v);
            && d'.state == (if d.state == 3 then 0 else d.state + 1) && d'.last == v
            && |d'.out| == |d.out| + (if d.state == 0 then 0 else 1)
            && (d.state == 1 ==> d'.out[|d'.out| - 1] % 4 == v / 16)
            && (d.state == 2 ==> d'.out[|d'.out| - 1] % 16 == v / 4)
            && (d.state == 0 ==> d'.out == d.out)
  {
    LowTwoBits(d.last, v / 16);
    LowFourBits(d.last % 16, v / 4);
  }

  lemma LowTwoBits(a: int, b: int)
    requires 0 <= b < 4
    ensures (a * 4 + b) % 4 == b
  {
  }

  lemma LowFourBits(a: int, b: int)
    requires 0 <= b < 16
    ensures (a * 16 + b) % 16 == b
  {
  }

  lemma MirrorsAfterPut(t: Bytes, d: Decoder, v: Digit)
    requires Mirrors(t, d)
    ensures Mirrors(t + [DigitChar(v)], Put(d, v))
  {
    hide DigitChar, SextetAt, Held, Put;
    HeldStep(|t|);
    PutBits(d, v);
    if d.state > 0 {
      LastSextet(t, d, v);
      forall i | 0 <= i < |t| - 1 ensures t[i] == DigitChar(SextetAt(Put(d, v).out, i)) {
        EarlierSextets(t, d, v, i);
      }
    }
  }

  lemma SqueezedSpaces(s: Bytes, i: nat, j: nat)
    requires i <= j <= |s| && forall k :: i <= k < j ==> IsSpace(s[k])
    ensures Squeezed(s, i) == Squeezed(s, j)
    decreases j - i
  {
    if i < j { SqueezedSpaces(s, i + 1, j); }
  }

  /** The padding that ends a text, without its white space. */
  lemma SqueezedPadding(s: Bytes, i: nat, state: nat)
    requires i <= |s| && CString(s) && Padded(s, i, state) && Classify(At(s, i)) == End
    ensures Squeezed(s, i) == PaddingFor(state)
    ensures state == 0 || state == 2 || state == 3
  {
    if i < |s| {
      var j := SkipSpaces(s, i + 1);
      SqueezedSpaces(s, i + 1, j);
      if j < |s| {
        SqueezedSpaces(s, j + 1, |s|);
      }
    }
  }

  function PaddingFor(state: nat): Bytes {
    if state == 2 then [PAD, PAD] else if state == 3 then [PAD] else []
  }

  /** Behind the digits, padding completes the encoding if no bits are left over. */
  lemma MirrorsComplete(t: Bytes, d: Decoder)
    requires Mirrors(t, d) && d.state != 1 && d.Part() == 0
    ensures t + PaddingFor(d.state) == Encode(d.out)
  {
    assert |t| == DigitCount(|d.out|) && |t| + |PaddingFor(d.state)| == EncodedLength(|d.out|);
    if d.state > 0 {
      assert SextetAt(d.out, |t| - 1) == d.last;
    }
  }

  lemma {:induction false} AcceptMirrors(s: Bytes, i: nat, d: Decoder, t: Bytes)
    requires i <= |s| && d.state < 4 && CString(s)
    requires Mirrors(t, d) && Squeezed(s, 0) == t + Squeezed(s, i)
    requires Accept(s, i, d).Some?
    ensures var d' := Accept(s, i, d).value;
            d'.Part() == 0 ==> Squeezed(s, 0) == Encode(d'.out)
    decreases |s| - i
  {
    match Classify(At(s, i))
    case Space => AcceptMirrors(s, i + 1, d, t);
    case Value(v) =>
      MirrorsAfterPut(t, d, v);
      ConcatAssoc(t, [s[i]], Squeezed(s, i + 1));
      AcceptMirrors(s, i + 1, Put(d, v), t + [DigitChar(v)]);
    case End =>
      SqueezedPadding(s, i, d.state);
      if d.Part() == 0 {
        MirrorsComplete(t, d);
      }
  }

  /** Only canonical text is decoded: without its white space, what the decoder accepts is the
      encoding of what it returns. */
  lemma DecodedIsCanonical(s: Bytes)
    requires CString(s) && Decode(s).Some?
    ensures Squeezed(s, 0) == Encode(Decode(s).value)
  {
    assert [] + Squeezed(s, 0) == Squeezed(s, 0);
    AcceptMirrors(s, 0, START, []);
  }

  /** The next digit of an encoding adds the byte it completes. */
  lemma PutSextet(b: Bytes, i: nat, d: Decoder)
    requires i < DigitCount(|b|) && d.state == i % 4 && Held(i) <= |b| && d.out == b[..Held(i)]
    requires i % 4 > 0 ==> d.last == SextetAt(b, i - 1)
    ensures Held(i) <= Held(i + 1) <= |b|
    ensures Put(d, SextetAt(b, i)) == Decoder((i + 1) % 4, b[..Held(i + 1)], SextetAt(b, i))
  {
    if i % 4 > 0 {
      var j := Held(i);
      assert j == i / 4 * 3 + (i % 4 - 1) && j < |b|;
      SextetsMakeByte(b, i);
      assert b[..j] + [b[j]] == b[..j + 1];
    }
  }

  lemma SextetsMakeByte(b: Bytes, i: nat)
    requires i % 4 > 0
    ensures var u, v, x := SextetAt(b, i - 1), SextetAt(b, i), ByteAt(b, Held(i));
            x == if i % 4 == 1 then u * 4 + v / 16 else if i % 4 == 2 then u % 16 * 16 + v / 4 else u % 4 * 64 + v
  {
    hide SextetAt, ByteAt, Held;
    var q := i / 4;
    SextetsOf(b, q);
    HeldOf(q);
    assert i == 4 * q + 1 || i == 4 * q + 2 || i == 4 * q + 3;
    ThreeBytes(ByteAt(b, 3 * q), ByteAt(b, 3 * q + 1), ByteAt(b, 3 * q + 2));
  }

  /** The four sextets of three bytes. */
  lemma SextetsOf(b: Bytes, q: nat)
    ensures SextetAt(b, 4 * q) == ByteAt(b, 3 * q) / 4
    ensures SextetAt(b, 4 * q + 1) == ByteAt(b, 3 * q) % 4 * 16 + ByteAt(b, 3 * q + 1) / 16
    ensures SextetAt(b, 4 * q + 2) == ByteAt(b, 3 * q + 1) % 16 * 4 + ByteAt(b, 3 * q + 2) / 64
    ensures SextetAt(b, 4 * q + 3) == ByteAt(b, 3 * q + 2) % 64
  {
    assert 4 * q / 4 == q && (4 * q + 1) / 4 == q && (4 * q + 2) / 4 == q && (4 * q + 3) / 4 == q;
  }

  lemma HeldOf(q: nat)
    ensures Held(4 * q + 1) == 3 * q && Held(4 * q + 2) == 3 * q + 1 && Held(4 * q + 3) == 3 * q + 2
  {
  }

  lemma ThreeBytes(x: Byte, y: Byte, z: Byte)
    ensures x / 4 * 4 + (x % 4 * 16 + y / 16) / 16 == x
    ensures (x % 4 * 16 + y / 16) % 16 * 16 + (y % 16 * 4 + z / 64) / 4 == y
    ensures (y % 16 * 4 + z / 64) % 4 * 64 + z % 64 == z
  {
  }

  lemma AcceptDigit(s: Bytes, i: nat, d: Decoder, v: Digit)
    requires i < |s| && d.state < 4 && s[i] == DigitChar(v)
    ensures Accept(s, i, d) == Accept(s, i + 1, Put(d, v))
  {
    DigitCharClass(v);
  }

  lemma DigitOf(b: Bytes, i: nat)
    requires i < DigitCount(|b|)
    ensures i < |Encode(b)| && Encode(b)[i] == DigitChar(SextetAt(b, i))
  {
  }

  /** The decoder reads an encoding digit by digit. */
  lemma {:induction false} AcceptEncoding(b: Bytes, i: nat, d: Decoder)
    requires i <= DigitCount(|b|) && d.state == i % 4 && Held(i) <= |b| && d.out == b[..Held(i)]
    requires i % 4 > 0 ==> d.last == SextetAt(b, i - 1)
    ensures DigitCount(|b|) <= EncodedLength(|b|)
    ensures var r := Accept(Encode(b), i, d);
            r.Some? && r.value.out == b && r.value.Part() == 0
    decreases DigitCount(|b|) - i
  {
    hide SextetAt, DigitChar, Accept, Encode, Put, DigitCount, EncodedLength;
    if i < DigitCount(|b|) {
      var v := SextetAt(b, i);
      PutSextet(b, i, d);
      DigitOf(b, i);
      AcceptDigit(Encode(b), i, d, v);
      AcceptEncoding(b, i + 1, Put(d, v));
    } else {
      AcceptAtEnd(b, d);
    }
  }

  lemma AcceptAtEnd(b: Bytes, d: Decoder)
    requires var m := DigitCount(|b|);
             && d.state == m % 4 && Held(m) <= |b| && d.out == b[..Held(m)]
             && (m % 4 > 0 ==> d.last == SextetAt(b, m - 1))
    ensures DigitCount(|b|) <= EncodedLength(|b|)
    ensures Accept(Encode(b), DigitCount(|b|), d) == Some(d) && d.out == b && d.Part() == 0
  {
    PaddingAccepted(b);
    LastBitsZero(b, d);
    assert Held(DigitCount(|b|)) == |b|;
    assert b[..|b|] == b;
  }

  lemma PaddingAccepted(b: Bytes)
    ensures var i := DigitCount(|b|);
            i <= |Encode(b)| && Padded(Encode(b), i, i % 4) && Classify(At(Encode(b), i)) == End
  {
    var s, i := Encode(b), DigitCount(|b|);
    if |b| % 3 == 1 {
      assert s[i] == s[i + 1] == PAD && SkipSpaces(s, i + 1) == i + 1 && SkipSpaces(s, i + 2) == i + 2;
    } else if |b| % 3 == 2 {
      assert s[i] == PAD && SkipSpaces(s, i + 1) == i + 1;
    }
  }

  lemma LastBitsZero(b: Bytes, d: Decoder)
    requires d.state == DigitCount(|b|) % 4 && (d.state > 0 ==> d.last == SextetAt(b, DigitCount(|b|) - 1))
    ensures d.Part() == 0
  {
  }

  /** Decoding an encoding gives the bytes back. */
  lemma EncodeDecode(b: Bytes)
    ensures Decode(Encode(b)) == Some(b)
  {
    AcceptEncoding(b, 0, START);
  }

  // ----- White space -----

  ghost predicate NoSpaces(t: Bytes) {
    forall k :: 0 <= k < |t| ==> !IsSpace(t[k])
  }

  lemma {:induction false} SqueezedHasNoSpaces(s: Bytes, i: nat)
    requires i <= |s|
    ensures NoSpaces(Squeezed(s, i))
    decreases |s| - i
  {
    if i < |s| {
      SqueezedHasNoSpaces(s, i + 1);
    }
  }

  /** Skipping white space leads to the next character of the text without it, if there is one. */
  lemma SkippedTo(s: Bytes, i: nat)
    requires i <= |s|
    ensures var j, q := SkipSpaces(s, i), Squeezed(s, i);
            if j == |s| then q == [] else q != [] && q[0] == s[j] && q[1..] == Squeezed(s, j + 1)
  {
    SqueezedSpaces(s, i, SkipSpaces(s, i));
  }

  /** How a text ends does not depend on its white space; `t` is the text without it. */
  lemma PaddedSqueezed(s: Bytes, i: nat, t: Bytes, j: nat, state: nat)
    requires i < |s| && j < |t| && s[i] == t[j] == PAD && NoSpaces(t) && t[j + 1..] == Squeezed(s, i + 1)
    ensures Padded(s, i, state) <==> Padded(t, j, state)
  {
    hide IsSpace, Squeezed;
    SkippedTo(s, i + 1);
    var k := SkipSpaces(s, i + 1);
    if k < |s| {
      SkippedTo(s, k + 1);
      assert t[j + 1..][0] == t[j + 1] && t[j + 1..][1..] == t[j + 2..];
    }
  }

  /** Without its white space a text decodes the same. */
  lemma {:induction false} AcceptSqueezed(s: Bytes, i: nat, t: Bytes, j: nat, d: Decoder)
    requires i <= |s| && j <= |t| && d.state < 4 && CString(s) && NoSpaces(t) && t[j..] == Squeezed(s, i)
    ensures Accept(s, i, d) == Accept(t, j, d)
    decreases |s| - i
  {
    hide IsSpace, Padded, Put;
    if i < |s| {
      if IsSpace(s[i]) {
        AcceptSqueezed(s, i + 1, t, j, d);
      } else {
        assert t[j..][0] == t[j] == s[i] && t[j..][1..] == t[j + 1..] == Squeezed(s, i + 1);
        match Classify(s[i])
        case Value(v) => AcceptSqueezed(s, i + 1, t, j + 1, Put(d, v));
        case End => PaddedSqueezed(s, i, t, j, d.state);
        case _ =>
      }
    } else {
      NothingPadded(s, t, d.state);
    }
  }

  lemma NothingPadded(s: Bytes, t: Bytes, state: nat)
    ensures Padded(s, |s|, state) == Padded(t, |t|, state)
  {
  }

  /** A text decodes to `b` exactly when it is, without its white space, the encoding of `b`. */
  lemma DecodesExactly(s: Bytes, b: Bytes)
    requires CString(s)
    ensures Decode(s) == Some(b) <==> Squeezed(s, 0) == Encode(b)
  {
    hide Accept, Encode, Squeezed;
    var t := Squeezed(s, 0);
    SqueezedHasNoSpaces(s, 0);
    assert t[0..] == t;
    AcceptSqueezed(s, 0, t, 0, START);
    EncodeDecode(b);
    if Decode(s).Some? {
      DecodedIsCanonical(s);
    }
  }
}
