/** Encrypted passwords as src/crypt.cpp stores them: the cipher, then base64, then optionally
    rot13. AES in counter mode is the exclusive or with a key stream that depends only on the
    password; the key stream is a parameter. */
module Crypt {
  import opened Wrappers
  import opened Base64
  import opened Base64Codec

  const INT_MAX := 0x7FFF_FFFF

  type KeyStream = nat -> Byte

  /** rot13_byte: letters move by thirteen places in their own case. */
  function Rot13Byte(c: Byte): (r: Byte)
    ensures r == 0 <==> c == 0
  {
    if 0x41 <= c <= 0x5A then 0x41 + (c - 0x41 + 13) % 26
    else if 0x61 <= c <= 0x7A then 0x61 + (c - 0x61 + 13) % 26
    else c
  }

  function Rot13(s: Bytes): (r: Bytes)
    ensures |r| == |s| && forall k :: 0 <= k < |s| ==> r[k] == Rot13Byte(s[k])
  {
    seq(|s|, k requires 0 <= k < |s| => Rot13Byte(s[k]))
  }

  lemma Rot13Twice(s: Bytes)
    ensures Rot13(Rot13(s)) == s
  {
    forall k | 0 <= k < |s|
      ensures Rot13(Rot13(s))[k] == s[k]
    {
      Rot13ByteTwice(s[k]);
    }
  }

  /** Letters move by thirteen places and stay letters of their case; nothing else changes. */
  lemma Rot13Moves(s: Bytes, k: nat)
    requires k < |s|
    ensures var c, r := s[k], Rot13(s)[k];
            if 'A' as int <= c <= 'Z' as int then 'A' as int <= r <= 'Z' as int && (r == c + 13 || r == c - 13)
            else if 'a' as int <= c <= 'z' as int then 'a' as int <= r <= 'z' as int && (r == c + 13 || r == c - 13)
            else r == c
  {
    if 0x41 <= s[k] <= 0x5A {
      HalfTurn(s[k] - 0x41);
    } else if 0x61 <= s[k] <= 0x7A {
      HalfTurn(s[k] - 0x61);
    }
  }

  lemma Rot13ByteTwice(c: Byte)
    ensures Rot13Byte(Rot13Byte(c)) == c
  {
    if 0x41 <= c <= 0x5A {
      HalfTurn(c - 0x41);
      HalfTurn((c - 0x41 + 13) % 26);
    } else if 0x61 <= c <= 0x7A {
      HalfTurn(c - 0x61);
      HalfTurn((c - 0x61 + 13) % 26);
    }
  }

  lemma HalfTurn(x: int)
    requires 0 <= x < 26
    ensures (x + 13) % 26 == if x < 13 then x + 13 else x - 13
  {
  }

  /** rot13_str, in place up to the terminator. */
  method Rot13Str(str: array<Byte>, ghost s: Bytes)
    requires CString(s) && str.Length > |s| && str[..|s|] == s && str[|s|] == 0
    modifies str
    ensures str[..|s|] == Rot13(s) && str[|s|] == 0
  {
    var i := 0;
    while str[i] != 0
      invariant 0 <= i <= |s| && str[|s|] == 0
      invariant forall k :: 0 <= k < i ==> str[k] == Rot13Byte(s[k])
      invariant forall k :: i <= k < |s| ==> str[k] == s[k]
      decreases |s| - i
    {
      str[i] := Rot13Byte(str[i]);
      i := i + 1;
    }
  }

  /** Exclusive or, bit by bit. */
  function BitXor(a: nat, b: nat): nat
    decreases a + b
  {
    if a == 0 && b == 0 then 0
    else (a % 2 + b % 2) % 2 + 2 * BitXor(a / 2, b / 2)
  }

  lemma {:induction false} XorTwice(a: nat, k: nat)
    ensures BitXor(BitXor(a, k), k) == a
    decreases a + k
  {
    hide BitXor;
    if a == 0 && k == 0 {
      XorParts(0, 0);
    } else {
      XorTwice(a / 2, k / 2);
      XorParts(a, k);
      XorParts(BitXor(a, k), k);
    }
  }

  /** The lowest bit, and the bits above it. */
  lemma XorParts(a: nat, b: nat)
    ensures BitXor(a, b) / 2 == BitXor(a / 2, b / 2)
    ensures BitXor(a, b) % 2 == (a % 2 + b % 2) % 2
    ensures a == 0 && b == 0 ==> BitXor(a, b) == 0
  {
    hide BitXor;
    XorUnfold(a, b);
    Bits((a % 2 + b % 2) % 2, BitXor(a / 2, b / 2));
  }

  lemma XorUnfold(a: nat, b: nat)
    ensures a == 0 && b == 0 ==> BitXor(a, b) == 0
    ensures a != 0 || b != 0 ==> BitXor(a, b) == (a % 2 + b % 2) % 2 + 2 * BitXor(a / 2, b / 2)
  {
  }

  lemma Bits(low: nat, high: nat)
    requires low < 2
    ensures (low + 2 * high) / 2 == high && (low + 2 * high) % 2 == low
  {
  }

  lemma {:induction false} XorBound(a: nat, b: nat, bits: nat)
    requires a < Pow2(bits) && b < Pow2(bits)
    ensures BitXor(a, b) < Pow2(bits)
    decreases bits
  {
    if bits > 0 { XorBound(a / 2, b / 2, bits - 1); }
  }

  /** Bit `i` of a number, the lowest being bit 0. */
  predicate Bit(x: nat, i: nat) {
    if i == 0 then x % 2 == 1 else Bit(x / 2, i - 1)
  }

  /** A bit of the exclusive or is set exactly when the two bits differ. */
  lemma {:induction false} XorBits(a: nat, b: nat, i: nat)
    ensures Bit(BitXor(a, b), i) <==> Bit(a, i) != Bit(b, i)
    decreases i
  {
    hide BitXor;
    XorParts(a, b);
    if i > 0 {
      XorBits(a / 2, b / 2, i - 1);
    }
  }

  /** The bits of a number that is written in binary with `d` as its last digit. */
  lemma BitOfNumber(x: nat, d: nat, i: nat)
    requires d < 2
    ensures Bit(2 * x + d, 0) <==> d == 1
    ensures Bit(2 * x + d, i + 1) <==> Bit(x, i)
  {
    Bits(d, x);
  }

  function XorByte(a: Byte, b: Byte): Byte {
    XorIsByte(a, b);
    BitXor(a, b)
  }

  lemma XorIsByte(a: Byte, b: Byte)
    ensures BitXor(a, b) < 0x100
  {
    assert Pow2(8) == 0x100;
    XorBound(a, b, 8);
  }

  /** The cipher; the same function decrypts. */
  function Cipher(ks: KeyStream, data: Bytes): (r: Bytes)
    ensures |r| == |data| && forall k :: 0 <= k < |data| ==> r[k] == XorByte(data[k], ks(k))
  {
    seq<Byte>(|data|, k requires 0 <= k < |data| => XorByte(data[k], ks(k)))
  }

  /** The characters in front of the first terminator. */
  function UpToNul(s: Bytes): Bytes {
    if s == [] || s[0] == 0 then [] else [s[0]] + UpToNul(s[1..])
  }

  function Layer(rot13: bool, s: Bytes): Bytes {
    if rot13 then Rot13(s) else s
  }

  /** What encrypting returns; an error when the length is out of range. */
  function Encrypted(p: Bytes, ks: KeyStream, rot13: bool): Option<Bytes> {
    if |p| + 1 >= TWO_TO_32 / 4 then None else Some(Layer(rot13, Encode(Cipher(ks, p + [0]))))
  }

  /** What decrypting returns. The buffer has one byte more than was decoded, and that byte is
      deciphered too. */
  function Decrypted(str: Bytes, ks: KeyStream, rot13: bool): Option<Bytes> {
    var text := Layer(rot13, str);
    if text == [] then None
    else match Decode(text)
      case None => None
      case Some(b) => Some(UpToNul(Cipher(ks, b + [0])))
  }

  /** `data` is `plain` under the key stream: every bit is flipped exactly where the key stream has a
      bit set. */
  ghost predicate Enciphers(data: Bytes, plain: Bytes, ks: KeyStream) {
    && |data| == |plain|
    && forall k, i :: 0 <= k < |plain| && 0 <= i < 8 ==> (Bit(data[k], i) <==> Bit(plain[k], i) != Bit(ks(k), i))
  }

  /** A stored password decodes, behind the optional layer, to the password and its terminator, each
      bit of them flipped exactly where the key stream has a bit set. */
  lemma StoredIsEnciphered(p: Bytes, ks: KeyStream, rot13: bool)
    requires Encrypted(p, ks, rot13).Some?
    ensures var stored := Encrypted(p, ks, rot13).value;
            var text := if rot13 then Rot13(stored) else stored;
            Decode(text).Some? && Enciphers(Decode(text).value, p + [0], ks)
  {
    hide Bit, XorByte;
    var data := Cipher(ks, p + [0]);
    EncodeDecode(data);
    Rot13Twice(Encode(data));
    forall k, i | 0 <= k < |p| + 1 && 0 <= i < 8
      ensures Bit(data[k], i) <==> Bit((p + [0])[k], i) != Bit(ks(k), i)
    {
      XorByteBits((p + [0])[k], ks(k), i);
    }
  }

  lemma XorByteBits(a: Byte, b: Byte, i: nat)
    ensures Bit(XorByte(a, b), i) <==> Bit(a, i) != Bit(b, i)
  {
    XorBits(a, b, i);
  }

  method EncryptStr(p: Bytes, ks: KeyStream, rot13: bool) returns (r: Option<Bytes>)
    requires CString(p)
    ensures r == Encrypted(p, ks, rot13)
    ensures r.Some? ==>
              var text := if rot13 then Rot13(r.value) else r.value;
              Decode(text).Some? && Enciphers(Decode(text).value, p + [0], ks)
  {
    hide Enciphers;
    if Encrypted(p, ks, rot13).Some? {
      StoredIsEnciphered(p, ks, rot13);
    }
    if |p| > INT_MAX { return None; }
    var encdat := Cipher(ks, p + [0]);
    EncodeLengthExact(|encdat|);
    var size := EncodeLength(|encdat|);
    if size == 0 { return None; }
    var b64str := new Byte[size](i => 0);
    LongEncodingFails(|encdat|);
    var n := B64Encode(encdat, b64str);
    if n == -1 { return None; }
    if rot13 {
      EncodingIsCString(encdat);
      Rot13Str(b64str, Encode(encdat));
    }
    r := Some(b64str[..n]);
  }

  lemma LongEncodingFails(n: nat)
    requires n < TWO_TO_32
    ensures EncodeLength(n) > EncodedLength(n) <==> n < TWO_TO_32 / 4
  {
    if n < TWO_TO_32 / 4 { NoWrap(n); } else { Wraps(n); }
  }

  lemma EncodingIsCString(b: Bytes)
    ensures CString(Encode(b))
  {
  }

  method DecryptStr(rmap: array<int>, str: Bytes, ks: KeyStream, rot13: bool) returns (r: Option<Bytes>)
    requires IsRmap(rmap) && CString(str)
    ensures r == Decrypted(str, ks, rot13)
  {
    var text := str;
    if rot13 {
      var copy := new Byte[|str| + 1](i => if 0 <= i < |str| then str[i] else 0);
      assert copy[..|str|] == str;
      Rot13Str(copy, str);
      text := copy[..|str|];
    }
    assert text == Layer(rot13, str) && CString(text);
    if text == [] { return None; }
    var len := DecodeLen(rmap, text);
    if len < 0 { return None; }
    var decoded := new Byte[len + 1](i => 0);
    PassesAgree(text, len + 1);
    var n := DecodeDo(rmap, text, decoded);
    if n == -1 { return None; }
    var data := decoded[..];
    assert data == Decode(text).value + [0];
    r := Some(UpToNul(Cipher(ks, data)));
  }

  lemma {:induction false} UpToNulOf(p: Bytes, tail: Bytes)
    requires CString(p) && tail != [] && tail[0] == 0
    ensures UpToNul(p + tail) == p
  {
    if p == [] {
      assert p + tail == tail;
    } else {
      UpToNulOf(p[1..], tail);
      assert (p + tail)[1..] == p[1..] + tail;
    }
  }

  lemma CipherTwice(ks: KeyStream, data: Bytes, extra: Bytes)
    ensures Cipher(ks, Cipher(ks, data) + extra)[..|data|] == data
  {
    forall k | 0 <= k < |data|
      ensures Cipher(ks, Cipher(ks, data) + extra)[k] == data[k]
    {
      XorTwice(data[k], ks(k));
    }
  }

  lemma PlainComesBack(p: Bytes, ks: KeyStream)
    requires CString(p)
    ensures UpToNul(Cipher(ks, Cipher(ks, p + [0]) + [0])) == p
  {
    var plain := p + [0];
    CipherTwice(ks, plain, [0]);
    var out := Cipher(ks, Cipher(ks, plain) + [0]);
    var tail := [0] + out[|plain|..];
    assert out == p + tail;
    UpToNulOf(p, tail);
  }

  /** A password comes back as it was stored, with or without the rot13 layer, although one byte
      more is deciphered than was enciphered. */
  lemma PasswordRoundTrip(p: Bytes, ks: KeyStream, rot13: bool)
    requires CString(p) && |p| + 1 < TWO_TO_32 / 4
    ensures Encrypted(p, ks, rot13).Some?
    ensures Decrypted(Encrypted(p, ks, rot13).value, ks, rot13) == Some(p)
  {
    var plain := p + [0];
    var enc := Cipher(ks, plain);
    var text := Encode(enc);
    Rot13Twice(text);
    EncodeDecode(enc);
    assert |enc| > 0 && |text| > 0;
    PlainComesBack(p, ks);
  }
}
