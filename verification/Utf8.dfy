/** Wide text and its UTF-8 bytes (section 3 of RFC 3629), the multibyte encoding the
    renderer converts to. The formatting grammar reads the same text in both. */
module Utf8 {
  import opened TextDecoration

  /** The bytes of one wide character; none for the terminator and for what UTF-8 cannot hold. */
  function Bytes(c: int): (b: Text)
    ensures |b| <= 4
    ensures 0 < c < 0x80 ==> b == [c]
    ensures forall k :: 0 <= k < |b| ==> b[k] != 0 && (c >= 0x80 ==> b[k] >= 0x80)
  {
    if c <= 0 || 0xD800 <= c <= 0xDFFF || c > 0x10FFFF then []
    else if c < 0x80 then [c]
    else if c < 0x800 then [0xC0 + c / 0x40, 0x80 + c % 0x40]
    else if c < 0x10000 then [0xE0 + c / 0x1000, 0x80 + c / 0x40 % 0x40, 0x80 + c % 0x40]
    else [0xF0 + c / 0x40000, 0x80 + c / 0x1000 % 0x40, 0x80 + c / 0x40 % 0x40, 0x80 + c % 0x40]
  }

  /** The character that the bytes at `i` would be, going by the first of them. */
  function Candidate(b: Text, i: nat): int
    requires i < |b|
  {
    if b[i] < 0xC0 then b[i]
    else if b[i] < 0xE0 then
      if i + 1 < |b| then (b[i] - 0xC0) * 0x40 + b[i + 1] - 0x80 else 0
    else if b[i] < 0xF0 then
      if i + 2 < |b| then (b[i] - 0xE0) * 0x1000 + (b[i + 1] - 0x80) * 0x40 + b[i + 2] - 0x80 else 0
    else if i + 3 < |b| then
      (b[i] - 0xF0) * 0x40000 + (b[i + 1] - 0x80) * 0x1000 + (b[i + 2] - 0x80) * 0x40 + b[i + 3] - 0x80
    else 0
  }

  /** The bytes at `i` are those of `c`: no other form of a character is accepted. */
  predicate StandsAt(b: Text, i: nat, c: int)
    requires i <= |b|
  {
    Bytes(c) != [] && i + |Bytes(c)| <= |b| && b[i..i + |Bytes(c)|] == Bytes(c)
  }

  /** The six-bit groups of a character put together again. */
  lemma Groups(c: int)
    requires 0 <= c
    ensures c / 0x40 * 0x40 + c % 0x40 == c
    ensures c / 0x1000 == c / 0x40 / 0x40 && c / 0x40000 == c / 0x1000 / 0x40
  {
  }

  lemma TwoGroups(c: int)
    requires 0 <= c
    ensures c / 0x1000 * 0x1000 + c / 0x40 % 0x40 * 0x40 + c % 0x40 == c
  {
    Groups(c);
    Groups(c / 0x40);
  }

  lemma ThreeGroups(c: int)
    requires 0 <= c
    ensures c / 0x40000 * 0x40000 + c / 0x1000 % 0x40 * 0x1000 + c / 0x40 % 0x40 * 0x40 + c % 0x40 == c
  {
    Groups(c);
    TwoGroups(c);
    Groups(c / 0x1000);
  }

  lemma LeadRange(c: int)
    requires 0 <= c <= 0x10FFFF
    ensures c < 0x800 ==> c / 0x40 < 0x20
    ensures c < 0x10000 ==> c / 0x1000 < 0x10
    ensures 0 <= c / 0x40 && 0 <= c / 0x1000 && 0 <= c / 0x40000
  {
  }

  /** The bytes of a character are read back as that character. */
  lemma CandidateIs(b: Text, i: nat, c: int)
    requires i < |b| && StandsAt(b, i, c)
    ensures Candidate(b, i) == c
  {
    var s := Bytes(c);
    BytesThere(b, i, s);
    if c >= 0x80 {
      LeadRange(c);
      if c < 0x800 {
        Groups(c);
      } else if c < 0x10000 {
        TwoGroups(c);
      } else {
        ThreeGroups(c);
      }
    }
  }

  lemma BytesThere(b: Text, i: nat, s: Text)
    requires i + |s| <= |b| && b[i..i + |s|] == s
    ensures |s| > 0 ==> b[i] == s[0]
    ensures |s| > 1 ==> b[i + 1] == s[1]
    ensures |s| > 2 ==> b[i + 2] == s[2]
    ensures |s| > 3 ==> b[i + 3] == s[3]
  {
    var t := b[i..i + |s|];
    assert (|s| > 0 ==> t[0] == b[i]) && (|s| > 1 ==> t[1] == b[i + 1]);
    assert (|s| > 2 ==> t[2] == b[i + 2]) && (|s| > 3 ==> t[3] == b[i + 3]);
  }

  /** One to four bytes, by the range of the character; the lead byte says how many, and the bits of
      the character stand in the low bits of the bytes, six to each byte behind the first. */
  lemma BytesOfCharacter(c: int)
    ensures var b := Bytes(c);
            && (|b| == 1 <==> 0 < c < 0x80)
            && (|b| == 2 <==> 0x80 <= c < 0x800)
            && (|b| == 3 <==> 0x800 <= c < 0xD800 || 0xE000 <= c < 0x10000)
            && (|b| == 4 <==> 0x10000 <= c <= 0x10FFFF)
            && (forall k :: 1 <= k < |b| ==> 0x80 <= b[k] < 0xC0)
            && (|b| == 2 ==> 0xC0 <= b[0] < 0xE0 && (b[0] - 0xC0) * 0x40 + (b[1] - 0x80) == c)
            && (|b| == 3 ==> 0xE0 <= b[0] < 0xF0 && ((b[0] - 0xE0) * 0x40 + (b[1] - 0x80)) * 0x40 + (b[2] - 0x80) == c)
            && (|b| == 4 ==> 0xF0 <= b[0] < 0xF8)
    ensures var b := Bytes(c);
            |b| == 4 ==> (((b[0] - 0xF0) * 0x40 + (b[1] - 0x80)) * 0x40 + (b[2] - 0x80)) * 0x40 + (b[3] - 0x80) == c
  {
    if 0x80 <= c <= 0x10FFFF {
      LeadRange(c);
      Groups(c);
      TwoGroups(c);
      ThreeGroups(c);
    }
  }

  /** The examples of section 7 of RFC 3629. */
  lemma BytesOfExamples()
    ensures Bytes(0x2262) == [0xE2, 0x89, 0xA2] && Bytes(0x0391) == [0xCE, 0x91]
    ensures Bytes(0xD55C) == [0xED, 0x95, 0x9C] && Bytes(0x233B4) == [0xF0, 0xA3, 0x8E, 0xB4]
  {
  }

  ghost predicate Encodable(w: Text) {
    forall k :: 0 <= k < |w| ==> Bytes(w[k]) != []
  }

  function Encode(w: Text): Text {
    if w == [] then [] else Bytes(w[0]) + Encode(w[1..])
  }

  lemma EncodeNothing()
    ensures Encode([]) == []
  {
  }

  lemma {:induction false} EncodeConcat(a: Text, b: Text)
    ensures Encode(a + b) == Encode(a) + Encode(b)
  {
    hide Bytes, Encode;
    if a == [] {
      EncodeNothing();
      assert a + b == b;
    } else {
      var head, rest := Bytes(a[0]), Encode(a[1..]);
      EncodeConcat(a[1..], b);
      EncodeFront(a);
      EncodeFront(a + b);
      assert (a + b)[1..] == a[1..] + b;
      assert head + (rest + Encode(b)) == head + rest + Encode(b);
    }
  }

  lemma EncodeFront(w: Text)
    requires w != []
    ensures Encode(w) == Bytes(w[0]) + Encode(w[1..])
  {
  }

  lemma EncodeOne(c: int)
    ensures Encode([c]) == Bytes(c)
  {
    hide Bytes;
    assert [c][1..] == [];
  }

  lemma EncodeOneMore(w: Text, i: nat)
    requires i < |w|
    ensures Encode(w[..i + 1]) == Encode(w[..i]) + Bytes(w[i])
  {
    hide Bytes, Encode;
    EncodeConcat(w[..i], [w[i]]);
    EncodeOne(w[i]);
    assert w[..i + 1] == w[..i] + [w[i]];
  }

  /** Character `i` of `w` stands in `s` from `off[i]` on: one byte for an ASCII character,
      bytes outside ASCII for any other. */
  ghost predicate CharAt(s: Text, w: Text, off: seq<nat>, i: nat) {
    && i < |w| && |off| == |w| + 1
    && off[i] < off[i + 1] <= |s|
    && (w[i] < 0x80 ==> off[i + 1] == off[i] + 1 && s[off[i]] == w[i])
    && (w[i] >= 0x80 ==> forall k :: off[i] <= k < off[i + 1] ==> s[k] >= 0x80)
  }

  ghost predicate Aligned(s: Text, w: Text, off: seq<nat>) {
    && |off| == |w| + 1 && off[0] == 0 && off[|w|] == |s|
    && forall i :: 0 <= i < |w| ==> CharAt(s, w, off, i)
  }

  ghost predicate BytesAt(s: Text, w: Text, off: seq<nat>, i: nat) {
    && i < |w| && |off| == |w| + 1
    && off[i] <= off[i + 1] <= |s|
    && s[off[i]..off[i + 1]] == Bytes(w[i])
  }

  lemma BytesThenChar(s: Text, w: Text, off: seq<nat>, i: nat)
    requires BytesAt(s, w, off, i) && Bytes(w[i]) != []
    ensures CharAt(s, w, off, i)
  {
    var b := s[off[i]..off[i + 1]];
    assert s[off[i]] == b[0];
    forall k | off[i] <= k < off[i + 1]
      ensures w[i] >= 0x80 ==> s[k] >= 0x80
    {
      assert s[k] == b[k - off[i]];
    }
  }

  lemma ShiftBytes(head: Text, tail: Text, w: Text, rest: seq<nat>, off: seq<nat>, i: nat)
    requires 0 < i < |w| && |off| == |w| + 1 && BytesAt(tail, w[1..], rest, i - 1)
    requires off[i] == rest[i - 1] + |head| && off[i + 1] == rest[i] + |head|
    ensures BytesAt(head + tail, w, off, i)
  {
    assert (head + tail)[off[i]..off[i + 1]] == tail[rest[i - 1]..rest[i]];
  }

  lemma {:induction false} EncodeBytes(w: Text) returns (off: seq<nat>)
    ensures |off| == |w| + 1 && off[0] == 0 && off[|w|] == |Encode(w)|
    ensures forall i :: 0 <= i < |w| ==> BytesAt(Encode(w), w, off, i)
  {
    if w == [] {
      off := [0];
    } else {
      var head, tail, s := Bytes(w[0]), Encode(w[1..]), Encode(w);
      var rest := EncodeBytes(w[1..]);
      off := [0] + seq(|rest|, k requires 0 <= k < |rest| => rest[k] + |head|);
      forall i | 0 <= i < |w|
        ensures BytesAt(s, w, off, i)
      {
        if i == 0 {
          assert s[0..|head|] == head;
        } else {
          assert BytesAt(tail, w[1..], rest, i - 1);
          ShiftBytes(head, tail, w, rest, off, i);
        }
      }
    }
  }

  lemma EncodeAligned(w: Text) returns (off: seq<nat>)
    requires Encodable(w)
    ensures Aligned(Encode(w), w, off)
    ensures forall i :: 0 <= i < |w| ==> BytesAt(Encode(w), w, off, i)
  {
    off := EncodeBytes(w);
    forall i | 0 <= i < |w|
      ensures CharAt(Encode(w), w, off, i)
    {
      BytesThenChar(Encode(w), w, off, i);
    }
  }

  lemma {:induction false} OffsetsGrow(s: Text, w: Text, off: seq<nat>, i: nat)
    requires Aligned(s, w, off) && i <= |w|
    ensures off[i] + (|w| - i) <= |s|
    decreases |w| - i
  {
    if i < |w| {
      OffsetsGrow(s, w, off, i + 1);
      assert CharAt(s, w, off, i);
    }
  }

  /** The bytes show the same digits as the wide text. */
  lemma SameDigits(s: Text, w: Text, off: seq<nat>, i: nat)
    requires Aligned(s, w, off) && i <= |w|
    ensures off[i] <= |s| && Digits(s, off[i]) == Digits(w, i)
    ensures off[i + Digits(w, i)] == off[i] + Digits(w, i)
  {
    OffsetsGrow(s, w, off, i);
    if i < |w| {
      assert CharAt(s, w, off, i);
      OffsetsGrow(s, w, off, i + 1);
      if i + 1 < |w| {
        assert CharAt(s, w, off, i + 1);
      }
    }
  }

  /** The bytes show the same colour codes as the wide text. */
  lemma SameCode(s: Text, w: Text, off: seq<nat>, i: nat)
    requires Aligned(s, w, off) && i < |w| && w[i] == COLOR
    ensures off[i] < |s| && s[off[i]] == COLOR
    ensures CodeEnd(s, off[i]) == off[CodeEnd(w, i)]
    ensures BgDigits(s, off[i]) == BgDigits(w, i)
  {
    assert CharAt(s, w, off, i);
    SameDigits(s, w, off, i + 1);
    var comma := i + 1 + FgDigits(w, i);
    OffsetsGrow(s, w, off, comma);
    if comma < |w| {
      assert CharAt(s, w, off, comma);
      if w[comma] == COMMA {
        SameDigits(s, w, off, comma + 1);
      }
    }
  }

  /** Bytes of a character outside ASCII are all visible. */
  lemma {:induction false} HighBytesVisible(s: Text, i: nat, j: nat)
    requires i <= j <= |s| && forall k :: i <= k < j ==> s[k] >= 0x80
    ensures VisibleFrom(s, i) == s[i..j] + VisibleFrom(s, j)
    decreases j - i
  {
    if i == j {
      assert s[i..j] == [];
    } else {
      HighBytesVisible(s, i + 1, j);
      assert s[i..j] == [s[i]] + s[i + 1..j];
      assert [s[i]] + (s[i + 1..j] + VisibleFrom(s, j)) == s[i..j] + VisibleFrom(s, j);
    }
  }

  lemma {:induction false} StripCommutesFrom(s: Text, w: Text, off: seq<nat>, i: nat)
    requires Aligned(s, w, off) && i <= |w|
    requires forall k :: 0 <= k < |w| ==> BytesAt(s, w, off, k)
    ensures off[i] <= |s| && VisibleFrom(s, off[i]) == Encode(VisibleFrom(w, i))
    decreases |w| - i
  {
    if i == |w| {
    } else if w[i] == COLOR {
      SameCode(s, w, off, i);
      StripCommutesFrom(s, w, off, CodeEnd(w, i));
    } else {
      StripCommutesFrom(s, w, off, i + 1);
      var rest := VisibleFrom(w, i + 1);
      assert CharAt(s, w, off, i) && BytesAt(s, w, off, i);
      if w[i] >= 0x80 {
        HighBytesVisible(s, off[i], off[i + 1]);
      } else if !IsReject(w[i]) {
        assert s[off[i]..off[i + 1]] == [w[i]];
      }
      assert !IsReject(w[i]) ==> ([w[i]] + rest)[1..] == rest;
    }
  }

  /** Stripping the bytes of a wide text gives the bytes of the stripped wide text. */
  lemma StripCommutes(w: Text)
    requires Encodable(w)
    ensures Visible(Encode(w)) == Encode(Visible(w))
  {
    var off := EncodeAligned(w);
    StripCommutesFrom(Encode(w), w, off, 0);
  }

  lemma {:induction false} SameOpenFrom(s: Text, w: Text, off: seq<nat>, i: nat)
    requires Aligned(s, w, off) && i <= |w|
    ensures off[i] <= |s|
    ensures EndsInsideCodeFrom(s, off[i]) <==> EndsInsideCodeFrom(w, i)
    decreases |w| - i
  {
    if i < |w| {
      var next := if w[i] == COLOR then CodeEnd(w, i) else i + 1;
      assert CharAt(s, w, off, i);
      SameOpenFrom(s, w, off, next);
      if w[i] == COLOR {
        SameCode(s, w, off, i);
        OffsetsGrow(s, w, off, next);
        EndsInsideAfterCode(w, i);
        EndsInsideAfterCode(s, off[i]);
      } else {
        EndsInsideAfterPlain(w, i);
        NoCodeInBytes(s, off[i], off[next]);
      }
    }
  }

  lemma NoCodeInBytes(s: Text, i: nat, j: nat)
    requires i <= j <= |s| && forall k :: i <= k < j ==> s[k] != COLOR
    ensures EndsInsideCodeFrom(s, i) <==> EndsInsideCodeFrom(s, j)
  {
  }

  /** Wide text stops inside a colour code exactly when its bytes do. */
  lemma SameOpen(w: Text)
    requires Encodable(w)
    ensures EndsInsideCode(Encode(w)) <==> EndsInsideCode(w)
  {
    var off := EncodeAligned(w);
    SameOpenFrom(Encode(w), w, off, 0);
  }
}
