/** squeeze_text_deco_wide (src/squeeze_text_deco.cpp): a wide text is stripped by way of its bytes,
    through two buffers of fixed size. */
module WideText {
  import opened Wrappers
  import opened TextDecoration
  import opened Utf8
  import SqueezeTextDeco

  const MBS_SIZE: nat := 6144
  const TMP_SIZE: nat := 4096

  // ----- wcstombs and mbstowcs, into limited room -----

  /** wcstombs: how far the conversion gets from `i` on; it stops before a character that does not
      fit, and fails at one that cannot be converted. */
  function FitEnd(w: Text, i: nat, room: nat): (r: Option<nat>)
    requires i <= |w|
    ensures r.Some? ==> i <= r.value <= |w|
    decreases |w| - i
  {
    if i == |w| then Some(i)
    else if Bytes(w[i]) == [] then None
    else if |Bytes(w[i])| > room then Some(i)
    else FitEnd(w, i + 1, room - |Bytes(w[i])|)
  }

  /** How many characters of `w` store_mbs converts. */
  function Fitting(w: Text): (r: Option<nat>)
    ensures r.Some? ==> r.value <= |w|
  {
    FitEnd(w, 0, MBS_SIZE - 1)
  }

  lemma {:induction false} FitEndFits(w: Text, i: nat, room: nat)
    requires i <= |w| && FitEnd(w, i, room).Some?
    ensures var k := FitEnd(w, i, room).value;
            && Encodable(w[i..k]) && |Encode(w[i..k])| <= room
            && (k < |w| ==> Bytes(w[k]) != [] && |Encode(w[i..k])| + |Bytes(w[k])| > room)
    decreases |w| - i
  {
    hide Bytes;
    var k := FitEnd(w, i, room).value;
    if k > i {
      FitEndFits(w, i + 1, room - |Bytes(w[i])|);
      assert w[i..k] == [w[i]] + w[i + 1..k] && w[i..k][1..] == w[i + 1..k];
    } else {
      assert w[i..k] == [];
    }
  }

  lemma TailEncodable(w: Text)
    requires Encodable(w) && w != []
    ensures Bytes(w[0]) != [] && Encodable(w[1..])
  {
    hide Bytes;
  }

  /** A text whose bytes fit is converted to its end. */
  lemma {:induction false} FitEndAll(w: Text, i: nat, room: nat)
    requires i <= |w| && Encodable(w[i..]) && |Encode(w[i..])| <= room
    ensures FitEnd(w, i, room) == Some(|w|)
    decreases |w| - i
  {
    hide Bytes;
    if i < |w| {
      assert w[i..][0] == w[i] && w[i..][1..] == w[i + 1..];
      TailEncodable(w[i..]);
      FitEndAll(w, i + 1, room - |Bytes(w[i])|);
    }
  }

  /** mbstowcs: at most `room` characters from `i` on, None at bytes that are no character. */
  function Decoded(b: Text, i: nat, room: nat): Option<Text>
    requires i <= |b|
    decreases |b| - i
  {
    if i == |b| || room == 0 then Some([])
    else
      var c := Candidate(b, i);
      if !StandsAt(b, i, c) then None
      else
        match Decoded(b, i + |Bytes(c)|, room - 1)
        case None => None
        case Some(rest) => Some([c] + rest)
  }

  function Taken(w: Text, room: nat): Text {
    if |w| <= room then w else w[..room]
  }

  /** The first character of an encoding, and the encoding of the rest. */
  lemma EncodingFront(b: Text, i: nat, w: Text)
    requires i <= |b| && b[i..] == Encode(w) && w != [] && Bytes(w[0]) != []
    ensures i < |b| && StandsAt(b, i, w[0]) && i + |Bytes(w[0])| <= |b| && b[i + |Bytes(w[0])|..] == Encode(w[1..])
  {
    hide Bytes;
    var head := Bytes(w[0]);
    assert b[i..][..|head|] == head && b[i..][|head|..] == Encode(w[1..]);
    assert b[i..i + |head|] == b[i..][..|head|];
    assert b[i + |head|..] == b[i..][|head|..];
  }

  /** Decoding what was encoded gives it back, as far as there is room. */
  lemma {:induction false} DecodedEncoding(b: Text, i: nat, w: Text, room: nat)
    requires i <= |b| && b[i..] == Encode(w) && Encodable(w)
    ensures Decoded(b, i, room) == Some(Taken(w, room))
    decreases |w|
  {
    hide Bytes, Candidate, StandsAt, Encode, Encodable;
    if w == [] {
      EncodeNothing();
    } else if room > 0 {
      TailEncodable(w);
      EncodingFront(b, i, w);
      CandidateIs(b, i, w[0]);
      DecodedEncoding(b, i + |Bytes(w[0])|, w[1..], room - 1);
      assert [w[0]] + Taken(w[1..], room - 1) == Taken(w, room);
    }
  }

  // ----- What is left of a text -----

  /** The text that squeeze_text_deco_wide leaves: the visible text of what fits the first buffer,
      and everything when the text cannot be converted. */
  function SqueezedWide(w: Text): Text {
    match Fitting(w)
    case None => w
    case Some(k) => Taken(Visible(w[..k]), TMP_SIZE - 1)
  }

  lemma SqueezedIsCString(w: Text)
    requires IsCString(w)
    ensures IsCString(SqueezedWide(w))
  {
    hide VisibleFrom;
    if Fitting(w).Some? {
      VisibleIsCString(w[..Fitting(w).value], 0);
    }
  }

  /** Reading stays within the first buffer: it is not full, or its text does not end inside a code. */
  ghost predicate WideSafe(w: Text) {
    match Fitting(w)
    case None => true
    case Some(k) => |Encode(w[..k])| < MBS_SIZE - 1 || !EndsInsideCode(w[..k])
  }

  /** A text that can be converted is converted to its end if and only if its bytes fit. */
  lemma FitsExactly(w: Text)
    requires Encodable(w)
    ensures Fitting(w) == Some(|w|) <==> |Encode(w)| < MBS_SIZE
  {
    hide Encode, Bytes, FitEnd;
    assert w[0..] == w && w[0..|w|] == w;
    if |Encode(w)| < MBS_SIZE {
      FitEndAll(w, 0, MBS_SIZE - 1);
    }
    if Fitting(w) == Some(|w|) {
      FitEndFits(w, 0, MBS_SIZE - 1);
    }
  }

  /** Then it loses its codes and nothing else. */
  lemma FittingIsStripped(w: Text)
    requires |w| < TMP_SIZE && Fitting(w) == Some(|w|)
    ensures SqueezedWide(w) == Visible(w)
    ensures |Encode(w)| < MBS_SIZE - 1 ==> WideSafe(w)
  {
    hide Encode, VisibleFrom, FitEnd;
    assert w[..|w|] == w;
    VisibleIsNoLonger(w, 0);
  }

  lemma {:induction false} VisibleEncodable(w: Text, i: nat)
    requires i <= |w| && Encodable(w)
    ensures Encodable(VisibleFrom(w, i))
    decreases |w| - i
  {
    hide Bytes;
    if i < |w| {
      VisibleEncodable(w, if w[i] == COLOR then CodeEnd(w, i) else i + 1);
    }
  }

  lemma {:induction false} EncodingIsCString(w: Text)
    ensures IsCString(Encode(w))
  {
    hide Bytes;
    if w != [] {
      EncodingIsCString(w[1..]);
    }
  }

  // ----- The methods -----

  /** The cells of `a` hold the C string `t`. */
  ghost predicate Holds(a: array<int>, t: Text)
    reads a
  {
    |t| < a.Length && a[..|t|] == t && a[|t|] == 0
  }

  /** store_mbs, into a cleared buffer. */
  method StoreMbs(mbs: array<int>, wcs: array<int>, ghost w: Text) returns (ok: bool)
    requires IsCString(w) && Holds(wcs, w) && mbs != wcs
    requires mbs.Length == MBS_SIZE && forall k :: 0 <= k < MBS_SIZE ==> mbs[k] == 0
    modifies mbs
    ensures ok <==> Fitting(w).Some?
    ensures ok ==> var e := Encode(w[..Fitting(w).value]);
                   |e| < MBS_SIZE && mbs[..|e|] == e && forall k :: |e| <= k < MBS_SIZE ==> mbs[k] == 0
  {
    hide Bytes, Encode;
    EncodeNothing();
    var i, n := 0, 0;
    assert w[..0] == [];
    while wcs[i] != 0
      invariant 0 <= i <= |w| && wcs[..|w|] == w && wcs[|w|] == 0 && 0 <= n < MBS_SIZE
      invariant n == |Encode(w[..i])| && mbs[..n] == Encode(w[..i])
      invariant forall k :: n <= k < MBS_SIZE ==> mbs[k] == 0
      invariant FitEnd(w, i, MBS_SIZE - 1 - n) == Fitting(w)
      decreases |w| - i
    {
      assert i < |w| && wcs[i] == w[i];
      var b := Bytes(wcs[i]);
      if b == [] {
        return false;
      }
      if n + |b| > MBS_SIZE - 1 {
        return true;
      }
      EncodeOneMore(w, i);
      PutBytes(mbs, n, b);
      n := n + |b|;
      i := i + 1;
    }
    ok := true;
  }

  method PutBytes(mbs: array<int>, n: nat, b: Text)
    requires n + |b| <= mbs.Length
    modifies mbs
    ensures mbs[..n + |b|] == old(mbs[..n]) + b
    ensures forall k :: n + |b| <= k < mbs.Length ==> mbs[k] == old(mbs[k])
  {
    forall k | 0 <= k < |b| {
      mbs[n + k] := b[k];
    }
  }

  method StrLen(a: array<int>, ghost t: Text) returns (n: nat)
    requires IsCString(t) && Holds(a, t)
    ensures n == |t|
  {
    n := 0;
    while a[n] != 0
      invariant n <= |t|
      decreases |t| - n
    {
      assert n < |t| ==> a[n] == t[n];
      n := n + 1;
    }
  }

  /** store_tmp, into a cleared buffer. */
  method StoreTmp(tmp: array<int>, mbs: array<int>, ghost b: Text) returns (ok: bool)
    requires IsCString(b) && Holds(mbs, b) && mbs != tmp
    requires tmp.Length == TMP_SIZE && forall k :: 0 <= k < TMP_SIZE ==> tmp[k] == 0
    modifies tmp
    ensures ok <==> Decoded(b, 0, TMP_SIZE - 1).Some?
    ensures ok ==> Holds(tmp, Decoded(b, 0, TMP_SIZE - 1).value)
  {
    hide Bytes, Candidate;
    var n := StrLen(mbs, b);
    var s := mbs[..n];
    BehindNothing(Decoded(b, 0, TMP_SIZE - 1));
    assert tmp[..0] == [];
    var i, j := 0, 0;
    while i < n && j < TMP_SIZE - 1
      invariant 0 <= i <= n && 0 <= j < TMP_SIZE
      invariant forall k :: j <= k < TMP_SIZE ==> tmp[k] == 0
      invariant Decoded(b, 0, TMP_SIZE - 1) == Behind(tmp[..j], Decoded(b, i, TMP_SIZE - 1 - j))
      decreases n - i
    {
      var c := Candidate(s, i);
      if !StandsAt(s, i, c) {
        return false;
      }
      ghost var first := tmp[..j];
      BehindMore(first, c, Decoded(b, i + |Bytes(c)|, TMP_SIZE - 2 - j));
      tmp[j] := c;
      assert tmp[..j + 1] == first + [c];
      i, j := i + |Bytes(c)|, j + 1;
    }
    ok := true;
    assert tmp[..j] + [] == tmp[..j];
  }

  function Behind(first: Text, rest: Option<Text>): Option<Text> {
    match rest
    case None => None
    case Some(t) => Some(first + t)
  }

  lemma BehindNothing(rest: Option<Text>)
    ensures Behind([], rest) == rest
  {
    if rest.Some? {
      assert [] + rest.value == rest.value;
    }
  }

  lemma BehindMore(first: Text, c: int, rest: Option<Text>)
    ensures Behind(first, Behind([c], rest)) == Behind(first + [c], rest)
  {
    if rest.Some? {
      assert first + ([c] + rest.value) == first + [c] + rest.value;
    }
  }

  /** squeeze_text_deco_wide, in place. */
  method SqueezeTextDecoWide(buffer: array<int>, ghost w: Text) returns (safe: bool)
    requires IsCString(w) && Holds(buffer, w)
    modifies buffer
    ensures safe <==> WideSafe(w)
    ensures safe ==> Holds(buffer, SqueezedWide(w))
  {
    hide Encode, VisibleFrom, EndsInsideCode;
    if buffer[0] == 0 {
      NothingIsSqueezed();
      return true;
    }
    var mbs := new int[MBS_SIZE](_ => 0);
    var ok := StoreMbs(mbs, buffer, w);
    if !ok {
      return true;
    }
    ghost var u := w[..Fitting(w).value];
    FitEndFits(w, 0, MBS_SIZE - 1);
    EncodingIsCString(u);
    SameOpen(u);
    safe := SqueezeTextDeco.SqueezeTextDeco(mbs, Encode(u));
    if safe {
      BytesOfVisible(u);
      CopyBack(buffer, mbs, Visible(u));
    }
  }

  /** The second half: the stripped bytes back into the wide buffer. */
  method CopyBack(buffer: array<int>, mbs: array<int>, ghost v: Text)
    requires Encodable(v) && Holds(mbs, Encode(v)) && |v| < buffer.Length && buffer != mbs
    modifies buffer
    ensures Holds(buffer, Taken(v, TMP_SIZE - 1))
  {
    hide Encode, Decoded;
    EncodingIsCString(v);
    EncodableIsCString(v);
    assert Encode(v)[0..] == Encode(v);
    DecodedEncoding(Encode(v), 0, v, TMP_SIZE - 1);
    var tmp := new int[TMP_SIZE](_ => 0);
    var ok := StoreTmp(tmp, mbs, Encode(v));
    CopyString(buffer, tmp, Taken(v, TMP_SIZE - 1));
  }

  lemma EncodableIsCString(w: Text)
    requires Encodable(w)
    ensures IsCString(w)
  {
    assert Bytes(0) == [];
  }

  lemma NothingIsSqueezed()
    ensures SqueezedWide([]) == [] && WideSafe([])
  {
  }

  /** The bytes that the stripper leaves are those of the visible text. */
  lemma BytesOfVisible(u: Text)
    requires Encodable(u)
    ensures Visible(Encode(u)) == Encode(Visible(u)) && Encodable(Visible(u)) && |Visible(u)| <= |u|
  {
    hide Encode;
    StripCommutes(u);
    VisibleEncodable(u, 0);
    VisibleIsNoLonger(u, 0);
  }

  /** wmemcpy, and the terminator behind it. */
  method CopyString(buffer: array<int>, from: array<int>, ghost t: Text)
    requires Holds(from, t) && |t| < buffer.Length && buffer != from
    requires IsCString(t)
    modifies buffer
    ensures Holds(buffer, t)
  {
    var n := StrLen(from, t);
    forall k | 0 <= k < n {
      buffer[k] := from[k];
    }
    buffer[n] := 0;
    assert buffer[..n] == t;
  }
}
