/** Whole runs of the receiver: any division of the stream into chunks. */
module IrcRuns {
  import opened Wrappers
  import opened IrcStream

  function Concat(chunks: seq<string>): string {
    if chunks == [] then [] else chunks[0] + Concat(chunks[1..])
  }

  /** All calls in turn, starting with `carry`, up to one that asks for the connection to end. */
  function Run(carry: Option<string>, chunks: seq<string>): Outcome
    decreases |chunks|
  {
    if chunks == [] then Outcome([], carry, false)
    else
      var out := Handle(carry, chunks[0]);
      if out.disconnect then out
      else
        var rest := Run(out.carry, chunks[1..]);
        rest.(messages := out.messages + rest.messages)
  }

  /** Every chunk is one the code can handle, at the time it comes. */
  ghost predicate AllHandled(carry: Option<string>, chunks: seq<string>)
    decreases |chunks|
  {
    chunks == [] || (Handled(carry, chunks[0]) && AllHandled(Handle(carry, chunks[0]).carry, chunks[1..]))
  }

  /** The run has handed on the messages of the stream so far, in order and once each, and
      carries exactly its unterminated tail. */
  ghost predicate InStep(carry: Option<string>, chunks: seq<string>) {
    var out, ref := Run(carry, chunks), Feed(TailOf(carry), Concat(chunks), 0);
    out.messages == ref.messages && out.carry == CarryOf(ref.tail)
  }

  /** The reference does not see where one chunk ends and the next begins. */
  lemma {:induction false} FeedConcat(tail: string, a: string, b: string, i: nat)
    requires i <= |a|
    ensures var first := Feed(tail, a, i);
            var second := Feed(first.tail, b, 0);
            Feed(tail, a + b, i) == Split(first.messages + second.messages, second.tail)
    decreases |a| - i
  {
    if i == |a| {
      FeedSuffix(tail, a, b, 0);
    } else if IsSeparator(a[i]) {
      FeedConcat([], a, b, i + 1);
    } else {
      FeedConcat(tail + [a[i]], a, b, i + 1);
    }
  }

  lemma {:induction false} FeedSuffix(tail: string, a: string, b: string, i: nat)
    requires i <= |b|
    ensures Feed(tail, a + b, |a| + i) == Feed(tail, b, i)
    decreases |b| - i
  {
    if i < |b| {
      FeedSuffix(if IsSeparator(b[i]) then [] else tail + [b[i]], a, b, i + 1);
    }
  }

  /** What a call carries over is again a valid carry. */
  lemma CarryStaysValid(carry: Option<string>, chunk: string)
    requires ValidCarry(carry)
    ensures ValidCarry(Handle(carry, chunk).carry)
  {
    if HasSeparator(chunk) {
      var flush := carry.Some? && |chunk| > 1 && chunk[0] == '\r' && chunk[1] == '\n';
      var lastToken := if IsTerminated(chunk) then None else Some(chunk[LastLf(chunk) + 1..]);
      LoopCarryValid(chunk, 0, true, if flush then None else carry, lastToken);
    }
  }

  lemma {:induction false} LoopCarryValid(s: string, pos: nat, first: bool, carry: Option<string>, lastToken: Option<string>)
    requires pos <= |s| && ValidCarry(carry)
    ensures ValidCarry(TokenLoop(s, pos, first, carry, lastToken).carry)
    decreases |s| - pos
  {
    var start := SkipSeparators(s, pos);
    if start < |s| {
      var end := TokenEnd(s, start);
      LoopCarryValid(s, if end == |s| then end else end + 1, false, if first then None else carry, lastToken);
    }
  }

  /** A chunk that makes the code give the connection up is not one that it can handle. */
  lemma HandledStaysOn(carry: Option<string>, chunk: string)
    requires Handled(carry, chunk)
    ensures !Handle(carry, chunk).disconnect
  {
    if HasSeparator(chunk) && !IsTerminated(chunk) {
      LastTokenIsTail(chunk);
    }
  }

  lemma InStepCons(carry: Option<string>, chunks: seq<string>)
    requires chunks != [] && ValidCarry(carry)
    requires Faithful(carry, chunks[0]) && !Handle(carry, chunks[0]).disconnect
    ensures InStep(carry, chunks) <==> InStep(Handle(carry, chunks[0]).carry, chunks[1..])
  {
    var chunk, rest := chunks[0], chunks[1..];
    var ref := Feed(TailOf(carry), chunk, 0);
    FeedConcat(TailOf(carry), chunk, Concat(rest), 0);
    var out := Handle(carry, chunk);
    assert TailOf(out.carry) == ref.tail;
    var a, b := Run(out.carry, rest).messages, Feed(ref.tail, Concat(rest), 0).messages;
    assert (ref.messages + a)[|ref.messages|..] == a && (ref.messages + b)[|ref.messages|..] == b;
  }

  /** Chunk independence, exactly: every chunk of a run is one the code can handle if and only if
      after every chunk the run is in step with the stream. */
  lemma {:induction false} ChunkIndependence(carry: Option<string>, chunks: seq<string>)
    requires ValidCarry(carry)
    ensures AllHandled(carry, chunks) <==> forall k :: 0 <= k <= |chunks| ==> InStep(carry, chunks[..k])
    decreases |chunks|
  {
    InStepAtStart(carry, chunks);
    if chunks != [] {
      var next, rest := Handle(carry, chunks[0]).carry, chunks[1..];
      CarryStaysValid(carry, chunks[0]);
      FaithfulExactly(carry, chunks[0]);
      OneChunk(carry, chunks);
      if Faithful(carry, chunks[0]) {
        HandledStaysOn(carry, chunks[0]);
        ChunkIndependence(next, rest);
        forall k | 0 < k <= |chunks|
          ensures InStep(carry, chunks[..k]) <==> InStep(next, rest[..k - 1])
        {
          assert chunks[..k][1..] == rest[..k - 1];
          InStepCons(carry, chunks[..k]);
        }
        assert forall j :: 0 <= j <= |rest| ==> (InStep(carry, chunks[..j + 1]) <==> InStep(next, rest[..j]));
      }
    }
  }

  lemma InStepAtStart(carry: Option<string>, chunks: seq<string>)
    requires ValidCarry(carry)
    ensures InStep(carry, chunks[..0])
  {
    assert chunks[..0] == [];
  }

  lemma OneChunk(carry: Option<string>, chunks: seq<string>)
    requires chunks != [] && ValidCarry(carry)
    ensures InStep(carry, chunks[..1]) <==> Faithful(carry, chunks[0])
  {
    var one := chunks[..1];
    var out := Handle(carry, one[0]);
    assert one[1..] == [];
    assert Run(out.carry, one[1..]) == Outcome([], out.carry, false);
    assert Run(carry, one).messages == out.messages + [] == out.messages;
    assert Concat(one) == one[0] + [] == one[0];
  }

  /** CR and LF come only as pairs, CR first: the form section 2.3 of RFC 2812 prescribes. */
  ghost predicate CrLfPaired(s: string) {
    forall i :: 0 <= i < |s| ==> PairedAt(s, i)
  }

  ghost predicate PairedAt(s: string, i: nat)
    requires i < |s|
  {
    && (s[i] == '\r' ==> i + 1 < |s| && s[i + 1] == '\n')
    && (s[i] == '\n' ==> i > 0 && s[i - 1] == '\r')
  }

  /** A stream with an unfinished message does not end in a separator. */
  lemma OpenEnd(before: string)
    requires Stream(before).tail != []
    ensures before != [] && !IsSeparator(before[|before| - 1])
  {
    hide Feed, LastSeparator;
    FeedTail([], before, 0);
    assert [] + before[0..] == before;
  }

  lemma PairedAhead(s: string, n: nat)
    requires CrLfPaired(s) && 0 < n < |s| && !IsSeparator(s[n - 1]) && IsSeparator(s[n])
    ensures s[n] == '\r' && n + 1 < |s| && s[n + 1] == '\n'
  {
    assert PairedAt(s, n);
  }

  lemma Within(before: string, chunk: string, after: string, k: nat)
    requires k < |chunk|
    ensures (before + chunk + after)[|before| + k] == chunk[k]
    ensures before != [] ==> (before + chunk + after)[|before| - 1] == before[|before| - 1]
  {
  }

  /** On a paired stream a separator behind an unfinished message is its CR LF. */
  lemma PairedBehindCarry(before: string, chunk: string, after: string)
    requires CrLfPaired(before + chunk + after) && LastLf(chunk) >= 0
    requires Stream(before).tail != [] && IsSeparator(chunk[0])
    ensures |chunk| > 1 && chunk[0] == '\r' && chunk[1] == '\n'
  {
    hide Stream, LastLf, CrLfPaired;
    OpenEnd(before);
    Within(before, chunk, after, 0);
    PairedAhead(before + chunk + after, |before|);
    if |chunk| > 1 {
      Within(before, chunk, after, 1);
    }
  }

  /** On a paired stream the last separator of an unterminated chunk is a line feed. */
  lemma PairedTail(before: string, chunk: string, after: string)
    requires CrLfPaired(before + chunk + after) && HasSeparator(chunk) && !IsTerminated(chunk)
    ensures chunk[LastSeparator(chunk)] == '\n'
  {
    hide LastSeparator;
    var at := LastSeparator(chunk);
    Within(before, chunk, after, at);
    Within(before, chunk, after, at + 1);
    assert PairedAt(before + chunk + after, |before| + at);
  }

  /** On a stream with paired CR and LF a chunk is handled if it holds a line feed and none of
      its complete lines equals its own tail. `before` is the stream up to the chunk. */
  lemma PairedChunkHandled(before: string, chunk: string, after: string)
    requires CrLfPaired(before + chunk + after)
    requires LastLf(chunk) >= 0 && Stream(chunk).tail !in Stream(chunk).messages
    ensures Handled(CarryOf(Stream(before).tail), chunk)
  {
    hide Stream, LastSeparator, LastLf, CrLfPaired;
    assert IsSeparator(chunk[LastLf(chunk)]);
    if Stream(before).tail != [] && IsSeparator(chunk[0]) {
      PairedBehindCarry(before, chunk, after);
    }
    if !IsTerminated(chunk) {
      PairedTail(before, chunk, after);
    }
  }

  lemma {:induction false} PairedRunHandled(before: string, chunks: seq<string>)
    requires CrLfPaired(before + Concat(chunks))
    requires forall chunk :: chunk in chunks ==> LastLf(chunk) >= 0 && Stream(chunk).tail !in Stream(chunk).messages
    ensures AllHandled(CarryOf(Stream(before).tail), chunks)
    decreases |chunks|
  {
    if chunks != [] {
      var chunk, rest := chunks[0], Concat(chunks[1..]);
      var carry := CarryOf(Stream(before).tail);
      assert before + Concat(chunks) == before + chunk + rest;
      PairedChunkHandled(before, chunk, rest);
      StreamCarryValid(before);
      FaithfulExactly(carry, chunk);
      FeedConcat([], before, chunk, 0);
      assert TailOf(carry) == Stream(before).tail;
      PairedRunHandled(before + chunk, chunks[1..]);
    }
  }

  lemma StreamCarryValid(s: string)
    ensures ValidCarry(CarryOf(Stream(s).tail))
  {
    FeedMessagesPlain([], s, 0);
  }

  /** Messages on the wire. */
  function Wire(messages: seq<string>): string {
    if messages == [] then [] else messages[0] + "\r\n" + Wire(messages[1..])
  }

  ghost predicate IsMessage(m: string) {
    m != [] && NoSeparator(m)
  }

  lemma {:induction false} WireStream(messages: seq<string>)
    requires forall m :: m in messages ==> IsMessage(m)
    ensures Stream(Wire(messages)) == Split(messages, [])
  {
    if messages != [] {
      var m, rest := messages[0], Wire(messages[1..]);
      WireStream(messages[1..]);
      assert IsMessage(m);
      var line := m + "\r\n";
      FeedConcat([], line, rest, 0);
      FeedRun([], line, 0, |m|);
      assert [] + line[0..|m|] == m;
      assert Feed([], line, |m| + 1) == Feed([], line, |m| + 2);
      assert Feed([], line, 0) == Split([m], []);
    }
  }

  lemma {:induction false} WirePaired(messages: seq<string>)
    requires forall m :: m in messages ==> IsMessage(m)
    ensures CrLfPaired(Wire(messages))
  {
    if messages != [] {
      var m, rest := messages[0], Wire(messages[1..]);
      WirePaired(messages[1..]);
      assert IsMessage(m);
      PairedLine(m, rest);
    }
  }

  lemma PairedLine(m: string, rest: string)
    requires NoSeparator(m) && CrLfPaired(rest)
    ensures CrLfPaired(m + "\r\n" + rest)
  {
    var s := m + "\r\n" + rest;
    assert s[|m|] == '\r' && s[|m| + 1] == '\n';
    forall i | 0 <= i < |s|
      ensures PairedAt(s, i)
    {
      var k := i - |m| - 2;
      if i < |m| {
        assert s[i] == m[i];
      } else if k >= 0 {
        assert s[i] == rest[k] && PairedAt(rest, k);
        assert rest[k] == '\r' ==> s[i + 1] == rest[k + 1];
        assert rest[k] == '\n' ==> s[i - 1] == rest[k - 1];
      }
    }
  }

  /** Non-empty messages sent one after the other, cut into chunks in any way that leaves a line
      feed in every chunk and no complete line equal to its chunk's own tail, are handed on over
      all calls exactly as they were sent, and nothing is left over. */
  lemma MessagesArrive(messages: seq<string>, chunks: seq<string>)
    requires forall m :: m in messages ==> IsMessage(m)
    requires Concat(chunks) == Wire(messages)
    requires forall chunk :: chunk in chunks ==> LastLf(chunk) >= 0 && Stream(chunk).tail !in Stream(chunk).messages
    ensures Run(None, chunks).messages == messages && Run(None, chunks).carry == None
  {
    WireStream(messages);
    WirePaired(messages);
    assert [] + Concat(chunks) == Concat(chunks);
    PairedRunHandled([], chunks);
    ChunkIndependence(None, chunks);
    assert chunks[..|chunks|] == chunks;
    assert InStep(None, chunks);
  }
}
