/** The receiver of src/irc.c as it runs: strtok_r over the receive buffer, and the carry
    buffer with its two states between calls. */
module IrcReceiver {
  import opened Wrappers
  import opened IrcStream
  import IrcRuns

  ghost predicate NulFree(s: string) {
    forall k :: 0 <= k < |s| ==> s[k] != '\0'
  }

  /** The buffer held the C string `s`; from `pos` on it still does. */
  ghost predicate Unread(buf: array<char>, s: string, pos: nat)
    reads buf
  {
    && pos <= |s| < buf.Length && buf[|s|] == '\0'
    && forall k :: pos <= k < |s| ==> buf[k] == s[k]
  }

  /** What strtok_r looks for: where the next token starts, and where it ends. */
  function TokenStart(s: string, i: nat, delims: set<char>): (j: nat)
    requires i <= |s|
    ensures i <= j <= |s| && (j < |s| ==> s[j] !in delims)
    ensures forall k :: i <= k < j ==> s[k] in delims
    decreases |s| - i
  {
    if i == |s| || s[i] !in delims then i else TokenStart(s, i + 1, delims)
  }

  function TokenStop(s: string, i: nat, delims: set<char>): (j: nat)
    requires i <= |s|
    ensures i <= j <= |s| && (j < |s| ==> s[j] in delims)
    ensures forall k :: i <= k < j ==> s[k] !in delims
    decreases |s| - i
  {
    if i == |s| || s[i] in delims then i else TokenStop(s, i + 1, delims)
  }

  /** The token at or behind `pos`, and where strtok_r goes on. */
  function Strtok(s: string, pos: nat, delims: set<char>): (r: (Option<string>, nat))
    requires pos <= |s|
    ensures r.1 <= |s|
  {
    var start := TokenStart(s, pos, delims);
    if start == |s| then (None, |s|)
    else
      var end := TokenStop(s, start, delims);
      (Some(s[start..end]), if end == |s| then end else end + 1)
  }

  /** A token that stands between `start` and `end`. */
  lemma StrtokIs(s: string, pos: nat, start: nat, end: nat, delims: set<char>)
    requires pos <= start < end <= |s|
    requires forall k :: pos <= k < start ==> s[k] in delims
    requires forall k :: start <= k < end ==> s[k] !in delims
    requires end < |s| ==> s[end] in delims
    ensures Strtok(s, pos, delims) == (Some(s[start..end]), if end == |s| then end else end + 1)
  {
    hide TokenStart, TokenStop;
    assert s[start] !in delims;
    assert TokenStart(s, pos, delims) == start;
    assert TokenStop(s, start, delims) == end;
  }

  const CRLF: set<char> := {'\r', '\n'}

  lemma {:induction false} SameStart(s: string, i: nat)
    requires i <= |s|
    ensures TokenStart(s, i, CRLF) == SkipSeparators(s, i)
    decreases |s| - i
  {
    if i < |s| {
      SameStart(s, i + 1);
    }
  }

  lemma {:induction false} SameStop(s: string, i: nat)
    requires i <= |s|
    ensures TokenStop(s, i, CRLF) == TokenEnd(s, i)
    decreases |s| - i
  {
    if i < |s| {
      SameStop(s, i + 1);
    }
  }

  /** The tokens between CR and LF are those of the stream. */
  lemma CrLfToken(s: string, pos: nat)
    requires pos <= |s|
    ensures var start := SkipSeparators(s, pos);
            var end := TokenEnd(s, start);
            Strtok(s, pos, CRLF) ==
            if start == |s| then (None, |s|) else (Some(s[start..end]), if end == |s| then end else end + 1)
  {
    hide SkipSeparators, TokenEnd, TokenStart, TokenStop;
    SameStart(s, pos);
    SameStop(s, SkipSeparators(s, pos));
  }

  /** strtok_r: returns the next token and writes a terminator behind it. */
  method StrtokR(buf: array<char>, pos: nat, delims: set<char>, ghost s: string)
    returns (token: Option<string>, pos': nat)
    requires NulFree(s) && Unread(buf, s, pos) && '\0' !in delims
    modifies buf
    ensures Unread(buf, s, pos') && (token, pos') == Strtok(s, pos, delims)
  {
    var start := pos;
    while buf[start] in delims
      invariant pos <= start <= |s| && TokenStart(s, start, delims) == TokenStart(s, pos, delims)
      decreases |s| - start
    {
      start := start + 1;
    }
    if buf[start] == '\0' {
      return None, start;
    }
    var end := start;
    while buf[end] != '\0' && buf[end] !in delims
      invariant start <= end <= |s| && TokenStop(s, end, delims) == TokenStop(s, start, delims)
      decreases |s| - end
    {
      end := end + 1;
    }
    token := Some(buf[start..end]);
    assert buf[start..end] == s[start..end];
    if buf[end] == '\0' {
      return token, end;
    }
    buf[end] := '\0';
    pos' := end + 1;
  }

  /** Position of the last line feed, scanning as strrchr does. */
  method FindLastLf(buf: array<char>, ghost s: string) returns (k: int)
    requires NulFree(s) && Unread(buf, s, 0)
    ensures k == LastLf(s)
  {
    k := -1;
    var i := 0;
    while buf[i] != '\0'
      invariant 0 <= i <= |s| && k == LastLf(s[..i])
      decreases |s| - i
    {
      assert s[..i + 1][..i] == s[..i];
      if buf[i] == '\n' { k := i; }
      i := i + 1;
    }
    assert s[..i] == s;
  }

  /** strpbrk: is there any separator? */
  method FindSeparator(buf: array<char>, ghost s: string) returns (found: bool)
    requires NulFree(s) && Unread(buf, s, 0)
    ensures found <==> HasSeparator(s)
  {
    var i := 0;
    while buf[i] != '\0' && !IsSeparator(buf[i])
      invariant 0 <= i <= |s| && forall k :: 0 <= k < i ==> !IsSeparator(s[k])
      decreases |s| - i
    {
      i := i + 1;
    }
    found := buf[i] != '\0';
  }

  /** get_last_token: what stands behind the last line feed, None without one. */
  method GetLastToken(buf: array<char>, length: nat, ghost s: string) returns (token: Option<string>)
    requires NulFree(s) && Unread(buf, s, 0) && length == |s|
    ensures token == if LastLf(s) < 0 then None else Some(s[LastLf(s) + 1..])
  {
    hide LastLf;
    var k := FindLastLf(buf, s);
    if k < 0 {
      return None;
    }
    token := Some(buf[k + 1..length]);
    assert buf[k + 1..length] == s[k + 1..];
  }

  // ----- The received bytes -----

  /** Where the zero bytes at the end of a buffer begin. */
  function TextEnd(bytes: string): (n: nat)
    ensures n <= |bytes| && (n > 0 ==> bytes[n - 1] != '\0')
    ensures forall k :: n <= k < |bytes| ==> bytes[k] == '\0'
  {
    if bytes == [] then 0
    else if bytes[|bytes| - 1] != '\0' then |bytes|
    else TextEnd(bytes[..|bytes| - 1])
  }

  /** The C string that the program makes of received bytes: zero bytes at the end are dropped,
      and every other one becomes an X. */
  function Text(bytes: string): (s: string)
    ensures NulFree(s) && |s| == TextEnd(bytes)
    ensures forall k :: 0 <= k < |s| ==> s[k] == if bytes[k] == '\0' then 'X' else bytes[k]
    ensures NulFree(bytes) ==> s == bytes
  {
    seq(TextEnd(bytes), k requires 0 <= k < |bytes| => if bytes[k] == '\0' then 'X' else bytes[k])
  }

  function Texts(chunks: seq<string>): (texts: seq<string>)
    ensures |texts| == |chunks| && forall k :: 0 <= k < |chunks| ==> texts[k] == Text(chunks[k])
  {
    seq(|chunks|, k requires 0 <= k < |chunks| => Text(chunks[k]))
  }

  /** destroy_null_bytes, on the first `received` bytes of the buffer. */
  method DestroyNullBytes(recvbuf: array<char>, received: int, ghost bytes: string)
    requires received == |bytes| < recvbuf.Length && recvbuf[..|bytes|] == bytes && recvbuf[|bytes|] == '\0'
    modifies recvbuf
    ensures Unread(recvbuf, Text(bytes), 0)
  {
    if received < 1 {
      return;
    }
    var i := received - 1;
    while i >= 0 && recvbuf[i] == '\0'
      invariant -1 <= i < received && TextEnd(bytes) <= i + 1
    {
      i := i - 1;
    }
    assert TextEnd(bytes) == i + 1;
    var j := 0;
    while j < i
      invariant j == 0 || 0 < j <= i
      invariant recvbuf[|bytes|] == '\0'
      invariant forall k :: j <= k < received ==> recvbuf[k] == bytes[k]
      invariant forall k :: 0 <= k < j ==> recvbuf[k] == if bytes[k] == '\0' then 'X' else bytes[k]
    {
      if recvbuf[j] == '\0' {
        recvbuf[j] := 'X';
      }
      j := j + 1;
    }
  }

  /** The receive buffer, cleared before, with one chunk in it. */
  method Received(bytes: string) returns (recvbuf: array<char>)
    ensures fresh(recvbuf) && Unread(recvbuf, Text(bytes), 0)
  {
    var n := |bytes|;
    recvbuf := new char[n + 1](k requires 0 <= k <= n => if k < n then bytes[k] else '\0');
    if '\0' in bytes {
      DestroyNullBytes(recvbuf, n, bytes);
    }
  }

  class Receiver {
    var messageConcat: Option<string>
    var containsData: bool
    var processed: seq<string>
    var onAir: bool

    ghost predicate Valid()
      reads this
    {
      containsData ==> messageConcat.Some?
    }

    /** What is carried over; a stale buffer in the empty state is not. */
    function Carry(): Option<string>
      reads this
    {
      if containsData then messageConcat else None
    }

    constructor ()
      ensures Valid() && Carry() == None && processed == [] && onAir
    {
      messageConcat, containsData, processed, onAir := None, false, [], true;
    }

    method ProcessProtoMsg(token: string)
      modifies this`processed
      ensures processed == old(processed) + [token]
    {
      processed := processed + [token];
    }

    /** One received chunk. */
    method HandleInterpretEvents(buf: array<char>, ghost s: string)
      requires Valid() && NulFree(s) && Unread(buf, s, 0)
      modifies this, buf
      ensures Valid()
      ensures var out := Handle(old(Carry()), s);
              && processed == old(processed) + out.messages
              && Carry() == out.carry
              && onAir == (old(onAir) && !out.disconnect)
    {
      hide TokenLoop, LastLf, LastSeparator;
      var any := FindSeparator(buf, s);
      if buf[0] == '\0' || !any { return; }
      if containsData && buf[0] == '\r' && buf[1] == '\n' {
        ProcessProtoMsg(messageConcat.value);
        messageConcat := None;
        containsData := false;
      }
      var length := StrLen(buf, s);
      var lastToken: Option<string> := None;
      if !IsSeparator(buf[length - 1]) {
        lastToken := GetLastToken(buf, length, s);
        if lastToken == None {
          onAir := false;
          return;
        }
      }
      ghost var flushed := if Carry() == old(Carry()) then [] else [old(Carry()).value];
      ghost var loop := TokenLoop(s, 0, true, Carry(), lastToken);
      assert processed == old(processed) + flushed;
      assert Handle(old(Carry()), s) == Outcome(flushed + loop.messages, loop.carry, false);
      ConcatAssoc(old(processed), flushed, loop.messages);
      ProcessTokens(buf, lastToken, s);
    }

    /** The receive loop of a connection: one buffer after the other, with the carry and its state
        kept in between, until the connection ends. `chunks` is what arrives, zero bytes included. */
    method Listen(chunks: seq<string>)
      requires Valid() && onAir
      modifies this
      ensures Valid()
      ensures var out := IrcRuns.Run(old(Carry()), Texts(chunks));
              processed == old(processed) + out.messages && Carry() == out.carry && onAir == !out.disconnect
    {
      hide Handle, Text;
      var i := 0;
      ghost var texts := Texts(chunks);
      ghost var all := IrcRuns.Run(Carry(), texts);
      assert texts[0..] == texts;
      while i < |chunks| && onAir
        invariant 0 <= i <= |chunks| && Valid()
        invariant onAir ==>
                    var rest := IrcRuns.Run(Carry(), texts[i..]);
                    processed + rest.messages == old(processed) + all.messages && rest.carry == all.carry
                    && rest.disconnect == all.disconnect
        invariant !onAir ==> processed == old(processed) + all.messages && Carry() == all.carry && all.disconnect
      {
        var recvbuf := Received(chunks[i]);
        ghost var out := Handle(Carry(), texts[i]);
        assert texts[i..][1..] == texts[i + 1..];
        ConcatAssoc(processed, out.messages, IrcRuns.Run(out.carry, texts[i + 1..]).messages);
        HandleInterpretEvents(recvbuf, texts[i]);
        i := i + 1;
      }
      assert processed + [] == processed;
    }

    method StrLen(buf: array<char>, ghost s: string) returns (n: nat)
      requires NulFree(s) && Unread(buf, s, 0)
      ensures n == |s|
    {
      n := 0;
      while buf[n] != '\0'
        invariant n <= |s|
        decreases |s| - n
      {
        n := n + 1;
      }
    }

    /** The token loop. */
    method ProcessTokens(buf: array<char>, lastToken: Option<string>, ghost s: string)
      requires Valid() && NulFree(s) && Unread(buf, s, 0)
      modifies this`messageConcat, this`containsData, this`processed, buf
      ensures Valid()
      ensures var out := TokenLoop(s, 0, true, old(Carry()), lastToken);
              processed == old(processed) + out.messages && Carry() == out.carry
    {
      ghost var full := TokenLoop(s, 0, true, Carry(), lastToken);
      var pos: nat, loopCount, more := 0, 0, true;
      while more
        invariant pos <= |s| && Unread(buf, s, pos) && Valid() && loopCount >= 0
        invariant more ==>
                    var rest := TokenLoop(s, pos, loopCount == 0, Carry(), lastToken);
                    processed + rest.messages == old(processed) + full.messages && rest.carry == full.carry
        invariant !more ==> processed == old(processed) + full.messages && Carry() == full.carry
        decreases more, |s| - pos
      {
        more, pos := TakeToken(buf, pos, loopCount, lastToken, s);
        loopCount := loopCount + 1;
      }
    }

    /** One round of the token loop; `more` is false when it leaves the loop. */
    method TakeToken(buf: array<char>, pos: nat, loopCount: int, lastToken: Option<string>, ghost s: string)
      returns (more: bool, pos': nat)
      requires Valid() && NulFree(s) && Unread(buf, s, pos)
      modifies this`messageConcat, this`containsData, this`processed, buf
      ensures Valid() && Unread(buf, s, pos')
      ensures var all := TokenLoop(s, pos, loopCount == 0, old(Carry()), lastToken);
              if more then
                var rest := TokenLoop(s, pos', false, Carry(), lastToken);
                && pos < pos'
                && processed + rest.messages == old(processed) + all.messages && rest.carry == all.carry
              else
                processed == old(processed) + all.messages && Carry() == all.carry
    {
      hide SkipSeparators, TokenEnd, Strtok;
      var token;
      CrLfToken(s, pos);
      token, pos' := StrtokR(buf, pos, CRLF, s);
      if token == None {
        return false, pos';
      } else if lastToken == token && !containsData {
        messageConcat := lastToken;
        containsData := true;
        return false, pos';
      }
      var message := token.value;
      if loopCount == 0 && containsData {
        message := messageConcat.value + message;
        messageConcat := Some(message);
        containsData := false;
      }
      ProcessProtoMsg(message);
      more := true;
      ConcatAssoc(old(processed), [message], TokenLoop(s, pos', false, Carry(), lastToken).messages);
    }
  }
}
