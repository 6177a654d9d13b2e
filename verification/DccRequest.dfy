/** The request that opens a DCC transfer (src/commands/dcc.cpp): a frame of 130 bytes with the
    nick and the file name, written and read through a connection that makes partial progress. */
module DccRequest {
  import opened Wrappers
  import IrcStream
  import IrcReceiver

  const REQ_SIZE: nat := 130
  const NICKNAME_LEN_MAX: nat := 45
  const FILENAME_LEN_MAX: nat := 80

  datatype Request = Request(nick: string, filename: string)

  // ----- The connection -----

  /** What the next call into the connection makes of itself: it moves some bytes, it has to be
      tried again, or it fails. */
  datatype Event = Progress(n: nat) | Want | Broken

  /** One end of a TLS connection. When the events run out the peer has shut it down. */
  class Ssl {
    var events: seq<Event>
    /** Everything written here so far, and what the peer wrote that was not read yet. */
    var written: string
    var incoming: string

    constructor (events: seq<Event>, incoming: string)
      ensures this.events == events && this.incoming == incoming && written == ""
    {
      this.events, this.incoming, written := events, incoming, "";
    }

    /** SSL_write: writes a non-empty prefix of `data`, or nothing. */
    method Write(data: string) returns (ret: nat, again: bool)
      requires data != "" && events != []
      modifies `events, `written
      ensures events == old(events)[1..] && ret <= |data| && written == old(written) + data[..ret]
      ensures (ret > 0 <==> old(events)[0].Progress?) && (again <==> old(events)[0].Want?)
    {
      match events[0] {
        case Progress(n) => ret := if n < 1 then 1 else if n > |data| then |data| else n;
        case _ => ret := 0;
      }
      again := events[0].Want?;
      written := written + data[..ret];
      events := events[1..];
    }

    /** SSL_read: takes at most `max` bytes of what arrived. */
    method Read(max: nat) returns (data: string, again: bool)
      requires max > 0 && events != []
      modifies `events, `incoming
      ensures events == old(events)[1..] && |data| <= max && data + incoming == old(incoming)
      ensures again <==> data == "" && !old(events)[0].Broken?
    {
      data := "";
      if events[0].Progress? && incoming != "" {
        var n := events[0].n;
        n := if n < 1 then 1 else n;
        n := if n > max then max else n;
        n := if n > |incoming| then |incoming| else n;
        data := incoming[..n];
        incoming := incoming[n..];
      }
      again := data == "" && !events[0].Broken?;
      events := events[1..];
    }
  }

  // ----- The frame -----

  ghost predicate ValidNick(nick: string) {
    0 < |nick| <= NICKNAME_LEN_MAX && forall k :: 0 <= k < |nick| ==> NickChar(nick[k])
  }

  predicate NickChar(c: char) {
    'a' <= c <= 'z' || 'A' <= c <= 'Z' || '0' <= c <= '9'
    || c == '-' || c == '[' || c == '\\' || c == ']' || c == '^' || c == '_' || c == '`'
    || c == '{' || c == '|' || c == '}'
  }

  ghost predicate ValidFilename(name: string) {
    && 0 < |name| <= FILENAME_LEN_MAX
    && (forall k :: 0 <= k < |name| ==> FileChar(name[k]))
    && (forall k :: 0 <= k < |name| - 1 ==> !DotsAt(name, k))
  }

  predicate FileChar(c: char) {
    'a' <= c <= 'z' || 'A' <= c <= 'Z' || '0' <= c <= '9'
    || c == ' ' || c == '(' || c == ')' || c == '+' || c == '-' || c == '.' || c == '_' || c == '[' || c == ']'
  }

  predicate DotsAt(s: string, k: nat)
    requires k + 1 < |s|
  {
    s[k] == '.' && s[k + 1] == '.'
  }

  /** A nick is taken exactly when it is not empty, not too long, and all of it is among the legal
      characters. */
  lemma NickIsTaken(nick: string)
    ensures ValidNick(nick) <==>
            && 0 < |nick| <= 45
            && forall k :: 0 <= k < |nick| ==> nick[k] in UPPERCASE + LOWERCASE + DECIMALS + "-[\\]^_`{|}"
  {
    hide NickChar, UPPERCASE, LOWERCASE, DECIMALS;
    forall k | 0 <= k < |nick|
      ensures NickChar(nick[k]) <==> nick[k] in UPPERCASE + LOWERCASE + DECIMALS + "-[\\]^_`{|}"
    {
      NickCharacters(nick[k]);
    }
  }

  lemma NickCharacters(c: char)
    ensures NickChar(c) <==> c in UPPERCASE + LOWERCASE + DECIMALS + "-[\\]^_`{|}"
  {
    hide UPPERCASE, LOWERCASE, DECIMALS;
    UppercaseIsRange(c);
    LowercaseIsRange(c);
    DecimalsAreRange(c);
  }

  /** A file name is taken exactly when it is not empty, not too long, all of it is among the legal
      characters, and no two dots stand side by side anywhere in it. */
  lemma FileIsTaken(name: string)
    ensures ValidFilename(name) <==>
            && 0 < |name| <= 80
            && (forall k :: 0 <= k < |name| ==> name[k] in UPPERCASE + LOWERCASE + DECIMALS + " ()+-._[]")
            && (forall front, behind :: name != front + ".." + behind)
  {
    hide FileChar, UPPERCASE, LOWERCASE, DECIMALS;
    forall k | 0 <= k < |name|
      ensures FileChar(name[k]) <==> name[k] in UPPERCASE + LOWERCASE + DECIMALS + " ()+-._[]"
    {
      FileCharacters(name[k]);
    }
    forall k | 0 <= k < |name| - 1
      ensures DotsAt(name, k) ==> name == name[..k] + ".." + name[k + 2..]
    {
    }
    forall front, behind | name == front + ".." + behind
      ensures DotsAt(name, |front|)
    {
      assert name[|front|] == '.' && name[|front| + 1] == '.';
    }
  }

  lemma FileCharacters(c: char)
    ensures FileChar(c) <==> c in UPPERCASE + LOWERCASE + DECIMALS + " ()+-._[]"
  {
    hide UPPERCASE, LOWERCASE, DECIMALS;
    UppercaseIsRange(c);
    LowercaseIsRange(c);
    DecimalsAreRange(c);
  }

  function Zeros(n: nat): (z: string)
    ensures |z| == n && forall k :: 0 <= k < n ==> z[k] == '\0'
  {
    seq(n, i => '\0')
  }

  /** The frame, None when it does not fit with its terminator. */
  function Frame(r: Request): (f: Option<string>)
    ensures f.Some? ==> |f.value| == REQ_SIZE
  {
    var text := r.nick + "\r\n" + r.filename;
    if |text| >= REQ_SIZE then None else Some(text + Zeros(REQ_SIZE - |text|))
  }

  /** The C string at the start of a buffer: up to the first zero. */
  function Terminator(buf: string, i: nat): (n: nat)
    requires i <= |buf|
    ensures i <= n <= |buf| && (n < |buf| ==> buf[n] == '\0')
    ensures forall k :: i <= k < n ==> buf[k] != '\0'
    decreases |buf| - i
  {
    if i == |buf| || buf[i] == '\0' then i else Terminator(buf, i + 1)
  }

  /** The first two tokens of a C string. */
  function Tokens(s: string): Option<Request> {
    var (nick, pos) := IrcReceiver.Strtok(s, 0, IrcReceiver.CRLF);
    var (filename, _) := IrcReceiver.Strtok(s, pos, IrcReceiver.CRLF);
    if nick.None? || filename.None? then None else Some(Request(nick.value, filename.value))
  }

  /** What the sender takes from a full frame. */
  ghost function Accepted(buf: string): Option<Request> {
    var n := Terminator(buf, 0);
    if n == |buf| then None
    else
      match Tokens(buf[..n])
      case None => None
      case Some(r) => if ValidNick(r.nick) && ValidFilename(r.filename) then Some(r) else None
  }

  lemma {:induction false} TerminatorIs(buf: string, i: nat, n: nat)
    requires i <= n < |buf| && buf[n] == '\0' && forall k :: i <= k < n ==> buf[k] != '\0'
    ensures Terminator(buf, i) == n
    decreases n - i
  {
    if i < n {
      TerminatorIs(buf, i + 1, n);
    }
  }

  lemma TokensOfText(r: Request)
    requires ValidNick(r.nick) && ValidFilename(r.filename)
    ensures Tokens(r.nick + "\r\n" + r.filename) == Some(r)
  {
    hide IrcReceiver.Strtok;
    var s := r.nick + "\r\n" + r.filename;
    var n := |r.nick|;
    TextCells(r);
    IrcReceiver.StrtokIs(s, 0, 0, n, IrcReceiver.CRLF);
    IrcReceiver.StrtokIs(s, n + 1, n + 2, |s|, IrcReceiver.CRLF);
    assert s[0..n] == r.nick && s[n + 2..|s|] == r.filename;
  }

  lemma TextCells(r: Request)
    requires ValidNick(r.nick) && ValidFilename(r.filename)
    ensures var s, n := r.nick + "\r\n" + r.filename, |r.nick|;
            && 0 < n < |s| - 2 && s[n] == '\r' && s[n + 1] == '\n'
            && forall k :: 0 <= k < |s| && k != n && k != n + 1 ==> s[k] !in IrcReceiver.CRLF
  {
    var s, n := r.nick + "\r\n" + r.filename, |r.nick|;
    forall k | 0 <= k < |s| && k != n && k != n + 1 ensures s[k] !in IrcReceiver.CRLF {
      assert s[k] == if k < n then r.nick[k] else r.filename[k - n - 2];
    }
  }

  /** The frame, cell by cell: the nick, CR, LF, the file name, and zeros up to the end. */
  lemma FrameCells(r: Request)
    ensures Frame(r).Some? <==> |r.nick| + 2 + |r.filename| < 130
    ensures Frame(r).Some? ==>
              var f, n := Frame(r).value, |r.nick|;
              && |f| == 130 && f[..n] == r.nick && f[n] == '\r' && f[n + 1] == '\n'
              && f[n + 2..n + 2 + |r.filename|] == r.filename
              && forall k :: n + 2 + |r.filename| <= k < 130 ==> f[k] == '\0'
  {
  }

  /** A valid nick and file name always fit the frame, and the frame reads back as them. */
  lemma FrameRoundTrip(r: Request)
    requires ValidNick(r.nick) && ValidFilename(r.filename)
    ensures Frame(r).Some? && Accepted(Frame(r).value) == Some(r)
  {
    hide Tokens;
    var text := r.nick + "\r\n" + r.filename;
    var f := Frame(r).value;
    assert forall k :: |r.nick| + 2 <= k < |text| ==> f[k] == r.filename[k - |r.nick| - 2];
    TerminatorIs(f, 0, |text|);
    assert f[..|text|] == text;
    TokensOfText(r);
  }

  /** A text that names the request: CR and LF in any number before the nick, at least one between
      it and the file name, and one behind that if anything is. */
  ghost predicate NamesAt(text: string, r: Request, a: nat, b: nat, c: nat, d: nat) {
    && a < b < c < d <= |text| && text[a..b] == r.nick && text[c..d] == r.filename
    && (forall k :: 0 <= k < a || b <= k < c ==> text[k] == '\r' || text[k] == '\n')
    && (d < |text| ==> text[d] == '\r' || text[d] == '\n')
  }

  lemma TokensExactly(text: string, r: Request)
    requires ValidNick(r.nick) && ValidFilename(r.filename)
    ensures Tokens(text) == Some(r) <==> exists a, b, c, d :: NamesAt(text, r, a, b, c, d)
  {
    if Tokens(text) == Some(r) {
      NamesOfTokens(text, r);
    }
    if a, b, c, d :| NamesAt(text, r, a, b, c, d) {
      TokensOfNames(text, r, a, b, c, d);
    }
  }

  lemma NamesOfTokens(text: string, r: Request)
    requires Tokens(text) == Some(r)
    ensures exists a, b, c, d :: NamesAt(text, r, a, b, c, d)
  {
    hide IrcReceiver.TokenStart, IrcReceiver.TokenStop;
    var a := IrcReceiver.TokenStart(text, 0, IrcReceiver.CRLF);
    var b := IrcReceiver.TokenStop(text, a, IrcReceiver.CRLF);
    var c := IrcReceiver.TokenStart(text, b + 1, IrcReceiver.CRLF);
    var d := IrcReceiver.TokenStop(text, c, IrcReceiver.CRLF);
    assert NamesAt(text, r, a, b, c, d);
  }

  lemma NamePlain(r: Request)
    requires ValidNick(r.nick) && ValidFilename(r.filename)
    ensures forall k :: 0 <= k < |r.nick| ==> r.nick[k] !in IrcReceiver.CRLF
    ensures forall k :: 0 <= k < |r.filename| ==> r.filename[k] !in IrcReceiver.CRLF
  {
  }

  lemma TokensOfNames(text: string, r: Request, a: nat, b: nat, c: nat, d: nat)
    requires ValidNick(r.nick) && ValidFilename(r.filename) && NamesAt(text, r, a, b, c, d)
    ensures Tokens(text) == Some(r)
  {
    hide ValidNick, ValidFilename, IrcReceiver.Strtok;
    NamePlain(r);
    forall k | a <= k < b ensures text[k] !in IrcReceiver.CRLF {
      assert text[a..b][k - a] == text[k];
    }
    forall k | c <= k < d ensures text[k] !in IrcReceiver.CRLF {
      assert text[c..d][k - c] == text[k];
    }
    IrcReceiver.StrtokIs(text, 0, a, b, IrcReceiver.CRLF);
    IrcReceiver.StrtokIs(text, b + 1, c, d, IrcReceiver.CRLF);
  }

  /** A frame is accepted exactly when it holds a C string that names a valid nick and a valid file. */
  lemma AcceptedExactly(buf: string, r: Request)
    ensures Accepted(buf) == Some(r) <==>
            && ValidNick(r.nick) && ValidFilename(r.filename)
            && exists n :: HoldsText(buf, n) && exists a, b, c, d :: NamesAt(buf[..n], r, a, b, c, d)
  {
    hide Tokens, NamesAt, ValidNick, ValidFilename;
    var t := Terminator(buf, 0);
    forall n | HoldsText(buf, n) ensures n == t {
      TerminatorIs(buf, 0, n);
    }
    if t < |buf| {
      assert HoldsText(buf, t);
      if ValidNick(r.nick) && ValidFilename(r.filename) {
        TokensExactly(buf[..t], r);
      }
    }
  }

  /** The C string at the start of the buffer has `n` characters. */
  ghost predicate HoldsText(buf: string, n: int) {
    0 <= n < |buf| && buf[n] == '\0' && forall k :: 0 <= k < n ==> buf[k] != '\0'
  }

  // ----- request_file -----

  /** How far a loop got: `sent` bytes of `data`, all of them exactly on success. */
  ghost predicate Sent(ok: bool, data: string, was: string, now: string, left: int) {
    && 0 <= left <= |data| && now == was + data[..|data| - left] && (ok <==> left == 0)
  }

  /** The connection gave out: the peer shut it down, or a call failed. */
  twostate predicate GaveOut(ssl: Ssl)
    reads ssl
  {
    ssl.events == [] || Broken in old(ssl.events)
  }

  /** The partial writes or reads of a loop, one after the other: each moves something. */
  ghost predicate Moves(sizes: seq<nat>) {
    forall k :: 0 <= k < |sizes| ==> sizes[k] >= 1
  }

  ghost function Total(sizes: seq<nat>): nat {
    if sizes == [] then 0 else sizes[0] + Total(sizes[1..])
  }

  lemma {:induction false} TotalOfMore(sizes: seq<nat>, n: nat)
    ensures Total(sizes + [n]) == Total(sizes) + n
  {
    if sizes != [] {
      assert (sizes + [n])[1..] == sizes[1..] + [n];
      TotalOfMore(sizes[1..], n);
    }
  }

  /** The write loops of request_file and send_bytes: a failure leaves a prefix written. */
  method WriteAll(ssl: Ssl, data: string) returns (ok: bool, left: nat, ghost sizes: seq<nat>)
    modifies ssl
    ensures Moves(sizes) && Total(sizes) == |data| - left
    ensures Sent(ok, data, old(ssl.written), ssl.written, left) && ssl.incoming == old(ssl.incoming)
    ensures !ok ==> GaveOut(ssl)
    ensures forall i :: 0 <= i < |ssl.events| ==> ssl.events[i] in old(ssl.events)
  {
    var bufptr := 0;
    var buflen := |data|;
    sizes := [];
    while buflen > 0
      invariant Moves(sizes) && Total(sizes) == bufptr
      invariant bufptr + buflen == |data| && buflen >= 0 && ssl.incoming == old(ssl.incoming)
      invariant ssl.written == old(ssl.written) + data[..bufptr]
      invariant forall i :: 0 <= i < |ssl.events| ==> ssl.events[i] in old(ssl.events)
      decreases |ssl.events|
    {
      if ssl.events == [] {
        return false, buflen, sizes;
      }
      var ret, again := ssl.Write(data[bufptr..]);
      assert data[..bufptr] + data[bufptr..][..ret] == data[..bufptr + ret];
      if ret > 0 {
        TotalOfMore(sizes, ret);
        sizes := sizes + [ret];
        bufptr := bufptr + ret;
        buflen := buflen - ret;
      } else if !again {
        return false, buflen, sizes;
      }
    }
    return true, 0, sizes;
  }

  /** request_file */
  method RequestFile(ssl: Ssl, r: Request) returns (ok: bool, ghost sizes: seq<nat>)
    modifies ssl
    ensures Moves(sizes)
    ensures match Frame(r)
            case None => !ok && ssl.written == old(ssl.written) && sizes == []
            case Some(f) => (ok || GaveOut(ssl)) && Sent(ok, f, old(ssl.written), ssl.written, |f| - Total(sizes))
  {
    var text := r.nick + "\r\n" + r.filename;
    if |text| >= REQ_SIZE {
      return false, [];
    }
    var left;
    ok, left, sizes := WriteAll(ssl, text + Zeros(REQ_SIZE - |text|));
  }

  // ----- read_request -----

  /** Fills the frame from the connection. */
  method ReadFrame(ssl: Ssl, buf: array<char>) returns (ok: bool, ghost sizes: seq<nat>)
    requires buf.Length == REQ_SIZE
    modifies ssl, buf
    ensures Moves(sizes) && Total(sizes) <= REQ_SIZE && (ok <==> Total(sizes) == REQ_SIZE)
    ensures buf[..Total(sizes)] + ssl.incoming == old(ssl.incoming)
    ensures !ok ==> GaveOut(ssl)
    ensures ssl.written == old(ssl.written)
  {
    var bufptr := 0;
    var buflen := buf.Length;
    sizes := [];
    while buflen > 0
      invariant Moves(sizes) && Total(sizes) == bufptr
      invariant bufptr + buflen == buf.Length && bufptr >= 0 && buflen >= 0 && ssl.written == old(ssl.written)
      invariant forall i :: 0 <= i < |ssl.events| ==> ssl.events[i] in old(ssl.events)
      invariant buf[..bufptr] + ssl.incoming == old(ssl.incoming)
      decreases |ssl.events|
    {
      if ssl.events == [] {
        return false, sizes;
      }
      var data, again := ssl.Read(buflen);
      if data != "" {
        ghost var had := buf[..bufptr];
        forall k | bufptr <= k < bufptr + |data| {
          buf[k] := data[k - bufptr];
        }
        assert buf[..bufptr + |data|] == had + data;
        TotalOfMore(sizes, |data|);
        sizes := sizes + [|data|];
        bufptr := bufptr + |data|;
        buflen := buflen - |data|;
      } else if !again {
        return false, sizes;
      }
    }
    ok := true;
  }

  method IsValidNickname(nick: string) returns (ok: bool)
    ensures ok <==> ValidNick(nick)
  {
    if nick == "" || |nick| > NICKNAME_LEN_MAX {
      return false;
    }
    var i := 0;
    while i < |nick|
      invariant 0 <= i <= |nick| && forall k :: 0 <= k < i ==> NickChar(nick[k])
    {
      if !NickChar(nick[i]) {
        return false;
      }
      i := i + 1;
    }
    ok := true;
  }

  method HasDots(s: string) returns (yes: bool)
    ensures yes <==> exists k :: 0 <= k < |s| - 1 && DotsAt(s, k)
  {
    var i := 0;
    while i + 1 < |s|
      invariant 0 <= i && forall k :: 0 <= k < i && k < |s| - 1 ==> !DotsAt(s, k)
    {
      if DotsAt(s, i) {
        return true;
      }
      i := i + 1;
    }
    yes := false;
  }

  method IsValidFilename(name: string) returns (ok: bool)
    ensures ok <==> ValidFilename(name)
  {
    if name == "" || |name| > FILENAME_LEN_MAX {
      return false;
    }
    var dots := HasDots(name);
    if dots {
      return false;
    }
    var i := 0;
    while i < |name|
      invariant 0 <= i <= |name| && forall k :: 0 <= k < i ==> FileChar(name[k])
    {
      if !FileChar(name[i]) {
        return false;
      }
      i := i + 1;
    }
    ok := true;
  }

  /** read_request: it succeeds exactly when a whole frame was taken off the connection and that
      frame names a valid nick and a valid file. */
  method ReadRequest(ssl: Ssl) returns (r: Option<Request>, ghost frame: Option<string>, ghost sizes: seq<nat>)
    modifies ssl
    ensures Moves(sizes) && Total(sizes) <= REQ_SIZE && (frame.Some? <==> Total(sizes) == REQ_SIZE)
    ensures exists got: string :: |got| == Total(sizes) && got + ssl.incoming == old(ssl.incoming) && (frame.Some? ==> got == frame.value)
    ensures frame.Some? ==> |frame.value| == REQ_SIZE && frame.value + ssl.incoming == old(ssl.incoming)
    ensures frame.None? ==> GaveOut(ssl)
    ensures r == if frame.Some? then Accepted(frame.value) else None
  {
    var buf := new char[REQ_SIZE](_ => '\0');
    var ok;
    ok, sizes := ReadFrame(ssl, buf);
    ghost var got := buf[..Total(sizes)];
    if !ok {
      return None, None, sizes;
    }
    assert got == buf[..];
    frame := Some(buf[..]);
    r := ParseFrame(buf);
  }

  /** The second half of read_request; the frame is cut up in place. */
  method ParseFrame(buf: array<char>) returns (r: Option<Request>)
    requires buf.Length == REQ_SIZE
    modifies buf
    ensures r == Accepted(old(buf[..]))
  {
    hide ValidNick, ValidFilename, IrcReceiver.Strtok;
    ghost var f := buf[..];
    var n := 0;
    while n < buf.Length && buf[n] != '\0'
      invariant 0 <= n <= buf.Length && Terminator(f, n) == Terminator(f, 0)
    {
      n := n + 1;
    }
    if n == buf.Length {
      return None;
    }
    ghost var s := f[..n];
    var token0, token1, last;
    token0, last := IrcReceiver.StrtokR(buf, 0, IrcReceiver.CRLF, s);
    if token0.None? {
      return None;
    }
    token1, last := IrcReceiver.StrtokR(buf, last, IrcReceiver.CRLF, s);
    if token1.None? {
      return None;
    }
    var validNick := IsValidNickname(token0.value);
    var validFile := IsValidFilename(token1.value);
    r := if validNick && validFile then Some(Request(token0.value, token1.value)) else None;
  }
}
