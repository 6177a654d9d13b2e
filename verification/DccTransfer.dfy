/** The transfer behind the request (src/commands/dcc.cpp): the two loops, and every interleaving
    of both sides over the connection. */
module DccTransfer {
  import opened Wrappers
  import opened DccRequest

  const IO_BYTES: nat := 2048

  // ----- Both sides at once -----

  datatype Phase = Requesting | Sending | Refused

  /** The receiver still has `request` to write; `up` is on its way to the sender, which holds
      `frame`. The sender has read the file up to `pos` and still has `chunk` to write; `down` is
      on its way to the receiver, which holds `got`. */
  datatype State = State(
    request: string, up: string, frame: string, phase: Phase,
    pos: nat, chunk: string, sendRem: int, down: string, got: string, recvRem: int)

  /** The next partial write or read that succeeds, with the bytes it moves. */
  datatype Action =
    | WriteRequest(n: nat) | ReadRequestBytes(n: nat) | Decide
    | ReadFile | WriteData(n: nat) | ReadData(n: nat)

  function Min(a: int, b: int): int {
    if a < b then a else b
  }

  predicate Enabled(s: State, file: string, a: Action) {
    match a
    case WriteRequest(n) => 1 <= n <= |s.request|
    case ReadRequestBytes(n) => s.phase == Requesting && 1 <= n <= |s.up| && |s.frame| + n <= REQ_SIZE
    case Decide => s.phase == Requesting && |s.frame| == REQ_SIZE
    case ReadFile => s.phase == Sending && s.chunk == "" && s.sendRem > 0 && s.pos < |file|
    case WriteData(n) => s.phase == Sending && 1 <= n <= |s.chunk|
    case ReadData(n) => s.request == "" && 1 <= n <= |s.down| && n <= s.recvRem && n <= IO_BYTES
  }

  /** `offer` is what the sender offers; a request for anything else is refused. */
  ghost function Next(s: State, file: string, offer: Request, a: Action): State
    requires Enabled(s, file, a)
  {
    match a
    case WriteRequest(n) => s.(request := s.request[n..], up := s.up + s.request[..n])
    case ReadRequestBytes(n) => s.(frame := s.frame + s.up[..n], up := s.up[n..])
    case Decide => s.(phase := if Accepted(s.frame) == Some(offer) then Sending else Refused)
    case ReadFile =>
      var end := Min(s.pos + Min(s.sendRem, IO_BYTES), |file|);
      s.(chunk := file[s.pos..end], pos := end)
    case WriteData(n) => s.(chunk := s.chunk[n..], down := s.down + s.chunk[..n], sendRem := s.sendRem - n)
    case ReadData(n) => s.(down := s.down[n..], got := s.got + s.down[..n], recvRem := s.recvRem - n)
  }

  /** A transfer of `file` under `offer`, announced with `size` bytes. */
  function Start(file: string, frame: string, size: nat): State {
    State(frame, "", "", Requesting, 0, "", |file|, "", "", size)
  }

  /** The request arrives piece by piece, the file arrives in order, and both counts are what is
      still to be moved. */
  ghost predicate Conserved(s: State, file: string, frame: string, size: nat) {
    && s.frame + s.up + s.request == frame
    && s.pos <= |file| && s.got + s.down + s.chunk + file[s.pos..] == file
    && s.sendRem == |s.chunk| + |file| - s.pos
    && s.recvRem == size - |s.got| && s.recvRem >= 0
    && (s.phase != Sending ==> s.pos == 0 && s.chunk == "" && s.down == "" && s.got == "")
  }

  /** Moving the first bytes of `b` to the end of `a` loses nothing. */
  lemma Moved(a: string, b: string, n: nat, c: string)
    requires n <= |b|
    ensures (a + b[..n]) + b[n..] + c == a + b + c
  {
    assert b[..n] + b[n..] == b;
  }

  lemma MovedBehind(z: string, a: string, b: string, n: nat, c: string)
    requires n <= |b|
    ensures z + (a + b[..n]) + b[n..] + c == z + a + b + c
  {
    assert b[..n] + b[n..] == b;
  }

  lemma RequestStep(s: State, file: string, offer: Request, a: Action, frame: string, size: nat)
    requires Conserved(s, file, frame, size) && Enabled(s, file, a)
    requires a.WriteRequest? || a.ReadRequestBytes? || a.Decide?
    ensures Conserved(Next(s, file, offer, a), file, frame, size)
  {
    hide Accepted;
    match a
    case WriteRequest(n) =>
      MovedBehind(s.frame, s.up, s.request, n, "");
      assert s.frame + (s.up + s.request[..n]) + s.request[n..] + "" == s.frame + (s.up + s.request[..n]) + s.request[n..];
      assert s.frame + s.up + s.request + "" == s.frame + s.up + s.request;
    case ReadRequestBytes(n) => Moved(s.frame, s.up, n, s.request);
    case _ =>
  }

  lemma ReadFileStep(s: State, file: string, offer: Request, frame: string, size: nat)
    requires Conserved(s, file, frame, size) && Enabled(s, file, ReadFile)
    ensures Conserved(Next(s, file, offer, ReadFile), file, frame, size)
  {
    var end := Min(s.pos + Min(s.sendRem, IO_BYTES), |file|);
    assert file[s.pos..] == file[s.pos..end] + file[end..];
    assert s.got + s.down + "" == s.got + s.down;
  }

  /** A read of the file takes the next piece of it, at most 2048 bytes. */
  lemma ChunkIsNextPiece(s: State, file: string, offer: Request, frame: string, size: nat)
    requires Conserved(s, file, frame, size) && Enabled(s, file, ReadFile)
    ensures var t := Next(s, file, offer, ReadFile);
            && |t.chunk| == (if |file| - s.pos < 2048 then |file| - s.pos else 2048)
            && file[s.pos..] == t.chunk + file[t.pos..]
  {
  }

  lemma WriteStep(s: State, file: string, offer: Request, n: nat, frame: string, size: nat)
    requires Conserved(s, file, frame, size) && Enabled(s, file, WriteData(n))
    ensures Conserved(Next(s, file, offer, WriteData(n)), file, frame, size)
  {
    MovedBehind(s.got, s.down, s.chunk, n, file[s.pos..]);
  }

  lemma ReadStep(s: State, file: string, offer: Request, n: nat, frame: string, size: nat)
    requires Conserved(s, file, frame, size) && Enabled(s, file, ReadData(n))
    ensures Conserved(Next(s, file, offer, ReadData(n)), file, frame, size)
  {
    Moved(s.got, s.down, n, s.chunk);
  }

  lemma StepConserves(s: State, file: string, offer: Request, a: Action, frame: string, size: nat)
    requires Conserved(s, file, frame, size) && Enabled(s, file, a)
    ensures Conserved(Next(s, file, offer, a), file, frame, size)
  {
    hide Conserved, Next, Enabled;
    match a
    case ReadFile => ReadFileStep(s, file, offer, frame, size);
    case WriteData(n) => WriteStep(s, file, offer, n, frame, size);
    case ReadData(n) => ReadStep(s, file, offer, n, frame, size);
    case _ => RequestStep(s, file, offer, a, frame, size);
  }

  /** A run: every action is enabled where it is taken. */
  ghost predicate IsRun(s: State, file: string, offer: Request, run: seq<Action>)
    decreases |run|
  {
    run == [] || (Enabled(s, file, run[0]) && IsRun(Next(s, file, offer, run[0]), file, offer, run[1..]))
  }

  ghost function After(s: State, file: string, offer: Request, run: seq<Action>): State
    requires IsRun(s, file, offer, run)
    decreases |run|
  {
    if run == [] then s else After(Next(s, file, offer, run[0]), file, offer, run[1..])
  }

  /** What is still to be done; every action lowers it. */
  function Work(s: State, file: string): int {
    2 * |s.request| + |s.up| + (if s.phase == Requesting then 1 else 0)
    + 3 * (|file| - s.pos) + 2 * |s.chunk| + |s.down|
  }

  lemma StepWorks(s: State, file: string, offer: Request, a: Action, frame: string, size: nat)
    requires Conserved(s, file, frame, size) && Enabled(s, file, a)
    ensures Work(Next(s, file, offer, a), file) < Work(s, file)
  {
  }

  /** Conservation over every interleaving, and a bound on its length. */
  lemma {:induction false} RunConserves(s: State, file: string, offer: Request, run: seq<Action>, frame: string, size: nat)
    requires Conserved(s, file, frame, size) && IsRun(s, file, offer, run)
    ensures Conserved(After(s, file, offer, run), file, frame, size)
    ensures 0 <= Work(After(s, file, offer, run), file) <= Work(s, file) - |run|
    decreases |run|
  {
    if run != [] {
      var s' := Next(s, file, offer, run[0]);
      StepConserves(s, file, offer, run[0], frame, size);
      StepWorks(s, file, offer, run[0], frame, size);
      RunConserves(s', file, offer, run[1..], frame, size);
    }
  }

  /** Over every interleaving of partial writes and reads: bytes moved plus the count is the file
      size on each side, no count goes below zero, and what was received is always a prefix of the
      file. Once the receiver's count is zero it has exactly the announced part of the file. */
  lemma TransferIsFaithful(file: string, offer: Request, size: nat, frame: string, run: seq<Action>)
    requires IsRun(Start(file, frame, size), file, offer, run)
    ensures var s := After(Start(file, frame, size), file, offer, run);
            && |s.got| + s.recvRem == size && s.recvRem >= 0
            && |s.got| + |s.down| + s.sendRem == |file| && s.sendRem >= 0
            && s.got <= file
            && (s.recvRem == 0 ==> size <= |file| && s.got == file[..size])
            && (s.recvRem == 0 && s.sendRem == 0 && s.down == "" <==> s.got == file && size == |file|)
  {
    hide Start, IsRun, After, Conserved;
    var s0 := Start(file, frame, size);
    StartConserves(file, frame, size);
    RunConserves(s0, file, offer, run, frame, size);
    ConservedIsFaithful(After(s0, file, offer, run), file, frame, size);
  }

  lemma StartConserves(file: string, frame: string, size: nat)
    ensures Conserved(Start(file, frame, size), file, frame, size)
    ensures Work(Start(file, frame, size), file) == 2 * |frame| + 1 + 3 * |file|
  {
    assert "" + "" + "" + file[0..] == file;
    assert "" + "" + frame == frame;
  }

  lemma ConservedIsFaithful(s: State, file: string, frame: string, size: nat)
    requires Conserved(s, file, frame, size)
    ensures |s.got| + s.recvRem == size && s.recvRem >= 0
    ensures |s.got| + |s.down| + s.sendRem == |file| && s.sendRem >= 0
    ensures s.got <= file
    ensures s.recvRem == 0 ==> size <= |file| && s.got == file[..size]
    ensures s.recvRem == 0 && s.sendRem == 0 && s.down == "" <==> s.got == file && size == |file|
  {
    var rest := s.down + s.chunk + file[s.pos..];
    assert s.got + rest == file;
  }

  /** A run for a valid request that can go on no further has delivered the whole file, and no run
      is longer than 261 actions and three for each byte. */
  lemma MaximalRunDelivers(file: string, offer: Request, run: seq<Action>)
    requires ValidNick(offer.nick) && ValidFilename(offer.filename) && Frame(offer).Some?
    requires IsRun(Start(file, Frame(offer).value, |file|), file, offer, run)
    requires forall a :: !Enabled(After(Start(file, Frame(offer).value, |file|), file, offer, run), file, a)
    ensures var s := After(Start(file, Frame(offer).value, |file|), file, offer, run);
            s.got == file && s.sendRem == 0 && s.recvRem == 0
    ensures |run| <= 261 + 3 * |file|
  {
    hide Next, Enabled, IsRun, After, Conserved, Work, Accepted, ValidNick, ValidFilename;
    var frame := Frame(offer).value;
    var s0 := Start(file, frame, |file|);
    StartConserves(file, frame, |file|);
    RunConserves(s0, file, offer, run, frame, |file|);
    FrameRoundTrip(offer);
    DecidedForOffer(s0, file, offer, run, frame, |file|);
    StuckIsDone(After(s0, file, offer, run), file, frame);
  }

  /** The request, once decided upon, was accepted. */
  lemma {:induction false} DecidedForOffer(s: State, file: string, offer: Request, run: seq<Action>, frame: string, size: nat)
    requires Conserved(s, file, frame, size) && IsRun(s, file, offer, run)
    requires |frame| == REQ_SIZE && Accepted(frame) == Some(offer) && s.phase != Refused
    ensures After(s, file, offer, run).phase != Refused
    decreases |run|
  {
    hide Accepted;
    if run != [] {
      StepConserves(s, file, offer, run[0], frame, size);
      if run[0] == Decide {
        assert s.frame == frame;
      }
      DecidedForOffer(Next(s, file, offer, run[0]), file, offer, run[1..], frame, size);
    }
  }

  lemma StuckIsDone(s: State, file: string, frame: string)
    requires Conserved(s, file, frame, |file|) && |frame| == REQ_SIZE && s.phase != Refused
    requires forall a :: !Enabled(s, file, a)
    ensures s.got == file && s.sendRem == 0 && s.recvRem == 0
  {
    assert !Enabled(s, file, WriteRequest(1)) && !Enabled(s, file, ReadRequestBytes(1));
    assert !Enabled(s, file, Decide) && !Enabled(s, file, ReadFile);
    assert !Enabled(s, file, WriteData(1)) && !Enabled(s, file, ReadData(1));
    assert s.phase == Sending;
    assert s.chunk == "" && s.pos == |file|;
    assert s.down == "";
    assert s.got + "" + "" + "" == s.got;
  }

  // ----- The loops are runs -----

  lemma {:induction false} RunOfMore(s: State, file: string, offer: Request, a: seq<Action>, b: seq<Action>)
    requires IsRun(s, file, offer, a) && IsRun(After(s, file, offer, a), file, offer, b)
    ensures IsRun(s, file, offer, a + b)
    ensures After(s, file, offer, a + b) == After(After(s, file, offer, a), file, offer, b)
    decreases |a|
  {
    hide Next, Enabled;
    if a == [] {
      assert a + b == b;
    } else {
      assert (a + b)[0] == a[0] && (a + b)[1..] == a[1..] + b;
      RunOfMore(Next(s, file, offer, a[0]), file, offer, a[1..], b);
    }
  }

  lemma RunFrom(s: State, file: string, offer: Request, a: Action, b: seq<Action>)
    requires Enabled(s, file, a) && IsRun(Next(s, file, offer, a), file, offer, b)
    ensures IsRun(s, file, offer, [a] + b)
    ensures After(s, file, offer, [a] + b) == After(Next(s, file, offer, a), file, offer, b)
  {
    hide Enabled, Next;
    assert ([a] + b)[1..] == b;
  }

  ghost function RequestWrites(sizes: seq<nat>): seq<Action> {
    if sizes == [] then [] else [WriteRequest(sizes[0])] + RequestWrites(sizes[1..])
  }

  ghost function RequestReads(sizes: seq<nat>): seq<Action> {
    if sizes == [] then [] else [ReadRequestBytes(sizes[0])] + RequestReads(sizes[1..])
  }

  ghost function Writes(sizes: seq<nat>): seq<Action> {
    if sizes == [] then [] else [WriteData(sizes[0])] + Writes(sizes[1..])
  }

  lemma TakenTwice(a: string, b: string, m: nat, n: nat)
    requires m + n <= |b|
    ensures (a + b[..m]) + b[m..][..n] == a + b[..m + n]
    ensures b[m..][n..] == b[m + n..]
  {
    assert b[..m] + b[m..][..n] == b[..m + n];
  }

  /** The partial writes of request_file, whatever their sizes, are a run. */
  lemma {:induction false} RequestWritesAreRun(s: State, file: string, offer: Request, sizes: seq<nat>)
    requires Moves(sizes) && Total(sizes) <= |s.request|
    ensures IsRun(s, file, offer, RequestWrites(sizes))
    ensures After(s, file, offer, RequestWrites(sizes)) ==
            s.(request := s.request[Total(sizes)..], up := s.up + s.request[..Total(sizes)])
    decreases |sizes|
  {
    if sizes == [] {
      assert s.up + [] == s.up;
    } else {
      TakenTwice(s.up, s.request, sizes[0], Total(sizes[1..]));
      RequestWritesAreRun(Next(s, file, offer, WriteRequest(sizes[0])), file, offer, sizes[1..]);
      RunFrom(s, file, offer, WriteRequest(sizes[0]), RequestWrites(sizes[1..]));
    }
  }

  /** So are the partial reads of read_request. */
  lemma {:induction false} RequestReadsAreRun(s: State, file: string, offer: Request, sizes: seq<nat>)
    requires Moves(sizes) && Total(sizes) <= |s.up| && s.phase == Requesting && |s.frame| + Total(sizes) <= REQ_SIZE
    ensures IsRun(s, file, offer, RequestReads(sizes))
    ensures After(s, file, offer, RequestReads(sizes)) ==
            s.(frame := s.frame + s.up[..Total(sizes)], up := s.up[Total(sizes)..])
    decreases |sizes|
  {
    if sizes == [] {
      assert s.frame + [] == s.frame;
    } else {
      TakenTwice(s.frame, s.up, sizes[0], Total(sizes[1..]));
      RequestReadsAreRun(Next(s, file, offer, ReadRequestBytes(sizes[0])), file, offer, sizes[1..]);
      RunFrom(s, file, offer, ReadRequestBytes(sizes[0]), RequestReads(sizes[1..]));
    }
  }

  /** So are the partial writes of send_bytes. */
  lemma {:induction false} WritesAreRun(s: State, file: string, offer: Request, sizes: seq<nat>)
    requires Moves(sizes) && Total(sizes) <= |s.chunk| && s.phase == Sending
    ensures IsRun(s, file, offer, Writes(sizes))
    ensures After(s, file, offer, Writes(sizes)) ==
            s.(chunk := s.chunk[Total(sizes)..], down := s.down + s.chunk[..Total(sizes)], sendRem := s.sendRem - Total(sizes))
    decreases |sizes|
  {
    if sizes == [] {
      assert s.down + [] == s.down;
    } else {
      TakenTwice(s.down, s.chunk, sizes[0], Total(sizes[1..]));
      WritesAreRun(Next(s, file, offer, WriteData(sizes[0])), file, offer, sizes[1..]);
      RunFrom(s, file, offer, WriteData(sizes[0]), Writes(sizes[1..]));
    }
  }

  // ----- send_bytes, send_doit, read_and_write -----

  /** send_bytes: the count goes down by what was written, also when the call fails. */
  method SendBytes(ssl: Ssl, buf: string, bytesRem: nat) returns (ok: bool, bytesRem': nat, ghost sizes: seq<nat>)
    requires |buf| <= bytesRem
    modifies ssl
    ensures Sent(ok, buf, old(ssl.written), ssl.written, |buf| - (bytesRem - bytesRem'))
    ensures Moves(sizes) && Total(sizes) == bytesRem - bytesRem'
    ensures !ok ==> GaveOut(ssl)
    ensures forall i :: 0 <= i < |ssl.events| ==> ssl.events[i] in old(ssl.events)
  {
    var left;
    ok, left, sizes := WriteAll(ssl, buf);
    bytesRem' := bytesRem - (|buf| - left);
  }

  /** The sender where it has sent `sent` bytes and holds no chunk. */
  ghost predicate Between(s: State, sent: nat, rem: nat) {
    s.phase == Sending && s.chunk == "" && s.pos == sent && s.sendRem == rem
  }

  /** What the sender did from `s` to `t`: bytes of the file, from `sent` to `sent'`, went out. */
  ghost predicate Delivered(s: State, t: State, file: string, sent: nat, sent': nat, rem: nat) {
    && sent <= sent' <= |file| && t.down == s.down + file[sent..sent'] && t.sendRem == rem
    && t == s.(pos := t.pos, chunk := t.chunk, down := t.down, sendRem := t.sendRem)
  }

  /** What one round of send_doit does: the read of a piece, and writes from it. */
  lemma ChunkIsRun(s: State, file: string, offer: Request, pos: nat, rem: nat, sizes: seq<nat>)
    requires rem > 0 && pos < |file| && Between(s, pos, rem)
    requires Moves(sizes) && pos + Total(sizes) <= Min(pos + Min(rem, IO_BYTES), |file|)
    ensures IsRun(s, file, offer, [ReadFile] + Writes(sizes))
    ensures var t, k := After(s, file, offer, [ReadFile] + Writes(sizes)), Total(sizes);
            && Delivered(s, t, file, pos, pos + k, rem - k)
            && (pos + k == Min(pos + Min(rem, IO_BYTES), |file|) ==> Between(t, pos + k, rem - k))
  {
    hide IsRun, After, Writes;
    var end := Min(pos + Min(rem, IO_BYTES), |file|);
    WritesAreRun(Next(s, file, offer, ReadFile), file, offer, sizes);
    RunFrom(s, file, offer, ReadFile, Writes(sizes));
    assert file[pos..end][..Total(sizes)] == file[pos..pos + Total(sizes)];
  }

  /** One round of send_doit: the next piece of the file through send_bytes. */
  method SendChunk(ssl: Ssl, file: string, pos: nat, bytesRem: nat, ghost s: State, ghost offer: Request)
    returns (ok: bool, bytesRem': nat, ghost run: seq<Action>)
    requires bytesRem > 0 && pos < |file| && Between(s, pos, bytesRem)
    modifies ssl
    ensures bytesRem' <= bytesRem && (ok ==> bytesRem' < bytesRem) && pos + (bytesRem - bytesRem') <= |file|
    ensures ssl.written == old(ssl.written) + file[pos..pos + (bytesRem - bytesRem')]
    ensures !ok ==> GaveOut(ssl)
    ensures forall i :: 0 <= i < |ssl.events| ==> ssl.events[i] in old(ssl.events)
    ensures IsRun(s, file, offer, run)
    ensures var t := After(s, file, offer, run);
            && Delivered(s, t, file, pos, pos + (bytesRem - bytesRem'), bytesRem')
            && (ok ==> Between(t, pos + (bytesRem - bytesRem'), bytesRem'))
  {
    hide IsRun, After, Between, Delivered, Writes;
    var bytes := if bytesRem < IO_BYTES then bytesRem else IO_BYTES;
    var end := if pos + bytes <= |file| then pos + bytes else |file|;
    ghost var sizes;
    ok, bytesRem', sizes := SendBytes(ssl, file[pos..end], bytesRem);
    run := [ReadFile] + Writes(sizes);
    ChunkIsRun(s, file, offer, pos, bytesRem, sizes);
    assert file[pos..end][..Total(sizes)] == file[pos..pos + Total(sizes)];
  }

  /** send_doit from the start of the file: whatever happens, what was written is a prefix of the
      file, and that many bytes are off the count. The count reaches zero unless the connection
      gives out, the file is shorter than the count said, or the server stops accepting, which
      `accepting` says for each round. What it does is a run. */
  method SendDoit(ssl: Ssl, file: string, bytesRem: nat, accepting: nat -> bool, ghost s: State, ghost offer: Request)
    returns (bytesRem': nat, ghost run: seq<Action>)
    requires Between(s, 0, bytesRem)
    modifies ssl
    ensures bytesRem' <= bytesRem && bytesRem - bytesRem' <= |file|
    ensures ssl.written == old(ssl.written) + file[..bytesRem - bytesRem']
    ensures bytesRem' > 0 ==> GaveOut(ssl) || |file| < bytesRem || exists round :: !accepting(round)
    ensures IsRun(s, file, offer, run)
    ensures Delivered(s, After(s, file, offer, run), file, 0, bytesRem - bytesRem', bytesRem')
  {
    hide IsRun, After;
    RunOfNothing(s, file, offer);
    var pos, round := 0, 0;
    bytesRem', run := bytesRem, [];
    ghost var t := s;
    assert file[..0] == "" && ssl.written + "" == ssl.written && s.down + "" == s.down;
    while accepting(round) && bytesRem' > 0
      invariant round >= 0 && bytesRem' <= bytesRem && pos == bytesRem - bytesRem' <= |file|
      invariant ssl.written == old(ssl.written) + file[..pos]
      invariant forall i :: 0 <= i < |ssl.events| ==> ssl.events[i] in old(ssl.events)
      invariant IsRun(s, file, offer, run) && After(s, file, offer, run) == t
      invariant Between(t, pos, bytesRem') && Delivered(s, t, file, 0, pos, bytesRem')
      decreases bytesRem'
    {
      if pos == |file| {
        break;
      }
      ghost var more;
      var ok, rem;
      ok, rem, more := SendChunk(ssl, file, pos, bytesRem', t, offer);
      RunOfMore(s, file, offer, run, more);
      Further(file, pos, pos + (bytesRem' - rem), old(ssl.written));
      Further(file, pos, pos + (bytesRem' - rem), s.down);
      run, t, round := run + more, After(t, file, offer, more), round + 1;
      pos := pos + (bytesRem' - rem);
      bytesRem' := rem;
      if !ok {
        break;
      }
    }
  }

  lemma RunOfNothing(s: State, file: string, offer: Request)
    ensures IsRun(s, file, offer, []) && After(s, file, offer, []) == s
  {
  }

  lemma Further(file: string, i: nat, j: nat, before: string)
    requires i <= j <= |file|
    ensures before + file[..i] + file[i..j] == before + file[..j]
    ensures before + file[0..i] + file[i..j] == before + file[0..j]
  {
    assert file[..i] + file[i..j] == file[..j] && file[0..i] == file[..i] && file[0..j] == file[..j];
  }

  /** read_and_write: what was read is appended to the file and taken off the count, which never
      goes below zero; nothing behind the announced size is taken off the connection. What it does
      is a run. */
  method ReadAndWrite(ssl: Ssl, bytesRem: nat, ghost s: State, ghost sent: string, ghost offer: Request)
    returns (file: string, bytesRem': nat, ghost run: seq<Action>)
    requires s.request == "" && s.down == ssl.incoming && s.recvRem == bytesRem
    modifies ssl
    ensures |file| + bytesRem' == bytesRem && file + ssl.incoming == old(ssl.incoming)
    ensures bytesRem' > 0 ==> GaveOut(ssl)
    ensures IsRun(s, sent, offer, run)
    ensures After(s, sent, offer, run) == s.(down := ssl.incoming, got := s.got + file, recvRem := bytesRem')
  {
    hide IsRun, After;
    RunOfNothing(s, sent, offer);
    file, bytesRem', run := "", bytesRem, [];
    assert s.got + "" == s.got;
    while bytesRem' > 0 && ssl.events != []
      invariant |file| + bytesRem' == bytesRem && file + ssl.incoming == old(ssl.incoming)
      invariant forall i :: 0 <= i < |ssl.events| ==> ssl.events[i] in old(ssl.events)
      invariant IsRun(s, sent, offer, run)
      invariant After(s, sent, offer, run) == s.(down := ssl.incoming, got := s.got + file, recvRem := bytesRem')
      decreases |ssl.events|
    {
      ghost var t := After(s, sent, offer, run);
      var data, again := ssl.Read(if bytesRem' < IO_BYTES then bytesRem' else IO_BYTES);
      if data != "" {
        ReadOnce(t, sent, offer, data, ssl.incoming);
        RunOfMore(s, sent, offer, run, [ReadData(|data|)]);
        assert s.got + file + data == s.got + (file + data);
        run := run + [ReadData(|data|)];
        file := file + data;
        bytesRem' := bytesRem' - |data|;
      } else if !again {
        return;
      }
    }
  }

  lemma ReadOnce(s: State, file: string, offer: Request, data: string, behind: string)
    requires s.request == "" && s.down == data + behind && 1 <= |data| <= s.recvRem && |data| <= IO_BYTES
    ensures IsRun(s, file, offer, [ReadData(|data|)])
    ensures After(s, file, offer, [ReadData(|data|)]) ==
            s.(down := behind, got := s.got + data, recvRem := s.recvRem - |data|)
  {
    assert s.down[..|data|] == data && s.down[|data|..] == behind;
  }
}
