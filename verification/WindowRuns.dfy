/** Opening, closing and changing windows as one state machine (src/window.c), and what it keeps
    over every run. */
module WindowRuns {
  import opened WindowModel

  // ----- window_by_refnum -----

  datatype Place = Nowhere | Place(b: nat, i: nat)

  function InRow(s: seq<Win>, r: int, i: nat): (k: nat)
    requires i <= |s|
    ensures i <= k <= |s| && (k < |s| ==> s[k].refnum == r)
    ensures forall j :: i <= j < k ==> s[j].refnum != r
    decreases |s| - i
  {
    if i == |s| || s[i].refnum == r then i else InRow(s, r, i + 1)
  }

  function ByRefnum(t: Table, r: int, b: nat): (p: Place)
    requires b <= |t|
    ensures p.Place? ==> Has(t, p.b, p.i) && t[p.b][p.i].refnum == r
    decreases |t| - b
  {
    if b == |t| then Nowhere
    else
      var k := InRow(t[b], r, 0);
      if k < |t[b]| then Place(b, k) else ByRefnum(t, r, b + 1)
  }

  lemma {:induction false} ByRefnumFinds(t: Table, r: int, from: nat, b: nat, i: nat)
    requires from <= b && Has(t, b, i) && t[b][i].refnum == r
    ensures ByRefnum(t, r, from).Place?
    decreases |t| - from
  {
    if from < b {
      ByRefnumFinds(t, r, from + 1, b, i);
    }
  }

  /** window_by_refnum finds a window exactly for 1..n, and the only one with that number. */
  lemma RefnumsResolve(t: Table, n: nat, r: int)
    requires Invariant(t, n)
    ensures ByRefnum(t, r, 0).Place? <==> 1 <= r <= n
    ensures forall b, i :: Has(t, b, i) && t[b][i].refnum == r ==> ByRefnum(t, r, 0) == Place(b, i)
  {
    if 1 <= r <= n {
      assert Numbered(t, r);
      var b, i :| Has(t, b, i) && t[b][i].refnum == r;
      ByRefnumFinds(t, r, 0, b, i);
    }
  }

  // ----- The operations -----

  /** The table, g_ntotal_windows, and the label of the active window. */
  datatype State = State(table: Table, ntotal: nat, active: string)

  ghost predicate Present(t: Table, name: string) {
    exists b, i :: Has(t, b, i) && t[b][i].name == name
  }

  ghost predicate Good(s: State) {
    && Invariant(s.table, s.ntotal)
    && 1 <= s.ntotal <= BUCKETS
    && Present(s.table, s.active)
  }

  /** config_integer clamps max_chat_windows to these limits. */
  predicate Limit(limit: int) {
    10 <= limit <= 800
  }

  function Spawn(s: State, name: string, limit: int): (State, Errno)
    requires |s.table| == BUCKETS
  {
    if name == "" then (s, EINVAL)
    else if Known(s.table, name) then (s, Ok)
    else if s.ntotal + 1 > limit then (s, ENOSPC)
    else (State(Install(s.table, Win(name, s.ntotal + 1)), s.ntotal + 1, name), Ok)
  }

  function ChangeByRefnum(s: State, r: int): (State, Errno)
    requires |s.table| == BUCKETS
  {
    var p := ByRefnum(s.table, r, 0);
    if r < 1 || r > s.ntotal || p.Nowhere? then (s, ENOENT)
    else (s.(active := s.table[p.b][p.i].name), Ok)
  }

  function ChangeByLabel(s: State, name: string): (State, Errno)
    requires |s.table| == BUCKETS
  {
    if !Known(s.table, name) then (s, ENOENT)
    else (s.(active := s.table[Hash(name)][Lookup(s.table, name)].name), Ok)
  }

  function Destroy(s: State, name: string): (State, Errno)
    requires |s.table| == BUCKETS
  {
    if name == "" || IsStatus(name) then (s, EINVAL)
    else if !Known(s.table, name) then (s, ENOENT)
    else
      var u := Renumber(Undef(s.table, name));
      var n := if s.ntotal == 0 then 0 else s.ntotal - 1;
      (ChangeByRefnum(State(u, n, s.active), n).0, Ok)
  }

  datatype Op =
    | OpSpawn(name: string, limit: int)
    | OpDestroy(name: string)
    | OpChangeLabel(name: string)
    | OpChangeRefnum(refnum: int)

  function Step(s: State, op: Op): (r: (State, Errno))
    requires |s.table| == BUCKETS
    ensures |r.0.table| == BUCKETS
  {
    match op
    case OpSpawn(name, limit) => Spawn(s, name, limit)
    case OpDestroy(name) => Destroy(s, name)
    case OpChangeLabel(name) => ChangeByLabel(s, name)
    case OpChangeRefnum(r) => ChangeByRefnum(s, r)
  }

  ghost predicate Configured(op: Op) {
    op.OpSpawn? ==> Limit(op.limit)
  }

  // ----- A set of labels: what the table is for -----

  /** The labels, in lower case, that have a window. */
  ghost function Names(t: Table): (names: set<string>)
    ensures forall b, i :: Has(t, b, i) ==> Lower(t[b][i].name) in names
    ensures forall x :: x in names ==> exists b, i :: Has(t, b, i) && Lower(t[b][i].name) == x
  {
    set b, i | 0 <= b < |t| && 0 <= i < |t[b]| :: Lower(t[b][i].name)
  }

  /** What a step returns and does to a plain set of labels. */
  ghost function StepNames(names: set<string>, op: Op): (set<string>, Errno) {
    match op
    case OpSpawn(name, limit) =>
      if name == "" then (names, EINVAL)
      else if Lower(name) in names then (names, Ok)
      else if |names| + 1 > limit then (names, ENOSPC)
      else (names + {Lower(name)}, Ok)
    case OpDestroy(name) =>
      if name == "" || IsStatus(name) then (names, EINVAL)
      else if Lower(name) in names then (names - {Lower(name)}, Ok)
      else (names, ENOENT)
    case OpChangeLabel(name) => (names, if name != "" && Lower(name) in names then Ok else ENOENT)
    case OpChangeRefnum(r) => (names, if 1 <= r <= |names| then Ok else ENOENT)
  }

  lemma KnownIsMember(t: Table, name: string)
    requires Placed(t) && name != ""
    ensures Known(t, name) <==> Lower(name) in Names(t)
  {
    LookupIsComplete(t, name);
  }

  lemma InstallNames(t: Table, w: Win)
    requires |t| == BUCKETS
    ensures Names(Install(t, w)) == Names(t) + {Lower(w.name)}
  {
    InstalledPlaces(t, w);
    var u := Install(t, w);
    forall x ensures x in Names(u) <==> x in Names(t) + {Lower(w.name)} {
      if x in Names(t) {
        var b, i :| Has(t, b, i) && Lower(t[b][i].name) == x;
        assert Has(u, b, if b == Hash(w.name) then i + 1 else i);
      }
      if x == Lower(w.name) {
        assert Has(u, Hash(w.name), 0);
      }
    }
  }

  lemma UndefNames(t: Table, name: string)
    requires Placed(t) && Known(t, name)
    ensures Names(Undef(t, name)) == Names(t) - {Lower(name)}
  {
    var u := Undef(t, name);
    var h, k := Hash(name), Lookup(t, name);
    UndefPlaced(t, name);
    KnownIsMember(u, name);
    forall x ensures x in Names(u) <==> x in Names(t) - {Lower(name)} {
      if x in Names(t) && x != Lower(name) {
        var b, i :| Has(t, b, i) && Lower(t[b][i].name) == x;
        UndefPlaces(t, name, b, i);
      }
      if x in Names(u) {
        var b, i :| Has(u, b, i) && Lower(u[b][i].name) == x;
        assert Has(t, b, if b == h && i >= k then i + 1 else i);
      }
    }
  }

  lemma RenumberNames(t: Table)
    ensures Names(Renumber(t)) == Names(t)
  {
    var u := Renumber(t);
    forall b, i ensures Has(u, b, i) <==> Has(t, b, i) {
    }
    forall x ensures x in Names(u) <==> x in Names(t) {
      if x in Names(t) {
        var b, i :| Has(t, b, i) && Lower(t[b][i].name) == x;
        assert Has(u, b, i) && u[b][i].name == t[b][i].name;
      }
      if x in Names(u) {
        var b, i :| Has(u, b, i) && Lower(u[b][i].name) == x;
        assert Has(t, b, i) && u[b][i].name == t[b][i].name;
      }
    }
  }

  // ----- One step -----

  /** A step does to the labels what it does to a set of labels. */
  ghost predicate Refines(s: State, op: Op)
    requires |s.table| == BUCKETS
  {
    var r := Step(s, op);
    (Names(r.0.table), r.1) == StepNames(Names(s.table), op) && r.0.ntotal == |Names(r.0.table)|
  }

  lemma SpawnNames(s: State, op: Op)
    requires Placed(s.table) && s.ntotal == |Names(s.table)| && op.OpSpawn?
    ensures Refines(s, op)
  {
    hide Hash, IsStatus, Lookup, InBucket, Install;
    if op.name != "" {
      KnownIsMember(s.table, op.name);
      InstallNames(s.table, Win(op.name, s.ntotal + 1));
    }
  }

  lemma StatusIsKnown(t: Table, name: string)
    requires Placed(t) && StatusFirst(t) && Numbered(t, 1) && name != "" && IsStatus(name)
    ensures Known(t, name)
  {
    LookupIsComplete(t, name);
  }

  /** Opening a window reuses the one whose label differs in case only; otherwise there is a new one
      that bears the label as it was given, unless the limit is reached. */
  lemma SpawnIgnoresCase(s: State, name: string, limit: int)
    requires Placed(s.table) && name != ""
    ensures Labelled(s.table, name) ==> Spawn(s, name, limit) == (s, Ok)
    ensures !Labelled(s.table, name) && s.ntotal + 1 > limit ==> Spawn(s, name, limit) == (s, ENOSPC)
    ensures !Labelled(s.table, name) && s.ntotal + 1 <= limit ==>
              var (r, error) := Spawn(s, name, limit);
              && error == Ok && r.ntotal == s.ntotal + 1 && r.active == name && Labelled(r.table, name)
              && exists b, i :: Has(r.table, b, i) && r.table[b][i] == Win(name, s.ntotal + 1)
  {
    LookupIsComplete(s.table, name);
    if !Labelled(s.table, name) && s.ntotal + 1 <= limit {
      var r := Spawn(s, name, limit).0;
      assert Has(r.table, Hash(name), 0) && r.table[Hash(name)][0] == Win(name, s.ntotal + 1);
      assert LabelsAlike(name, name);
    }
  }

  /** The new window is in front of its bucket, so that a search by its label stops at once. */
  lemma InstalledIsFound(s: State, w: Win)
    requires |s.table| == BUCKETS && w.name != ""
    ensures ChangeByLabel(s.(table := Install(s.table, w)), w.name) ==
            (State(Install(s.table, w), s.ntotal, w.name), Ok)
  {
  }

  /** Opening changes no window that is there: each keeps its label and its number. */
  lemma SpawnKeepsWindows(s: State, name: string, limit: int, b: int, i: int)
    requires |s.table| == BUCKETS && Has(s.table, b, i)
    ensures exists c, j :: Has(Spawn(s, name, limit).0.table, c, j) &&
                           Spawn(s, name, limit).0.table[c][j] == s.table[b][i]
  {
    hide Hash, Known;
    var r := Spawn(s, name, limit).0;
    if r.table == s.table {
      assert Has(r.table, b, i);
    } else {
      var j := if b == Hash(name) then i + 1 else i;
      assert Has(r.table, b, j) && r.table[b][j] == s.table[b][i];
    }
  }

  /** Changing by label makes the window active whose label is alike; without one nothing happens. */
  lemma LabelIsActivated(s: State, name: string)
    requires Placed(s.table)
    ensures var (r, error) := ChangeByLabel(s, name);
            && (Labelled(s.table, name) ==>
                  error == Ok && r == s.(active := r.active) && LabelsAlike(name, r.active) && Present(r.table, r.active))
            && (!Labelled(s.table, name) ==> r == s && error == ENOENT)
  {
    hide Hash, InBucket;
    LookupIsComplete(s.table, name);
    if Labelled(s.table, name) {
      var b, k := Hash(name), Lookup(s.table, name);
      SameIsAlike(s.table[b][k].name, name);
      AlikeIsSymmetric(s.table[b][k].name, name);
      assert Has(s.table, b, k);
    }
  }

  lemma AlikeIsSymmetric(a: string, b: string)
    ensures LabelsAlike(a, b) <==> LabelsAlike(b, a)
  {
  }

  /** Changing by number makes the window active that has this number. */
  lemma NumberIsActivated(s: State, r: int)
    requires Invariant(s.table, s.ntotal)
    ensures var (t, error) := ChangeByRefnum(s, r);
            && (1 <= r <= s.ntotal ==>
                  && error == Ok && t == s.(active := t.active)
                  && exists b, i :: Has(t.table, b, i) && t.table[b][i] == Win(t.active, r))
            && (!(1 <= r <= s.ntotal) ==> t == s && error == ENOENT)
  {
    hide IsStatus, InBucket, Hash;
    RefnumsResolve(s.table, s.ntotal, r);
    if 1 <= r <= s.ntotal {
      var p := ByRefnum(s.table, r, 0);
      assert Has(s.table, p.b, p.i) && s.table[p.b][p.i].refnum == r;
    }
  }

  lemma SpawnGood(s: State, name: string, limit: int)
    requires Good(s) && Limit(limit)
    ensures Good(Spawn(s, name, limit).0)
  {
    if name != "" && !Known(s.table, name) && s.ntotal + 1 <= limit {
      if IsStatus(name) {
        StatusIsKnown(s.table, name);
      }
      InstallKeeps(s.table, s.ntotal, name);
      InstalledPlaces(s.table, Win(name, s.ntotal + 1));
    }
  }

  lemma DestroyNames(s: State, op: Op)
    requires Placed(s.table) && s.ntotal == |Names(s.table)| && op.OpDestroy?
    ensures Refines(s, op)
  {
    hide Hash, IsStatus, Lookup, InBucket, Undef, Renumber, ByRefnum;
    if op.name != "" {
      KnownIsMember(s.table, op.name);
      if Known(s.table, op.name) {
        UndefNames(s.table, op.name);
        RenumberNames(Undef(s.table, op.name));
      }
    }
  }

  lemma UndefStatusNumbered(t: Table, name: string)
    requires |t| == BUCKETS && StatusFirst(t) && Known(t, name)
    ensures StatusNumbered(Undef(t, name))
  {
    var u := Undef(t, name);
    forall b, i | Has(u, b, i) && IsStatus(u[b][i].name) ensures u[b][i].refnum == 1 {
      assert Has(t, b, if b == Hash(name) && i >= Lookup(t, name) then i + 1 else i);
    }
  }

  lemma UndefInvariant(t: Table, n: nat, name: string)
    requires Invariant(t, n) && n > 0 && Known(t, name) && !IsStatus(name)
    ensures n > 1 && Invariant(Renumber(Undef(t, name)), n - 1)
    ensures |Undef(t, name)| == |t| && ChatsIn(Undef(t, name), |t|) + 1 == n - 1
  {
    hide InBucket, Renumber, Undef, IsStatus, Hash, Lookup;
    UndefPlaced(t, name);
    UndefChats(t, name);
    UndefKeepsStatus(t, name);
    UndefStatusNumbered(t, name);
    RenumberRestores(Undef(t, name));
  }

  function NameAt(t: Table, p: Place): string
    requires p.Place? && p.b < |t| && p.i < |t[p.b]|
  {
    t[p.b][p.i].name
  }

  /** Changing to the last window, as every close does. */
  lemma ChangeToLast(s: State)
    requires Invariant(s.table, s.ntotal) && 1 <= s.ntotal <= BUCKETS
    ensures Good(ChangeByRefnum(s, s.ntotal).0)
    ensures var p := ByRefnum(s.table, s.ntotal, 0);
            p.Place? && ChangeByRefnum(s, s.ntotal).0 == s.(active := NameAt(s.table, p))
  {
    RefnumsResolve(s.table, s.ntotal, s.ntotal);
  }

  lemma DestroyGood(s: State, name: string)
    requires Good(s)
    ensures Good(Destroy(s, name).0)
  {
    hide Dense, StatusFirst, Undef, Renumber, ByRefnum, Hash, IsStatus;
    if name != "" && !IsStatus(name) && Known(s.table, name) {
      UndefInvariant(s.table, s.ntotal, name);
      ChangeToLast(State(Renumber(Undef(s.table, name)), s.ntotal - 1, s.active));
    }
  }

  /** After closing a window that exists, the active window is the one with the last number,
      whichever was active before. */
  lemma DestroyActivatesLast(s: State, name: string)
    requires Good(s) && name != "" && !IsStatus(name) && Known(s.table, name)
    ensures var r := Destroy(s, name).0;
            var p := ByRefnum(r.table, r.ntotal, 0);
            p.Place? && r.active == NameAt(r.table, p)
  {
    hide Dense, StatusFirst, Undef, Renumber, ByRefnum, Hash, IsStatus;
    UndefInvariant(s.table, s.ntotal, name);
    ChangeToLast(State(Renumber(Undef(s.table, name)), s.ntotal - 1, s.active));
  }

  /** After closing a window, the chats have their numbers in the order of the table. */
  lemma DestroyNumbersInOrder(s: State, name: string, b: int, i: int, c: int, j: int)
    requires Good(s) && name != "" && !IsStatus(name) && Known(s.table, name)
    requires var t := Destroy(s, name).0.table;
             && Has(t, b, i) && Has(t, c, j) && (b < c || (b == c && i < j))
             && !IsStatus(t[b][i].name) && !IsStatus(t[c][j].name)
    ensures var t := Destroy(s, name).0.table; t[b][i].refnum < t[c][j].refnum
  {
    hide IsStatus, Hash, ByRefnum, Dense, StatusFirst;
    var u := Undef(s.table, name);
    assert Destroy(s, name).0.table == Renumber(u);
    NewRefnumsAscend(u, b, i, c, j);
  }

  lemma ChangeLabel(s: State, op: Op)
    requires Good(s) && s.ntotal == |Names(s.table)| && op.OpChangeLabel?
    ensures Good(Step(s, op).0) && Refines(s, op)
  {
    if op.name != "" {
      KnownIsMember(s.table, op.name);
    }
    if Known(s.table, op.name) {
      assert Has(s.table, Hash(op.name), Lookup(s.table, op.name));
    }
  }

  lemma ChangeRefnum(s: State, op: Op)
    requires Good(s) && s.ntotal == |Names(s.table)| && op.OpChangeRefnum?
    ensures Good(Step(s, op).0) && Refines(s, op)
  {
    hide IsStatus, InBucket, Hash;
    RefnumsResolve(s.table, s.ntotal, op.refnum);
  }

  lemma StepKeepsGood(s: State, op: Op)
    requires Good(s) && s.ntotal == |Names(s.table)| && Configured(op)
    ensures Good(Step(s, op).0) && Refines(s, op)
  {
    match op
    case OpSpawn(name, limit) =>
      SpawnGood(s, name, limit);
      SpawnNames(s, op);
    case OpDestroy(name) =>
      DestroyGood(s, name);
      DestroyNames(s, op);
    case OpChangeLabel(_) => ChangeLabel(s, op);
    case OpChangeRefnum(_) => ChangeRefnum(s, op);
  }

  // ----- Every run -----

  function Run(s: State, ops: seq<Op>, n: nat): (r: State)
    requires |s.table| == BUCKETS && n <= |ops|
    ensures |r.table| == BUCKETS
  {
    if n == 0 then s else Step(Run(s, ops, n - 1), ops[n - 1]).0
  }

  ghost function RunNames(names: set<string>, ops: seq<Op>, n: nat): set<string>
    requires n <= |ops|
  {
    if n == 0 then names else StepNames(RunNames(names, ops, n - 1), ops[n - 1]).0
  }

  /** The state that windowSystem_init leaves. */
  function Initial(): State {
    State(seq(BUCKETS, b => if b == Hash(STATUS_LABEL) then [Win(STATUS_LABEL, 1)] else []), 1, STATUS_LABEL)
  }

  const NONE: Table := seq(BUCKETS, b => [])

  lemma EmptyInvariant()
    ensures Invariant(NONE, 0) && !Known(NONE, STATUS_LABEL)
  {
    hide Hash, IsStatus;
    forall b, i ensures !Has(NONE, b, i) {
    }
    NoChats(NONE, BUCKETS);
  }

  lemma InitialIsInstalled()
    ensures Initial().table == Install(NONE, Win(STATUS_LABEL, 1))
  {
    hide Hash;
    assert [Win(STATUS_LABEL, 1)] + [] == [Win(STATUS_LABEL, 1)];
  }

  lemma InitialIsGood()
    ensures Good(Initial()) && Names(Initial().table) == {Lower(STATUS_LABEL)}
  {
    hide Dense, StatusFirst, Hash;
    EmptyInvariant();
    InitialIsInstalled();
    InstallKeeps(NONE, 0, STATUS_LABEL);
    InstallNames(NONE, Win(STATUS_LABEL, 1));
    InstalledPlaces(NONE, Win(STATUS_LABEL, 1));
  }

  lemma {:induction false} NoChats(t: Table, b: nat)
    requires b <= |t| && forall c :: 0 <= c < |t| ==> t[c] == []
    ensures ChatsIn(t, b) == 0
  {
    if b > 0 {
      NoChats(t, b - 1);
    }
  }

  lemma {:induction false} RunKeepsGood(s: State, ops: seq<Op>, n: nat)
    requires n <= |ops| && forall k :: 0 <= k < |ops| ==> Configured(ops[k])
    requires Good(s) && s.ntotal == |Names(s.table)|
    ensures Good(Run(s, ops, n)) && Run(s, ops, n).ntotal == |Names(Run(s, ops, n).table)|
    ensures Names(Run(s, ops, n).table) == RunNames(Names(s.table), ops, n)
    decreases n
  {
    hide Dense, InBucket, StatusFirst, Spawn, Destroy, ChangeByLabel, ChangeByRefnum, StepNames;
    if n > 0 {
      RunKeepsGood(s, ops, n - 1);
      StepKeepsGood(Run(s, ops, n - 1), ops[n - 1]);
    }
  }

  /** After any sequence of operations, with any configured limits on the way: labels are unique
      ignoring case and in their buckets, the numbers are exactly 1..n with the status window at
      1, the active window is in the table, and the table holds exactly the labels that a plain
      set would hold. */
  lemma RunsStayGood(ops: seq<Op>, n: nat)
    requires n <= |ops| && forall k :: 0 <= k < |ops| ==> Configured(ops[k])
    ensures var s := Run(Initial(), ops, n);
            && Good(s) && s.ntotal == |Names(s.table)|
            && Names(s.table) == RunNames({Lower(STATUS_LABEL)}, ops, n)
  {
    hide Good, Lower, Step;
    InitialIsGood();
    RunKeepsGood(Initial(), ops, n);
  }

  /** What this comes to, window by window. */
  lemma RunsInPlainTerms(ops: seq<Op>, n: nat, b: int, i: int, c: int, j: int)
    requires n <= |ops| && forall k :: 0 <= k < |ops| && ops[k].OpSpawn? ==> 10 <= ops[k].limit <= 800
    requires var t := Run(Initial(), ops, n).table; Has(t, b, i) && Has(t, c, j)
    ensures var s := Run(Initial(), ops, n); var v, w := s.table[b][i], s.table[c][j];
            && 1 <= v.refnum <= s.ntotal <= 800 && v.name != ""
            && (v.refnum == 1 <==> LabelsAlike(v.name, "(status)"))
            && (v.refnum == w.refnum || LabelsAlike(v.name, w.name) ==> b == c && i == j)
  {
    hide Run, Initial, Good, Names;
    RunsStayGood(ops, n);
    PlainTerms(Run(Initial(), ops, n), b, i, c, j);
  }

  /** Every number up to the number of windows is there, and so is the active window. */
  lemma RunsHaveEveryNumber(ops: seq<Op>, n: nat, r: int)
    requires n <= |ops| && forall k :: 0 <= k < |ops| && ops[k].OpSpawn? ==> 10 <= ops[k].limit <= 800
    ensures var s := Run(Initial(), ops, n);
            && (1 <= r <= s.ntotal ==> exists b, i :: Has(s.table, b, i) && s.table[b][i].refnum == r)
            && exists b, i :: Has(s.table, b, i) && s.table[b][i].name == s.active
  {
    hide Run, Initial, Names, Placed, StatusFirst;
    RunsStayGood(ops, n);
    var s := Run(Initial(), ops, n);
    assert 1 <= r <= s.ntotal ==> Numbered(s.table, r);
    assert Present(s.table, s.active);
  }

  lemma PlainTerms(s: State, b: int, i: int, c: int, j: int)
    requires Good(s) && Has(s.table, b, i) && Has(s.table, c, j)
    ensures var v, w := s.table[b][i], s.table[c][j];
            && 1 <= v.refnum <= s.ntotal <= 800 && v.name != ""
            && (v.refnum == 1 <==> LabelsAlike(v.name, "(status)"))
            && (v.refnum == w.refnum || LabelsAlike(v.name, w.name) ==> b == c && i == j)
  {
    hide Hash, Numbered;
    assert InBucket(s.table[b], b);
    SameIsAlike(s.table[b][i].name, STATUS_LABEL);
    if LabelsAlike(s.table[b][i].name, s.table[c][j].name) {
      LabelsUnique(s.table, b, i, c, j);
    }
  }

  // ----- window_close_all_priv_conv -----

  /** A private conversation: neither the status window nor a kept one (a channel or a log). */
  predicate IsPriv(name: string, kept: string -> bool) {
    !IsStatus(name) && !kept(name)
  }

  /** The labels collected from the first `i` windows of a bucket. */
  function PrivRow(s: seq<Win>, kept: string -> bool, i: nat): (l: seq<string>)
    requires i <= |s|
    ensures |l| <= Chats(s, i)
    ensures forall k :: 0 <= k < |l| ==> IsPriv(l[k], kept)
  {
    if i == 0 then [] else PrivRow(s, kept, i - 1) + if IsPriv(s[i - 1].name, kept) then [s[i - 1].name] else []
  }

  /** The labels collected from the first `b` buckets; there are fewer than windows. */
  function PrivIn(t: Table, kept: string -> bool, b: nat): (l: seq<string>)
    requires b <= |t|
    ensures |l| <= ChatsIn(t, b)
    ensures forall k :: 0 <= k < |l| ==> IsPriv(l[k], kept)
  {
    if b == 0 then [] else PrivIn(t, kept, b - 1) + PrivRow(t[b - 1], kept, |t[b - 1]|)
  }

  lemma {:induction false} PrivRowHas(s: seq<Win>, kept: string -> bool, i: nat, x: string)
    requires i <= |s|
    ensures x in PrivRow(s, kept, i) <==> IsPriv(x, kept) && exists k :: 0 <= k < i && s[k].name == x
    decreases i
  {
    hide IsPriv;
    if i > 0 {
      PrivRowHas(s, kept, i - 1, x);
    }
  }

  lemma {:induction false} PrivInHas(t: Table, kept: string -> bool, b: nat, x: string)
    requires b <= |t|
    ensures x in PrivIn(t, kept, b) <==> IsPriv(x, kept) && exists c, i :: 0 <= c < b && Has(t, c, i) && t[c][i].name == x
    decreases b
  {
    hide IsPriv, PrivRow;
    if b > 0 {
      PrivInHas(t, kept, b - 1, x);
      PrivRowHas(t[b - 1], kept, |t[b - 1]|, x);
      var row := t[b - 1];
      if k :| 0 <= k < |row| && row[k].name == x {
        assert Has(t, b - 1, k);
      }
    }
  }

  /** Closing one label after the other. */
  function CloseAll(s: State, l: seq<string>, n: nat): (r: State)
    requires |s.table| == BUCKETS && n <= |l|
    ensures |r.table| == BUCKETS
  {
    if n == 0 then s else Destroy(CloseAll(s, l, n - 1), l[n - 1]).0
  }

  ghost function Minus(names: set<string>, l: seq<string>, n: nat): set<string>
    requires n <= |l|
  {
    if n == 0 then names else Minus(names, l, n - 1) - {Lower(l[n - 1])}
  }

  lemma {:induction false} MinusHas(names: set<string>, l: seq<string>, n: nat, x: string)
    requires n <= |l|
    ensures x in Minus(names, l, n) <==> x in names && forall k :: 0 <= k < n ==> Lower(l[k]) != x
    decreases n
  {
    hide Lower;
    if n > 0 {
      MinusHas(names, l, n - 1, x);
    }
  }

  lemma {:induction false} CloseAllGood(s: State, l: seq<string>, n: nat)
    requires |s.table| == BUCKETS && Good(s) && s.ntotal == |Names(s.table)| && n <= |l|
    requires forall k :: 0 <= k < |l| ==> l[k] != "" && !IsStatus(l[k])
    ensures var r := CloseAll(s, l, n);
            && Good(r) && r.ntotal == |Names(r.table)|
            && Names(r.table) == Minus(Names(s.table), l, n)
    decreases n
  {
    hide Good, IsStatus, Lower, Destroy, Names;
    if n > 0 {
      CloseAllGood(s, l, n - 1);
      CloseOne(CloseAll(s, l, n - 1), l[n - 1]);
    }
  }

  lemma CloseOne(s: State, name: string)
    requires Good(s) && s.ntotal == |Names(s.table)| && name != "" && !IsStatus(name)
    ensures var r := Destroy(s, name).0;
            Good(r) && r.ntotal == |Names(r.table)| && Names(r.table) == Names(s.table) - {Lower(name)}
  {
    hide Dense, InBucket, StatusFirst, Undef, Renumber, Hash, Lower, Lookup, IsStatus, ChangeByRefnum;
    DestroyGood(s, name);
    DestroyNames(s, OpDestroy(name));
  }

  /** Closing all private conversations leaves exactly the labels of the status window and of the
      kept windows, however the numbers shift in between. */
  lemma CloseAllLeavesKept(s: State, kept: string -> bool)
    requires Good(s) && s.ntotal == |Names(s.table)|
    ensures var r := CloseAll(s, PrivIn(s.table, kept, |s.table|), |PrivIn(s.table, kept, |s.table|)|);
            && Good(r)
            && forall b, i :: Has(s.table, b, i) ==>
                 (Lower(s.table[b][i].name) in Names(r.table) <==> !IsPriv(s.table[b][i].name, kept))
  {
    hide Dense, InBucket, StatusFirst, Destroy, Lower, IsStatus, PrivIn;
    var l := PrivIn(s.table, kept, |s.table|);
    forall k | 0 <= k < |l| ensures l[k] != "" && !IsStatus(l[k]) {
      PrivInHas(s.table, kept, |s.table|, l[k]);
      PlacedNonEmpty(s.table, l[k]);
    }
    CloseAllGood(s, l, |l|);
    forall b, i | Has(s.table, b, i)
      ensures Lower(s.table[b][i].name) in Minus(Names(s.table), l, |l|) <==> !IsPriv(s.table[b][i].name, kept)
    {
      CollectedIsClosed(s.table, kept, b, i);
    }
  }

  lemma CollectedIsClosed(t: Table, kept: string -> bool, b: int, i: int)
    requires Placed(t) && Has(t, b, i)
    ensures var l := PrivIn(t, kept, |t|);
            Lower(t[b][i].name) in Minus(Names(t), l, |l|) <==> !IsPriv(t[b][i].name, kept)
  {
    hide InBucket, Lower, IsStatus, PrivIn;
    var l := PrivIn(t, kept, |t|);
    var x := t[b][i].name;
    MinusHas(Names(t), l, |l|, Lower(x));
    PrivInHas(t, kept, |t|, x);
    if k :| 0 <= k < |l| && Lower(l[k]) == Lower(x) {
      PrivInHas(t, kept, |t|, l[k]);
      var c, j :| 0 <= c < |t| && Has(t, c, j) && t[c][j].name == l[k];
      LabelsUnique(t, b, i, c, j);
    }
  }

  lemma PlacedNonEmpty(t: Table, name: string)
    requires Placed(t) && Present(t, name)
    ensures name != ""
  {
    var b, i :| Has(t, b, i) && t[b][i].name == name;
    assert InBucket(t[b], b);
  }
}
