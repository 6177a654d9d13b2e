/** The window table of src/window.c as values: buckets of labelled, numbered windows, and what
    every sequence of opening, closing and changing windows keeps. */
module WindowModel {
  import opened Wrappers
  import opened Chains

  const BUCKETS: nat := 800
  const STATUS_LABEL := "(status)"

  datatype Errno = Ok | EINVAL | ENOENT | ENOSPC | EPERM

  datatype Win = Win(name: string, refnum: int)

  type Table = seq<seq<Win>>

  // ----- Labels ignoring case, and their hash -----

  function LowerChar(c: char): char {
    if 'A' <= c <= 'Z' then (c as int + 32) as char else c
  }

  function Lower(s: string): (t: string)
    ensures |t| == |s| && forall k :: 0 <= k < |s| ==> t[k] == LowerChar(s[k])
  {
    seq(|s|, i requires 0 <= i < |s| => LowerChar(s[i]))
  }

  predicate SameLabel(a: string, b: string) {
    Lower(a) == Lower(b)
  }

  /** The same character, or the two cases of one ASCII letter. */
  predicate Alike(a: char, b: char) {
    a == b || CaseOf(a, b) || CaseOf(b, a)
  }

  predicate CaseOf(upper: char, lower: char) {
    'A' <= upper <= 'Z' && lower as int == upper as int + 32
  }

  /** Labels that differ in case only, if at all. */
  predicate LabelsAlike(a: string, b: string) {
    |a| == |b| && forall i :: 0 <= i < |a| ==> Alike(a[i], b[i])
  }

  lemma LowerOfAlike(a: char, b: char)
    ensures LowerChar(a) == LowerChar(b) <==> Alike(a, b)
  {
  }

  /** Comparing in lower case is ignoring the case, and nothing else. */
  lemma SameIsAlike(a: string, b: string)
    ensures SameLabel(a, b) <==> LabelsAlike(a, b)
  {
    hide LowerChar, Alike;
    if |a| == |b| {
      forall i | 0 <= i < |a| ensures Lower(a)[i] == Lower(b)[i] <==> Alike(a[i], b[i]) {
        LowerOfAlike(a[i], b[i]);
      }
    }
  }

  /** One label in two cases. */
  lemma SwircIsOneLabel()
    ensures LabelsAlike("#SWIRC", "#swirc") && SameLabel("#SWIRC", "#swirc")
  {
    SameIsAlike("#SWIRC", "#swirc");
  }

  /** The accumulator of hash_djb_g, a 32-bit unsigned integer, after the first `n` characters. */
  function Djb(s: string, n: nat): (h: nat)
    requires n <= |s|
    ensures h < 0x1_0000_0000
  {
    if n == 0 then 5381 else (Djb(s, n - 1) * 33 + SignedChar(s[n - 1])) % 0x1_0000_0000
  }

  function Hash(name: string): (h: nat)
    ensures h < BUCKETS
  {
    Djb(Lower(name), |name|) % BUCKETS
  }

  /** The bucket of one label, in either case. */
  lemma BucketOfSwirc()
    ensures Djb("#swirc", 6) == 1642570640 && Hash("#swirc") == Hash("#SWIRC") == 240
  {
    var s := "#swirc";
    assert Lower("#SWIRC") == s && Lower(s) == s;
    assert Djb(s, 1) == 177608 && Djb(s, 2) == 5861179 && Djb(s, 3) == 193419026;
    assert Djb(s, 4) == 2087860667 && Djb(s, 5) == 179925389;
  }

  predicate IsStatus(name: string) {
    SameLabel(name, STATUS_LABEL)
  }

  // ----- The table -----

  /** There is a window at place `i` of bucket `b`. */
  ghost predicate Has(t: Table, b: int, i: int) {
    0 <= b < |t| && 0 <= i < |t[b]|
  }

  ghost predicate InBucket(s: seq<Win>, b: int) {
    && (forall i :: 0 <= i < |s| ==> s[i].name != "" && Hash(s[i].name) == b)
    && (forall i, j :: 0 <= i < j < |s| ==> !SameLabel(s[i].name, s[j].name))
  }

  /** Every window is in the bucket its name hashes to, and no two there share a name. */
  ghost predicate Placed(t: Table) {
    |t| == BUCKETS && forall b :: 0 <= b < BUCKETS ==> InBucket(t[b], b)
  }

  ghost predicate Numbered(t: Table, r: int) {
    exists b, i :: Has(t, b, i) && t[b][i].refnum == r
  }

  /** The reference numbers are exactly 1..n, each used once. */
  ghost predicate Dense(t: Table, n: nat) {
    && (forall b, i :: Has(t, b, i) ==> 1 <= t[b][i].refnum <= n)
    && (forall b, i, c, j :: Has(t, b, i) && Has(t, c, j) && t[b][i].refnum == t[c][j].refnum ==> b == c && i == j)
    && (forall r :: 1 <= r <= n ==> Numbered(t, r))
  }

  /** The status window, and no other, has number 1. */
  ghost predicate StatusFirst(t: Table) {
    forall b, i :: Has(t, b, i) ==> (t[b][i].refnum == 1 <==> IsStatus(t[b][i].name))
  }

  /** Windows other than the status window among the first `i` of a bucket. */
  function Chats(s: seq<Win>, i: nat): (n: nat)
    requires i <= |s|
    ensures n <= i
  {
    if i == 0 then 0 else Chats(s, i - 1) + if IsStatus(s[i - 1].name) then 0 else 1
  }

  /** The same over the first `b` buckets. */
  function ChatsIn(t: Table, b: nat): nat
    requires b <= |t|
  {
    if b == 0 then 0 else ChatsIn(t, b - 1) + Chats(t[b - 1], |t[b - 1]|)
  }

  ghost predicate Invariant(t: Table, n: nat) {
    Placed(t) && Dense(t, n) && StatusFirst(t) && ChatsIn(t, |t|) == if n == 0 then 0 else n - 1
  }

  // ----- Labels are unique in the whole table, and lookups find them -----

  lemma {:induction false} DjbOfLower(a: string, b: string)
    requires SameLabel(a, b)
    ensures Hash(a) == Hash(b)
  {
    assert |Lower(a)| == |a| && |Lower(b)| == |b|;
  }

  /** No two windows anywhere have labels that differ only in case. */
  lemma LabelsUnique(t: Table, b: int, i: int, c: int, j: int)
    requires Placed(t) && Has(t, b, i) && Has(t, c, j)
    requires LabelsAlike(t[b][i].name, t[c][j].name)
    ensures b == c && i == j
  {
    SameIsAlike(t[b][i].name, t[c][j].name);
    DjbOfLower(t[b][i].name, t[c][j].name);
    assert InBucket(t[b], b) && InBucket(t[c], c);
  }

  /** window_by_label: the place in the name's own bucket. */
  function Find(s: seq<Win>, name: string, from: nat): (k: nat)
    requires from <= |s|
    ensures from <= k <= |s|
    ensures k < |s| ==> SameLabel(name, s[k].name)
    ensures forall i :: from <= i < k ==> !SameLabel(name, s[i].name)
    decreases |s| - from
  {
    if from == |s| || SameLabel(name, s[from].name) then from else Find(s, name, from + 1)
  }

  function Lookup(t: Table, name: string): (k: nat)
    requires |t| == BUCKETS
    ensures k <= |t[Hash(name)]|
    ensures k < |t[Hash(name)]| ==> SameLabel(name, t[Hash(name)][k].name)
  {
    Find(t[Hash(name)], name, 0)
  }

  predicate Known(t: Table, name: string)
    requires |t| == BUCKETS
  {
    name != "" && Lookup(t, name) < |t[Hash(name)]|
  }

  /** Some window has the label, in whatever case. */
  ghost predicate Labelled(t: Table, name: string) {
    exists b, i :: Has(t, b, i) && LabelsAlike(name, t[b][i].name)
  }

  /** Searching one bucket is enough: the search fails exactly when no window at all has the
      name, in any case. */
  lemma LookupIsComplete(t: Table, name: string)
    requires Placed(t)
    ensures Known(t, name) <==> Labelled(t, name)
  {
    hide LabelsAlike;
    forall b, i | Has(t, b, i) ensures SameLabel(name, t[b][i].name) <==> LabelsAlike(name, t[b][i].name) {
      SameIsAlike(name, t[b][i].name);
    }
    var h := Hash(name);
    if Known(t, name) {
      assert Has(t, h, Lookup(t, name));
    }
    if b, i :| Has(t, b, i) && SameLabel(name, t[b][i].name) {
      DjbOfLower(name, t[b][i].name);
      assert InBucket(t[b], b);
      assert |Lower(name)| == |name| && |Lower(t[b][i].name)| == |t[b][i].name|;
    }
  }

  // ----- hInstall -----

  function Install(t: Table, w: Win): Table
    requires |t| == BUCKETS
  {
    var h := Hash(w.name);
    t[h := [w] + t[h]]
  }

  lemma {:induction false} ChatsShift(s: seq<Win>, w: Win, i: nat)
    requires i <= |s|
    ensures Chats([w] + s, i + 1) == Chats(s, i) + if IsStatus(w.name) then 0 else 1
  {
    if i == 0 {
      assert Chats([w] + s, 0) == 0 && ([w] + s)[0] == w;
    } else {
      ChatsShift(s, w, i - 1);
      assert ([w] + s)[i] == s[i - 1];
    }
  }

  /** Replacing one bucket changes the number of chats by the difference in that bucket. */
  lemma {:induction false} ChatsInUpdated(t: Table, h: nat, s: seq<Win>, b: nat)
    requires h < |t| && b <= |t|
    ensures ChatsIn(t[h := s], b) ==
            ChatsIn(t, b) + if h < b then Chats(s, |s|) - Chats(t[h], |t[h]|) else 0
  {
    if b > 0 {
      ChatsInUpdated(t, h, s, b - 1);
    }
  }

  /** Where the windows of `t` are after a window was put in front of bucket `h`. */
  lemma InstalledPlaces(t: Table, w: Win)
    requires |t| == BUCKETS
    ensures var u := Install(t, w);
            var h := Hash(w.name);
            && Has(u, h, 0) && u[h][0] == w
            && (forall b, i :: Has(t, b, i) ==> Has(u, b, if b == h then i + 1 else i) && u[b][if b == h then i + 1 else i] == t[b][i])
            && (forall b, i :: Has(u, b, i) && (b != h || i != 0) ==> Has(t, b, if b == h then i - 1 else i) && t[b][if b == h then i - 1 else i] == u[b][i])
  {
  }

  lemma InstallDense(t: Table, n: nat, w: Win)
    requires |t| == BUCKETS && Dense(t, n) && w.refnum == n + 1
    ensures Dense(Install(t, w), n + 1)
  {
    InstalledPlaces(t, w);
    var u := Install(t, w);
    var h := Hash(w.name);
    forall r | 1 <= r <= n + 1 ensures Numbered(u, r) {
      if r <= n {
        assert Numbered(t, r);
        var b, i :| Has(t, b, i) && t[b][i].refnum == r;
        assert Has(u, b, if b == h then i + 1 else i);
      } else {
        assert Has(u, h, 0);
      }
    }
  }

  lemma InstallPlaced(t: Table, w: Win)
    requires Placed(t) && w.name != "" && !Known(t, w.name)
    ensures Placed(Install(t, w))
  {
    var u := Install(t, w);
    forall b | 0 <= b < BUCKETS ensures InBucket(u[b], b) {
      assert InBucket(t[b], b);
    }
  }

  lemma InstallChats(t: Table, w: Win)
    requires |t| == BUCKETS
    ensures ChatsIn(Install(t, w), |t|) == ChatsIn(t, |t|) + if IsStatus(w.name) then 0 else 1
  {
    var h := Hash(w.name);
    ChatsInUpdated(t, h, [w] + t[h], |t|);
    ChatsShift(t[h], w, |t[h]|);
  }

  lemma InstallStatusFirst(t: Table, w: Win)
    requires |t| == BUCKETS && StatusFirst(t) && (w.refnum == 1 <==> IsStatus(w.name))
    ensures StatusFirst(Install(t, w))
  {
    InstalledPlaces(t, w);
  }

  /** Opening a window under a new name with the next number keeps everything. */
  lemma InstallKeeps(t: Table, n: nat, name: string)
    requires Invariant(t, n) && name != "" && !Known(t, name)
    requires n == 0 <==> IsStatus(name)
    ensures Invariant(Install(t, Win(name, n + 1)), n + 1)
  {
    var w := Win(name, n + 1);
    InstallDense(t, n, w);
    InstallPlaced(t, w);
    InstallChats(t, w);
    InstallStatusFirst(t, w);
  }

  // ----- hUndef -----

  function Undef(t: Table, name: string): Table
    requires |t| == BUCKETS && Known(t, name)
  {
    var h := Hash(name);
    t[h := Without(t[h], Lookup(t, name))]
  }

  lemma {:induction false} ChatsWithout(s: seq<Win>, k: nat, i: nat)
    requires k < |s| && i <= |s| - 1
    ensures Chats(Without(s, k), i) ==
            if i <= k then Chats(s, i) else Chats(s, i + 1) - if IsStatus(s[k].name) then 0 else 1
    decreases i
  {
    if i > 0 {
      ChatsWithout(s, k, i - 1);
    }
  }

  lemma UndefPlaced(t: Table, name: string)
    requires Placed(t) && Known(t, name)
    ensures Placed(Undef(t, name)) && !Known(Undef(t, name), name)
  {
    var u := Undef(t, name);
    forall b | 0 <= b < BUCKETS ensures InBucket(u[b], b) {
      assert InBucket(t[b], b);
    }
  }

  /** Every other window is still there, under its number. */
  lemma UndefPlaces(t: Table, name: string, b: int, i: int)
    requires |t| == BUCKETS && Known(t, name) && Has(t, b, i) && !(b == Hash(name) && i == Lookup(t, name))
    ensures var j := if b == Hash(name) && i > Lookup(t, name) then i - 1 else i;
            Has(Undef(t, name), b, j) && Undef(t, name)[b][j] == t[b][i]
  {
  }

  lemma UndefChats(t: Table, name: string)
    requires |t| == BUCKETS && Known(t, name) && !IsStatus(name)
    ensures ChatsIn(Undef(t, name), |t|) + 1 == ChatsIn(t, |t|)
  {
    hide Lower, Djb, Find, ChatsIn, InBucket;
    var h, k := Hash(name), Lookup(t, name);
    ChatsInUpdated(t, h, Without(t[h], k), |t|);
    ChatsWithout(t[h], k, |t[h]| - 1);
  }

  ghost predicate HasStatus(t: Table) {
    exists b, i :: Has(t, b, i) && IsStatus(t[b][i].name)
  }

  /** Closing a chat window keeps the status window. */
  lemma UndefKeepsStatus(t: Table, name: string)
    requires |t| == BUCKETS && StatusFirst(t) && Numbered(t, 1) && Known(t, name) && !IsStatus(name)
    ensures HasStatus(Undef(t, name))
  {
    var b, i :| Has(t, b, i) && t[b][i].refnum == 1;
    UndefPlaces(t, name, b, i);
    assert IsStatus(t[b][i].name);
  }

  // ----- reassign_window_refnums -----

  function NewRefnum(t: Table, b: nat, i: nat): int
    requires b < |t| && i < |t[b]|
  {
    if IsStatus(t[b][i].name) then t[b][i].refnum else 2 + ChatsIn(t, b) + Chats(t[b], i)
  }

  function RenumberedBucket(t: Table, b: nat): (s: seq<Win>)
    requires b < |t|
    ensures |s| == |t[b]|
    ensures forall i {:trigger s[i]} :: 0 <= i < |s| ==> s[i] == t[b][i].(refnum := NewRefnum(t, b, i))
  {
    seq(|t[b]|, i requires 0 <= i < |t[b]| => t[b][i].(refnum := NewRefnum(t, b, i)))
  }

  function Renumber(t: Table): (u: Table)
    ensures |u| == |t| && forall b {:trigger u[b]} :: 0 <= b < |t| ==> u[b] == RenumberedBucket(t, b)
  {
    seq(|t|, b requires 0 <= b < |t| => RenumberedBucket(t, b))
  }

  lemma {:induction false} ChatsGrow(s: seq<Win>, i: nat, j: nat)
    requires i <= j <= |s|
    ensures Chats(s, i) <= Chats(s, j)
    ensures i < j && !IsStatus(s[i].name) ==> Chats(s, i) < Chats(s, j)
    decreases j
  {
    if i < j {
      ChatsGrow(s, i, j - 1);
    }
  }

  lemma {:induction false} ChatsInGrow(t: Table, b: nat, c: nat)
    requires b <= c <= |t|
    ensures ChatsIn(t, b) <= ChatsIn(t, c)
    ensures b < c ==> ChatsIn(t, b) + Chats(t[b], |t[b]|) <= ChatsIn(t, c)
    decreases c
  {
    if b < c {
      ChatsInGrow(t, b, c - 1);
    }
  }

  /** Chats later in the table get larger numbers; the last number is the number of windows. */
  lemma NewRefnumsAscend(t: Table, b: nat, i: nat, c: nat, j: nat)
    requires b < |t| && i < |t[b]| && c < |t| && j < |t[c]|
    requires !IsStatus(t[b][i].name)
    ensures 2 <= NewRefnum(t, b, i) <= ChatsIn(t, |t|) + 1
    ensures b < c || (b == c && i < j) ==> !IsStatus(t[c][j].name) ==> NewRefnum(t, b, i) < NewRefnum(t, c, j)
  {
    ChatsGrow(t[b], i, |t[b]|);
    ChatsInGrow(t, b, |t|);
    if b < c {
      ChatsInGrow(t, b, c);
    } else if b == c && i < j {
      ChatsGrow(t[b], i, j);
    }
  }

  /** The chat with exactly `r` chats before it in its bucket. */
  lemma {:induction false} ChatAt(s: seq<Win>, r: nat, i: nat) returns (k: nat)
    requires i <= |s| && r < Chats(s, i)
    ensures k < i && !IsStatus(s[k].name) && Chats(s, k) == r
    decreases i
  {
    if r == Chats(s, i - 1) {
      k := i - 1;
    } else {
      k := ChatAt(s, r, i - 1);
    }
  }

  /** The chat with exactly `r` chats before it in the table. */
  lemma {:induction false} ChatInTable(t: Table, r: nat, b: nat) returns (c: nat, k: nat)
    requires b <= |t| && r < ChatsIn(t, b)
    ensures c < b && k < |t[c]| && !IsStatus(t[c][k].name) && ChatsIn(t, c) + Chats(t[c], k) == r
    decreases b
  {
    if r < ChatsIn(t, b - 1) {
      c, k := ChatInTable(t, r, b - 1);
    } else {
      c := b - 1;
      k := ChatAt(t[c], r - ChatsIn(t, c), |t[c]|);
    }
  }

  ghost predicate StatusNumbered(t: Table) {
    forall b, i :: Has(t, b, i) && IsStatus(t[b][i].name) ==> t[b][i].refnum == 1
  }

  lemma RenumberDistinct(t: Table, b: int, i: int, c: int, j: int)
    requires Placed(t) && Has(t, b, i) && Has(t, c, j)
    requires StatusNumbered(t)
    requires Renumber(t)[b][i].refnum == Renumber(t)[c][j].refnum
    ensures b == c && i == j
  {
    if IsStatus(t[b][i].name) && IsStatus(t[c][j].name) {
      LabelsUnique(t, b, i, c, j);
    } else {
      if !IsStatus(t[b][i].name) {
        NewRefnumsAscend(t, b, i, c, j);
      }
      if !IsStatus(t[c][j].name) {
        NewRefnumsAscend(t, c, j, b, i);
      }
    }
  }

  lemma RenumberInRange(t: Table)
    requires |t| == BUCKETS && StatusNumbered(t)
    ensures var u := Renumber(t);
            forall b, i :: Has(u, b, i) ==>
              1 <= u[b][i].refnum <= ChatsIn(t, |t|) + 1 && (u[b][i].refnum == 1 <==> IsStatus(u[b][i].name))
  {
    var u := Renumber(t);
    forall b, i | Has(u, b, i)
      ensures 1 <= u[b][i].refnum <= ChatsIn(t, |t|) + 1 && (u[b][i].refnum == 1 <==> IsStatus(u[b][i].name))
    {
      assert Has(t, b, i);
      if !IsStatus(t[b][i].name) {
        NewRefnumsAscend(t, b, i, b, i);
      }
    }
  }

  lemma RenumberOnto(t: Table, r: nat)
    requires |t| == BUCKETS && StatusNumbered(t) && HasStatus(t) && 1 <= r <= ChatsIn(t, |t|) + 1
    ensures Numbered(Renumber(t), r)
  {
    var b, i :| Has(t, b, i) && IsStatus(t[b][i].name);
    if r > 1 {
      b, i := ChatInTable(t, r - 2, |t|);
    }
    assert Has(Renumber(t), b, i);
  }

  lemma RenumberPlaced(t: Table)
    requires Placed(t)
    ensures Placed(Renumber(t))
  {
    forall b | 0 <= b < BUCKETS ensures InBucket(Renumber(t)[b], b) {
      assert InBucket(t[b], b);
    }
  }

  /** Renumbering never moves or relabels a window, and it closes the gaps: whatever the chats'
      numbers were, afterwards the numbers are 1..n with the status window first. */
  lemma RenumberRestores(t: Table)
    requires Placed(t) && StatusNumbered(t) && HasStatus(t)
    ensures Invariant(Renumber(t), ChatsIn(t, |t|) + 1)
  {
    var u := Renumber(t);
    RenumberPlaced(t);
    RenumberInRange(t);
    forall b, i, c, j | Has(u, b, i) && Has(u, c, j) && u[b][i].refnum == u[c][j].refnum ensures b == c && i == j {
      assert Has(t, b, i) && Has(t, c, j);
      RenumberDistinct(t, b, i, c, j);
    }
    forall r | 1 <= r <= ChatsIn(t, |t|) + 1 ensures Numbered(u, r) {
      RenumberOnto(t, r);
    }
    ChatsOfRenumbered(t, |t|);
  }

  lemma {:induction false} ChatsOfRenumberedBucket(t: Table, b: nat, i: nat)
    requires b < |t| && i <= |t[b]|
    ensures Chats(RenumberedBucket(t, b), i) == Chats(t[b], i)
    decreases i
  {
    if i > 0 {
      ChatsOfRenumberedBucket(t, b, i - 1);
    }
  }

  lemma {:induction false} ChatsOfRenumbered(t: Table, b: nat)
    requires b <= |t|
    ensures ChatsIn(Renumber(t), b) == ChatsIn(t, b)
  {
    hide NewRefnum, Chats;
    if b > 0 {
      ChatsOfRenumbered(t, b - 1);
      ChatsOfRenumberedBucket(t, b - 1, |t[b - 1]|);
    }
  }
}
