/** The window table of src/window.c on the heap: an array of chained windows, the count and the
    active window. Every operation is proved to be the operation of WindowRuns on what the
    chains hold. */
module WindowTable {
  import opened Wrappers
  import opened Chains
  import opened WindowModel
  import WindowRuns

  /** hash_djb_g */
  method HashDjb(str: string, lc: bool, upperBound: nat) returns (h: nat)
    requires upperBound > 0
    ensures h == Djb(if lc then Lower(str) else str, |str|) % upperBound
  {
    var strCopy := if lc then Lower(str) else str;
    var hashval := 5381;
    var cp := 0;
    while cp < |strCopy|
      invariant 0 <= cp <= |strCopy| && hashval == Djb(strCopy, cp)
    {
      hashval := ((hashval * 32 + hashval) + SignedChar(strCopy[cp])) % 0x1_0000_0000;
      cp := cp + 1;
    }
    h := hashval % upperBound;
  }

  /** The buckets of `was` before `b` are renumbered, the others are as they were. */
  ghost predicate RenumberedBefore(t: Table, was: Table, b: nat) {
    && |t| == |was|
    && (forall c :: 0 <= c < b && c < |was| ==> t[c] == RenumberedBucket(was, c))
    && (forall c :: b <= c < |was| ==> t[c] == was[c])
  }

  lemma BeforeAt(t: Table, was: Table, b: nat)
    requires RenumberedBefore(t, was, b) && b < |was|
    ensures |t| == |was| && t[b] == was[b]
  {
  }

  lemma BeforeNext(t: Table, was: Table, b: nat)
    requires RenumberedBefore(t, was, b) && b < |was|
    ensures |t| == |was| && RenumberedBefore(t[b := RenumberedBucket(was, b)], was, b + 1)
  {
    hide RenumberedBucket;
  }

  /** The first `k` windows of a bucket are renumbered. */
  ghost predicate HalfRenumbered(row: seq<Win>, was: seq<Win>, renumbered: seq<Win>, k: nat) {
    && |row| == |was| == |renumbered|
    && forall i :: 0 <= i < |was| ==> row[i] == if i < k then renumbered[i] else was[i]
  }

  lemma HalfAtStart(was: seq<Win>, renumbered: seq<Win>)
    requires |was| == |renumbered|
    ensures HalfRenumbered(was, was, renumbered, 0)
  {
  }

  lemma HalfNext(row: seq<Win>, was: seq<Win>, renumbered: seq<Win>, k: nat)
    requires HalfRenumbered(row, was, renumbered, k) && k < |was|
    ensures |row| == |was| && row[k] == was[k]
    ensures HalfRenumbered(row[k := renumbered[k]], was, renumbered, k + 1)
  {
  }

  lemma HalfIsWhole(row: seq<Win>, was: seq<Win>, renumbered: seq<Win>)
    requires HalfRenumbered(row, was, renumbered, |was|)
    ensures row == renumbered
  {
  }

  class WindowSystem {
    const hashTable: Buckets<Win>
    var ntotal: nat
    var active: Node?<Win>

    /** What the buckets hold. */
    ghost function Table(): Table
      reads hashTable
    {
      hashTable.rows
    }

    ghost predicate Valid()
      reads hashTable, hashTable.slots, hashTable.repr
    {
      hashTable.Valid() && Placed(Table())
    }

    /** The whole state as a value. */
    ghost function State(): WindowRuns.State
      reads this, hashTable, active
    {
      WindowRuns.State(Table(), ntotal, if active == null then "" else active.item.name)
    }

    /** The window at place `i` of bucket `b`. */
    ghost function Window(b: nat, i: nat): Node<Win>
      requires b < |hashTable.chains| && i < |hashTable.chains[b]|
      reads hashTable
    {
      hashTable.chains[b][i]
    }

    /** The active window is one of the table's. */
    ghost predicate ActiveIn()
      reads this, hashTable
    {
      exists b, i :: 0 <= b < |hashTable.chains| && 0 <= i < |hashTable.chains[b]| && Window(b, i) == active
    }

    /** What every operation keeps. */
    ghost predicate Healthy()
      reads this, hashTable, hashTable.slots, hashTable.repr, active
    {
      Valid() && ActiveIn() && WindowRuns.Good(State())
    }

    /** Where the search for `name` ends, on the heap. */
    ghost predicate FoundAt(w: Node?<Win>, name: string)
      requires Placed(Table())
      reads hashTable
    {
      if Known(Table(), name)
      then Hash(name) < |hashTable.chains| && Lookup(Table(), name) < |hashTable.chains[Hash(name)]|
           && w == Window(Hash(name), Lookup(Table(), name))
      else w == null
    }

    /** The node where the search ends bears the label, in whatever case. */
    lemma LabelFound(name: string)
      requires Valid()
      ensures Known(Table(), name) <==> Labelled(Table(), name)
      ensures Known(Table(), name) ==>
                var h, k := Hash(name), Lookup(Table(), name);
                && h < |hashTable.chains| && k < |hashTable.chains[h]|
                && LabelsAlike(name, Window(h, k).item.name)
    {
      LookupIsComplete(Table(), name);
      if Known(Table(), name) {
        var h, k := Hash(name), Lookup(Table(), name);
        SameIsAlike(name, Table()[h][k].name);
        hashTable.NodeHolds(h, k);
      }
    }

    /** window_by_label */
    method WindowByLabel(name: string) returns (w: Node?<Win>)
      requires Valid()
      ensures FoundAt(w, name)
      ensures w != null <==> Labelled(Table(), name)
      ensures w != null ==> LabelsAlike(name, w.item.name)
    {
      LabelFound(name);
      hide InBucket, Chain, Apart, Lower, Djb;
      if name == "" {
        return null;
      }
      var h := HashDjb(name, true, BUCKETS);
      ghost var row, k := hashTable.rows[h], 0;
      hashTable.NodeHolds(h, 0);
      w := hashTable.slots[h];
      while w != null
        invariant k <= |row| && w == At(hashTable.chains[h], k) && Find(row, name, k) == Find(row, name, 0)
        decreases |row| - k
      {
        hashTable.NodeHolds(h, k);
        if SameLabel(name, w.item.name) {
          return;
        }
        w := w.next;
        k := k + 1;
      }
    }

    /** window_by_refnum */
    method WindowByRefnum(refnum: int) returns (w: Node?<Win>)
      requires Valid()
      ensures var p := WindowRuns.ByRefnum(Table(), refnum, 0);
              if refnum < 1 || refnum > ntotal || p.Nowhere? then w == null
              else p.b < |hashTable.chains| && p.i < |hashTable.chains[p.b]| && w == Window(p.b, p.i)
    {
      hide InBucket, Chain, Apart;
      if refnum < 1 || refnum > ntotal {
        return null;
      }
      var b := 0;
      while b < hashTable.slots.Length
        invariant b <= BUCKETS
        invariant WindowRuns.ByRefnum(Table(), refnum, b) == WindowRuns.ByRefnum(Table(), refnum, 0)
      {
        ghost var row, k := hashTable.rows[b], 0;
        hashTable.NodeHolds(b, 0);
        w := hashTable.slots[b];
        while w != null
          invariant k <= |row| && w == At(hashTable.chains[b], k)
          invariant WindowRuns.InRow(row, refnum, k) == WindowRuns.InRow(row, refnum, 0)
          decreases |row| - k
        {
          hashTable.NodeHolds(b, k);
          if refnum == w.item.refnum {
            return;
          }
          w := w.next;
          k := k + 1;
        }
        b := b + 1;
      }
      return null;
    }

    /** hInstall: the new window goes to the front of its bucket. */
    method HInstall(name: string, refnum: int) returns (entry: Node<Win>)
      requires Valid() && name != "" && !Known(Table(), name)
      modifies hashTable, hashTable.slots, `ntotal
      ensures Valid() && Table() == Install(old(Table()), Win(name, refnum))
      ensures ntotal == old(ntotal) + 1 && fresh(hashTable.repr - old(hashTable.repr))
    {
      hide Known, Lower, Djb, InBucket;
      InstallPlaced(Table(), Win(name, refnum));
      var hashval := HashDjb(name, true, BUCKETS);
      entry := hashTable.Push(hashval, Win(name, refnum));
      ntotal := ntotal + 1;
    }

    /** hUndef */
    method HUndef(entry: Node<Win>, ghost name: string)
      requires Valid() && ntotal > 0 && Known(Table(), name) && FoundAt(entry, name)
      modifies hashTable, hashTable.slots, hashTable.repr, `ntotal
      ensures Valid() && Table() == Undef(old(Table()), name)
      ensures ntotal == old(ntotal) - 1 && hashTable.repr == old(hashTable.repr)
    {
      hide Lower, Djb, InBucket, Lookup;
      ghost var k := Lookup(Table(), name);
      hashTable.NodeHolds(Hash(name), k);
      DjbOfLower(name, entry.item.name);
      UndefPlaced(Table(), name);
      var h := HashDjb(entry.item.name, true, BUCKETS);
      hashTable.Unlink(h, entry, k);
      ntotal := ntotal - 1;
    }

    /** The body of the inner loop of reassign_window_refnums, on the `k`-th window of bucket `b`. */
    method RenumberNode(b: nat, window: Node<Win>, refCount: int, ghost k: nat) returns (count: int, next: Node?<Win>)
      requires hashTable.Valid() && b < hashTable.slots.Length
      requires |hashTable.chains[b]| == |Table()[b]| && k < |Table()[b]| && hashTable.chains[b][k] == window
      modifies hashTable`rows, window`item
      ensures hashTable.Valid() && next == At(hashTable.chains[b], k + 1)
      ensures var was := old(Table())[b];
              var w := was[k];
              && k < |was| && count == refCount + (if IsStatus(w.name) then 0 else 1)
              && Table() == old(Table())[b := was[k := if IsStatus(w.name) then w else w.(refnum := count)]]
    {
      hide IsStatus, Chain, Apart;
      hashTable.NodeHolds(b, k);
      next := window.next;
      count := refCount;
      if !IsStatus(window.item.name) {
        count := count + 1;
        hashTable.Set(b, window, window.item.(refnum := count), k);
      } else {
        assert Table()[b][k := Table()[b][k]] == Table()[b];
      }
    }

    /** The inner loop of reassign_window_refnums, on bucket `b`. */
    method RenumberRow(b: nat, refCount: int, ghost was: Table) returns (count: int)
      requires hashTable.Valid() && |was| == BUCKETS && b < BUCKETS && RenumberedBefore(Table(), was, b)
      requires refCount == 1 + ChatsIn(was, b)
      modifies hashTable`rows, hashTable.repr`item
      ensures hashTable.Valid() && RenumberedBefore(Table(), was, b + 1)
      ensures count == 1 + ChatsIn(was, b + 1)
    {
      hide IsStatus, RenumberedBucket, Chain, Apart, RenumberedBefore, HalfRenumbered;
      count := refCount;
      ghost var rows, renumbered, k := Table(), RenumberedBucket(was, b), 0;
      BeforeAt(rows, was, b);
      HalfAtStart(was[b], renumbered);
      hashTable.NodeHolds(b, 0);
      var window := hashTable.slots[b];
      while window != null
        invariant hashTable.Valid() && k <= |was[b]| == |Table()[b]| && Table() == rows[b := Table()[b]]
        invariant HalfRenumbered(Table()[b], was[b], renumbered, k)
        invariant window == At(hashTable.chains[b], k) && count == refCount + Chats(was[b], k)
        decreases |was[b]| - k
      {
        hashTable.NodeHolds(b, k);
        HalfNext(Table()[b], was[b], renumbered, k);
        count, window := RenumberNode(b, window, count, k);
        k := k + 1;
      }
      HalfIsWhole(Table()[b], was[b], renumbered);
      BeforeNext(rows, was, b);
    }

    /** reassign_window_refnums; its assertion holds whenever it is called. */
    method ReassignWindowRefnums()
      requires Valid() && ntotal == ChatsIn(Table(), |Table()|) + 1
      modifies hashTable`rows, hashTable.repr`item
      ensures Valid() && Table() == Renumber(old(Table()))
    {
      hide InBucket, RenumberedBucket, ChatsIn;
      ghost var was := Table();
      var refCount := 1;
      var b := 0;
      ChatsInNone(was);
      while b < hashTable.slots.Length
        invariant b <= BUCKETS && hashTable.Valid() && RenumberedBefore(Table(), was, b)
        invariant refCount == 1 + ChatsIn(was, b)
      {
        refCount := RenumberRow(b, refCount, was);
        b := b + 1;
      }
      assert Table() == Renumber(was);
      RenumberPlaced(was);
      assert refCount == ntotal;
    }

    lemma ChatsInNone(t: Table)
      ensures ChatsIn(t, 0) == 0
    {
    }

    /** windowSystem_init: the empty table, and on it the status window. */
    constructor ()
      ensures Healthy() && State() == WindowRuns.Initial()
      ensures fresh(hashTable) && fresh(hashTable.slots) && fresh(hashTable.repr)
    {
      hashTable := new Buckets(BUCKETS);
      ntotal, active := 0, null;
      new;
      hide Lower, Known, Hash;
      WindowRuns.EmptyInvariant();
      OpenStatusWindow();
    }

    /** The first spawn_chat_window, on the empty table. */
    method OpenStatusWindow()
      requires Valid() && Table() == WindowRuns.NONE && ntotal == 0 && active == null
      modifies this, hashTable, hashTable.slots
      ensures Healthy() && State() == WindowRuns.Initial()
      ensures fresh(hashTable.repr - old(hashTable.repr))
    {
      hide Hash, Lookup, Known, Lower, Install, InBucket, WindowRuns.Good, WindowRuns.ChangeByLabel, WindowRuns.NONE;
      WindowRuns.EmptyInvariant();
      WindowRuns.InitialIsInstalled();
      WindowRuns.InitialIsGood();
      WindowRuns.InstalledIsFound(WindowRuns.State(Table(), 1, ""), Win(STATUS_LABEL, 1));
      var _ := HInstall(STATUS_LABEL, 1);
      var _ := ChangeWindowByLabel(STATUS_LABEL, true);
    }

    /** change_window; `onTop` is what comes of top_panel, other drawing is not part of the model. */
    method ChangeWindow(window: Node?<Win>, onTop: bool) returns (error: Errno)
      modifies `active
      ensures error == (if window == null then ENOENT else if window == old(active) || onTop then Ok else EPERM)
      ensures active == if error == Ok then window else old(active)
    {
      if window == null {
        return ENOENT;
      } else if window == active {
        return Ok;
      } else if !onTop {
        return EPERM;
      }
      active := window;
      error := Ok;
    }

    /** change_window_by_label */
    method ChangeWindowByLabel(name: string, onTop: bool) returns (error: Errno)
      requires Valid()
      modifies `active
      ensures Valid() && (error != EPERM ==> (State(), error) == WindowRuns.ChangeByLabel(old(State()), name))
      ensures error == EPERM <==> !onTop && Known(Table(), name) && !FoundAt(old(active), name)
      ensures error == Ok ==> ActiveIn()
      ensures error != Ok ==> active == old(active)
    {
      hide InBucket, Hash, Lookup;
      var window := WindowByLabel(name);
      if window != null {
        hashTable.NodeHolds(Hash(name), Lookup(Table(), name));
      }
      error := ChangeWindow(window, onTop);
      assert error == Ok ==> active == Window(Hash(name), Lookup(Table(), name));
    }

    /** change_window_by_refnum */
    method ChangeWindowByRefnum(refnum: int, onTop: bool) returns (error: Errno)
      requires Valid()
      modifies `active
      ensures Valid() && (error != EPERM ==> (State(), error) == WindowRuns.ChangeByRefnum(old(State()), refnum))
      ensures error == EPERM ==> !onTop && WindowRuns.ChangeByRefnum(old(State()), refnum).1 == Ok
      ensures error == Ok ==> ActiveIn()
      ensures error != Ok ==> active == old(active)
    {
      hide InBucket, Hash, Lookup;
      ghost var p := WindowRuns.ByRefnum(Table(), refnum, 0);
      var window := WindowByRefnum(refnum);
      if window != null {
        hashTable.NodeHolds(p.b, p.i);
      }
      error := ChangeWindow(window, onTop);
      assert error == Ok ==> active == Window(p.b, p.i);
    }

    /** The window goes, and the others are renumbered. */
    method Close(window: Node<Win>, ghost name: string)
      requires Valid() && Invariant(Table(), ntotal) && 1 <= ntotal <= BUCKETS
      requires !IsStatus(name) && Known(Table(), name) && FoundAt(window, name)
      modifies hashTable, hashTable.slots, hashTable.repr, `ntotal
      ensures Valid() && Table() == Renumber(Undef(old(Table()), name)) && hashTable.repr == old(hashTable.repr)
      ensures ntotal == old(ntotal) - 1 && ntotal >= 1 && Invariant(Table(), ntotal)
    {
      hide InBucket, Invariant, Hash, Lower, Renumber, Undef, IsStatus, Lookup, Chain, Apart, FoundAt;
      WindowRuns.UndefInvariant(Table(), ntotal, name);
      HUndef(window, name);
      ReassignWindowRefnums();
    }

    /** destroy_chat_window; its assertion says that the window gets on top. */
    method DestroyChatWindow(name: string) returns (error: Errno)
      requires Healthy()
      modifies hashTable, hashTable.slots, hashTable.repr, this
      ensures Healthy() && (State(), error) == WindowRuns.Destroy(old(State()), name)
      ensures hashTable.repr == old(hashTable.repr)
    {
      hide InBucket, Invariant, Hash, Lower, Renumber, Undef, IsStatus, Lookup, WindowRuns.Present, WindowRuns.ByRefnum, Chain, Apart;
      WindowRuns.DestroyGood(State(), name);
      if name == "" || IsStatus(name) {
        return EINVAL;
      }
      var window := WindowByLabel(name);
      if window == null {
        return ENOENT;
      }
      Close(window, name);
      WindowRuns.ChangeToLast(State());
      error := ChangeWindowByRefnum(ntotal, true);
    }

    lemma SpawnReuses(name: string, limit: int)
      requires Valid()
      ensures name != "" && Labelled(Table(), name) ==> WindowRuns.Spawn(State(), name, limit) == (State(), Ok)
    {
      if name != "" {
        WindowRuns.SpawnIgnoresCase(State(), name, limit);
      }
    }

    /** spawn_chat_window, with the same assertion; `limit` is the configured max_chat_windows. */
    method SpawnChatWindow(name: string, limit: int) returns (error: Errno)
      requires Healthy() && WindowRuns.Limit(limit)
      modifies hashTable, hashTable.slots, this
      ensures Healthy() && (State(), error) == WindowRuns.Spawn(old(State()), name, limit)
      ensures name != "" && old(Labelled(Table(), name)) ==> error == Ok && State() == old(State())
      ensures fresh(hashTable.repr - old(hashTable.repr))
    {
      hide InBucket, Invariant, Hash, Lookup, Lower, Install, WindowRuns.ChangeByLabel, WindowRuns.Present, Chain, Apart;
      WindowRuns.SpawnGood(State(), name, limit);
      SpawnReuses(name, limit);
      if name == "" {
        return EINVAL;
      }
      var window := WindowByLabel(name);
      if window != null {
        return Ok;
      }
      if ntotal + 1 > limit {
        return ENOSPC;
      }
      WindowRuns.InstalledIsFound(State().(ntotal := ntotal + 1), Win(name, ntotal + 1));
      var _ := HInstall(name, ntotal + 1);
      error := ChangeWindowByLabel(name, true);
    }

    /** The first half of window_close_all_priv_conv. Its array of 800 labels never fills up. */
    method CollectPrivConv(kept: string -> bool) returns (privConv: seq<string>)
      requires Valid() && Invariant(Table(), ntotal) && 1 <= ntotal <= BUCKETS
      ensures privConv == WindowRuns.PrivIn(Table(), kept, |Table()|)
    {
      hide IsStatus, Placed, Dense, StatusFirst, Chain, Apart, Chats;
      privConv := [];
      var b := 0;
      while b < hashTable.slots.Length
        invariant b <= |Table()| && privConv == WindowRuns.PrivIn(Table(), kept, b)
      {
        ChatsInGrow(Table(), b, |Table()|);
        privConv := CollectRow(b, privConv, kept);
        b := b + 1;
      }
    }

    method CollectRow(b: nat, collected: seq<string>, kept: string -> bool) returns (privConv: seq<string>)
      requires hashTable.Valid() && b < |Table()| && |collected| + Chats(Table()[b], |Table()[b]|) < 800
      ensures privConv == collected + WindowRuns.PrivRow(Table()[b], kept, |Table()[b]|)
    {
      hide IsStatus;
      privConv := collected;
      ghost var row, k := Table()[b], 0;
      hashTable.NodeHolds(b, 0);
      var window := hashTable.slots[b];
      while window != null
        invariant k <= |row| && window == At(hashTable.chains[b], k)
        invariant privConv == collected + WindowRuns.PrivRow(row, kept, k)
        decreases |row| - k
      {
        hashTable.NodeHolds(b, k);
        ChatsGrow(row, k, |row|);
        if WindowRuns.IsPriv(window.item.name, kept) {
          assert |privConv| < 800;
          privConv := privConv + [window.item.name];
        }
        window := window.next;
        k := k + 1;
      }
    }

    /** window_close_all_priv_conv */
    method WindowCloseAllPrivConv(kept: string -> bool)
      requires Healthy()
      modifies hashTable, hashTable.slots, hashTable.repr, this
      ensures Healthy()
      ensures var l := WindowRuns.PrivIn(old(Table()), kept, |old(Table())|);
              State() == WindowRuns.CloseAll(old(State()), l, |l|)
    {
      hide InBucket, Dense, StatusFirst, WindowRuns.Destroy, WindowRuns.PrivIn, WindowRuns.Present, Chain, Apart;
      var privConv := CollectPrivConv(kept);
      var i := 0;
      while i < |privConv|
        invariant i <= |privConv| && Healthy() && hashTable.repr == old(hashTable.repr)
        invariant State() == WindowRuns.CloseAll(old(State()), privConv, i)
      {
        var _ := DestroyChatWindow(privConv[i]);
        i := i + 1;
      }
    }
  }
}
