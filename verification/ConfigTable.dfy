/** The bit operations of hash_pjw_g (src/libUtils.c), in 32 bits. */
module PjwBits {
  function Shifted(h: bv32, c: bv32): bv32 {
    (h << 4) + c
  }

  function Top(h: bv32): bv32 {
    h & 0xf000_0000
  }

  function Mixed(h: bv32, tmp: bv32): bv32 {
    h ^ (tmp >> 24)
  }

  function Cleared(h: bv32, tmp: bv32): bv32 {
    h ^ tmp
  }

  /** The accumulator after one more character. */
  function Step(h: bv32, c: bv32): bv32 {
    var h1 := Shifted(h, c);
    if Top(h1) != 0 then Cleared(Mixed(h1, Top(h1)), Top(h1)) else h1
  }

  predicate Small(h: bv32) {
    h < 0x1000_0000
  }

  /** After every character the accumulator is below 2^28, whatever it was, so that the next shift
      loses nothing. */
  lemma StepIsSmall(h: bv32, c: bv32)
    ensures Small(Step(h, c))
  {
    hide Shifted;
    var h1 := Shifted(h, c);
    assert Cleared(Mixed(h1, Top(h1)), Top(h1)) < 0x1000_0000;
  }

  /** The character is added to sixteen times the accumulator; then the top four bits are taken away
      and folded onto the bits 4 to 7. */
  lemma StepFolds(h: bv32, c: bv32, sum: bv32)
    requires sum == h * 16 + c
    ensures Folded(Step(h, c), sum)
  {
    hide Shifted, Top, Mixed, Cleared, Folded;
    ShiftAdds(h, c);
    Folds(sum);
    if Top(sum) == 0 {
      NothingToFold(sum);
    }
  }

  ghost predicate Folded(r: bv32, sum: bv32) {
    r & 0xFFFF_FF0F == sum & 0x0FFF_FF0F && (r >> 4) & 0xF == ((sum >> 4) & 0xF) ^ (sum >> 28)
  }

  lemma ShiftAdds(h: bv32, c: bv32)
    ensures Shifted(h, c) == h * 16 + c
  {
    assert h * 16 == h << 4;
  }

  lemma Folds(sum: bv32)
    ensures Folded(Cleared(Mixed(sum, Top(sum)), Top(sum)), sum)
  {
  }

  lemma NothingToFold(sum: bv32)
    requires Top(sum) == 0
    ensures Folded(sum, sum)
  {
  }

  method AddChar(was: bv32, c: bv32) returns (hashval: bv32)
    ensures hashval == Step(was, c)
  {
    hide Top, Mixed, Cleared, Shifted;
    hashval := Shifted(was, c);
    var tmp := Top(hashval);
    if tmp != 0 {
      hashval := Mixed(hashval, tmp);
      hashval := Cleared(hashval, tmp);
    }
  }
}

/** The settings table of src/config.cpp: a chained hash table over hash_pjw_g that is a finite
    map from names to values. */
module ConfigTable {
  import opened Wrappers
  import opened Chains
  import PjwBits

  const BUCKETS: nat := 300

  datatype Errno = Ok | EBUSY | ENOENT

  datatype Entry = Entry(name: string, value: string)

  type Table = seq<seq<Entry>>

  // ----- hash_pjw_g -----

  /** A character as it is added to the accumulator: sign-extended. */
  function Code(c: char): bv32 {
    (SignedChar(c) % 0x1_0000_0000) as bv32
  }

  function Pjw(s: string, n: nat): (h: bv32)
    requires n <= |s|
  {
    if n == 0 then 0 else PjwBits.Step(Pjw(s, n - 1), Code(s[n - 1]))
  }

  function Hash(name: string): (h: nat)
    ensures h < BUCKETS
  {
    (Pjw(name, |name|) as int) % BUCKETS
  }

  /** The bucket of one setting. */
  lemma BucketOfDcc()
    ensures Hash("dcc") == 283
  {
    hide PjwBits.Step, Code;
    var s := "dcc";
    CodesOfDcc();
    StepValues();
    assert Pjw(s, 1) == 0x64 && Pjw(s, 2) == 0x6A3 && Pjw(s, 3) == 0x6A93;
    assert (0x6A93 as bv32) as int == 27283;
  }

  lemma CodesOfDcc()
    ensures Code('d') == 0x64 && Code('c') == 0x63
  {
    assert SignedChar('d') == 0x64 && SignedChar('c') == 0x63;
  }

  lemma StepValues()
    ensures PjwBits.Step(0, 0x64) == 0x64 && PjwBits.Step(0x64, 0x63) == 0x6A3 && PjwBits.Step(0x6A3, 0x63) == 0x6A93
  {
  }

  method HashPjw(str: string) returns (h: nat)
    ensures h == Hash(str)
  {
    hide PjwBits.Step, Code;
    var hashval: bv32 := 0;
    var cp := 0;
    while cp < |str|
      invariant 0 <= cp <= |str| && hashval == Pjw(str, cp)
    {
      hashval := PjwBits.AddChar(hashval, Code(str[cp]));
      cp := cp + 1;
    }
    h := (hashval as int) % BUCKETS;
  }

  // ----- The table as a map -----

  ghost predicate InBucket(row: seq<Entry>, b: int) {
    && (forall i :: 0 <= i < |row| ==> Hash(row[i].name) == b)
    && (forall i, j :: 0 <= i < j < |row| ==> row[i].name != row[j].name)
  }

  /** Every entry is in the bucket of its name, and no name is there twice. */
  ghost predicate Placed(t: Table) {
    |t| == BUCKETS && forall b :: 0 <= b < BUCKETS ==> InBucket(t[b], b)
  }

  function Find(row: seq<Entry>, name: string, from: nat): (k: nat)
    requires from <= |row|
    ensures from <= k <= |row| && (k < |row| ==> row[k].name == name)
    ensures forall i :: from <= i < k ==> row[i].name != name
    decreases |row| - from
  {
    if from == |row| || row[from].name == name then from else Find(row, name, from + 1)
  }

  /** The place of `name` in its bucket, the length of the bucket when it is not there. */
  ghost function Place(t: Table, name: string): (k: nat)
    requires |t| == BUCKETS
    ensures k <= |t[Hash(name)]|
  {
    Find(t[Hash(name)], name, 0)
  }

  ghost predicate Defines(t: Table, name: string)
    requires |t| == BUCKETS
  {
    Place(t, name) < |t[Hash(name)]|
  }

  ghost function Names(t: Table): set<string> {
    set b, i | 0 <= b < |t| && 0 <= i < |t[b]| :: t[b][i].name
  }

  /** What the table means. */
  ghost function AsMap(t: Table): map<string, string>
    requires |t| == BUCKETS
  {
    map name | name in Names(t) && Defines(t, name) :: t[Hash(name)][Place(t, name)].value
  }

  /** A search in one bucket decides the whole table. */
  lemma DefinesIsMember(t: Table, name: string)
    requires Placed(t)
    ensures Defines(t, name) <==> name in Names(t)
    ensures Defines(t, name) <==> name in AsMap(t)
  {
    if name in Names(t) {
      var b, i :| 0 <= b < |t| && 0 <= i < |t[b]| && t[b][i].name == name;
      assert InBucket(t[b], b);
    }
    if Defines(t, name) {
      assert t[Hash(name)][Place(t, name)].name == name;
    }
  }

  function Install(t: Table, e: Entry): Table
    requires |t| == BUCKETS
  {
    var h := Hash(e.name);
    t[h := [e] + t[h]]
  }

  lemma {:induction false} FindBehind(row: seq<Entry>, e: Entry, name: string, from: nat)
    requires from <= |row| && name != e.name
    ensures Find([e] + row, name, from + 1) == Find(row, name, from) + 1
    decreases |row| - from
  {
    if from < |row| {
      assert ([e] + row)[from + 1] == row[from];
      FindBehind(row, e, name, from + 1);
    }
  }

  lemma InstallFind(t: Table, e: Entry, name: string)
    requires |t| == BUCKETS
    ensures name == e.name ==> Defines(Install(t, e), name) && Install(t, e)[Hash(name)][Place(Install(t, e), name)] == e
    ensures name != e.name ==> (Defines(Install(t, e), name) <==> Defines(t, name))
    ensures name != e.name && Defines(t, name) ==>
              Install(t, e)[Hash(name)][Place(Install(t, e), name)] == t[Hash(name)][Place(t, name)]
  {
    hide Hash;
    if name != e.name {
      FindBehind(t[Hash(name)], e, name, 0);
    }
  }

  /** Installing a new name adds exactly it. */
  lemma InstallIsUpdate(t: Table, e: Entry)
    requires Placed(t) && !Defines(t, e.name)
    ensures Placed(Install(t, e)) && AsMap(Install(t, e)) == AsMap(t)[e.name := e.value]
  {
    hide Hash, Find;
    var u := Install(t, e);
    InstallPlaced(t, e);
    forall name
      ensures name in AsMap(u) <==> name in AsMap(t)[e.name := e.value]
      ensures name in AsMap(u) ==> AsMap(u)[name] == AsMap(t)[e.name := e.value][name]
    {
      InstallFind(t, e, name);
      DefinesIsMember(t, name);
      DefinesIsMember(u, name);
    }
  }

  lemma InstallPlaced(t: Table, e: Entry)
    requires Placed(t) && !Defines(t, e.name)
    ensures Placed(Install(t, e))
  {
    hide Hash;
    forall b | 0 <= b < BUCKETS ensures InBucket(Install(t, e)[b], b) {
      assert InBucket(t[b], b);
    }
  }

  function Undef(t: Table, h: nat, k: nat): Table
    requires h < |t| && k < |t[h]|
  {
    t[h := Without(t[h], k)]
  }

  lemma {:induction false} FindWithout(row: seq<Entry>, k: nat, name: string, from: nat)
    requires k < |row| && from < |row| && name != row[k].name
    ensures var f := Find(row, name, if from <= k then from else from + 1);
            Find(Without(row, k), name, from) == if f <= k then f else f - 1
    decreases |row| - from
  {
    if from < |row| - 1 {
      FindWithout(row, k, name, from + 1);
    }
  }

  lemma UndefPlaced(t: Table, name: string)
    requires Placed(t) && Defines(t, name)
    ensures Placed(Undef(t, Hash(name), Place(t, name)))
  {
    hide Hash;
    forall b | 0 <= b < BUCKETS ensures InBucket(Undef(t, Hash(name), Place(t, name))[b], b) {
      assert InBucket(t[b], b);
    }
  }

  /** Other names keep their values, and the removed name is gone. */
  lemma UndefFind(t: Table, name: string, x: string)
    requires Placed(t) && Defines(t, name)
    ensures var u := Undef(t, Hash(name), Place(t, name));
            && (x == name ==> !Defines(u, x))
            && (x != name ==> (Defines(u, x) <==> Defines(t, x)))
            && (x != name && Defines(t, x) ==> u[Hash(x)][Place(u, x)] == t[Hash(x)][Place(t, x)])
  {
    hide Hash;
    var h, k := Hash(name), Place(t, name);
    var u: Table := Undef(t, h, k);
    assert InBucket(t[h], h);
    if x == name {
      assert forall i :: 0 <= i < |u[h]| ==> u[h][i].name != name;
    } else {
      FindWithout(t[h], k, x, 0);
    }
  }

  /** Unlinking removes exactly one name. */
  lemma UndefIsRemoval(t: Table, name: string)
    requires Placed(t) && Defines(t, name)
    ensures var u := Undef(t, Hash(name), Place(t, name));
            Placed(u) && AsMap(u) == AsMap(t) - {name}
  {
    hide Hash, Find, Undef;
    var u := Undef(t, Hash(name), Place(t, name));
    UndefPlaced(t, name);
    forall x
      ensures x in AsMap(u) <==> x in AsMap(t) - {name}
      ensures x in AsMap(u) ==> AsMap(u)[x] == (AsMap(t) - {name})[x]
    {
      UndefFind(t, name, x);
      DefinesIsMember(t, x);
      DefinesIsMember(u, x);
    }
  }

  /** A row of the table of known settings: name, default value, and the tabs that line it up. */
  datatype Default = Default(name: string, value: string, padding: nat)

  /** The map once every missing known setting has its default. */
  ghost function Completed(m: map<string, string>, defs: seq<Default>, n: nat): map<string, string>
    requires n <= |defs|
  {
    if n == 0 then m
    else
      var c := Completed(m, defs, n - 1);
      if defs[n - 1].name in c then c else c[defs[n - 1].name := defs[n - 1].value]
  }

  ghost predicate DistinctNames(defs: seq<Default>) {
    forall j, k :: 0 <= j < k < |defs| ==> defs[j].name != defs[k].name
  }

  /** `x` is the name of one of the first `n` known settings. */
  ghost predicate Among(defs: seq<Default>, n: nat, x: string)
    requires n <= |defs|
  {
    exists k :: 0 <= k < n && defs[k].name == x
  }

  /** Afterwards every known setting is there: with its own default if it was missing, and otherwise,
      like every unknown one, with the value it had. */
  lemma {:induction false} DefaultsFillIn(m: map<string, string>, defs: seq<Default>, n: nat)
    requires n <= |defs| && DistinctNames(defs)
    ensures var c := Completed(m, defs, n);
            && (forall x :: x in c <==> x in m || Among(defs, n, x))
            && (forall k :: 0 <= k < n && defs[k].name !in m ==> c[defs[k].name] == defs[k].value)
            && (forall x :: x in m ==> c[x] == m[x])
  {
    hide Among;
    if n == 0 {
      forall x ensures !Among(defs, 0, x) {
        AmongNext(defs, 0, x);
      }
    } else {
      DefaultsFillIn(m, defs, n - 1);
      forall x ensures Among(defs, n, x) <==> Among(defs, n - 1, x) || x == defs[n - 1].name {
        AmongNext(defs, n, x);
      }
      AmongAll(defs, n);
    }
  }

  lemma AmongNext(defs: seq<Default>, n: nat, x: string)
    requires n <= |defs|
    ensures n == 0 ==> !Among(defs, n, x)
    ensures n > 0 ==> (Among(defs, n, x) <==> Among(defs, n - 1, x) || x == defs[n - 1].name)
  {
    if n > 0 && x == defs[n - 1].name {
      assert 0 <= n - 1 < n && defs[n - 1].name == x;
    }
  }

  /** With distinct names, the last of the first `n` is none of the others. */
  lemma AmongAll(defs: seq<Default>, n: nat)
    requires 0 < n <= |defs| && DistinctNames(defs)
    ensures !Among(defs, n - 1, defs[n - 1].name)
    ensures forall k :: 0 <= k < n ==> Among(defs, n, defs[k].name)
  {
  }

  // ----- The SASL password: its first character says how it is stored -----

  const SASL_PASSWORD := "sasl_password"
  const DECRYPTED := '%'
  const ENCRYPTED := '#'
  const UNENCRYPTED := '?'

  /** get_sasl_passwd_type, for a stored value. */
  function PasswdType(value: string): (c: char)
    ensures c == DECRYPTED || c == ENCRYPTED || c == UNENCRYPTED
  {
    if value != "" && (value[0] == DECRYPTED || value[0] == ENCRYPTED || value[0] == UNENCRYPTED) then value[0]
    else UNENCRYPTED
  }

  /** What Config answers for a stored value. */
  function Answered(name: string, value: string): string {
    if name != SASL_PASSWORD then value
    else if value != "" && value[0] == PasswdType(value) then value[1..]
    else ""
  }

  class Config {
    const hashTable: Buckets<Entry>

    ghost predicate Valid()
      reads hashTable, hashTable.slots, hashTable.repr
    {
      hashTable.Valid() && Placed(hashTable.rows)
    }

    /** The settings. */
    ghost function Settings(): map<string, string>
      requires Valid()
      reads hashTable, hashTable.slots, hashTable.repr
    {
      AsMap(hashTable.rows)
    }

    constructor ()
      ensures Valid() && Settings() == map[]
      ensures fresh(hashTable) && fresh(hashTable.slots) && fresh(hashTable.repr)
    {
      hashTable := new Buckets(BUCKETS);
    }

    /** `e` is the node at the place of `name`. */
    ghost predicate FoundAt(e: Node<Entry>, name: string)
      requires |hashTable.rows| == BUCKETS
      reads hashTable
    {
      var h, k := Hash(name), Place(hashTable.rows, name);
      && Defines(hashTable.rows, name) && h < |hashTable.chains| && k < |hashTable.chains[h]|
      && e == hashTable.chains[h][k]
    }

    /** get_hash_table_entry */
    method GetHashTableEntry(name: string) returns (e: Node?<Entry>)
      requires Valid()
      ensures e != null <==> name in Settings()
      ensures e != null ==> e in hashTable.repr && e.item == Entry(name, Settings()[name])
      ensures e != null ==> FoundAt(e, name)
    {
      hide InBucket, Pjw, Apart, Chain;
      DefinesIsMember(hashTable.rows, name);
      var h := HashPjw(name);
      ghost var row, k := hashTable.rows[h], 0;
      hashTable.NodeHolds(h, 0);
      e := hashTable.slots[h];
      while e != null
        invariant k <= |row| && e == At(hashTable.chains[h], k) && Find(row, name, k) == Find(row, name, 0)
        decreases |row| - k
      {
        hashTable.NodeHolds(h, k);
        if name == e.item.name {
          return;
        }
        e := e.next;
        k := k + 1;
      }
    }

    /** hInstall */
    method HInstall(name: string, value: string)
      requires Valid() && name !in Settings()
      modifies hashTable, hashTable.slots
      ensures Valid() && Settings() == old(Settings())[name := value]
      ensures fresh(hashTable.repr - old(hashTable.repr))
    {
      hide InBucket, Pjw, Find, Apart, Chain;
      DefinesIsMember(hashTable.rows, name);
      InstallIsUpdate(hashTable.rows, Entry(name, value));
      var h := HashPjw(name);
      var _ := hashTable.Push(h, Entry(name, value));
    }

    /** config_item_install */
    method ConfigItemInstall(name: string, value: string) returns (error: Errno)
      requires Valid()
      modifies hashTable, hashTable.slots
      ensures Valid() && fresh(hashTable.repr - old(hashTable.repr))
      ensures error == if name in old(Settings()) then EBUSY else Ok
      ensures Settings() == if error == Ok then old(Settings())[name := value] else old(Settings())
    {
      hide InBucket, AsMap, Apart, Chain;
      var e := GetHashTableEntry(name);
      if e != null {
        return EBUSY;
      }
      HInstall(name, value);
      error := Ok;
    }

    /** config_item_undef, with hUndef */
    method ConfigItemUndef(name: string) returns (error: Errno)
      requires Valid()
      modifies hashTable, hashTable.slots, hashTable.repr
      ensures Valid() && hashTable.repr == old(hashTable.repr)
      ensures error == if name in old(Settings()) then Ok else ENOENT
      ensures Settings() == old(Settings()) - {name}
    {
      hide InBucket, Pjw, Find, Apart, Chain;
      var entry := GetHashTableEntry(name);
      if entry == null {
        return ENOENT;
      }
      UndefIsRemoval(hashTable.rows, name);
      var h := HashPjw(entry.item.name);
      hashTable.Unlink(h, entry, Place(hashTable.rows, name));
      error := Ok;
    }

    /** Config: the value, or nothing for an unknown name. */
    method Value(name: string) returns (value: string)
      requires Valid()
      ensures value == if name in Settings() then Answered(name, Settings()[name]) else ""
    {
      var e := GetHashTableEntry(name);
      value := if e != null then Answered(name, e.item.value) else "";
    }

    /** get_sasl_passwd_type */
    method GetSaslPasswdType() returns (c: char)
      requires Valid()
      ensures c == PasswdType(if SASL_PASSWORD in Settings() then Settings()[SASL_PASSWORD] else "")
    {
      var e := GetHashTableEntry(SASL_PASSWORD);
      c := PasswdType(if e != null then e.item.value else "");
    }

    /** init_missing_to_defs */
    method InitMissingToDefs(defs: seq<Default>)
      requires Valid()
      modifies hashTable, hashTable.slots
      ensures Valid() && Settings() == Completed(old(Settings()), defs, |defs|)
      ensures DistinctNames(defs) ==>
                && (forall k :: 0 <= k < |defs| && defs[k].name !in old(Settings()) ==>
                      defs[k].name in Settings() && Settings()[defs[k].name] == defs[k].value)
                && (forall x :: x in old(Settings()) ==> x in Settings() && Settings()[x] == old(Settings())[x])
      ensures fresh(hashTable.repr - old(hashTable.repr))
    {
      hide InBucket, AsMap, Apart, Chain;
      if DistinctNames(defs) {
        DefaultsFillIn(Settings(), defs, |defs|);
      }
      var i := 0;
      while i < |defs|
        invariant 0 <= i <= |defs| && Valid() && fresh(hashTable.repr - old(hashTable.repr))
        invariant Settings() == Completed(old(Settings()), defs, i)
      {
        var e := GetHashTableEntry(defs[i].name);
        if e == null {
          HInstall(defs[i].name, defs[i].value);
        }
        i := i + 1;
      }
    }
  }
}
