/** The chained hash table that src/window.c and src/config.cpp both build by hand: an array of
    singly linked entries, with insertion in front of a bucket and removal through a pointer to
    the pointer. What a bucket index means is left to the users. */
module Chains {
  class Node<T> {
    var item: T
    var next: Node?<T>

    constructor (item: T)
      ensures this.item == item
    {
      this.item, next := item, null;
    }
  }

  ghost function At<T>(s: seq<Node<T>>, i: int): Node?<T> {
    if 0 <= i < |s| then s[i] else null
  }

  ghost predicate NodeAt<T>(s: seq<Node<T>>, row: seq<T>, i: int)
    requires 0 <= i < |s| == |row|
    reads s
  {
    s[i].next == At(s, i + 1) && s[i].item == row[i]
  }

  /** A walk along `next` from `head` meets the nodes `s`, and they hold `row`. */
  ghost predicate Chain<T>(head: Node?<T>, s: seq<Node<T>>, row: seq<T>)
    reads s
  {
    |s| == |row| && head == At(s, 0) && forall i :: 0 <= i < |s| ==> NodeAt(s, row, i)
  }

  /** No node is in two places. */
  ghost predicate Apart<T>(chains: seq<seq<Node<T>>>) {
    forall b, i, c, j ::
      0 <= b < |chains| && 0 <= i < |chains[b]| && 0 <= c < |chains| && 0 <= j < |chains[c]| && chains[b][i] == chains[c][j]
      ==> b == c && i == j
  }

  function Without<T>(s: seq<T>, k: nat): (r: seq<T>)
    requires k < |s|
    ensures |r| == |s| - 1
    ensures forall i :: 0 <= i < k ==> r[i] == s[i]
    ensures forall i :: k <= i < |r| ==> r[i] == s[i + 1]
  {
    s[..k] + s[k + 1..]
  }

  class Buckets<T> {
    const slots: array<Node?<T>>
    /** The nodes of each bucket, in the order of its chain, and what they hold. */
    ghost var chains: seq<seq<Node<T>>>
    ghost var rows: seq<seq<T>>
    ghost var repr: set<Node<T>>

    ghost predicate Valid()
      reads this, slots, repr
    {
      && |chains| == |rows| == slots.Length
      && (forall b, i :: 0 <= b < |chains| && 0 <= i < |chains[b]| ==> chains[b][i] in repr)
      && (forall b :: 0 <= b < |chains| ==> Chain(slots[b], chains[b], rows[b]))
      && Apart(chains)
    }

    constructor (n: nat)
      ensures Valid() && fresh(slots) && fresh(repr) && slots.Length == n
      ensures rows == seq(n, _ => [])
    {
      slots := new Node?<T>[n](_ => null);
      chains, rows, repr := seq(n, _ => []), seq(n, _ => []), {};
    }

    /** A new node in front of bucket `h`. */
    method Push(h: nat, item: T) returns (entry: Node<T>)
      requires Valid() && h < slots.Length
      modifies slots, `chains, `rows, `repr
      ensures Valid() && fresh(entry) && repr == old(repr) + {entry}
      ensures chains == old(chains)[h := [entry] + old(chains)[h]]
      ensures rows == old(rows)[h := [item] + old(rows)[h]]
    {
      hide Apart;
      entry := new Node(item);
      assert Chain(slots[h], chains[h], rows[h]);
      entry.next := slots[h];
      slots[h] := entry;
      ghost var s, row := [entry] + chains[h], [item] + rows[h];
      PushApart(h, entry);
      chains, rows, repr := chains[h := s], rows[h := row], repr + {entry};
      forall b | 0 <= b < |chains| ensures Chain(slots[b], chains[b], rows[b]) {
        if b == h {
          assert slots[b] == entry && chains[b] == s && rows[b] == row;
          forall i | 0 <= i < |s| ensures NodeAt(s, row, i) {
            assert i > 0 ==> old(NodeAt(chains[h], rows[h], i - 1));
          }
        } else {
          assert old(Chain(slots[b], chains[b], rows[b]));
          forall i | 0 <= i < |chains[b]| ensures NodeAt(chains[b], rows[b], i) {
            assert old(NodeAt(chains[b], rows[b], i));
          }
        }
      }
    }

    lemma PushApart(h: nat, entry: Node<T>)
      requires Apart(chains) && h < |chains|
      requires forall b, i :: 0 <= b < |chains| && 0 <= i < |chains[b]| ==> chains[b][i] != entry
      ensures Apart(chains[h := [entry] + chains[h]])
    {
      var cs := chains[h := [entry] + chains[h]];
      forall b, i | 0 <= b < |cs| && 0 <= i < |cs[b]|
        ensures cs[b][i] == if b == h && i == 0 then entry else chains[b][if b == h then i - 1 else i]
      {
      }
    }

    lemma WithoutApart(h: nat, k: nat)
      requires Apart(chains) && h < |chains| && k < |chains[h]|
      ensures Apart(chains[h := Without(chains[h], k)])
    {
      var cs := chains[h := Without(chains[h], k)];
      forall b, i | 0 <= b < |cs| && 0 <= i < |cs[b]|
        ensures cs[b][i] == chains[b][if b == h && i >= k then i + 1 else i]
      {
      }
    }

    /** Follows the pointer to `entry`, wherever it is stored, and lets it skip `entry`. */
    method Skip(h: nat, entry: Node<T>, ghost k: nat)
      requires Valid() && h < slots.Length && k < |chains[h]| && chains[h][k] == entry
      modifies slots, chains[h]`next
      ensures forall b :: 0 <= b < slots.Length && b != h ==> slots[b] == old(slots[b])
      ensures slots[h] == if k == 0 then At(chains[h], 1) else old(slots[h])
      ensures forall i :: 0 <= i < |chains[h]| && i != k - 1 ==> chains[h][i].next == old(chains[h][i].next)
      ensures k > 0 ==> chains[h][k - 1].next == At(chains[h], k + 1)
    {
      assert Chain(slots[h], chains[h], rows[h]);
      assert NodeAt(chains[h], rows[h], k);
      if slots[h] == entry {
        assert chains[h][0] == chains[h][k];
        slots[h] := entry.next;
      } else {
        var indirect := slots[h];
        ghost var j := 0;
        while indirect.next != entry
          invariant j < k && indirect == chains[h][j]
          decreases k - j
        {
          assert NodeAt(chains[h], rows[h], j);
          indirect := indirect.next;
          j := j + 1;
        }
        assert NodeAt(chains[h], rows[h], j) && chains[h][j + 1] == chains[h][k];
        indirect.next := entry.next;
      }
    }

    /** Takes the node at place `k` out of bucket `h`; every other node stays where it is. */
    method Unlink(h: nat, entry: Node<T>, ghost k: nat)
      requires Valid() && h < slots.Length && k < |chains[h]| && chains[h][k] == entry
      modifies slots, `chains, `rows, repr`next
      ensures Valid() && |old(rows)[h]| == |old(chains)[h]|
      ensures chains == old(chains)[h := Without(old(chains)[h], k)]
      ensures rows == old(rows)[h := Without(old(rows)[h], k)]
    {
      assert Chain(slots[h], chains[h], rows[h]);
      WithoutApart(h, k);
      Skip(h, entry, k);
      hide Apart;
      ghost var s, row := Without(chains[h], k), Without(rows[h], k);
      chains, rows := chains[h := s], rows[h := row];
      forall b | 0 <= b < |chains| ensures Chain(slots[b], chains[b], rows[b]) {
        assert old(Chain(slots[b], chains[b], rows[b]));
        forall i | 0 <= i < |chains[b]| ensures NodeAt(chains[b], rows[b], i) {
          assert old(NodeAt(chains[b], rows[b], if b == h && i >= k then i + 1 else i));
        }
      }
    }

    /** The node met after `k` steps through bucket `h`. */
    lemma NodeHolds(h: nat, k: nat)
      requires Valid() && h < slots.Length
      ensures |chains[h]| == |rows[h]|
      ensures k < |rows[h]| ==> chains[h][k].item == rows[h][k] && chains[h][k].next == At(chains[h], k + 1)
      ensures slots[h] == At(chains[h], 0)
    {
      assert Chain(slots[h], chains[h], rows[h]);
      assert k < |rows[h]| ==> NodeAt(chains[h], rows[h], k);
    }

    /** Overwrites what the node at place `k` of bucket `h` holds. */
    method Set(h: nat, entry: Node<T>, item: T, ghost k: nat)
      requires Valid() && h < slots.Length && k < |chains[h]| && chains[h][k] == entry
      modifies `rows, entry`item
      ensures Valid() && |old(rows)[h]| == |chains[h]|
      ensures rows == old(rows)[h := old(rows)[h][k := item]]
    {
      assert Chain(slots[h], chains[h], rows[h]);
      entry.item := item;
      rows := rows[h := rows[h][k := item]];
      forall b | 0 <= b < |chains| ensures Chain(slots[b], chains[b], rows[b]) {
        assert old(Chain(slots[b], chains[b], rows[b]));
        forall i | 0 <= i < |chains[b]| ensures NodeAt(chains[b], rows[b], i) {
          assert old(NodeAt(chains[b], rows[b], i));
        }
      }
    }
  }
}
