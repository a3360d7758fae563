/** VerificationHashTable: the entries are numbered in the order in which they are created, and the pointers between
    them are numbers, with -1 for a null pointer. */
module VerificationHashTable {
  import opened Bits
  import opened HashOrder
  import opened HashTrees

  /** The table of roots, and the left, right and same pointer of every entry */
  datatype Links = Links(roots: seq<int>, left: seq<int>, right: seq<int>, same: seq<int>)

  /** The place of a pointer: what the program holds in a pointer to a pointer */
  datatype Place = Root(bucket: nat) | Left(node: nat) | Right(node: nat) | Same(node: nat)

  /** A pointer leads to a younger entry. */
  ghost predicate Downward(p: seq<int>, n: nat) {
    |p| == n && forall i :: 0 <= i < n ==> p[i] == -1 || i < p[i] < n
  }

  ghost predicate Sound(m: Links, n: nat) {
    && Downward(m.left, n) && Downward(m.right, n) && Downward(m.same, n)
    && forall b :: 0 <= b < |m.roots| ==> -1 <= m.roots[b] < n
  }

  ghost predicate IsPlace(m: Links, p: Place, n: nat) {
    if p.Root? then p.bucket < |m.roots| else p.node < n
  }

  function Follow(m: Links, ghost n: nat, p: Place): (a: int)
    requires Sound(m, n) && IsPlace(m, p, n)
    ensures -1 <= a < n && (!p.Root? ==> a == -1 || a > p.node)
  {
    match p
    case Root(b) => m.roots[b]
    case Left(i) => m.left[i]
    case Right(i) => m.right[i]
    case Same(i) => m.same[i]
  }

  function Put(m: Links, ghost n: nat, p: Place, a: int): (r: Links)
    requires Sound(m, n) && IsPlace(m, p, n) && -1 <= a < n && (!p.Root? ==> a == -1 || a > p.node)
    ensures Sound(r, n) && |r.roots| == |m.roots|
  {
    match p
    case Root(b) => m.(roots := m.roots[b := a])
    case Left(i) => m.(left := m.left[i := a])
    case Right(i) => m.(right := m.right[i := a])
    case Same(i) => m.(same := m.same[i := a])
  }

  // ----- the trees that the pointers form

  ghost function Chain(m: Links, n: nat, a: int): seq<nat>
    requires Sound(m, n) && -1 <= a < n
    decreases if a < 0 then 0 else n - a
  {
    if a < 0 then [] else [a] + Chain(m, n, m.same[a])
  }

  ghost function TreeAt(m: Links, n: nat, a: int): Tree
    requires Sound(m, n) && -1 <= a < n
    decreases if a < 0 then 0 else n - a
  {
    if a < 0 then Leaf else Node(TreeAt(m, n, m.left[a]), Chain(m, n, a), TreeAt(m, n, m.right[a]))
  }

  lemma {:induction false} ChainFrom(m: Links, n: nat, a: int, i: nat)
    requires Sound(m, n) && -1 <= a < n && i in Chain(m, n, a)
    ensures a <= i < n && a >= 0
    decreases if a < 0 then 0 else n - a
  {
    if i != a { ChainFrom(m, n, m.same[a], i); }
  }

  /** A tree holds only its root and younger entries. */
  lemma {:induction false} TreeFrom(m: Links, n: nat, a: int, i: nat)
    requires Sound(m, n) && -1 <= a < n && In(TreeAt(m, n, a), i)
    ensures a <= i < n && a >= 0
    decreases if a < 0 then 0 else n - a
  {
    if i in Chain(m, n, a) {
      ChainFrom(m, n, a, i);
    } else if In(TreeAt(m, n, m.left[a]), i) {
      TreeFrom(m, n, m.left[a], i);
    } else {
      TreeFrom(m, n, m.right[a], i);
    }
  }

  // ----- what a change of one pointer leaves alone


  lemma {:induction false} ChainKept(m: Links, n: nat, p: Place, id: nat, a: int)
    requires Sound(m, n) && IsPlace(m, p, n) && id < n && (!p.Root? ==> id > p.node) && -1 <= a < n
    requires !p.Same? || p.node !in Chain(m, n, a)
    ensures Chain(Put(m, n, p, id), n, a) == Chain(m, n, a)
    decreases if a < 0 then 0 else n - a
  {
    if a >= 0 { ChainKept(m, n, p, id, m.same[a]); }
  }

  lemma {:induction false} TreeKept(m: Links, n: nat, p: Place, id: nat, a: int)
    requires Sound(m, n) && IsPlace(m, p, n) && id < n && (!p.Root? ==> id > p.node) && -1 <= a < n
    requires !p.Root? ==> !In(TreeAt(m, n, a), p.node)
    ensures TreeAt(Put(m, n, p, id), n, a) == TreeAt(m, n, a)
    decreases if a < 0 then 0 else n - a
  {
    if a >= 0 {
      assert a in Chain(m, n, a);
      TreeKept(m, n, p, id, m.left[a]);
      TreeKept(m, n, p, id, m.right[a]);
      ChainKept(m, n, p, id, a);
    }
  }

  // ----- where an entry is inserted

  /** The first loop of Insert */
  ghost function Descend(es: seq<Entry>, m: Links, p: Place, k: Key): (r: Place)
    requires Sound(m, |es|) && IsPlace(m, p, |es|)
    ensures IsPlace(m, r, |es|)
    decreases if Follow(m, |es|, p) < 0 then 0 else |es| - Follow(m, |es|, p)
  {
    var a := Follow(m, |es|, p);
    if a < 0 then p
    else if Below(es[a].key, k) then Descend(es, m, Right(a), k)
    else if Below(k, es[a].key) then Descend(es, m, Left(a), k)
    else p
  }

  /** The second loop of Insert */
  ghost function Last(m: Links, n: nat, p: Place): (r: Place)
    requires Sound(m, n) && IsPlace(m, p, n)
    ensures IsPlace(m, r, n) && Follow(m, n, r) < 0
    decreases if Follow(m, n, p) < 0 then 0 else n - Follow(m, n, p)
  {
    var a := Follow(m, n, p);
    if a < 0 then p else Last(m, n, Same(a))
  }

  lemma {:induction false} LastInChain(m: Links, n: nat, a: nat)
    requires Sound(m, n) && a < n
    ensures Last(m, n, Same(a)).Same? && Last(m, n, Same(a)).node in Chain(m, n, a)
    ensures Last(m, n, Same(a)).node >= a
    decreases n - a
  {
    if m.same[a] >= 0 { LastInChain(m, n, m.same[a]); }
  }

  /** A new entry is the youngest, and has no pointers yet. */
  ghost predicate NewEntry(m: Links, n: nat) {
    Sound(m, n) && n > 0 && m.left[n - 1] == m.right[n - 1] == m.same[n - 1] == -1
  }

  lemma {:induction false} ChainGrows(m: Links, n: nat, a: nat)
    requires NewEntry(m, n) && a < n - 1 && n - 1 !in Chain(m, n, a)
    ensures var p := Last(m, n, Same(a)); p.Same? && p.node < n - 1
    ensures Chain(Put(m, n, Last(m, n, Same(a)), n - 1), n, a) == Chain(m, n, a) + [n - 1]
    decreases n - a
  {
    LastInChain(m, n, a);
    var p := Last(m, n, Same(a));
    var r := Put(m, n, p, n - 1);
    if m.same[a] >= 0 {
      ChainGrows(m, n, m.same[a]);
      LastInChain(m, n, m.same[a]);
      assert r.same[a] == m.same[a];
    } else {
      assert r.same[a] == n - 1 && Chain(r, n, n - 1) == [n - 1] + Chain(r, n, -1);
    }
  }

  /** Where the loops of Insert end */
  ghost function Target(es: seq<Entry>, m: Links, p: Place, k: Key): (r: Place)
    requires Sound(m, |es|) && IsPlace(m, p, |es|)
    ensures IsPlace(m, r, |es|)
  {
    Last(m, |es|, Descend(es, m, p, k))
  }

  /** A place below an entry where the newest entry makes the tree the one with that entry inserted */
  ghost predicate Fitting(es: seq<Entry>, m: Links, q: Place, a: nat)
    requires NewEntry(m, |es|) && IsPlace(m, q, |es|) && a < |es| - 1 && Ordered(es, TreeAt(m, |es|, a))
  {
    var id := |es| - 1;
    && !q.Root? && q.node < id && In(TreeAt(m, |es|, a), q.node)
    && TreeAt(Put(m, |es|, q, id), |es|, a) == Inserted(es, TreeAt(m, |es|, a), id)
  }

  lemma RootIn(m: Links, n: nat, a: nat)
    requires Sound(m, n) && a < n
    ensures Chain(m, n, a) != [] && Chain(m, n, a)[0] == a && a in Chain(m, n, a) && In(TreeAt(m, n, a), a)
  {
  }

  lemma Alone(m: Links, n: nat, q: Place)
    requires NewEntry(m, n) && IsPlace(m, q, n) && (!q.Root? ==> q.node < n - 1)
    ensures TreeAt(Put(m, n, q, n - 1), n, n - 1) == Node(Leaf, [n - 1], Leaf)
  {
    var r := Put(m, n, q, n - 1);
    assert Chain(r, n, n - 1) == [n - 1] + Chain(r, n, -1);
  }

  /** The same subtrees below a longer chain */
  lemma LongerChain(es: seq<Entry>, m: Links, r: Links, a: nat)
    requires |es| > 0 && Sound(m, |es|) && Sound(r, |es|) && a < |es|
    requires r.left[a] == m.left[a] && r.right[a] == m.right[a]
    requires TreeAt(r, |es|, m.left[a]) == TreeAt(m, |es|, m.left[a])
    requires TreeAt(r, |es|, m.right[a]) == TreeAt(m, |es|, m.right[a])
    requires Chain(r, |es|, a) == Chain(m, |es|, a) + [|es| - 1]
    requires es[a].key == es[|es| - 1].key && Ordered(es, TreeAt(m, |es|, a))
    ensures TreeAt(r, |es|, a) == Inserted(es, TreeAt(m, |es|, a), |es| - 1)
  {
    hide Below, Ordered;
    Trichotomy(es[a].key, es[a].key);
    RootIn(m, |es|, a);
    hide Chain;
  }

  /** The end of the chain of an entry is the place for a new one with the same key. */
  lemma EndFits(es: seq<Entry>, m: Links, a: nat, q: Place)
    requires NewEntry(m, |es|) && a < |es| - 1 && Ordered(es, TreeAt(m, |es|, a))
    requires es[a].key == es[|es| - 1].key
    requires IsPlace(m, q, |es|) && q.Same? && q.node < |es| - 1 && q.node in Chain(m, |es|, a)
    requires Chain(Put(m, |es|, q, |es| - 1), |es|, a) == Chain(m, |es|, a) + [|es| - 1]
    ensures Fitting(es, m, q, a)
  {
    hide Below, Ordered, Chain, In, Inserted;
    var n := |es|;
    Apart(es, TreeAt(m, n, a), q.node);
    TreeKept(m, n, q, n - 1, m.left[a]);
    TreeKept(m, n, q, n - 1, m.right[a]);
    hide TreeAt;
    ChainIn(m, n, a, q.node);
    LongerChain(es, m, Put(m, n, q, n - 1), a);
  }

  lemma SameKeyCase(es: seq<Entry>, m: Links, a: nat)
    requires NewEntry(m, |es|) && a < |es| - 1
    requires Ordered(es, TreeAt(m, |es|, a)) && !In(TreeAt(m, |es|, a), |es| - 1)
    requires es[a].key == es[|es| - 1].key
    ensures Fitting(es, m, Last(m, |es|, Same(a)), a)
  {
    hide Below, Ordered, Last, Chain, Fitting, Put;
    RootIn(m, |es|, a);
    NotInChain(m, |es|, a, |es| - 1);
    hide TreeAt, In;
    ChainGrows(m, |es|, a);
    LastInChain(m, |es|, a);
    EndFits(es, m, a, Last(m, |es|, Same(a)));
  }

  lemma NotInChain(m: Links, n: nat, a: nat, i: nat)
    requires Sound(m, n) && a < n && !In(TreeAt(m, n, a), i)
    ensures i !in Chain(m, n, a)
  {
  }

  lemma ChainIn(m: Links, n: nat, a: nat, i: nat)
    requires Sound(m, n) && a < n && i in Chain(m, n, a)
    ensures In(TreeAt(m, n, a), i)
  {
  }

  lemma NoneOnRight(es: seq<Entry>, m: Links, a: nat)
    requires NewEntry(m, |es|) && a < |es| - 1 && Ordered(es, TreeAt(m, |es|, a))
    requires Below(es[a].key, es[|es| - 1].key) && m.right[a] == -1
    ensures Fitting(es, m, Right(a), a)
  {
    assert Ordered(es, Leaf) && Inserted(es, Leaf, |es| - 1) == Node(Leaf, [|es| - 1], Leaf);
    assert TreeAt(m, |es|, m.right[a]) == Leaf;
    hide Below, Ordered, Chain;
    var n := |es|;
    RootIn(m, n, a);
    Apart(es, TreeAt(m, n, a), a);
    TreeKept(m, n, Right(a), n - 1, m.left[a]);
    ChainKept(m, n, Right(a), n - 1, a);
    Alone(m, n, Right(a));
  }

  lemma NoneOnLeft(es: seq<Entry>, m: Links, a: nat)
    requires NewEntry(m, |es|) && a < |es| - 1 && Ordered(es, TreeAt(m, |es|, a))
    requires Below(es[|es| - 1].key, es[a].key) && m.left[a] == -1
    ensures Fitting(es, m, Left(a), a)
  {
    assert Ordered(es, Leaf) && Inserted(es, Leaf, |es| - 1) == Node(Leaf, [|es| - 1], Leaf);
    assert TreeAt(m, |es|, m.left[a]) == Leaf;
    hide Below, Ordered, Chain;
    var n := |es|;
    Trichotomy(es[a].key, es[n - 1].key);
    RootIn(m, n, a);
    Apart(es, TreeAt(m, n, a), a);
    TreeKept(m, n, Left(a), n - 1, m.right[a]);
    ChainKept(m, n, Left(a), n - 1, a);
    Alone(m, n, Left(a));
  }

  lemma Parts(m: Links, n: nat, a: nat, i: nat)
    requires Sound(m, n) && a < n
    ensures TreeAt(m, n, a) == Node(TreeAt(m, n, m.left[a]), Chain(m, n, a), TreeAt(m, n, m.right[a]))
    ensures In(TreeAt(m, n, m.left[a]), i) || In(TreeAt(m, n, m.right[a]), i) ==> In(TreeAt(m, n, a), i)
  {
  }

  lemma OneNode(m: Links, n: nat, q: Place, id: nat, a: nat)
    requires Sound(m, n) && IsPlace(m, q, n) && id < n && a < n && !q.Root? && a < q.node < id
    ensures var r := Put(m, n, q, id);
            TreeAt(r, n, a) == Node(TreeAt(r, n, m.left[a]), Chain(r, n, a), TreeAt(r, n, m.right[a]))
  {
  }

  lemma FurtherRight(es: seq<Entry>, m: Links, q: Place, a: nat)
    requires NewEntry(m, |es|) && IsPlace(m, q, |es|) && a < |es| - 1
    requires Ordered(es, TreeAt(m, |es|, a)) && Ordered(es, TreeAt(m, |es|, m.right[a]))
    requires Below(es[a].key, es[|es| - 1].key) && 0 <= m.right[a] < |es| - 1
    requires Fitting(es, m, q, m.right[a])
    ensures Fitting(es, m, q, a)
  {
    hide Below, Ordered, Chain, Inserted, Put, TreeAt, In;
    var n := |es|;
    Parts(m, n, a, q.node);
    RootIn(m, n, a);
    TreeFrom(m, n, m.right[a], q.node);
    OneNode(m, n, q, n - 1, a);
    InsertedRight(es, TreeAt(m, n, a), a, n - 1);
    Apart(es, TreeAt(m, n, a), q.node);
    TreeKept(m, n, q, n - 1, m.left[a]);
    ChainKept(m, n, q, n - 1, a);
  }

  lemma FurtherLeft(es: seq<Entry>, m: Links, q: Place, a: nat)
    requires NewEntry(m, |es|) && IsPlace(m, q, |es|) && a < |es| - 1
    requires Ordered(es, TreeAt(m, |es|, a)) && Ordered(es, TreeAt(m, |es|, m.left[a]))
    requires Below(es[|es| - 1].key, es[a].key) && 0 <= m.left[a] < |es| - 1
    requires Fitting(es, m, q, m.left[a])
    ensures Fitting(es, m, q, a)
  {
    hide Below, Ordered, Chain, Inserted, Put, TreeAt, In;
    var n := |es|;
    Parts(m, n, a, q.node);
    RootIn(m, n, a);
    TreeFrom(m, n, m.left[a], q.node);
    OneNode(m, n, q, n - 1, a);
    InsertedLeft(es, TreeAt(m, n, a), a, n - 1);
    Apart(es, TreeAt(m, n, a), q.node);
    TreeKept(m, n, q, n - 1, m.right[a]);
    ChainKept(m, n, q, n - 1, a);
  }

  /** The loops of Insert, started at an entry that is not null, end at a fitting place. */
  lemma {:induction false} InsertBelow(es: seq<Entry>, m: Links, p: Place, a: nat)
    requires NewEntry(m, |es|) && IsPlace(m, p, |es|) && a < |es| - 1 && Follow(m, |es|, p) == a
    requires Ordered(es, TreeAt(m, |es|, a)) && !In(TreeAt(m, |es|, a), |es| - 1)
    ensures Fitting(es, m, Target(es, m, p, es[|es| - 1].key), a)
    decreases |es| - a
  {
    hide Below, Fitting;
    var n := |es|;
    Trichotomy(es[a].key, es[n - 1].key);
    RootIn(m, n, a);
    if Below(es[a].key, es[n - 1].key) {
      if m.right[a] < 0 {
        assert Descend(es, m, Right(a), es[n - 1].key) == Right(a);
        NoneOnRight(es, m, a);
      } else {
        RootIn(m, n, m.right[a]);
        InsertBelow(es, m, Right(a), m.right[a]);
        FurtherRight(es, m, Target(es, m, Right(a), es[n - 1].key), a);
      }
    } else if Below(es[n - 1].key, es[a].key) {
      if m.left[a] < 0 {
        assert Descend(es, m, Left(a), es[n - 1].key) == Left(a);
        NoneOnLeft(es, m, a);
      } else {
        RootIn(m, n, m.left[a]);
        InsertBelow(es, m, Left(a), m.left[a]);
        FurtherLeft(es, m, Target(es, m, Left(a), es[n - 1].key), a);
      }
    } else {
      SameKeyCase(es, m, a);
    }
  }

  /** A new entry without pointers changes no tree. */
  function WithNew(m: Links): Links {
    Links(m.roots, m.left + [-1], m.right + [-1], m.same + [-1])
  }

  lemma {:induction false} ChainWithNew(m: Links, n: nat, a: int)
    requires Sound(m, n) && -1 <= a < n
    ensures NewEntry(WithNew(m), n + 1) && Chain(WithNew(m), n + 1, a) == Chain(m, n, a)
    decreases if a < 0 then 0 else n - a
  {
    if a >= 0 { ChainWithNew(m, n, m.same[a]); }
  }

  lemma {:induction false} TreeWithNew(m: Links, n: nat, a: int)
    requires Sound(m, n) && -1 <= a < n
    ensures NewEntry(WithNew(m), n + 1) && TreeAt(WithNew(m), n + 1, a) == TreeAt(m, n, a)
    decreases if a < 0 then 0 else n - a
  {
    if a >= 0 {
      TreeWithNew(m, n, m.left[a]);
      TreeWithNew(m, n, m.right[a]);
      ChainWithNew(m, n, a);
    }
  }

  /** Every bucket agrees with the list. */
  ghost predicate Agrees(es: seq<Entry>, m: Links) {
    && Sound(m, |es|) && |m.roots| > 0
    && forall b :: 0 <= b < |m.roots| ==> Holds(es, TreeAt(m, |es|, m.roots[b]), b, |m.roots|)
  }

  /** The loops of Insert, started at the root of a bucket */
  lemma InsertAtRoot(es: seq<Entry>, m: Links, b: nat)
    requires NewEntry(m, |es|) && b < |m.roots| && m.roots[b] < |es| - 1
    requires Ordered(es, TreeAt(m, |es|, m.roots[b])) && !In(TreeAt(m, |es|, m.roots[b]), |es| - 1)
    ensures var q := Target(es, m, Root(b), es[|es| - 1].key);
            && (q.Root? ==> q == Root(b)) && (!q.Root? ==> q.node < |es| - 1 && In(TreeAt(m, |es|, m.roots[b]), q.node))
            && var r := Put(m, |es|, q, |es| - 1);
               TreeAt(r, |es|, r.roots[b]) == Inserted(es, TreeAt(m, |es|, m.roots[b]), |es| - 1)
  {
    var a := m.roots[b];
    if a >= 0 {
      hide Below, Descend, Last;
      InsertBelow(es, m, Root(b), a);
    } else {
      assert Target(es, m, Root(b), es[|es| - 1].key) == Root(b);
      hide Below, Descend, Last, Chain;
      Alone(m, |es|, Root(b));
    }
  }

  lemma InsertAgrees(es: seq<Entry>, e: Entry, m: Links, b: nat)
    requires Agrees(es, m) && b < |m.roots| && e.key.crc % |m.roots| == b
    ensures NewEntry(WithNew(m), |es| + 1)
    ensures var q := Target(es + [e], WithNew(m), Root(b), e.key);
            && (!q.Root? ==> q.node < |es|)
            && Agrees(es + [e], Put(WithNew(m), |es| + 1, q, |es|))
  {
    hide Holds, Inserted, Ordered, Below, Descend, Last, Chain;
    var n, es1, m1 := |es|, es + [e], WithNew(m);
    var before := TreeAt(m, n, m.roots[b]);
    TreeWithNew(m, n, m.roots[b]);
    BucketInserted(es, e, before, b, |m.roots|);
    if In(before, n) { TreeFrom(m, n, m.roots[b], n); }
    InsertAtRoot(es1, m1, b);
    var q := Target(es1, m1, Root(b), e.key);
    var r := Put(m1, n + 1, q, n);
    forall c | 0 <= c < |m.roots| ensures Holds(es1, TreeAt(r, n + 1, r.roots[c]), c, |m.roots|) {
      if c != b {
        TreeWithNew(m, n, m.roots[c]);
        BucketGrown(es, e, TreeAt(m, n, m.roots[c]), c, |m.roots|);
        OtherBucket(es, m, b, c, q);
        TreeKept(m1, n + 1, q, n, m1.roots[c]);
      }
    }
  }

  lemma OtherBucket(es: seq<Entry>, m: Links, b: nat, c: nat, q: Place)
    requires Agrees(es, m) && b < |m.roots| && c < |m.roots| && b != c
    requires !q.Root? ==> In(TreeAt(m, |es|, m.roots[b]), q.node)
    ensures !q.Root? ==> !In(TreeAt(m, |es|, m.roots[c]), q.node)
  {
    hide In, Ordered, TreeAt, Found, Matching;
    assert Holds(es, TreeAt(m, |es|, m.roots[b]), b, |m.roots|);
    assert Holds(es, TreeAt(m, |es|, m.roots[c]), c, |m.roots|);
  }

  // ----- searching

  lemma PowerBelow(k: nat)
    requires 8 <= k <= 16
    ensures Pow2(k) < 65536 <==> k < 16
    ensures Pow2(k + 1) == 2 * Pow2(k) && Pow2(k) >= 256 && Pow2(k) <= 65536
  {
    assert Pow2(8) == 256;
    assert Pow2(12) == 4096;
    assert Pow2(16) == 65536;
    if k == 9 {
    } else if k == 10 {
    } else if k == 11 {
    } else if k == 13 {
    } else if k == 14 {
    } else if k == 15 {
    }
  }

  /** The whole of what a bucket says about a key: the node found by checksum and then by hash holds exactly the
      entries of the list with that key, oldest first. */
  lemma LookedUp(es: seq<Entry>, m: Links, k: Key)
    requires Agrees(es, m)
    ensures var t := TreeAt(m, |es|, m.roots[k.crc % |m.roots|]);
            && Ordered(es, t) && Ordered(es, WithCrc(es, t, k.crc))
            && Found(es, WithCrc(es, t, k.crc), k) == Matching(es, k)
  {
    hide Ordered, Found, WithCrc, Matching;
    var b := k.crc % |m.roots|;
    assert Holds(es, TreeAt(m, |es|, m.roots[b]), b, |m.roots|);
    WithCrcComplete(es, TreeAt(m, |es|, m.roots[b]), k);
  }

  /** VerificationHashEntry::Search for a checksum */
  method SearchCrc(es: seq<Entry>, m: Links, start: int, crc: nat) returns (entry: int)
    requires Sound(m, |es|) && -1 <= start < |es| && Ordered(es, TreeAt(m, |es|, start))
    ensures -1 <= entry < |es| && TreeAt(m, |es|, entry) == WithCrc(es, TreeAt(m, |es|, start), crc)
  {
    hide Below;
    entry := start;
    while entry >= 0
      invariant -1 <= entry < |es| && Ordered(es, TreeAt(m, |es|, entry))
      invariant WithCrc(es, TreeAt(m, |es|, entry), crc) == WithCrc(es, TreeAt(m, |es|, start), crc)
      decreases if entry < 0 then 0 else |es| - entry
    {
      RootIn(m, |es|, entry);
      if es[entry].key.crc < crc {
        entry := m.right[entry];
      } else if es[entry].key.crc > crc {
        entry := m.left[entry];
      } else {
        return;
      }
    }
  }

  /** VerificationHashEntry::Search for a hash, among the entries with the checksum of the first one */
  method SearchHash(es: seq<Entry>, m: Links, start: int, hash: Hash) returns (entry: int)
    requires Sound(m, |es|) && 0 <= start < |es| && Ordered(es, TreeAt(m, |es|, start))
    ensures -1 <= entry < |es|
    ensures Chain(m, |es|, entry) == Found(es, TreeAt(m, |es|, start), Key(es[start].key.crc, hash))
  {
    hide Below;
    entry := start;
    var key := Key(es[start].key.crc, hash);
    while entry >= 0
      invariant -1 <= entry < |es| && Ordered(es, TreeAt(m, |es|, entry))
      invariant Found(es, TreeAt(m, |es|, entry), key) == Found(es, TreeAt(m, |es|, start), key)
      decreases if entry < 0 then 0 else |es| - entry
    {
      RootIn(m, |es|, entry);
      var less := KeyLess(es[entry].key, key);
      var greater := KeyLess(key, es[entry].key);
      if less {
        entry := m.right[entry];
      } else if greater {
        entry := m.left[entry];
      } else {
        return;
      }
    }
  }

  /** The two loops of VerificationHashEntry::Insert */
  method FindPlace(es: seq<Entry>, m: Links, start: Place, key: Key) returns (parent: Place)
    requires Sound(m, |es|) && IsPlace(m, start, |es|)
    ensures IsPlace(m, parent, |es|) && parent == Target(es, m, start, key)
  {
    hide Below;
    parent := start;
    ghost var n := |es|;
    var a := Follow(m, n, parent);
    while a >= 0
      invariant IsPlace(m, parent, n) && a == Follow(m, n, parent)
      invariant Descend(es, m, parent, key) == Descend(es, m, start, key)
      decreases if a < 0 then 0 else n - a
    {
      var less := KeyLess(es[a].key, key);
      var greater := KeyLess(key, es[a].key);
      if less {
        parent := Right(a);
      } else if greater {
        parent := Left(a);
      } else {
        break;
      }
      a := Follow(m, n, parent);
    }
    while a >= 0
      invariant IsPlace(m, parent, n) && a == Follow(m, n, parent)
      invariant Last(m, n, parent) == Target(es, m, start, key)
      decreases if a < 0 then 0 else n - a
    {
      parent := Same(a);
      a := Follow(m, n, parent);
    }
  }

  class VerificationHashTable {
    /** The entries in the order of their creation; the program has only pointers to them. */
    var entries: seq<Entry>
    var links: Links
    /** The next entry of the same source file */
    var next: seq<int>
    var hashmask: nat

    ghost predicate Valid()
      reads this
    {
      && Agrees(entries, links) && |links.roots| == hashmask + 1
      && |next| == |entries|
    }

    /** The constructor and SetLimit: the size is a power of two, the least one that is not below the limit, but at
        least 256 and at most 65536. */
    constructor (limit: nat)
      ensures Valid() && entries == [] && next == []
      ensures exists k :: 8 <= k <= 16 && hashmask + 1 == Pow2(k)
      ensures hashmask + 1 >= limit || hashmask + 1 == 65536
      ensures hashmask + 1 < 2 * limit || hashmask + 1 == 256
    {
      var size := 256;
      ghost var k := 8;
      assert Pow2(4) == 16 && Pow2(8) == 256;
      assert Pow2(12) == 4096 && Pow2(16) == 65536;
      while size < limit && size < 65536
        invariant 8 <= k <= 16 && size == Pow2(k)
        invariant size < 2 * limit || size == 256
        decreases 16 - k
      {
        PowerBelow(k);
        size := 2 * size;
        k := k + 1;
      }
      PowerBelow(k);
      hide *;
      entries, next := [], [];
      links := Links(seq(size, _ => -1), [], [], []);
      hashmask := size - 1;
    }

    /** A new entry is created and inserted in its bucket. */
    method Insert(e: Entry) returns (id: nat)
      requires Valid()
      modifies this
      ensures Valid() && hashmask == old(hashmask)
      ensures id == old(|entries|) && entries == old(entries) + [e] && next == old(next) + [-1]
    {
      hide Agrees, Below;
      id := |entries|;
      var b := e.key.crc % (hashmask + 1);
      ghost var es, m := entries, links;
      entries, next := entries + [e], next + [-1];
      links := WithNew(links);
      InsertAgrees(es, e, m, b);
      var parent := FindPlace(entries, links, Root(b), e.key);
      links := Put(links, id + 1, parent, id);
    }

    /** Load: the blocks of a source file, in order, each pointing to the next one */
    method Load(file: nat, verification: seq<Key>)
      requires Valid()
      modifies this
      ensures Valid() && hashmask == old(hashmask)
      ensures entries == old(entries) + Loaded(file, verification)
      ensures next == old(next) + Sequence(old(|entries|), |verification|)
    {
      hide Agrees;
      var preventry := -1;
      var base := |entries|;
      for blocknumber := 0 to |verification|
        invariant Valid() && hashmask == old(hashmask)
        invariant entries == old(entries) + Loaded(file, verification)[..blocknumber]
        invariant next == old(next) + Sequence(base, blocknumber)
        invariant preventry == if blocknumber == 0 then -1 else base + blocknumber - 1
      {
        var entry := Insert(Entry(verification[blocknumber], file, blocknumber));
        if preventry >= 0 {
          next := next[preventry := entry];
        }
        preventry := entry;
      }
    }

    /** Lookup by checksum: it fails exactly if no entry with the checksum was loaded. */
    method Lookup(crc: nat) returns (entry: int)
      requires Valid()
      ensures -1 <= entry < |entries|
      ensures entry < 0 <==> forall i :: 0 <= i < |entries| ==> entries[i].key.crc != crc
      ensures entry >= 0 ==> entries[entry].key.crc == crc && FirstWith(entry, crc)
    {
      hide Below, WithCrc, Found, Matching;
      var b := crc % (hashmask + 1);
      assert Holds(entries, TreeAt(links, |entries|, links.roots[b]), b, |links.roots|);
      entry := SearchCrc(entries, links, links.roots[b], crc);
      ChecksumFound(entries, TreeAt(links, |entries|, links.roots[b]), b, |links.roots|, crc);
      if entry >= 0 { RootIn(links, |entries|, entry); }
    }

    /** The search for a checksum ends at this entry. */
    ghost predicate FirstWith(entry: nat, crc: nat)
      requires Agrees(entries, links) && |links.roots| == hashmask + 1
      reads this
    {
      var t := TreeAt(links, |entries|, links.roots[crc % |links.roots|]);
      entry < |entries| && Ordered(entries, t) && TreeAt(links, |entries|, entry) == WithCrc(entries, t, crc)
    }

    /** Lookup continued by hash: the chain of the entry that is found holds exactly the entries that were loaded with
        the checksum and the hash, in the order in which they were loaded. */
    method LookupHash(start: nat, hash: Hash) returns (entry: int)
      requires Valid() && start < |entries| && FirstWith(start, entries[start].key.crc)
      ensures -1 <= entry < |entries|
      ensures Chain(links, |entries|, entry) == Matching(entries, Key(entries[start].key.crc, hash))
      ensures entry >= 0 ==> entries[entry].key == Key(entries[start].key.crc, hash)
    {
      hide Holds, Below, WithCrc, Found, Matching, Ordered;
      var key := Key(entries[start].key.crc, hash);
      LookedUp(entries, links, key);
      entry := SearchHash(entries, links, start, hash);
      if entry >= 0 {
        RootIn(links, |entries|, entry);
        MatchingComplete(entries, key, entry);
      }
    }
  }

  /** The entries of a source file */
  function Loaded(file: nat, verification: seq<Key>): (r: seq<Entry>)
    ensures |r| == |verification|
  {
    seq(|verification|, i requires 0 <= i < |verification| => Entry(verification[i], file, i))
  }

  /** The next pointers of count entries from base on */
  function Sequence(base: nat, count: nat): (r: seq<int>)
    ensures |r| == count
  {
    seq(count, i requires 0 <= i < count => if i + 1 < count then base + i + 1 else -1)
  }
}
