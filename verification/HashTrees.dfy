/** The trees of the verification hash table as values: in each node the chain of the entries with one key, and
    below it smaller keys on the left and larger ones on the right. Entries are numbered in the order in which
    they were loaded. */
module HashTrees {
  import opened HashOrder

  /** VerificationHashEntry: the key of a block of a source file */
  datatype Entry = Entry(key: Key, file: nat, block: nat)

  datatype Tree = Leaf | Node(left: Tree, chain: seq<nat>, right: Tree)

  predicate In(t: Tree, i: nat) {
    t.Node? && (i in t.chain || In(t.left, i) || In(t.right, i))
  }

  /** A chain holds entries with one key. */
  ghost predicate OneKey(es: seq<Entry>, chain: seq<nat>) {
    && chain != []
    && (forall j :: 0 <= j < |chain| ==> chain[j] < |es|)
    && (forall j :: 0 <= j < |chain| ==> es[chain[j]].key == es[chain[0]].key)
  }

  ghost predicate AllBelow(es: seq<Entry>, t: Tree, k: Key) {
    forall i: nat :: In(t, i) ==> i < |es| && Below(es[i].key, k)
  }

  ghost predicate AllAbove(es: seq<Entry>, t: Tree, k: Key) {
    forall i: nat :: In(t, i) ==> i < |es| && Below(k, es[i].key)
  }

  ghost predicate Ordered(es: seq<Entry>, t: Tree) {
    t.Node? ==>
      && OneKey(es, t.chain)
      && AllBelow(es, t.left, es[t.chain[0]].key) && AllAbove(es, t.right, es[t.chain[0]].key)
      && Ordered(es, t.left) && Ordered(es, t.right)
  }

  /** The parts of an ordered tree have no entry in common. */
  lemma Apart(es: seq<Entry>, t: Tree, i: nat)
    requires Ordered(es, t) && t.Node?
    ensures i in t.chain ==> !In(t.left, i) && !In(t.right, i)
    ensures !(In(t.left, i) && In(t.right, i))
  {
    hide Below;
    if i < |es| {
      Trichotomy(es[i].key, es[t.chain[0]].key);
    }
  }

  /** Insertion of an entry */
  ghost function Inserted(es: seq<Entry>, t: Tree, id: nat): Tree
    requires Ordered(es, t) && id < |es|
  {
    if t.Leaf? then Node(Leaf, [id], Leaf)
    else if Below(es[t.chain[0]].key, es[id].key) then t.(right := Inserted(es, t.right, id))
    else if Below(es[id].key, es[t.chain[0]].key) then t.(left := Inserted(es, t.left, id))
    else t.(chain := t.chain + [id])
  }

  lemma InsertedRight(es: seq<Entry>, t: Tree, a: nat, id: nat)
    requires Ordered(es, t) && id < |es| && t.Node? && |t.chain| > 0 && t.chain[0] == a < |es|
    requires Below(es[a].key, es[id].key)
    ensures Ordered(es, t.right) && Inserted(es, t, id) == Node(t.left, t.chain, Inserted(es, t.right, id))
  {
  }

  lemma InsertedLeft(es: seq<Entry>, t: Tree, a: nat, id: nat)
    requires Ordered(es, t) && id < |es| && t.Node? && |t.chain| > 0 && t.chain[0] == a < |es|
    requires Below(es[id].key, es[a].key)
    ensures Ordered(es, t.left) && Inserted(es, t, id) == Node(Inserted(es, t.left, id), t.chain, t.right)
  {
  }

  lemma {:induction false} InsertedIn(es: seq<Entry>, t: Tree, id: nat, i: nat)
    requires Ordered(es, t) && id < |es|
    ensures In(Inserted(es, t, id), i) <==> In(t, i) || i == id
  {
    hide Below, AllBelow, AllAbove;
    if t.Node? {
      InsertedIn(es, t.left, id, i);
      InsertedIn(es, t.right, id, i);
    }
  }

  lemma {:induction false} InsertedOrdered(es: seq<Entry>, t: Tree, id: nat)
    requires Ordered(es, t) && id < |es|
    ensures Ordered(es, Inserted(es, t, id))
  {
    if t.Node? {
      hide Below;
      Trichotomy(es[t.chain[0]].key, es[id].key);
      if Below(es[t.chain[0]].key, es[id].key) {
        InsertedOrdered(es, t.right, id);
        forall i: nat ensures In(Inserted(es, t.right, id), i) <==> In(t.right, i) || i == id {
          InsertedIn(es, t.right, id, i);
        }
      } else if Below(es[id].key, es[t.chain[0]].key) {
        InsertedOrdered(es, t.left, id);
        forall i: nat ensures In(Inserted(es, t.left, id), i) <==> In(t.left, i) || i == id {
          InsertedIn(es, t.left, id, i);
        }
      }
    }
  }

  /** The chain of a key, found by going down the tree */
  ghost function Found(es: seq<Entry>, t: Tree, k: Key): seq<nat>
    requires Ordered(es, t)
  {
    if t.Leaf? then []
    else if Below(es[t.chain[0]].key, k) then Found(es, t.right, k)
    else if Below(k, es[t.chain[0]].key) then Found(es, t.left, k)
    else t.chain
  }

  /** Insertion appends to one chain and leaves the others alone. */
  lemma {:induction false} InsertedFound(es: seq<Entry>, t: Tree, id: nat, k: Key)
    requires Ordered(es, t) && id < |es|
    ensures Ordered(es, Inserted(es, t, id))
    ensures Found(es, Inserted(es, t, id), k) == if es[id].key == k then Found(es, t, k) + [id] else Found(es, t, k)
  {
    InsertedOrdered(es, t, id);
    Trichotomy(es[id].key, k);
    if t.Node? {
      hide Below, AllBelow, AllAbove;
      var head := es[t.chain[0]].key;
      Trichotomy(head, es[id].key);
      Trichotomy(head, k);
      if Below(head, es[id].key) {
        InsertedFound(es, t.right, id, k);
      } else if Below(es[id].key, head) {
        InsertedFound(es, t.left, id, k);
      } else {
        assert (t.chain + [id])[0] == t.chain[0];
      }
    }
  }

  /** The subtree at the first node with a checksum */
  ghost function WithCrc(es: seq<Entry>, t: Tree, crc: nat): Tree
    requires Ordered(es, t)
  {
    if t.Leaf? then Leaf
    else if es[t.chain[0]].key.crc < crc then WithCrc(es, t.right, crc)
    else if es[t.chain[0]].key.crc > crc then WithCrc(es, t.left, crc)
    else t
  }

  /** It is there exactly if an entry has that checksum, and searching on from it misses no entry with it. */
  lemma {:induction false} WithCrcComplete(es: seq<Entry>, t: Tree, k: Key)
    requires Ordered(es, t)
    ensures Ordered(es, WithCrc(es, t, k.crc))
    ensures Found(es, WithCrc(es, t, k.crc), k) == Found(es, t, k)
  {
    if t.Node? {
      WithCrcComplete(es, t.left, k);
      WithCrcComplete(es, t.right, k);
    }
  }

  lemma {:induction false} WithCrcExists(es: seq<Entry>, t: Tree, crc: nat, i: nat)
    requires Ordered(es, t) && In(t, i)
    ensures i < |es|
    ensures es[i].key.crc == crc ==> WithCrc(es, t, crc).Node?
    decreases t
  {
    if In(t.left, i) {
      WithCrcExists(es, t.left, crc, i);
    } else if In(t.right, i) {
      WithCrcExists(es, t.right, crc, i);
    }
  }

  /** More entries do not change the trees of the earlier ones. */
  lemma {:induction false} Grown(es: seq<Entry>, e: Entry, t: Tree)
    requires Ordered(es, t)
    ensures Ordered(es + [e], t)
  {
    if t.Node? {
      hide Below;
      Grown(es, e, t.left);
      Grown(es, e, t.right);
      assert OneKey(es + [e], t.chain);
    }
  }

  lemma {:induction false} GrownFound(es: seq<Entry>, e: Entry, t: Tree, k: Key)
    requires Ordered(es, t)
    ensures Ordered(es + [e], t) && Found(es + [e], t, k) == Found(es, t, k)
  {
    Grown(es, e, t);
    if t.Node? {
      hide Below, AllBelow, AllAbove;
      GrownFound(es, e, t.left, k);
      GrownFound(es, e, t.right, k);
    }
  }

  // ----- a bucket agrees with the list of all entries

  /** The entries of the list with a key, in order */
  ghost function Matching(es: seq<Entry>, k: Key): seq<nat> {
    if es == [] then []
    else Matching(es[..|es| - 1], k) + if es[|es| - 1].key == k then [|es| - 1] else []
  }

  lemma {:induction false} MatchingComplete(es: seq<Entry>, k: Key, i: nat)
    ensures i in Matching(es, k) <==> i < |es| && es[i].key == k
  {
    if es != [] { MatchingComplete(es[..|es| - 1], k, i); }
  }

  lemma {:induction false} MatchingIncreases(es: seq<Entry>, k: Key, i: nat, j: nat)
    requires i < j < |Matching(es, k)|
    ensures Matching(es, k)[i] < Matching(es, k)[j]
  {
    var rest := Matching(es[..|es| - 1], k);
    if j < |rest| {
      MatchingIncreases(es[..|es| - 1], k, i, j);
    } else {
      MatchingComplete(es[..|es| - 1], k, rest[i]);
    }
  }

  lemma MatchingOne(es: seq<Entry>, e: Entry, k: Key)
    ensures Matching(es + [e], k) == Matching(es, k) + if e.key == k then [|es|] else []
  {
    assert (es + [e])[..|es|] == es;
  }

  /** A tree is that of bucket b of a table of some size. */
  ghost predicate Holds(es: seq<Entry>, t: Tree, b: nat, size: nat)
    requires size > 0
  {
    && Ordered(es, t)
    && (forall i: nat :: In(t, i) ==> i < |es| && es[i].key.crc % size == b)
    && (forall k: Key :: k.crc % size == b ==> Found(es, t, k) == Matching(es, k))
  }

  lemma BucketInserted(es: seq<Entry>, e: Entry, t: Tree, b: nat, size: nat)
    requires size > 0 && Holds(es, t, b, size) && e.key.crc % size == b
    ensures Ordered(es + [e], t) && Holds(es + [e], Inserted(es + [e], t, |es|), b, size)
  {
    hide Ordered, Found, Inserted, Matching, In;
    var es1, id := es + [e], |es|;
    Grown(es, e, t);
    InsertedOrdered(es1, t, id);
    forall i: nat | In(Inserted(es1, t, id), i) ensures i < |es1| && es1[i].key.crc % size == b {
      InsertedIn(es1, t, id, i);
    }
    forall k: Key | k.crc % size == b ensures Found(es1, Inserted(es1, t, id), k) == Matching(es1, k) {
      GrownFound(es, e, t, k);
      InsertedFound(es1, t, id, k);
      MatchingOne(es, e, k);
    }
  }

  lemma BucketGrown(es: seq<Entry>, e: Entry, t: Tree, b: nat, size: nat)
    requires size > 0 && Holds(es, t, b, size) && e.key.crc % size != b
    ensures Holds(es + [e], t, b, size)
  {
    hide Ordered, Found, Matching, In;
    Grown(es, e, t);
    forall k: Key | k.crc % size == b ensures Found(es + [e], t, k) == Matching(es + [e], k) {
      GrownFound(es, e, t, k);
      MatchingOne(es, e, k);
    }
  }

  lemma {:induction false} FoundIn(es: seq<Entry>, t: Tree, k: Key, i: nat)
    requires Ordered(es, t) && i in Found(es, t, k)
    ensures In(t, i) && i < |es|
  {
    hide Below;
    if i !in t.chain {
      if Below(es[t.chain[0]].key, k) { FoundIn(es, t.right, k, i); } else { FoundIn(es, t.left, k, i); }
    }
  }

  /** The search for a checksum fails exactly if the list has no entry with it. */
  lemma ChecksumFound(es: seq<Entry>, t: Tree, b: nat, size: nat, crc: nat)
    requires size > 0 && Holds(es, t, b, size) && crc % size == b
    ensures WithCrc(es, t, crc).Node? <==> exists i: nat :: i < |es| && es[i].key.crc == crc
    ensures WithCrc(es, t, crc).Node? ==>
              OneKey(es, WithCrc(es, t, crc).chain) && es[WithCrc(es, t, crc).chain[0]].key.crc == crc
  {
    hide Matching, In, Found;
    forall i: nat | i < |es| && es[i].key.crc == crc ensures WithCrc(es, t, crc).Node? {
      MatchingComplete(es, es[i].key, i);
      assert Found(es, t, es[i].key) == Matching(es, es[i].key);
      FoundIn(es, t, es[i].key, i);
      WithCrcExists(es, t, crc, i);
    }
    WithCrcHead(es, t, crc);
  }

  lemma {:induction false} WithCrcHead(es: seq<Entry>, t: Tree, crc: nat)
    requires Ordered(es, t)
    ensures WithCrc(es, t, crc).Node? ==>
              OneKey(es, WithCrc(es, t, crc).chain) && es[WithCrc(es, t, crc).chain[0]].key.crc == crc
  {
    if t.Node? {
      hide AllAbove, AllBelow;
      WithCrcHead(es, t.left, crc);
      WithCrcHead(es, t.right, crc);
    }
  }
}
