/**
 * Value-level model of the binary search tree of rbtree.rs.
 *
 * A `Tree` value is a node together with the subtrees it owns; `Nil` stands
 * for an absent child (`None` in the source), so a tree handle, which always
 * has a root, is a `Node`. The operations of the source appear here as
 * functions; the lemmas state what they promise. The class in module RBTrees
 * keeps one of these values as the ghost view of its nodes.
 */
module TreeModel {

  datatype Option<T> = None | Some(value: T)

  /** The colour tag of a node (`red` and `black` in the source). */
  datatype Color = Red | Black

  /** The direction taken when descending from a node to one of its children. */
  datatype Dir = Left | Right

  datatype Tree = Nil | Node(color: Color, key: int, value: int, left: Tree, right: Tree)

  // ---------------------------------------------------------------------------
  // The operations of the source
  // ---------------------------------------------------------------------------

  /** The colour `make_child` gives to a child of a node coloured `c`. */
  function Opposite(c: Color): (d: Color)
    ensures d != c
  {
    if c == Black then Red else Black
  }

  /** A single node with no children, as `create_with_color` builds it. */
  function CreateWithColor(k: int, v: int, c: Color): (t: Tree)
    ensures t.Node? && t.color == c && Height(t) == 1
    ensures Entries(t) == {(k, v)} && Find(t, k) == Some(v)
    ensures Ordered(t) && Alternating(t)
  {
    Node(c, k, v, Nil, Nil)
  }

  /** `create`: a single black node. */
  function Create(k: int, v: int): (t: Tree)
    ensures t.Node? && t.color == Black && Height(t) == 1
    ensures Entries(t) == {(k, v)} && Find(t, k) == Some(v)
    ensures Ordered(t) && Alternating(t)
  {
    CreateWithColor(k, v, Black)
  }

  /** `make_child`: a new childless node whose colour is the opposite of its parent's. */
  function MakeChild(parentColor: Color, k: int, v: int): (t: Tree)
    ensures t.Node? && t.color != parentColor
    ensures t.left == Nil && t.right == Nil && Entries(t) == {(k, v)}
  {
    CreateWithColor(k, v, Opposite(parentColor))
  }

  /** `max`: the larger of two values, `b` when they are equal. */
  function Max(a: int, b: int): (m: int)
    ensures m >= a && m >= b
    ensures m == a || m == b
  {
    if a > b then a else b
  }

  /**
   * `find`: stop at an equal key, go left when the node's key is greater
   * than `k` and right otherwise; falling off the tree gives `None`.
   */
  function Find(t: Tree, k: int): (r: Option<int>)
    ensures r.Some? ==> k in Keys(t)
  {
    match t
    case Nil => None
    case Node(_, key, value, l, r) =>
      if k == key then Some(value)
      else if key > k then Find(l, k)
      else Find(r, k)
  }

  /**
   * `insert`: descend by comparison; an equal key leaves the node as it is,
   * and an absent child on the way becomes a new node made by `make_child`.
   */
  function Insert(t: Tree, k: int, v: int): (u: Tree)
    requires t.Node?
    ensures u.Node? && u.color == t.color && u.key == t.key && u.value == t.value
  {
    if k < t.key then
      var l := if t.left == Nil then MakeChild(t.color, k, v) else Insert(t.left, k, v);
      Node(t.color, t.key, t.value, l, t.right)
    else if k > t.key then
      var r := if t.right == Nil then MakeChild(t.color, k, v) else Insert(t.right, k, v);
      Node(t.color, t.key, t.value, t.left, r)
    else
      t
  }

  /**
   * `height`: 1 for a node without children, otherwise 1 plus the larger
   * height of its children; an absent child counts as 0.
   */
  function Height(t: Tree): (h: nat)
    ensures t.Node? <==> h >= 1
  {
    match t
    case Nil => 0
    case Node(_, _, _, Nil, Nil) => 1
    case Node(_, _, _, l, r) => 1 + Max(Height(l), Height(r))
  }

  /** `sum`: the node's value plus the sums of the children it has. */
  function Sum(t: Tree): (s: int)
    ensures (forall e | e in Entries(t) :: e.1 >= 0) ==>
              s >= 0 && forall e | e in Entries(t) :: e.1 <= s
  {
    match t
    case Nil => 0
    case Node(_, _, value, l, r) =>
      assert Entries(l) <= Entries(t) && Entries(r) <= Entries(t);
      value + Sum(l) + Sum(r)
  }

  // ---------------------------------------------------------------------------
  // Views of a tree used to state the properties
  // ---------------------------------------------------------------------------

  /** The keys stored in the tree. */
  ghost function Keys(t: Tree): set<int>
  {
    match t
    case Nil => {}
    case Node(_, key, _, l, r) => Keys(l) + {key} + Keys(r)
  }

  /** The number of nodes of the tree. */
  ghost function Size(t: Tree): nat
  {
    match t
    case Nil => 0
    case Node(_, _, _, l, r) => Size(l) + 1 + Size(r)
  }

  /** The key/value pairs stored in the tree. */
  ghost function Entries(t: Tree): set<(int, int)>
  {
    match t
    case Nil => {}
    case Node(_, key, value, l, r) => Entries(l) + {(key, value)} + Entries(r)
  }

  /** What a node records: its key, its value and its colour. */
  ghost function LabelOf(t: Tree): (int, int, Color)
    requires t.Node?
  {
    (t.key, t.value, t.color)
  }

  /** The labels of all nodes of the tree. */
  ghost function Labels(t: Tree): set<(int, int, Color)>
  {
    match t
    case Nil => {}
    case Node(_, _, _, l, r) => Labels(l) + {LabelOf(t)} + Labels(r)
  }

  /** The parent-to-child links of the tree, as pairs of labels. */
  ghost function Edges(t: Tree): set<((int, int, Color), (int, int, Color))>
  {
    match t
    case Nil => {}
    case Node(_, _, _, l, r) =>
      Edges(l) + Edges(r)
      + (if l.Node? then {(LabelOf(t), LabelOf(l))} else {})
      + (if r.Node? then {(LabelOf(t), LabelOf(r))} else {})
  }

  /** Binary-search-tree order: smaller keys on the left, greater on the right. */
  ghost predicate Ordered(t: Tree)
  {
    match t
    case Nil => true
    case Node(_, key, _, l, r) =>
      && Ordered(l) && Ordered(r)
      && (forall x :: x in Keys(l) ==> x < key)
      && (forall x :: x in Keys(r) ==> key < x)
  }

  /** Every child has the colour opposite to its parent's. */
  ghost predicate Alternating(t: Tree)
  {
    match t
    case Nil => true
    case Node(c, _, _, l, r) =>
      && (l.Node? ==> l.color == Opposite(c))
      && (r.Node? ==> r.color == Opposite(c))
      && Alternating(l) && Alternating(r)
  }

  /** The last node the descent for `k` visits: where `find` stops or falls off. */
  ghost function Attach(t: Tree, k: int): (a: Tree)
    requires t.Node?
    ensures a.Node?
  {
    if k == t.key then t
    else if t.key > k then (if t.left == Nil then t else Attach(t.left, k))
    else (if t.right == Nil then t else Attach(t.right, k))
  }

  /** The subtree reached by following `path` from the root (`Nil` once it falls off). */
  ghost function Subtree(t: Tree, path: seq<Dir>): Tree
  {
    if path == [] || t == Nil then t
    else Subtree(if path[0] == Left then t.left else t.right, path[1..])
  }

  /** The tree after inserting every pair of `ops` in turn. */
  function Build(t: Tree, ops: seq<(int, int)>): Tree
    requires t.Node?
    decreases ops
  {
    if ops == [] then t else Build(Insert(t, ops[0].0, ops[0].1), ops[1..])
  }

  /** The value paired with the first occurrence of key `k` in `ops`, if any. */
  function FirstValue(ops: seq<(int, int)>, k: int): Option<int>
  {
    if ops == [] then None
    else if ops[0].0 == k then Some(ops[0].1)
    else FirstValue(ops[1..], k)
  }

  // ---------------------------------------------------------------------------
  // find
  // ---------------------------------------------------------------------------

  lemma {:induction false} EntryHasKey(t: Tree, k: int, v: int)
    requires (k, v) in Entries(t)
    ensures k in Keys(t)
  {
    match t
    case Node(_, key, value, l, r) =>
      if (k, v) in Entries(l) {
        EntryHasKey(l, k, v);
      } else if (k, v) in Entries(r) {
        EntryHasKey(r, k, v);
      }
  }

  /** Whatever `find` returns is stored in the tree under `k`, ordered or not. */
  lemma {:induction false} FindSound(t: Tree, k: int)
    ensures Find(t, k).Some? ==> (k, Find(t, k).value) in Entries(t)
  {
    match t
    case Nil =>
    case Node(_, key, _, l, r) =>
      if k != key {
        if key > k { FindSound(l, k); } else { FindSound(r, k); }
      }
  }

  /** On an ordered tree `find` gives `v` exactly when some node holds `k` and `v`. */
  lemma {:induction false} FindExact(t: Tree, k: int, v: int)
    requires Ordered(t)
    ensures Find(t, k) == Some(v) <==> (k, v) in Entries(t)
    ensures Find(t, k) == None <==> k !in Keys(t)
  {
    match t
    case Nil =>
    case Node(_, key, value, l, r) =>
      FindExact(l, k, v);
      FindExact(r, k, v);
      if (k, v) in Entries(l) { EntryHasKey(l, k, v); }
      if (k, v) in Entries(r) { EntryHasKey(r, k, v); }
  }

  // ---------------------------------------------------------------------------
  // insert
  // ---------------------------------------------------------------------------

  /** A key that `find` meets is never overwritten: the tree stays exactly as it was. */
  lemma {:induction false} InsertPresent(t: Tree, k: int, v: int)
    requires t.Node? && Find(t, k).Some?
    ensures Insert(t, k, v) == t
  {
    if k < t.key {
      InsertPresent(t.left, k, v);
    } else if k > t.key {
      InsertPresent(t.right, k, v);
    }
  }

  /**
   * After an insert, `find` returns the new value for `k` when `k` was not
   * found before, and otherwise exactly what it returned before.
   */
  lemma {:induction false} FindAfterInsert(t: Tree, k: int, v: int, k': int)
    requires t.Node?
    ensures Find(Insert(t, k, v), k') ==
            if k' == k && Find(t, k) == None then Some(v) else Find(t, k')
  {
    if k < t.key {
      if t.left != Nil { FindAfterInsert(t.left, k, v, k'); }
    } else if k > t.key {
      if t.right != Nil { FindAfterInsert(t.right, k, v, k'); }
    }
  }

  /** Inserting adds `k` to the keys, and adds `(k, v)` to the entries exactly when `k` was not found. */
  lemma {:induction false} InsertContents(t: Tree, k: int, v: int)
    requires t.Node?
    ensures Keys(Insert(t, k, v)) == Keys(t) + {k}
    ensures Entries(Insert(t, k, v)) ==
            if Find(t, k) == None then Entries(t) + {(k, v)} else Entries(t)
  {
    if Find(t, k).Some? {
      InsertPresent(t, k, v);
      FindSound(t, k);
      EntryHasKey(t, k, Find(t, k).value);
    } else if k < t.key {
      if t.left != Nil { InsertContents(t.left, k, v); }
    } else {
      if t.right != Nil { InsertContents(t.right, k, v); }
    }
  }

  /** Inserting into an ordered tree keeps it ordered. */
  lemma {:induction false} InsertOrdered(t: Tree, k: int, v: int)
    requires t.Node? && Ordered(t)
    ensures Ordered(Insert(t, k, v))
  {
    if k < t.key {
      if t.left != Nil {
        InsertOrdered(t.left, k, v);
        InsertContents(t.left, k, v);
      }
    } else if k > t.key {
      if t.right != Nil {
        InsertOrdered(t.right, k, v);
        InsertContents(t.right, k, v);
      }
    }
  }

  /**
   * Inserting an absent key adds exactly one node, with the new key and
   * value and the colour opposite to that of the node where the descent ran
   * out, linked as a child of that node; every other node keeps its key,
   * value, colour and links.
   */
  lemma {:induction false} InsertShape(t: Tree, k: int, v: int)
    requires t.Node? && Find(t, k) == None
    ensures var a := Attach(t, k);
            var n := (k, v, Opposite(a.color));
            && LabelOf(a) in Labels(t)
            && Labels(Insert(t, k, v)) == Labels(t) + {n}
            && Edges(Insert(t, k, v)) == Edges(t) + {(LabelOf(a), n)}
            && Size(Insert(t, k, v)) == Size(t) + 1
  {
    if k < t.key {
      if t.left != Nil { InsertShape(t.left, k, v); }
    } else {
      if t.right != Nil { InsertShape(t.right, k, v); }
    }
  }

  /** When every child's colour is the opposite of its parent's, an insert keeps it so. */
  lemma {:induction false} InsertAlternating(t: Tree, k: int, v: int)
    requires t.Node? && Alternating(t)
    ensures Alternating(Insert(t, k, v))
  {
    if k < t.key {
      if t.left != Nil { InsertAlternating(t.left, k, v); }
    } else if k > t.key {
      if t.right != Nil { InsertAlternating(t.right, k, v); }
    }
  }

  /** One insert never lowers the height and raises it by at most 1. */
  lemma {:induction false} InsertHeight(t: Tree, k: int, v: int)
    requires t.Node?
    ensures Height(t) <= Height(Insert(t, k, v)) <= Height(t) + 1
  {
    if k < t.key {
      if t.left != Nil { InsertHeight(t.left, k, v); }
    } else if k > t.key {
      if t.right != Nil { InsertHeight(t.right, k, v); }
    }
  }

  /** An insert adds `v` to the sum exactly when it adds a node. */
  lemma {:induction false} InsertSum(t: Tree, k: int, v: int)
    requires t.Node?
    ensures Sum(Insert(t, k, v)) == if Find(t, k) == None then Sum(t) + v else Sum(t)
  {
    if k < t.key {
      if t.left != Nil { InsertSum(t.left, k, v); }
    } else if k > t.key {
      if t.right != Nil { InsertSum(t.right, k, v); }
    }
  }

  // ---------------------------------------------------------------------------
  // height
  // ---------------------------------------------------------------------------

  /** Every node lies on a path shorter than the height. */
  lemma {:induction false} PathBelowHeight(t: Tree, path: seq<Dir>)
    requires Subtree(t, path).Node?
    ensures |path| < Height(t)
  {
    if path != [] {
      PathBelowHeight(if path[0] == Left then t.left else t.right, path[1..]);
    }
  }

  /** A path to a deepest node. */
  ghost function Deepest(t: Tree): (path: seq<Dir>)
    requires t.Node?
    ensures Subtree(t, path).Node? && |path| + 1 == Height(t)
  {
    if t.left == Nil && t.right == Nil then []
    else if Height(t.left) >= Height(t.right) then [Left] + Deepest(t.left)
    else [Right] + Deepest(t.right)
  }

  /** The height is the number of nodes on a longest root-to-node path. */
  lemma HeightIsLongestPath(t: Tree)
    requires t.Node?
    ensures forall path :: Subtree(t, path).Node? ==> |path| < Height(t)
    ensures exists path :: Subtree(t, path).Node? && |path| + 1 == Height(t)
  {
    forall path | Subtree(t, path).Node? ensures |path| < Height(t) {
      PathBelowHeight(t, path);
    }
    var p := Deepest(t);
    assert Subtree(t, p).Node? && |p| + 1 == Height(t);
  }

  // ---------------------------------------------------------------------------
  // sequences of inserts
  // ---------------------------------------------------------------------------

  /**
   * After a sequence of inserts, `find` returns what it returned before,
   * and for a key not found before, the value of the first insert of that
   * key: later inserts of the same key never overwrite it.
   */
  lemma {:induction false} FindAfterBuild(t: Tree, ops: seq<(int, int)>, k: int)
    requires t.Node?
    ensures Find(Build(t, ops), k) == if Find(t, k).Some? then Find(t, k) else FirstValue(ops, k)
    decreases ops
  {
    if ops != [] {
      FindAfterInsert(t, ops[0].0, ops[0].1, k);
      FindAfterBuild(Insert(t, ops[0].0, ops[0].1), ops[1..], k);
    }
  }

  /** A tree built by inserts into an ordered tree is ordered. */
  lemma {:induction false} BuildOrdered(t: Tree, ops: seq<(int, int)>)
    requires t.Node? && Ordered(t)
    ensures Ordered(Build(t, ops))
    decreases ops
  {
    if ops != [] {
      InsertOrdered(t, ops[0].0, ops[0].1);
      BuildOrdered(Insert(t, ops[0].0, ops[0].1), ops[1..]);
    }
  }

  /** Every tree built by inserts into a created tree has alternating colours. */
  lemma {:induction false} BuildAlternating(k: int, v: int, ops: seq<(int, int)>)
    ensures Alternating(Build(Create(k, v), ops))
  {
    AlternatingAfterBuild(Create(k, v), ops);
  }

  lemma {:induction false} AlternatingAfterBuild(t: Tree, ops: seq<(int, int)>)
    requires t.Node? && Alternating(t)
    ensures Alternating(Build(t, ops))
    decreases ops
  {
    if ops != [] {
      InsertAlternating(t, ops[0].0, ops[0].1);
      AlternatingAfterBuild(Insert(t, ops[0].0, ops[0].1), ops[1..]);
    }
  }

  /**
   * The total of the values of `ops` whose key is not in `keys` and does
   * not occur earlier in `ops`: the values a sequence of inserts adds.
   */
  ghost function FreshTotal(keys: set<int>, ops: seq<(int, int)>): int
    decreases ops
  {
    if ops == [] then 0
    else (if ops[0].0 in keys then 0 else ops[0].1) + FreshTotal(keys + {ops[0].0}, ops[1..])
  }

  /**
   * After a sequence of inserts into an ordered tree, the sum is the old sum
   * plus the value of the first insert of each new key, each counted once.
   */
  lemma {:induction false} SumAfterBuild(t: Tree, ops: seq<(int, int)>)
    requires t.Node? && Ordered(t)
    ensures Sum(Build(t, ops)) == Sum(t) + FreshTotal(Keys(t), ops)
    decreases ops
  {
    if ops != [] {
      var (k, v) := ops[0];
      FindExact(t, k, v);
      InsertSum(t, k, v);
      InsertContents(t, k, v);
      InsertOrdered(t, k, v);
      SumAfterBuild(Insert(t, k, v), ops[1..]);
    }
  }

  /** `create` then `insert(6, ..)` under root 5: the new red node becomes the right child. */
  lemma ExampleInsertRight()
    ensures Find(Create(5, 50), 5) == Some(50) && Height(Create(5, 50)) == 1
    ensures Insert(Create(5, 50), 6, 60) == Node(Black, 5, 50, Nil, Node(Red, 6, 60, Nil, Nil))
  {
  }

  /** Keys 5, 4, 6 with equal values: `find(6)` gives 6, the sum is 15 and the height 2. */
  lemma ExampleFindSumHeight()
    ensures var t := Build(Create(5, 5), [(4, 4), (6, 6)]);
            Find(t, 6) == Some(6) && Sum(t) == 15 && Height(t) == 2
  {
    var ops: seq<(int, int)> := [(4, 4), (6, 6)];
    var t1 := Insert(Create(5, 5), 4, 4);
    assert t1 == Node(Black, 5, 5, Node(Red, 4, 4, Nil, Nil), Nil);
    var t2 := Insert(t1, 6, 6);
    assert t2 == Node(Black, 5, 5, Node(Red, 4, 4, Nil, Nil), Node(Red, 6, 6, Nil, Nil));
    assert Build(t1, ops[1..]) == Build(t2, ops[1..][1..]);
    assert ops[1..][1..] == [];
    assert Height(t2) == 2;
  }

  /** Keys 4, 6, 5: without rebalancing, 5 goes left of 6 and the height is 3. */
  lemma ExampleNoRebalancing()
    ensures Height(Build(Create(4, 4), [(6, 6), (5, 5)])) == 3
  {
    var ops: seq<(int, int)> := [(6, 6), (5, 5)];
    var t1 := Insert(Create(4, 4), 6, 6);
    assert t1 == Node(Black, 4, 4, Nil, Node(Red, 6, 6, Nil, Nil));
    var t2 := Insert(t1, 5, 5);
    assert t2 == Node(Black, 4, 4, Nil, Node(Red, 6, 6, Node(Black, 5, 5, Nil, Nil), Nil));
    assert Build(t1, ops[1..]) == Build(t2, ops[1..][1..]);
    assert ops[1..][1..] == [];
    assert Height(t2.right) == 2;
  }
}
