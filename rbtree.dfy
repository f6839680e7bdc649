/**
 * The node structure of rbtree.rs as a class: a tree handle is its root
 * node, each node owns its `left` and `right` children and keeps a
 * non-owning link to its `parent`. `insert` updates the nodes in place and
 * `sum` runs with a mutable accumulator, so both are methods; the queries
 * are functions. The ghost field `Model` is the value of the node's subtree
 * in module TreeModel, and every operation is proved against it.
 */
module RBTrees {
  import opened TreeModel

  class RBTree {
    // The colour, key, value and parent link are set when a node is built
    // and never reassigned afterwards.
    const color: Color
    const key: int
    const value: int
    const parent: RBTree?
    var left: RBTree?
    var right: RBTree?

    ghost var Model: Tree
    ghost var Repr: set<object>

    /** The subtree rooted at `this` is well formed and `Model` describes it. */
    ghost predicate Valid()
      reads this, Repr
      decreases Repr
    {
      && this in Repr
      && (left != null ==>
            && left in Repr && left.Repr <= Repr && this !in left.Repr
            && left.parent == this && left.Valid())
      && (right != null ==>
            && right in Repr && right.Repr <= Repr && this !in right.Repr
            && right.parent == this && right.Valid())
      && (left != null && right != null ==> left.Repr !! right.Repr)
      && Model == Node(color, key, value, ModelOf(left), ModelOf(right))
    }

    /** `create_with_color`: a childless root node. */
    constructor CreateWithColor(k: int, v: int, c: Color)
      ensures Valid() && fresh(Repr) && Repr == {this}
      ensures color == c && key == k && value == v
      ensures left == null && right == null && parent == null
      ensures Model == TreeModel.CreateWithColor(k, v, c)
    {
      color, key, value, parent := c, k, v, null;
      left, right := null, null;
      Model := TreeModel.CreateWithColor(k, v, c);
      Repr := {this};
    }

    /** `create`: a black root node. */
    static method Create(k: int, v: int) returns (t: RBTree)
      ensures t.Valid() && fresh(t.Repr)
      ensures t.color == Black && t.key == k && t.value == v
      ensures t.left == null && t.right == null && t.parent == null
      ensures t.Model == TreeModel.Create(k, v)
    {
      t := new RBTree.CreateWithColor(k, v, Black);
    }

    /** `make_child`: a childless node coloured opposite to `p`, linked up to `p`. */
    constructor MakeChild(p: RBTree, k: int, v: int)
      ensures Valid() && fresh(Repr) && Repr == {this}
      ensures color == Opposite(p.color) && key == k && value == v
      ensures left == null && right == null && parent == p
      ensures Model == TreeModel.MakeChild(p.color, k, v)
    {
      color := Opposite(p.color);
      key, value, parent := k, v, p;
      left, right := null, null;
      Model := TreeModel.MakeChild(p.color, k, v);
      Repr := {this};
    }

    /** `find`: the descent of TreeModel.Find, run over the nodes. */
    function Find(k: int): (r: Option<int>)
      reads Repr
      requires Valid()
      ensures r == TreeModel.Find(Model, k)
      decreases Repr
    {
      if k == key then Some(value)
      else if key > k then (if left == null then None else left.Find(k))
      else (if right == null then None else right.Find(k))
    }

    /**
     * `insert`: attach a new node where the descent runs out, or do nothing
     * when the key is met. Only nodes of this subtree change, new nodes are
     * fresh, and the subtree afterwards is TreeModel.Insert of the old one.
     */
    method Insert(k: int, v: int)
      requires Valid()
      modifies Repr
      ensures Valid() && fresh(Repr - old(Repr))
      ensures Model == TreeModel.Insert(old(Model), k, v)
      decreases Repr
    {
      if k < key {
        if left != null {
          left.Insert(k, v);
        } else {
          left := new RBTree.MakeChild(this, k, v);
        }
        Repr := Repr + left.Repr;
        Model := Node(color, key, value, left.Model, ModelOf(right));
      } else if k > key {
        if right != null {
          right.Insert(k, v);
        } else {
          right := new RBTree.MakeChild(this, k, v);
        }
        Repr := Repr + right.Repr;
        Model := Node(color, key, value, ModelOf(left), right.Model);
      }
    }

    /** `height`: the height TreeModel.Height gives the subtree, at least 1. */
    function Height(): (h: nat)
      reads Repr
      requires Valid()
      ensures h >= 1
      ensures h == TreeModel.Height(Model)
      decreases Repr
    {
      if left == null && right == null then 1
      else
        1 + Max(if left == null then 0 else left.Height(),
                if right == null then 0 else right.Height())
    }

    /** `grand`: the parent of the parent, or null when either link is absent. */
    function Grand(): (g: RBTree?)
      ensures g != null <==> parent != null && parent.parent != null
      ensures g != null ==> g == parent.parent
    {
      if parent == null then null else parent.parent
    }

    /** `sum`: the node's value, then each present child's sum added in turn. */
    method Sum() returns (val: int)
      requires Valid()
      ensures val == TreeModel.Sum(Model)
      decreases Repr
    {
      val := value;
      if left != null {
        var s := left.Sum();
        val := val + s;
      }
      if right != null {
        var s := right.Sum();
        val := val + s;
      }
    }

    /** The node reached by following `path` down from `this`, or null once it falls off. */
    ghost function NodeAt(path: seq<Dir>): (n: RBTree?)
      reads Repr
      requires Valid()
      ensures n != null ==> n in Repr && n.Valid() && n.Model == Subtree(Model, path)
      decreases Repr
    {
      if path == [] then this
      else
        var c := if path[0] == Left then left else right;
        if c == null then null else c.NodeAt(path[1..])
    }

    /** Each node below `this` links up to the node one step shorter on its path. */
    lemma {:induction false} ParentOnPath(path: seq<Dir>)
      requires Valid() && path != [] && NodeAt(path) != null
      ensures NodeAt(path[..|path| - 1]) != null
      ensures NodeAt(path).parent == NodeAt(path[..|path| - 1])
      decreases |path|
    {
      var c := if path[0] == Left then left else right;
      if |path| > 1 {
        var rest := path[1..];
        c.ParentOnPath(rest);
        assert path[..|path| - 1][1..] == rest[..|rest| - 1];
      }
    }

    /**
     * In a tree whose root is `this`, `grand` of the node at depth
     * `|path|` is the node two steps up the path, and null at depth 0 or 1.
     */
    lemma {:induction false} GrandOnPath(path: seq<Dir>)
      requires Valid() && parent == null && NodeAt(path) != null
      ensures NodeAt(path).Grand() == if |path| < 2 then null else NodeAt(path[..|path| - 2])
    {
      var n := |path|;
      if n >= 1 {
        ParentOnPath(path);
        var up := path[..n - 1];
        if n >= 2 {
          ParentOnPath(up);
          assert up[..|up| - 1] == path[..n - 2];
        }
      }
    }
  }

  /** The model of an optional child: `Nil` when it is absent. */
  ghost function ModelOf(t: RBTree?): Tree
    reads t
  {
    if t == null then Nil else t.Model
  }

  /** The source's test scenario: 5, then 6 is attached on the right, red, linked to the root. */
  method ExampleInsert() returns (tree: RBTree)
    ensures tree.key == 5 && tree.value == 50 && tree.color == Black && tree.left == null
    ensures tree.right != null && tree.right.key == 6 && tree.right.value == 60
    ensures tree.right.color == Red && tree.right.parent == tree && tree.right.Grand() == null
  {
    tree := RBTree.Create(5, 50);
    tree.Insert(6, 60);
    assert tree.Model == Node(Black, 5, 50, Nil, Node(Red, 6, 60, Nil, Nil));
    var r := tree.right;
    assert r != null && r.key == 6 && r.value == 60 && r.color == Red && r.parent == tree;
    assert tree.left == null;
    var f := tree.Find(6);
    assert f == Some(60);
  }
}
