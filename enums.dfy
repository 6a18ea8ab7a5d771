/**
 * Binary search tree insertion with duplicate rejection.
 *
 * The tree's value is the datatype `Tree`, and `Insert` says what `add`
 * makes of it. The in-place tree is a `BinaryTree` object whose `node` field
 * `add` overwrites, with `TreeNode` objects owning the two subtrees.
 */
module Enums {
  datatype Ordering = Less | Equal | Greater

  /**
   * `Ord::cmp` on strings: lexicographic on characters, a proper prefix
   * first. Comparing UTF-8 bytes, as `str` does, orders scalar values the
   * same way.
   */
  function Cmp(a: string, b: string): Ordering
  {
    if a == [] && b == [] then Equal
    else if a == [] then Less
    else if b == [] then Greater
    else if a[0] < b[0] then Less
    else if a[0] > b[0] then Greater
    else Cmp(a[1..], b[1..])
  }

  /** `Equal` exactly for equal strings. */
  lemma {:induction false} CmpEqual(a: string, b: string)
    ensures Cmp(a, b) == Equal <==> a == b
  {
    if a != [] && b != [] && a[0] == b[0] {
      CmpEqual(a[1..], b[1..]);
      assert a == [a[0]] + a[1..] && b == [b[0]] + b[1..];
    }
  }

  /** Swapping the operands swaps `Less` and `Greater`. */
  lemma {:induction false} CmpFlip(a: string, b: string)
    ensures Cmp(a, b) == Less <==> Cmp(b, a) == Greater
    ensures Cmp(a, b) == Greater <==> Cmp(b, a) == Less
  {
    if a != [] && b != [] && a[0] == b[0] {
      CmpFlip(a[1..], b[1..]);
    }
  }

  /** `a` sorts strictly before `b`. */
  predicate Before(a: string, b: string)
  {
    Cmp(a, b) == Less
  }

  /** `BinaryTree<&str>` with its `TreeNode`s inlined, as a value. */
  datatype Tree = Empty | NonEmpty(left: Tree, element: string, right: Tree)

  function Elements(t: Tree): set<string>
  {
    match t
    case Empty => {}
    case NonEmpty(l, e, r) => Elements(l) + {e} + Elements(r)
  }

  function Size(t: Tree): nat
  {
    match t
    case Empty => 0
    case NonEmpty(l, _, r) => Size(l) + 1 + Size(r)
  }

  /** Every element of a left subtree sorts before its node, every element of a right subtree after it. */
  ghost predicate IsBst(t: Tree)
  {
    match t
    case Empty => true
    case NonEmpty(l, e, r) =>
      IsBst(l) && IsBst(r) &&
      (forall x :: x in Elements(l) ==> Before(x, e)) &&
      (forall x :: x in Elements(r) ==> Before(e, x))
  }

  /** The tree that `add(value)` leaves in place of `t`. */
  function Insert(t: Tree, value: string): (r: Tree)
    ensures r.NonEmpty?
    ensures Elements(r) == Elements(t) + {value}
  {
    match t
    case Empty => NonEmpty(Empty, value, Empty)
    case NonEmpty(l, e, rt) =>
      match Cmp(e, value)
      case Less => NonEmpty(l, e, Insert(rt, value))
      case Greater => NonEmpty(Insert(l, value), e, rt)
      case Equal => CmpEqual(e, value); t
  }

  /** Adding to the empty tree gives a single node with two empty children. */
  lemma InsertEmpty(value: string)
    ensures Insert(Empty, value) == NonEmpty(Empty, value, Empty)
    ensures Elements(Insert(Empty, value)) == {value} && Size(Insert(Empty, value)) == 1
  {
  }

  /** In a search tree, adding an element already present changes nothing. */
  lemma {:induction false} InsertPresent(t: Tree, value: string)
    requires IsBst(t) && value in Elements(t)
    ensures Insert(t, value) == t
  {
    match t
    case NonEmpty(l, e, r) =>
      CmpEqual(e, value);
      CmpFlip(value, e);
      if value in Elements(l) {
        InsertPresent(l, value);
      } else if value in Elements(r) {
        InsertPresent(r, value);
      }
  }

  /** `add` keeps the search-tree order. */
  lemma {:induction false} InsertKeepsBst(t: Tree, value: string)
    requires IsBst(t)
    ensures IsBst(Insert(t, value))
  {
    match t
    case Empty =>
    case NonEmpty(l, e, r) =>
      CmpFlip(e, value);
      match Cmp(e, value)
      case Less => InsertKeepsBst(r, value);
      case Greater => InsertKeepsBst(l, value);
      case Equal =>
  }

  /** In a search tree, the number of nodes is the number of distinct elements. */
  lemma {:induction false} SizeIsElementCount(t: Tree)
    requires IsBst(t)
    ensures Size(t) == |Elements(t)|
  {
    match t
    case Empty =>
    case NonEmpty(l, e, r) =>
      SizeIsElementCount(l);
      SizeIsElementCount(r);
      CmpEqual(e, e);
      assert e !in Elements(l) && e !in Elements(r);
      forall x | x in Elements(l) && x in Elements(r)
        ensures false
      {
        CmpFlip(x, e);
      }
      assert Elements(l) * Elements(r) == {};
      DisjointCard(Elements(l), {e}, Elements(r));
  }

  lemma DisjointCard(a: set<string>, b: set<string>, c: set<string>)
    requires a * b == {} && a * c == {} && b * c == {}
    ensures |a + b + c| == |a| + |b| + |c|
  {
    assert (a + b) * c == {};
  }

  /** Adding grows a search tree by one node exactly when the value was absent. */
  lemma InsertSize(t: Tree, value: string)
    requires IsBst(t)
    ensures Size(Insert(t, value)) == Size(t) + (if value in Elements(t) then 0 else 1)
  {
    if value in Elements(t) {
      InsertPresent(t, value);
    } else {
      var r := Insert(t, value);
      InsertKeepsBst(t, value);
      SizeIsElementCount(t);
      SizeIsElementCount(r);
      assert |Elements(t) + {value}| == |Elements(t)| + 1;
    }
  }

  // ---------------------------------------------------------------------
  // The in-place tree
  // ---------------------------------------------------------------------

  /** `TreeNode<&str>`: the node itself never changes, only the subtrees it owns. */
  class TreeNode {
    const element: string
    const left: BinaryTree
    const right: BinaryTree

    constructor (element: string, left: BinaryTree, right: BinaryTree)
      ensures this.element == element && this.left == left && this.right == right
    {
      this.element := element;
      this.left := left;
      this.right := right;
    }
  }

  /** `BinaryTree<&str>`: `node == null` is `Empty`, otherwise `NonEmpty(node)`. */
  class BinaryTree {
    var node: TreeNode?
    ghost var Value: Tree
    ghost var Repr: set<object>

    ghost predicate Valid()
      reads this, Repr
      decreases Repr
    {
      this in Repr &&
      (node == null ==> Value == Empty) &&
      (node != null ==>
        node in Repr && node.left in Repr && node.right in Repr &&
        node.left.Repr <= Repr && node.right.Repr <= Repr &&
        this !in node.left.Repr && this !in node.right.Repr &&
        node !in node.left.Repr && node !in node.right.Repr &&
        node.left.Repr !! node.right.Repr &&
        node.left.Valid() && node.right.Valid() &&
        Value == NonEmpty(node.left.Value, node.element, node.right.Value))
    }

    /** `BinaryTree::Empty`. */
    constructor ()
      ensures Valid() && fresh(Repr) && Value == Empty
    {
      node := null;
      Value := Empty;
      Repr := {this};
    }

    /** `add`: the tree becomes `Insert(old(Value), value)`; only new objects join it. */
    method Add(value: string)
      requires Valid()
      modifies Repr
      ensures Valid() && fresh(Repr - old(Repr))
      ensures Value == Insert(old(Value), value)
      decreases Repr
    {
      if node == null {
        var l := new BinaryTree();
        var r := new BinaryTree();
        node := new TreeNode(value, l, r);
        Value := NonEmpty(Empty, value, Empty);
        Repr := Repr + {node} + l.Repr + r.Repr;
      } else {
        match Cmp(node.element, value)
        case Less =>
          node.right.Add(value);
          Repr := Repr + node.right.Repr;
          Value := NonEmpty(node.left.Value, node.element, node.right.Value);
        case Greater =>
          node.left.Add(value);
          Repr := Repr + node.left.Repr;
          Value := NonEmpty(node.left.Value, node.element, node.right.Value);
        case Equal =>
      }
    }
  }

  // ---------------------------------------------------------------------
  // The planet tree of `main`
  // ---------------------------------------------------------------------

  function Leaf(e: string): Tree
  {
    NonEmpty(Empty, e, Empty)
  }

  /** Saturn at the root, Mars (Jupiter, Mercury) on the left, Uranus (-, Venus) on the right. */
  function SaturnTree(): Tree
  {
    NonEmpty(NonEmpty(Leaf("Jupiter"), "Mars", Leaf("Mercury")), "Saturn", NonEmpty(Empty, "Uranus", Leaf("Venus")))
  }

  /**
   * The tree of `main` is a search tree; "Earth" goes left of Jupiter, and
   * adding it a second time leaves the tree as it was after the first.
   */
  lemma PlanetTree()
    ensures IsBst(SaturnTree())
    ensures Insert(SaturnTree(), "Earth") ==
            NonEmpty(NonEmpty(NonEmpty(Leaf("Earth"), "Jupiter", Empty), "Mars", Leaf("Mercury")),
                     "Saturn", NonEmpty(Empty, "Uranus", Leaf("Venus")))
    ensures Insert(Insert(SaturnTree(), "Earth"), "Earth") == Insert(SaturnTree(), "Earth")
    ensures Size(Insert(SaturnTree(), "Earth")) == Size(SaturnTree()) + 1
  {
    SaturnIsBst();
    var once := Insert(SaturnTree(), "Earth");
    assert Cmp("Saturn", "Earth") == Greater && Cmp("Mars", "Earth") == Greater && Cmp("Jupiter", "Earth") == Greater;
    InsertKeepsBst(SaturnTree(), "Earth");
    InsertPresent(once, "Earth");
    InsertSize(SaturnTree(), "Earth");
    assert "Earth" !in Elements(SaturnTree());
  }

  lemma SaturnIsBst()
    ensures IsBst(SaturnTree())
  {
    var mars := NonEmpty(Leaf("Jupiter"), "Mars", Leaf("Mercury"));
    var uranus := NonEmpty(Empty, "Uranus", Leaf("Venus"));
    assert Before("Jupiter", "Mars") && Before("Mars", "Mercury");
    assert IsBst(mars);
    assert Before("Uranus", "Venus");
    assert IsBst(uranus);
    assert Elements(mars) == {"Jupiter", "Mars", "Mercury"};
    assert Elements(uranus) == {"Uranus", "Venus"};
    assert Before("Jupiter", "Saturn") && Before("Mars", "Saturn") && Before("Mercury", "Saturn");
    assert Before("Saturn", "Uranus") && Before("Saturn", "Venus");
  }
}
