/**
 * The search-tree operations of binarytree.h and streefind.h on tree
 * values: find, the two rotations, and the AVL insertUnique with the
 * rebalancing it does on the way back up. A subtree is a value holding its
 * key and its stored height; NULL is Nil, whose height is 0. Keys compare
 * with < (LESS) and == (EQUAL).
 */
module SearchTree {

  datatype Tree = Nil | Node(left: Tree, key: int, height: nat, right: Tree)

  /** HEIGHT: the stored height of a subtree, 0 for NULL. */
  function H(t: Tree): nat
  {
    if t.Nil? then 0 else t.height
  }

  function Max(a: nat, b: nat): nat
  {
    if a > b then a else b
  }

  /**
   * HEIGHT_RECALC: one more than the taller child. The node's height is
   * then above both children's and reached through one of them, and a node
   * whose children are AVL trees within one of each other's height becomes
   * an AVL tree.
   */
  function Recalc(t: Tree): (r: Tree)
    requires t.Node?
    ensures r.Node? && Inorder(r) == Inorder(t)
    ensures r.left == t.left && r.key == t.key && r.right == t.right
    ensures H(r) > H(t.left) && H(r) > H(t.right)
    ensures H(r) == H(t.left) + 1 || H(r) == H(t.right) + 1
    ensures Avl(t.left) && Avl(t.right) && -1 <= H(t.right) - H(t.left) <= 1 ==> Avl(r)
  {
    t.(height := Max(H(t.left), H(t.right)) + 1)
  }

  ghost function Keys(t: Tree): set<int>
  {
    if t.Nil? then {} else Keys(t.left) + {t.key} + Keys(t.right)
  }

  function Inorder(t: Tree): seq<int>
  {
    if t.Nil? then [] else Inorder(t.left) + [t.key] + Inorder(t.right)
  }

  ghost predicate Increasing(s: seq<int>)
  {
    forall i, j :: 0 <= i < j < |s| ==> s[i] < s[j]
  }

  /** The search-tree order: the keys read in order are strictly increasing. */
  ghost predicate Ordered(t: Tree)
  {
    Increasing(Inorder(t))
  }

  /**
   * What the tree validator checks of heights: every stored height is one
   * more than the taller child's, and the two children's heights differ by
   * at most one.
   */
  ghost predicate Avl(t: Tree)
  {
    t.Nil? ||
    (Avl(t.left) && Avl(t.right)
     && t.height == Max(H(t.left), H(t.right)) + 1
     && -1 <= H(t.right) - H(t.left) <= 1)
  }

  /** s is t or a subtree somewhere below it. */
  ghost predicate InTree(s: Tree, t: Tree)
  {
    s == t || (t.Node? && (InTree(s, t.left) || InTree(s, t.right)))
  }

  /**
   * find: NULL on an empty tree; otherwise left when key is LESS than the
   * node's key, the node itself when EQUAL, right otherwise. A node it
   * returns holds key and lies in the given subtree.
   */
  function Find(t: Tree, key: int): (r: Tree)
    ensures r.Node? ==> r.key == key && InTree(r, t)
  {
    if t.Nil? then Nil
    else if key < t.key then Find(t.left, key)
    else if key == t.key then t
    else Find(t.right, key)
  }

  /** On a search tree, find finds every key it holds and no other. */
  lemma {:induction false} FindComplete(t: Tree, key: int)
    requires Ordered(t)
    ensures Find(t, key).Node? <==> key in Keys(t)
  {
    if t.Node? {
      OrderedSplit(t);
      if key < t.key {
        FindComplete(t.left, key);
        assert key !in Keys(t.right);
      } else if key > t.key {
        FindComplete(t.right, key);
        assert key !in Keys(t.left);
      }
    }
  }

  /**
   * rotateRight as a value: A(B(C, D), E) becomes B(C, A(D, E)), heights
   * as they were. The in-order sequence of keys does not change.
   */
  function RotateRight(t: Tree): (r: Tree)
    requires t.Node? && t.left.Node?
    ensures r.Node? && r.right.Node?
    ensures Inorder(r) == Inorder(t) && Keys(r) == Keys(t)
  {
    var b := t.left;
    Node(b.left, b.key, b.height, Node(b.right, t.key, t.height, t.right))
  }

  /** rotateLeft as a value: B(C, A(D, E)) becomes A(B(C, D), E). */
  function RotateLeft(t: Tree): (r: Tree)
    requires t.Node? && t.right.Node?
    ensures r.Node? && r.left.Node?
    ensures Inorder(r) == Inorder(t) && Keys(r) == Keys(t)
  {
    var a := t.right;
    Node(Node(t.left, t.key, t.height, a.left), a.key, a.height, a.right)
  }

  /** The two rotations undo each other. */
  lemma RotationsInverse(t: Tree)
    ensures t.Node? && t.left.Node? ==> RotateLeft(RotateRight(t)) == t
    ensures t.Node? && t.right.Node? ==> RotateRight(RotateLeft(t)) == t
  {
  }

  /**
   * The normalisation insertUnique does after inserting into a child: with
   * the right child two taller it rotates left (first rotating the right
   * child right when that leans left), with the left child two taller the
   * mirror image, recalculating the heights of the nodes it moved; last the
   * root's height is recalculated.
   */
  function Rebalance(t: Tree): (r: Tree)
    requires t.Node?
    ensures r.Node? && Inorder(r) == Inorder(t)
  {
    var bf := H(t.right) - H(t.left);
    if bf <= -2 then Recalc(FixLeftHeavy(t))
    else if bf >= 2 then Recalc(FixRightHeavy(t))
    else Recalc(t)
  }

  /** The bf <= -2 branch: the LR double rotation or the single right one. */
  function FixLeftHeavy(t: Tree): (r: Tree)
    requires t.Node? && H(t.left) >= 2
    ensures r.Node? && Inorder(r) == Inorder(t)
  {
    var l := t.left;
    var lTree :=
      if H(l.right) - H(l.left) >= 1 then
        var x := RotateLeft(l);
        Recalc(x.(left := Recalc(x.left)))
      else l;
    var y := RotateRight(t.(left := lTree));
    y.(right := Recalc(y.right))
  }

  /** The bf >= 2 branch: the RL double rotation or the single left one. */
  function FixRightHeavy(t: Tree): (r: Tree)
    requires t.Node? && H(t.right) >= 2
    ensures r.Node? && Inorder(r) == Inorder(t)
  {
    var rt := t.right;
    var rTree :=
      if H(rt.right) - H(rt.left) <= -1 then
        var x := RotateRight(rt);
        Recalc(x.(right := Recalc(x.right)))
      else rt;
    var y := RotateLeft(t.(right := rTree));
    y.(left := Recalc(y.left))
  }

  /**
   * insertUnique with a node always available: an empty subtree becomes a
   * node of height 1; a node with key k is returned as it is; otherwise k
   * goes into the left subtree when LESS, else into the right, and the
   * subtree is rebalanced.
   */
  function Insert(t: Tree, k: int): (r: Tree)
    ensures r.Node?
  {
    if t.Nil? then Node(Nil, k, 1, Nil)
    else if k == t.key then t
    else if k < t.key then Rebalance(t.(left := Insert(t.left, k)))
    else Rebalance(t.(right := Insert(t.right, k)))
  }

  /** The outcome of insertUnique: the new tree, or NULL when no node could be allocated. */
  datatype InsertResult = Inserted(tree: Tree) | AllocationFailed

  /**
   * insertUnique at the top: only an empty tree needs a node at once, and
   * when none can be allocated the result is NULL and the tree stays empty.
   * Otherwise the key set grows by k.
   */
  function InsertUnique(t: Tree, k: int, nodeAvailable: bool): (r: InsertResult)
    ensures r.AllocationFailed? <==> t.Nil? && !nodeAvailable
    ensures r.Inserted? ==> Keys(r.tree) == Keys(t) + {k}
  {
    if t.Nil? && !nodeAvailable then AllocationFailed
    else
      InsertKeys(t, k);
      Inserted(Insert(t, k))
  }

  /** The key set is the set of keys the in-order sequence holds. */
  lemma {:induction false} KeysInorder(t: Tree)
    ensures forall x :: x in Keys(t) <==> x in Inorder(t)
  {
    if t.Node? {
      KeysInorder(t.left);
      KeysInorder(t.right);
    }
  }

  /**
   * Where the order holds at a node it holds in both subtrees, every key on
   * the left is smaller than the node's and every key on the right greater.
   */
  lemma OrderedSplit(t: Tree)
    requires t.Node? && Ordered(t)
    ensures Ordered(t.left) && Ordered(t.right)
    ensures forall x :: x in Keys(t.left) ==> x < t.key
    ensures forall y :: y in Keys(t.right) ==> t.key < y
  {
    KeysInorder(t.left);
    KeysInorder(t.right);
    var L, R := Inorder(t.left), Inorder(t.right);
    var s := Inorder(t);
    assert s == L + [t.key] + R;
    forall i, j | 0 <= i < j < |L| ensures L[i] < L[j] {
      assert L[i] == s[i] && L[j] == s[j];
    }
    forall i, j | 0 <= i < j < |R| ensures R[i] < R[j] {
      assert R[i] == s[|L| + 1 + i] && R[j] == s[|L| + 1 + j];
    }
    forall x | x in Keys(t.left) ensures x < t.key {
      var i :| 0 <= i < |L| && L[i] == x;
      assert s[i] == x && s[|L|] == t.key;
    }
    forall y | y in Keys(t.right) ensures t.key < y {
      var i :| 0 <= i < |R| && R[i] == y;
      assert s[|L| + 1 + i] == y && s[|L|] == t.key;
    }
  }

  /** Conversely, ordered subtrees on the right sides of a key make an ordered node. */
  lemma OrderedJoin(t: Tree)
    requires t.Node? && Ordered(t.left) && Ordered(t.right)
    requires forall x :: x in Keys(t.left) ==> x < t.key
    requires forall y :: y in Keys(t.right) ==> t.key < y
    ensures Ordered(t)
  {
    KeysInorder(t.left);
    KeysInorder(t.right);
    var L, R := Inorder(t.left), Inorder(t.right);
    var s := Inorder(t);
    assert s == L + [t.key] + R;
    forall i, j | 0 <= i < j < |s| ensures s[i] < s[j] {
      if j < |L| {
        assert s[i] == L[i] && s[j] == L[j];
      } else if j == |L| {
        assert s[i] == L[i] && L[i] in L && s[j] == t.key;
      } else if i < |L| {
        assert s[i] == L[i] && L[i] in L;
        assert s[j] == R[j - |L| - 1] && R[j - |L| - 1] in R;
      } else if i == |L| {
        assert s[i] == t.key && s[j] == R[j - |L| - 1] && R[j - |L| - 1] in R;
      } else {
        assert s[i] == R[i - |L| - 1] && s[j] == R[j - |L| - 1];
      }
    }
  }

  /**
   * Rebalancing keeps the in-order sequence of keys, and with it the key
   * set and the search-tree order.
   */
  lemma RebalanceKeeps(t: Tree)
    requires t.Node?
    ensures Inorder(Rebalance(t)) == Inorder(t) && Keys(Rebalance(t)) == Keys(t)
    ensures Ordered(t) ==> Ordered(Rebalance(t))
  {
    SameInorder(t, Rebalance(t));
  }

  /** Two trees with the same in-order sequence hold the same keys, and are ordered alike. */
  lemma SameInorder(a: Tree, b: Tree)
    requires Inorder(a) == Inorder(b)
    ensures Keys(a) == Keys(b)
    ensures Ordered(a) == Ordered(b)
  {
    KeysInorder(a);
    KeysInorder(b);
    forall x ensures x in Keys(a) <==> x in Keys(b) {
      assert x in Keys(a) <==> x in Inorder(a);
      assert x in Keys(b) <==> x in Inorder(b);
    }
    assert Keys(a) == Keys(b);
  }

  /** Rebalancing a balanced tree with exact heights changes nothing. */
  lemma RebalanceBalanced(t: Tree)
    requires t.Node? && Avl(t)
    ensures Rebalance(t) == t
  {
  }

  /**
   * Rebalancing a node whose children are AVL trees differing in height
   * by at most two gives an AVL tree as tall as the taller child or one
   * taller.
   */
  lemma RebalanceAvl(t: Tree)
    requires t.Node? && Avl(t.left) && Avl(t.right)
    requires -2 <= H(t.right) - H(t.left) <= 2
    ensures Avl(Rebalance(t))
    ensures Max(H(t.left), H(t.right)) <= H(Rebalance(t)) <= Max(H(t.left), H(t.right)) + 1
  {
    var bf := H(t.right) - H(t.left);
    if bf <= -2 {
      FixLeftHeavyAvl(t);
    } else if bf >= 2 {
      FixRightHeavyAvl(t);
    }
  }

  lemma FixLeftHeavyAvl(t: Tree)
    requires t.Node? && Avl(t.left) && Avl(t.right)
    requires H(t.right) - H(t.left) == -2
    ensures Avl(Recalc(FixLeftHeavy(t)))
    ensures H(t.left) <= H(Recalc(FixLeftHeavy(t))) <= H(t.left) + 1
  {
    var l, r := t.left, t.right;
    if H(l.right) - H(l.left) >= 1 {
      var lr := l.right;
      var a := Node(l.left, l.key, Max(H(l.left), H(lr.left)) + 1, lr.left);
      var b := Node(lr.right, t.key, Max(H(lr.right), H(r)) + 1, r);
      assert Avl(a) && Avl(b) && H(a) == H(b) == H(r) + 1;
      assert Recalc(FixLeftHeavy(t)) == Node(a, lr.key, H(a) + 1, b);
    } else {
      var b := Node(l.right, t.key, Max(H(l.right), H(r)) + 1, r);
      assert Avl(b);
      assert Recalc(FixLeftHeavy(t)) == Node(l.left, l.key, Max(H(l.left), H(b)) + 1, b);
    }
  }

  lemma FixRightHeavyAvl(t: Tree)
    requires t.Node? && Avl(t.left) && Avl(t.right)
    requires H(t.right) - H(t.left) == 2
    ensures Avl(Recalc(FixRightHeavy(t)))
    ensures H(t.right) <= H(Recalc(FixRightHeavy(t))) <= H(t.right) + 1
  {
    var l, rt := t.left, t.right;
    if H(rt.right) - H(rt.left) <= -1 {
      var rl := rt.left;
      var a := Node(l, t.key, Max(H(l), H(rl.left)) + 1, rl.left);
      var b := Node(rl.right, rt.key, Max(H(rl.right), H(rt.right)) + 1, rt.right);
      assert Avl(a) && Avl(b) && H(a) == H(b) == H(l) + 1;
      assert Recalc(FixRightHeavy(t)) == Node(a, rl.key, H(a) + 1, b);
    } else {
      var a := Node(l, t.key, Max(H(l), H(rt.left)) + 1, rt.left);
      assert Avl(a);
      assert Recalc(FixRightHeavy(t)) == Node(a, rt.key, Max(H(a), H(rt.right)) + 1, rt.right);
    }
  }

  /** After insertUnique the key set is the old one with k added. */
  lemma {:induction false} InsertKeys(t: Tree, k: int)
    ensures Keys(Insert(t, k)) == Keys(t) + {k}
  {
    if t.Node? && k != t.key {
      if k < t.key {
        InsertKeys(t.left, k);
        RebalanceKeeps(t.(left := Insert(t.left, k)));
      } else {
        InsertKeys(t.right, k);
        RebalanceKeeps(t.(right := Insert(t.right, k)));
      }
    }
  }

  /** insertUnique keeps the search-tree order. */
  lemma {:induction false} InsertOrdered(t: Tree, k: int)
    requires Ordered(t)
    ensures Ordered(Insert(t, k))
  {
    if t.Node? && k != t.key {
      OrderedSplit(t);
      if k < t.key {
        InsertOrdered(t.left, k);
        InsertKeys(t.left, k);
        OrderedJoin(t.(left := Insert(t.left, k)));
        RebalanceKeeps(t.(left := Insert(t.left, k)));
      } else {
        InsertOrdered(t.right, k);
        InsertKeys(t.right, k);
        OrderedJoin(t.(right := Insert(t.right, k)));
        RebalanceKeeps(t.(right := Insert(t.right, k)));
      }
    }
  }

  /**
   * insertUnique keeps an AVL tree balanced with exact heights, and the
   * tree grows by at most one level.
   */
  lemma {:induction false} InsertAvl(t: Tree, k: int)
    requires Avl(t)
    ensures Avl(Insert(t, k))
    ensures H(t) <= H(Insert(t, k)) <= H(t) + 1
  {
    if t.Node? && k != t.key {
      if k < t.key {
        InsertAvl(t.left, k);
        RebalanceAvl(t.(left := Insert(t.left, k)));
      } else {
        InsertAvl(t.right, k);
        RebalanceAvl(t.(right := Insert(t.right, k)));
      }
    }
  }

  /** insertUnique of a key the search tree already holds changes nothing. */
  lemma {:induction false} InsertPresent(t: Tree, k: int)
    requires Ordered(t) && Avl(t) && k in Keys(t)
    ensures Insert(t, k) == t
  {
    OrderedSplit(t);
    if k < t.key {
      assert k !in Keys(t.right);
      InsertPresent(t.left, k);
      RebalanceBalanced(t);
    } else if k > t.key {
      assert k !in Keys(t.left);
      InsertPresent(t.right, k);
      RebalanceBalanced(t);
    }
  }

  /** After insertUnique into a search tree, find locates k: the node returned holds k. */
  lemma InsertFinds(t: Tree, k: int)
    requires Ordered(t)
    ensures Find(Insert(t, k), k).Node?
  {
    InsertOrdered(t, k);
    InsertKeys(t, k);
    FindComplete(Insert(t, k), k);
  }
}
