/**
 * The node links of binarytree.h and the two rotations it uses to rebalance
 * a search tree. A node handle is a TreeNode; NULL is null. The rotations
 * take the link that holds a subtree's root (NODE *root) and store the new
 * root there; here they return the new root and the caller stores it.
 *
 *     A         B
 *    / \       / \
 *   B   E <=> C   A
 *  / \           / \
 * C   D         D   E
 */
module BinaryTree {

  class TreeNode {
    const key: int
    var left: TreeNode?
    var right: TreeNode?
    var parent: TreeNode?
    var height: nat

    /** A node as insertUnique sets one up: key k, height 1, no links. */
    constructor (k: int)
      ensures key == k && height == 1
      ensures left == null && right == null && parent == null
    {
      key := k;
      height := 1;
      left := null;
      right := null;
      parent := null;
    }
  }

  /**
   * rotateRight on A with left child B: B becomes the subtree's root with
   * A's old parent, A becomes B's right child, and B's old right child D
   * (when there is one) moves under A as its left child. Keys, heights and
   * the outer children C and E stay where they were.
   */
  method RotateRight(A: TreeNode) returns (root: TreeNode)
    requires A.left != null && A.left != A
    requires A.left.right != A && A.left.right != A.left
    modifies A, A.left, A.left.right
    ensures root == old(A.left)
    ensures root.left == old(root.left) && root.right == A && root.parent == old(A.parent)
    ensures A.left == old(root.right) && A.right == old(A.right) && A.parent == root
    ensures A.left != null ==> A.left.parent == A
    ensures A.left != null ==> A.left.left == old(A.left.right.left) && A.left.right == old(A.left.right.right)
    ensures A.height == old(A.height) && root.height == old(root.height)
    ensures A.left != null ==> A.left.height == old(A.left.right.height)
  {
    var B := A.left;
    var D := B.right;
    var rootParent := A.parent;
    A.parent := B;
    B.right := A;
    if D != null {
      D.parent := A;
    }
    A.left := D;
    B.parent := rootParent;
    root := B;
  }

  /**
   * rotateLeft on B with right child A: the mirror image of rotateRight.
   * A becomes the subtree's root with B's old parent, B becomes A's left
   * child, and A's old left child D (when there is one) moves under B as
   * its right child.
   */
  method RotateLeft(B: TreeNode) returns (root: TreeNode)
    requires B.right != null && B.right != B
    requires B.right.left != B && B.right.left != B.right
    modifies B, B.right, B.right.left
    ensures root == old(B.right)
    ensures root.right == old(root.right) && root.left == B && root.parent == old(B.parent)
    ensures B.right == old(root.left) && B.left == old(B.left) && B.parent == root
    ensures B.right != null ==> B.right.parent == B
    ensures B.right != null ==> B.right.left == old(B.right.left.left) && B.right.right == old(B.right.left.right)
    ensures B.height == old(B.height) && root.height == old(root.height)
    ensures B.right != null ==> B.right.height == old(B.right.left.height)
  {
    var A := B.right;
    var D := A.left;
    var rootParent := B.parent;
    if D != null {
      D.parent := B;
    }
    B.right := D;
    B.parent := A;
    A.left := B;
    A.parent := rootParent;
    root := A;
  }

  /**
   * rotateLeft undoes rotateRight: on a subtree whose root's parent link
   * and whose inner child D's parent link are those of a tree, rotating
   * right and then left restores every link of A, B and D.
   */
  method RotateRightThenLeft(A: TreeNode) returns (root: TreeNode)
    requires A.left != null && A.left != A
    requires A.left.right != A && A.left.right != A.left
    requires A.left.parent == A && (A.left.right != null ==> A.left.right.parent == A.left)
    modifies A, A.left, A.left.right
    ensures root == A
    ensures A.left == old(A.left) && A.right == old(A.right) && A.parent == old(A.parent)
    ensures A.left.left == old(A.left.left) && A.left.right == old(A.left.right)
    ensures A.left.parent == A
    ensures A.left.right != null ==> A.left.right.parent == A.left
    ensures A.left.right != null ==> A.left.right.left == old(A.left.right.left) && A.left.right.right == old(A.left.right.right)
    ensures A.height == old(A.height) && A.left.height == old(A.left.height)
    ensures A.left.right != null ==> A.left.right.height == old(A.left.right.height)
  {
    var B := RotateRight(A);
    root := RotateLeft(B);
  }
}
