/**
 * The stand-alone rotations of treerotate.h. They do what the rotations of
 * binarytree.h do, except that they set the parent link of the inner
 * grandchild D without checking it for NULL: D must exist.
 *
 *     A         B
 *    / \       / \
 *   B   E <=> C   A
 *  / \           / \
 * C   D         D   E
 */
module TreeRotate {
  import opened BinaryTree

  /**
   * rotateRight reshapes A(B(C, D), E) into B(C, A(D, E)); B takes over A's
   * parent, and C, E and every key and height stay as they were.
   */
  method RotateRight(A: TreeNode) returns (root: TreeNode)
    requires A.left != null && A.left != A
    requires A.left.right != null && A.left.right != A && A.left.right != A.left
    modifies A, A.left, A.left.right
    ensures root == old(A.left) && A.left == old(root.right)
    ensures root.left == old(root.left) && root.right == A && root.parent == old(A.parent)
    ensures A.left.left == old(A.left.right.left) && A.left.right == old(A.left.right.right) && A.left.parent == A
    ensures A.right == old(A.right) && A.parent == root
    ensures A.height == old(A.height) && root.height == old(root.height) && A.left.height == old(A.left.right.height)
  {
    var B := A.left;
    var D := B.right;
    var rootParent := A.parent;
    A.parent := B;
    B.right := A;
    D.parent := A;
    A.left := D;
    B.parent := rootParent;
    root := B;
  }

  /**
   * rotateLeft reshapes B(C, A(D, E)) into A(B(C, D), E); A takes over B's
   * parent, and C, E and every key and height stay as they were.
   */
  method RotateLeft(B: TreeNode) returns (root: TreeNode)
    requires B.right != null && B.right != B
    requires B.right.left != null && B.right.left != B && B.right.left != B.right
    modifies B, B.right, B.right.left
    ensures root == old(B.right) && B.right == old(root.left)
    ensures root.right == old(root.right) && root.left == B && root.parent == old(B.parent)
    ensures B.right.left == old(B.right.left.left) && B.right.right == old(B.right.left.right) && B.right.parent == B
    ensures B.left == old(B.left) && B.parent == root
    ensures B.height == old(B.height) && root.height == old(root.height) && B.right.height == old(B.right.left.height)
  {
    var A := B.right;
    var D := A.left;
    var rootParent := B.parent;
    D.parent := B;
    B.right := D;
    B.parent := A;
    A.left := B;
    A.parent := rootParent;
    root := A;
  }

  /**
   * rotateLeft after rotateRight restores every link of A, B and D when
   * their parent links were those of a tree.
   */
  method RotateRightThenLeft(A: TreeNode) returns (root: TreeNode)
    requires A.left != null && A.left != A
    requires A.left.right != null && A.left.right != A && A.left.right != A.left
    requires A.left.parent == A && A.left.right.parent == A.left
    modifies A, A.left, A.left.right
    ensures root == A
    ensures A.left == old(A.left) && A.right == old(A.right) && A.parent == old(A.parent)
    ensures A.left.left == old(A.left.left) && A.left.right == old(A.left.right) && A.left.parent == A
    ensures A.left.right.left == old(A.left.right.left) && A.left.right.right == old(A.left.right.right)
    ensures A.left.right.parent == A.left
  {
    var B := RotateRight(A);
    root := RotateLeft(B);
  }
}
