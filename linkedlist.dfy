/**
 * The doubly linked list template of data_structures/linkedlist.h, in its
 * fullest instantiation: elements with next and prev links, a list handle
 * with head and tail, and LESS comparing payloads.
 *
 * The order of the elements is a ghost sequence `nodes` of the list; Valid()
 * says that head, tail and every next and prev link agree with it.
 */
module LinkedList {

  /** A list element: the payload and the two links. */
  class Node {
    const payload: int
    var next: Node?
    var prev: Node?

    constructor (payload: int)
      ensures this.payload == payload && next == null && prev == null
    {
      this.payload := payload;
      next := null;
      prev := null;
    }
  }

  /** LESS(e1, e2): the payload of e1 is smaller. */
  predicate Less(a: Node, b: Node)
  {
    a.payload < b.payload
  }

  /** Non-decreasing order: no element is LESS than one before it. */
  ghost predicate Sorted(s: seq<Node>)
  {
    forall i, j :: 0 <= i < j < |s| ==> !Less(s[j], s[i])
  }

  ghost predicate Distinct(s: seq<Node>)
  {
    forall i, j :: 0 <= i < j < |s| ==> s[i] != s[j]
  }

  function First(s: seq<Node>): Node?
  {
    if s == [] then null else s[0]
  }

  function Last(s: seq<Node>): Node?
  {
    if s == [] then null else s[|s| - 1]
  }

  /** Following next from s[0] visits s in order and then reaches NULL. */
  ghost predicate NextLinked(s: seq<Node>)
    reads s
  {
    (forall k :: 0 <= k < |s| - 1 ==> s[k].next == s[k + 1])
    && (s != [] ==> s[|s| - 1].next == null)
  }

  /** Following prev from the last element visits s backwards and then reaches NULL. */
  ghost predicate PrevLinked(s: seq<Node>)
    reads s
  {
    (forall k :: 0 < k < |s| ==> s[k].prev == s[k - 1])
    && (s != [] ==> s[0].prev == null)
  }

  ghost predicate Linked(s: seq<Node>)
    reads s
  {
    NextLinked(s) && PrevLinked(s)
  }

  /**
   * insertAfter: splices toBeInserted in after elem, repairing the prev link
   * of elem's old successor; head and tail of a list are not touched. With
   * elem NULL the links of toBeInserted are both set to NULL.
   */
  method InsertAfter(elem: Node?, toBeInserted: Node)
    requires toBeInserted != elem
    requires elem != null ==> toBeInserted != elem.next
    modifies toBeInserted, elem, if elem == null then null else elem.next
    ensures elem == null ==> toBeInserted.next == null && toBeInserted.prev == null
    ensures elem != null ==> elem.next == toBeInserted
    ensures elem != null ==> toBeInserted.next == old(elem.next) && toBeInserted.prev == elem
    ensures elem != null && old(elem.next) != null ==> old(elem.next).prev == toBeInserted
    ensures elem != null && old(elem.next) != elem ==> elem.prev == old(elem.prev)
    ensures elem != null && old(elem.next) != null && old(elem.next) != elem ==>
              old(elem.next).next == old(elem.next.next)
  {
    var next: Node? := null;
    if elem != null {
      next := elem.next;
      elem.next := toBeInserted;
    }
    toBeInserted.next := next;
    toBeInserted.prev := elem;
    if next != null {
      next.prev := toBeInserted;
    }
  }

  /**
   * The merge of sort's inner loop: while both segments have elements, the
   * head of the first is taken when it is LESS than the head of the second,
   * otherwise the head of the second; then what is left of either.
   */
  function Merge(a: seq<Node>, b: seq<Node>): (m: seq<Node>)
    ensures |m| == |a| + |b|
    decreases |a| + |b|
  {
    if a == [] then b
    else if b == [] then a
    else if Less(a[0], b[0]) then [a[0]] + Merge(a[1..], b)
    else [b[0]] + Merge(a, b[1..])
  }

  /**
   * One pass of sort with segment size w: the list is cut into segments of
   * w elements and each consecutive pair is merged; a last segment without
   * a partner is merged with nothing.
   */
  function Pass(s: seq<Node>, w: nat): (r: seq<Node>)
    requires w >= 1
    ensures |r| == |s|
    decreases |s|
  {
    if |s| <= w then s
    else if |s| <= 2 * w then Merge(s[..w], s[w..])
    else Merge(s[..w], s[w..2 * w]) + Pass(s[2 * w..], w)
  }

  /**
   * The passes of sort from segment size w on: it stops when the first
   * segment takes in the whole list, and doubles the size otherwise.
   */
  function SortFrom(s: seq<Node>, w: nat): seq<Node>
    requires w >= 1
    decreases |s| - w
  {
    if |s| <= w then s else SortFrom(Pass(s, w), 2 * w)
  }

  /** The order sort leaves the elements in. */
  function SortSpec(s: seq<Node>): seq<Node>
  {
    SortFrom(s, 1)
  }

  /** Consecutive segments of w elements are each in order. */
  ghost predicate RunsSorted(s: seq<Node>, w: nat)
    requires w >= 1
    decreases |s|
  {
    if |s| <= w then Sorted(s) else Sorted(s[..w]) && RunsSorted(s[w..], w)
  }

  /** Merge rearranges the elements of both segments. */
  lemma {:induction false} MergePermutation(a: seq<Node>, b: seq<Node>)
    ensures multiset(Merge(a, b)) == multiset(a) + multiset(b)
    decreases |a| + |b|
  {
    if a != [] && b != [] {
      if Less(a[0], b[0]) {
        MergePermutation(a[1..], b);
        assert a == [a[0]] + a[1..];
      } else {
        MergePermutation(a, b[1..]);
        assert b == [b[0]] + b[1..];
      }
    }
  }

  /** Merging two segments in order gives a segment in order. */
  lemma {:induction false} MergeSorted(a: seq<Node>, b: seq<Node>)
    requires Sorted(a) && Sorted(b)
    ensures Sorted(Merge(a, b))
    decreases |a| + |b|
  {
    if a != [] && b != [] {
      var m := Merge(a, b);
      if Less(a[0], b[0]) {
        MergeSorted(a[1..], b);
        MergeLowerBound(a[1..], b, a[0]);
      } else {
        MergeSorted(a, b[1..]);
        MergeLowerBound(a, b[1..], b[0]);
      }
    }
  }

  /** An element no element of a or b is LESS than stays below all of their merge. */
  lemma {:induction false} MergeLowerBound(a: seq<Node>, b: seq<Node>, x: Node)
    requires forall i :: 0 <= i < |a| ==> !Less(a[i], x)
    requires forall i :: 0 <= i < |b| ==> !Less(b[i], x)
    ensures forall i :: 0 <= i < |Merge(a, b)| ==> !Less(Merge(a, b)[i], x)
  {
    var m := Merge(a, b);
    MergePermutation(a, b);
    forall i | 0 <= i < |m|
      ensures !Less(m[i], x)
    {
      assert m[i] in multiset(m);
      assert m[i] in multiset(a) || m[i] in multiset(b);
    }
  }

  /** A pass rearranges the elements. */
  lemma {:induction false} PassPermutation(s: seq<Node>, w: nat)
    requires w >= 1
    ensures multiset(Pass(s, w)) == multiset(s)
    decreases |s|
  {
    if w < |s| <= 2 * w {
      var x, y := s[..w], s[w..];
      MergePermutation(x, y);
      assert Pass(s, w) == Merge(x, y);
      assert s == x + y;
    } else if |s| > 2 * w {
      var x, y, z := s[..w], s[w..2 * w], s[2 * w..];
      MergePermutation(x, y);
      PassPermutation(z, w);
      assert Pass(s, w) == Merge(x, y) + Pass(z, w);
      assert s == x + y + z;
      assert multiset(Pass(s, w)) == multiset(x) + multiset(y) + multiset(z);
    }
  }

  /** A pass turns segments of w in order into segments of 2 w in order. */
  lemma {:induction false} PassRuns(s: seq<Node>, w: nat)
    requires w >= 1 && RunsSorted(s, w)
    ensures RunsSorted(Pass(s, w), 2 * w)
    decreases |s|
  {
    if w < |s| <= 2 * w {
      MergeSorted(s[..w], s[w..]);
    } else if |s| > 2 * w {
      assert s[w..][..w] == s[w..2 * w] && s[w..][w..] == s[2 * w..];
      MergeSorted(s[..w], s[w..2 * w]);
      PassRuns(s[2 * w..], w);
      var m := Merge(s[..w], s[w..2 * w]);
      var r := Pass(s, w);
      assert r[..2 * w] == m && r[2 * w..] == Pass(s[2 * w..], w);
    }
  }

  lemma {:induction false} SingletonRuns(s: seq<Node>)
    ensures RunsSorted(s, 1)
    decreases |s|
  {
    if |s| > 1 {
      SingletonRuns(s[1..]);
    }
  }

  lemma {:induction false} SortFromCorrect(s: seq<Node>, w: nat)
    requires w >= 1 && RunsSorted(s, w)
    ensures Sorted(SortFrom(s, w)) && multiset(SortFrom(s, w)) == multiset(s)
    decreases |s| - w
  {
    if |s| > w {
      PassRuns(s, w);
      PassPermutation(s, w);
      SortFromCorrect(Pass(s, w), 2 * w);
    }
  }

  /** sort leaves the elements in non-decreasing order, each element once. */
  lemma SortSpecCorrect(s: seq<Node>)
    ensures Sorted(SortSpec(s)) && multiset(SortSpec(s)) == multiset(s)
  {
    SingletonRuns(s);
    SortFromCorrect(s, 1);
  }

  /**
   * The merge is not stable: of two elements with equal payloads the one
   * from the second segment comes first.
   */
  lemma MergeTakesSecondOnTie(x: Node, y: Node)
    requires x.payload == y.payload
    ensures Merge([x], [y]) == [y, x]
  {
    assert [x][1..] == [];
  }

  /** No element of a is an element of b. */
  ghost predicate Disjoint(a: seq<Node>, b: seq<Node>)
  {
    forall i, j :: 0 <= i < |a| && 0 <= j < |b| ==> a[i] != b[j]
  }

  /**
   * The inner i loop of sort and the cut after it: from P[c] it steps
   * segmentSize times along next; when the list ends first it stops there,
   * otherwise the segment P[c..e] is cut off the rest.
   */
  method CutSegment(start: Node, segmentSize: nat, ghost P: seq<Node>, ghost c: nat)
    returns (cursor: Node?, ghost e: nat)
    requires segmentSize >= 1 && c < |P| && P[c] == start
    requires Distinct(P) && NextLinked(P[c..])
    modifies P[c..]
    ensures e == if c + segmentSize < |P| then c + segmentSize else |P|
    ensures cursor == First(P[e..])
    ensures NextLinked(P[c..e]) && NextLinked(P[e..])
    ensures e == |P| ==> unchanged(P[c..])
  {
    cursor := start;
    var pc := start;
    e := c;
    var i := 0;
    while i < segmentSize
      invariant 0 <= i <= segmentSize && e == c + i < |P|
      invariant cursor == P[e] && (i > 0 ==> pc == P[e - 1])
    {
      pc := cursor;
      cursor := cursor.next;
      e := e + 1;
      assert cursor == First(P[e..]) by {
        assert P[c..][e - c - 1] == P[e - 1];
        if e < |P| {
          assert P[c..][e - c] == P[e];
        }
      }
      if cursor == null {
        assert P[c..e] == P[c..];
        return;
      }
      i := i + 1;
    }
    assert P[c..][e - c - 1] == P[e - 1];
    ghost var Q := P[c..];
    assert forall k :: 0 <= k < e - c ==> P[c..e][k] == Q[k] && (k < e - c - 1 ==> Q[k] != pc);
    assert forall k :: 0 <= k < |P| - e ==> P[e..][k] == Q[k + e - c] && Q[k + e - c] != pc;
    cursor.prev := null;
    pc.next := null;
  }

  /**
   * The state of a merge: the list built so far is doubly linked, the
   * rest of the two segments are chains along next, and these three and the
   * elements not yet reached by the pass are pairwise apart.
   */
  ghost predicate Merging(out: seq<Node>, R: seq<Node>, other: seq<Node>, rest: seq<Node>)
    reads out, R, other
  {
    Linked(out) && NextLinked(R) && NextLinked(other)
    && Distinct(out) && Distinct(R) && Distinct(other)
    && Disjoint(out, R) && Disjoint(out, other) && Disjoint(R, other)
    && Disjoint(out, rest) && Disjoint(R, rest) && Disjoint(other, rest)
  }

  /** The list a pass has built so far, and the elements it has not reached. */
  ghost predicate Built(out: seq<Node>, rest: seq<Node>)
    reads out
  {
    Linked(out) && Distinct(out) && Disjoint(out, rest)
  }

  lemma MergingSwap(out: seq<Node>, R: seq<Node>, other: seq<Node>, rest: seq<Node>)
    requires Merging(out, R, other, rest)
    ensures Merging(out, other, R, rest)
  {
  }

  /**
   * One step of the merge: s, the first element of the segment chain R, is
   * insertAfter'd behind the merged list's tail and becomes its tail (and
   * its head if it was empty); the segment goes on at s's old successor.
   */
  method Append(tail: Node?, newList: Node?, s: Node,
                ghost out: seq<Node>, ghost R: seq<Node>, ghost other: seq<Node>, ghost rest: seq<Node>)
    returns (newTail: Node, newHead: Node?, next: Node?)
    requires Merging(out, R, other, rest) && tail == Last(out) && newList == First(out)
    requires R != [] && R[0] == s
    modifies tail, s
    ensures Merging(out + [s], R[1..], other, rest)
    ensures newTail == s == Last(out + [s]) && newHead == First(out + [s]) && next == First(R[1..])
  {
    next := s.next;
    assert next == First(R[1..]) by {
      if |R| > 1 {
        assert R[1..][0] == R[1];
      }
    }
    InsertAfter(tail, s);
    newHead := newList;
    if tail == null {
      newHead := s;
    }
    newTail := s;
    assert forall k :: 0 <= k < |R| - 1 ==> R[1..][k] == R[k + 1];
  }

  /**
   * The three merge loops of sort: the segments A and B, chains starting at
   * seg0 and seg1, are merged onto the end of the list built so far.
   */
  method MergeSegments(tail: Node?, newList: Node?, seg0: Node?, seg1: Node?,
                       ghost out: seq<Node>, ghost A: seq<Node>, ghost B: seq<Node>, ghost rest: seq<Node>)
    returns (newTail: Node?, newHead: Node?, ghost merged: seq<Node>)
    requires Merging(out, A, B, rest) && tail == Last(out) && newList == First(out)
    requires seg0 == First(A) && seg1 == First(B)
    modifies tail, A, B
    ensures merged == out + Merge(A, B)
    ensures Merging(merged, [], [], rest)
    ensures newTail == Last(merged) && newHead == First(merged)
    ensures newTail == tail || newTail in A || newTail in B
    ensures unchanged(rest)
  {
    var s1, s2;
    ghost var i1, i2;
    newTail, newHead, s1, s2, merged, i1, i2 := MergeWhileBoth(tail, newList, seg0, seg1, out, A, B, rest);
    ghost var m1 := merged;
    MergeRest(merged, A[i1..], B[i2..]);
    newTail, newHead, merged := Drain(newTail, newHead, s1, merged, A[i1..], B[i2..], rest);
    MergingSwap(merged, [], B[i2..], rest);
    newTail, newHead, merged := Drain(newTail, newHead, s2, merged, B[i2..], [], rest);
    assert merged == m1 + A[i1..] + B[i2..];
    MergingSwap(merged, [], [], rest);
  }

  /**
   * The first merge loop of sort: while both segments have elements, the
   * smaller head (the second one's on a tie) is appended.
   */
  method MergeWhileBoth(tail: Node?, newList: Node?, seg0: Node?, seg1: Node?,
                        ghost out: seq<Node>, ghost A: seq<Node>, ghost B: seq<Node>, ghost rest: seq<Node>)
    returns (newTail: Node?, newHead: Node?, s1: Node?, s2: Node?, ghost merged: seq<Node>, ghost i1: nat, ghost i2: nat)
    requires Merging(out, A, B, rest) && tail == Last(out) && newList == First(out)
    requires seg0 == First(A) && seg1 == First(B)
    modifies tail, A, B
    ensures i1 <= |A| && i2 <= |B| && (i1 == |A| || i2 == |B|)
    ensures s1 == First(A[i1..]) && s2 == First(B[i2..])
    ensures out + Merge(A, B) == merged + Merge(A[i1..], B[i2..])
    ensures Merging(merged, A[i1..], B[i2..], rest)
    ensures newTail == Last(merged) && newHead == First(merged)
    ensures newTail == tail || newTail in A || newTail in B
  {
    s1, s2 := seg0, seg1;
    ghost var a, b := A, B;
    i1, i2 := 0, 0;
    newTail, newHead, merged := tail, newList, out;
    while s1 != null && s2 != null
      invariant s1 == First(a) && s2 == First(b)
      invariant out + Merge(A, B) == merged + Merge(a, b)
      invariant Merging(merged, a, b, rest)
      invariant newTail == Last(merged) && newHead == First(merged)
      invariant newTail == tail || newTail in A || newTail in B
      invariant i1 <= |A| && i2 <= |B| && a == A[i1..] && b == B[i2..]
      decreases |a| + |b|
    {
      MergeStep(merged, a, b);
      if Less(s1, s2) {
        Advance(merged, A, i1);
        newTail, newHead, s1 := Append(newTail, newHead, s1, merged, a, b, rest);
        merged, a, i1 := merged + [a[0]], a[1..], i1 + 1;
      } else {
        MergingSwap(merged, a, b, rest);
        Advance(merged, B, i2);
        newTail, newHead, s2 := Append(newTail, newHead, s2, merged, b, a, rest);
        MergingSwap(merged + [b[0]], b[1..], a, rest);
        merged, b, i2 := merged + [b[0]], b[1..], i2 + 1;
      }
    }
  }

  /** The first step of Merge, appended to what is merged so far. */
  lemma MergeStep(merged: seq<Node>, a: seq<Node>, b: seq<Node>)
    requires a != [] && b != []
    ensures Less(a[0], b[0]) ==> merged + Merge(a, b) == (merged + [a[0]]) + Merge(a[1..], b)
    ensures !Less(a[0], b[0]) ==> merged + Merge(a, b) == (merged + [b[0]]) + Merge(a, b[1..])
  {
  }

  /** Once one segment is used up, Merge is the rest of the other. */
  lemma MergeRest(merged: seq<Node>, a: seq<Node>, b: seq<Node>)
    requires a == [] || b == []
    ensures merged + Merge(a, b) == merged + a + b
  {
  }

  /**
   * The last two loops of sort's merge: what is left of one segment, the
   * chain R starting at s, is appended element by element. The other
   * segment's chain is left as it is.
   */
  method Drain(tail: Node?, newList: Node?, s: Node?,
               ghost out: seq<Node>, ghost R: seq<Node>, ghost other: seq<Node>, ghost rest: seq<Node>)
    returns (newTail: Node?, newHead: Node?, ghost merged: seq<Node>)
    requires Merging(out, R, other, rest) && tail == Last(out) && newList == First(out)
    requires s == First(R)
    modifies tail, R
    ensures merged == out + R
    ensures Merging(merged, [], other, rest)
    ensures newTail == Last(merged) && newHead == First(merged)
    ensures newTail == tail || newTail in R
  {
    var cursor := s;
    ghost var r := R;
    ghost var i := 0;
    newTail, newHead, merged := tail, newList, out;
    while cursor != null
      invariant cursor == First(r) && out + R == merged + r
      invariant Merging(merged, r, other, rest)
      invariant newTail == Last(merged) && newHead == First(merged)
      invariant newTail == tail || newTail in R
      invariant i <= |R| && r == R[i..]
      decreases |r|
    {
      Advance(merged, R, i);
      newTail, newHead, cursor := Append(newTail, newHead, cursor, merged, r, other, rest);
      merged, r, i := merged + [r[0]], r[1..], i + 1;
    }
  }

  /** Moving the first of the rest R[i..] of a segment onto the merged list. */
  lemma Advance(merged: seq<Node>, R: seq<Node>, i: nat)
    requires i < |R|
    ensures merged + R[i..] == (merged + [R[i..][0]]) + R[i..][1..]
    ensures R[i..][0] == R[i] && R[i] in R && R[i..][1..] == R[i + 1..]
  {
  }

  /**
   * The pair of segments a pass takes at position c: the first runs to e0,
   * the second from e0 to e1, and the pass goes on from e1.
   */
  lemma {:induction false} PassStep(P: seq<Node>, c: nat, e0: nat, e1: nat, w: nat,
                                    whole: seq<Node>, out: seq<Node>, merged: seq<Node>)
    requires w >= 1 && c < |P|
    requires e0 == if c + w < |P| then c + w else |P|
    requires e1 == if e0 == |P| then e0 else if e0 + w < |P| then e0 + w else |P|
    requires whole == out + Pass(P[c..], w)
    requires merged == out + Merge(P[c..e0], P[e0..e1])
    ensures whole == merged + Pass(P[e1..], w)
  {
    PassSplit(P, c, e0, e1, w);
  }

  lemma {:induction false} PassSplit(P: seq<Node>, c: nat, e0: nat, e1: nat, w: nat)
    requires w >= 1 && c < |P|
    requires e0 == if c + w < |P| then c + w else |P|
    requires e1 == if e0 == |P| then e0 else if e0 + w < |P| then e0 + w else |P|
    ensures Pass(P[c..], w) == Merge(P[c..e0], P[e0..e1]) + Pass(P[e1..], w)
  {
    var s := P[c..];
    if |s| <= w {
      assert P[c..e0] == s && P[e0..e1] == [] && P[e1..] == [];
    } else if |s| <= 2 * w {
      assert s[..w] == P[c..e0] && s[w..] == P[e0..e1] && P[e1..] == [];
    } else {
      assert s[..w] == P[c..e0] && s[w..2 * w] == P[e0..e1] && s[2 * w..] == P[e1..];
    }
  }

  /**
   * Two segments cut off the elements a pass has not reached are ready to
   * be merged: slices of a sequence without repetitions are apart from each
   * other and from the list built so far.
   */
  lemma SlicesApart(P: seq<Node>, out: seq<Node>, c: nat, e0: nat, e1: nat)
    requires c <= e0 <= e1 <= |P| && Distinct(P) && Built(out, P[c..])
    requires NextLinked(P[c..e0]) && NextLinked(P[e0..e1])
    ensures Merging(out, P[c..e0], P[e0..e1], P[e1..])
  {
    assert forall k :: 0 <= k < e0 - c ==> P[c..e0][k] == P[c..][k];
    assert forall k :: 0 <= k < e1 - e0 ==> P[e0..e1][k] == P[c..][k + e0 - c];
    assert forall k :: 0 <= k < |P| - e1 ==> P[e1..][k] == P[c..][k + e1 - c];
  }

  /** An element of two adjacent slices is an element of the sequence. */
  lemma InSlices(P: seq<Node>, c: nat, e0: nat, e1: nat, x: Node?)
    requires c <= e0 <= e1 <= |P|
    ensures x in P[c..e0] || x in P[e0..e1] ==> x in P
  {
    if x in P[c..e0] {
      var k :| 0 <= k < e0 - c && P[c..e0][k] == x;
      assert P[c + k] == x;
    } else if x in P[e0..e1] {
      var k :| 0 <= k < e1 - e0 && P[e0..e1][k] == x;
      assert P[e0 + k] == x;
    }
  }

  /** A pass that does not finish the sort is followed by one of twice the width. */
  lemma SortFromStep(s: seq<Node>, w: nat)
    requires w >= 1 && |s| > w
    ensures SortFrom(s, w) == SortFrom(Pass(s, w), 2 * w)
  {
  }

  /** Once the first segment takes in the whole list, the sort is done. */
  lemma SortFromDone(s: seq<Node>, w: nat)
    requires w >= 1 && |s| <= w
    ensures SortFrom(s, w) == s
  {
  }

  /** Sequences with the same multiset have the same elements. */
  lemma SameElements(a: seq<Node>, b: seq<Node>)
    requires multiset(a) == multiset(b)
    ensures forall x :: x in a <==> x in b
  {
    forall x
      ensures x in a <==> x in b
    {
      assert x in a <==> x in multiset(a);
      assert x in b <==> x in multiset(b);
    }
  }

  /**
   * One pass of sort (the body of its outer loop): the list P, starting at
   * prevList, is cut into segments of segmentSize elements that are merged
   * pairwise onto a new list. When the first segment already takes in the
   * whole list the pass stops at once and the list is still linked as it was.
   */
  method RunPass(prevList: Node, segmentSize: nat, ghost P: seq<Node>)
    returns (newList: Node?, tail: Node?, finished: bool, ghost out: seq<Node>)
    requires segmentSize >= 1 && P != [] && prevList == P[0] && Distinct(P) && Linked(P)
    modifies P
    ensures finished <==> |P| <= segmentSize
    ensures finished ==> Linked(P)
    ensures !finished ==> out == Pass(P, segmentSize) && Linked(out) && Distinct(out)
    ensures !finished ==> newList == First(out) && tail == Last(out)
  {
    newList := null;
    tail := null;
    var cursor: Node? := prevList;
    var segCount := 0;
    out := [];
    ghost var c := 0;
    while cursor != null
      invariant c <= |P| && cursor == First(P[c..]) && NextLinked(P[c..])
      invariant Built(out, P[c..])
      invariant newList == First(out) && tail == Last(out)
      invariant tail == null || tail in P
      invariant Pass(P, segmentSize) == out + Pass(P[c..], segmentSize)
      invariant c == 0 ==> segCount == 0 && Linked(P)
      invariant c > 0 ==> segCount >= 2 && |P| > segmentSize
      decreases |P| - c
    {
      label Round:
      cursor, segCount, tail, newList, c, out := PassRound(cursor, segmentSize, segCount, tail, newList, P, c, out);
      if segCount == 1 {
        StillLinked@Round(P);
        finished := true;
        return;
      }
    }
    finished := false;
  }

  /**
   * One round of sort's pass: two segments are cut off the list at cursor
   * and merged onto the list built so far. When the list at cursor holds a
   * single segment and it is the first round, nothing is merged and the
   * sort is done.
   */
  method PassRound(cursor: Node, segmentSize: nat, segCount: int, tail: Node?, newList: Node?,
                   ghost P: seq<Node>, ghost c: nat, ghost out: seq<Node>)
    returns (next: Node?, count: int, newTail: Node?, newHead: Node?, ghost e1: nat, ghost merged: seq<Node>)
    requires segmentSize >= 1 && c < |P| && cursor == P[c] && Distinct(P) && NextLinked(P[c..])
    requires Built(out, P[c..]) && tail == Last(out) && newList == First(out)
    requires tail == null || tail in P
    requires Pass(P, segmentSize) == out + Pass(P[c..], segmentSize)
    requires c == 0 ==> segCount == 0
    requires c > 0 ==> segCount >= 2 && |P| > segmentSize
    modifies P
    ensures count == 1 <==> c == 0 && |P| <= segmentSize
    ensures count == 1 ==> unchanged(P)
    ensures count != 1 ==> c < e1 <= |P| && count >= 2 && |P| > segmentSize
    ensures count != 1 ==> next == First(P[e1..]) && NextLinked(P[e1..])
    ensures count != 1 ==> Built(merged, P[e1..]) && newTail == Last(merged) && newHead == First(merged)
    ensures count != 1 ==> newTail == null || newTail in P
    ensures count != 1 ==> Pass(P, segmentSize) == merged + Pass(P[e1..], segmentSize)
  {
    var seg0, seg1;
    ghost var e0;
    seg0, seg1, next, count, e0, e1 := FindSegments(cursor, segmentSize, segCount, P, c);
    newTail, newHead, merged := tail, newList, out;
    if count == 1 {
      return;
    }
    assert c > 0 || e0 < |P|;
    newTail, newHead, merged := MergePair(tail, newList, seg0, seg1, segmentSize, P, c, e0, e1, out);
    PassStep(P, c, e0, e1, segmentSize, Pass(P, segmentSize), out, merged);
  }

  /** A list whose nodes are left as they were is still linked. */
  twostate lemma StillLinked(P: seq<Node>)
    requires old(Linked(P)) && unchanged(P)
    ensures Linked(P)
  {
  }

  /** A chain whose nodes are left as they were is still a chain. */
  twostate lemma StillNextLinked(P: seq<Node>)
    requires old(NextLinked(P)) && unchanged(P)
    ensures NextLinked(P)
  {
  }

  /**
   * The merge half of a round of sort's pass: the segments P[c..e0] and
   * P[e0..e1] are merged onto the list built so far, and the elements from
   * e1 on are left as they were.
   */
  method MergePair(tail: Node?, newList: Node?, seg0: Node, seg1: Node?, segmentSize: nat,
                   ghost P: seq<Node>, ghost c: nat, ghost e0: nat, ghost e1: nat, ghost out: seq<Node>)
    returns (newTail: Node?, newHead: Node?, ghost merged: seq<Node>)
    requires segmentSize >= 1 && c < |P| && Distinct(P)
    requires e0 == if c + segmentSize < |P| then c + segmentSize else |P|
    requires e1 == if e0 == |P| then e0 else if e0 + segmentSize < |P| then e0 + segmentSize else |P|
    requires seg0 == P[c] && seg1 == First(P[e0..e1])
    requires NextLinked(P[c..e0]) && NextLinked(P[e0..e1]) && NextLinked(P[e1..])
    requires Built(out, P[c..]) && tail == Last(out) && newList == First(out)
    requires tail == null || tail in P
    modifies P
    ensures Built(merged, P[e1..]) && NextLinked(P[e1..])
    ensures newTail == Last(merged) && newHead == First(merged)
    ensures newTail == null || newTail in P
    ensures merged == out + Merge(P[c..e0], P[e0..e1])
  {
    SlicesApart(P, out, c, e0, e1);
    label Merge:
    newTail, newHead, merged := MergeSegments(tail, newList, seg0, seg1, out, P[c..e0], P[e0..e1], P[e1..]);
    StillNextLinked@Merge(P[e1..]);
    InSlices(P, c, e0, e1, newTail);
  }

  /**
   * The j loop of sort: up to two segments are cut off the list at
   * cursor, counting each one begun in segCount; the walk stops early when
   * the list runs out.
   */
  method FindSegments(cursor: Node, segmentSize: nat, segCount: int, ghost P: seq<Node>, ghost c: nat)
    returns (seg0: Node, seg1: Node?, next: Node?, count: int, ghost e0: nat, ghost e1: nat)
    requires segmentSize >= 1 && c < |P| && P[c] == cursor
    requires Distinct(P) && NextLinked(P[c..])
    modifies P[c..]
    ensures e0 == if c + segmentSize < |P| then c + segmentSize else |P|
    ensures e1 == if e0 == |P| then e0 else if e0 + segmentSize < |P| then e0 + segmentSize else |P|
    ensures seg0 == cursor && seg1 == First(P[e0..e1]) && next == First(P[e1..])
    ensures count == segCount + if e0 == |P| then 1 else 2
    ensures NextLinked(P[c..e0]) && NextLinked(P[e0..e1]) && NextLinked(P[e1..])
    ensures c == 0 && e0 == |P| ==> unchanged(P)
  {
    seg0 := cursor;
    count := segCount + 1;
    next, e0 := CutSegment(cursor, segmentSize, P, c);
    assert c == 0 ==> P[c..] == P;
    seg1 := null;
    e1 := e0;
    if next != null {
      seg1 := next;
      count := count + 1;
      assert forall x :: x in P[e0..] ==> x in P[c..];
      next, e1 := CutSegment(seg1, segmentSize, P, e0);
    }
  }

  /**
   * The passes of sort over the list P from head to tail: segmentSize
   * starts at 1 and doubles after every pass that merged; the first pass
   * that finds a single segment ends the sort, and its list is the result.
   */
  method MergeSortPasses(head: Node, tail: Node, ghost P0: seq<Node>)
    returns (newHead: Node, newTail: Node, ghost sorted: seq<Node>)
    requires P0 != [] && Linked(P0) && Distinct(P0) && head == P0[0] && tail == Last(P0)
    modifies P0
    ensures sorted == SortSpec(P0) && multiset(sorted) == multiset(P0)
    ensures Linked(sorted) && Distinct(sorted) && newHead == First(sorted) && newTail == Last(sorted)
  {
    var segmentSize := 1;
    var newList: Node? := head;
    var prevList: Node? := null;
    var prevTail: Node? := null;
    var mergedTail: Node? := tail;
    ghost var P := P0;
    ghost var out := P0;
    ghost var N := |P0|;
    while true
      invariant segmentSize >= 1 && |out| == N
      invariant Linked(out) && Distinct(out) && multiset(out) == multiset(P0)
      invariant newList == First(out) && mergedTail == Last(out)
      invariant SortFrom(out, segmentSize) == SortSpec(P0)
      decreases N - segmentSize
    {
      prevList := newList;
      P := out;
      prevTail := mergedTail;
      SameElements(P, P0);
      assert forall k :: 0 <= k < |P| ==> P[k] in P0;
      var finished;
      newList, mergedTail, finished, out := RunPass(prevList, segmentSize, P);
      if finished {
        SortFromDone(P, segmentSize);
        break;
      }
      PassPermutation(P, segmentSize);
      SortFromStep(P, segmentSize);
      segmentSize := segmentSize * 2;
    }
    newHead, newTail, sorted := prevList, prevTail, P;
  }

  /** The list handle: head and tail, with the ghost order of its elements. */
  class List {
    var head: Node?
    var tail: Node?
    ghost var nodes: seq<Node>

    ghost predicate Valid()
      reads this, nodes
    {
      Distinct(nodes) && Linked(nodes) && head == First(nodes) && tail == Last(nodes)
    }

    /** initList: the empty list. */
    method Init()
      modifies this
      ensures head == null && tail == null
      ensures nodes == [] && Valid()
    {
      head := null;
      tail := null;
      nodes := [];
    }

    /**
     * addHead: elem becomes the head, linked to the old head; on an empty
     * list it is the tail as well.
     */
    method AddHead(elem: Node)
      requires Valid() && elem !in nodes
      modifies this, elem, head
      ensures nodes == [elem] + old(nodes) && Valid()
      ensures head == elem && elem.next == old(head) && elem.prev == null
      ensures old(head) != null ==> old(head).prev == elem && old(head).next == old(head.next)
      ensures tail == if old(tail) == null then elem else old(tail)
    {
      var oldHead := head;
      elem.next := oldHead;
      head := elem;
      if tail == null {
        tail := elem;
      }
      if oldHead != null {
        oldHead.prev := elem;
      }
      elem.prev := null;
      nodes := [elem] + nodes;
    }

    /**
     * addTail: elem becomes the tail, after the old tail; on an empty list
     * it is the head as well.
     */
    method AddTail(elem: Node)
      requires Valid() && elem !in nodes
      modifies this, elem, tail
      ensures nodes == old(nodes) + [elem] && Valid()
      ensures tail == elem && elem.prev == old(tail) && elem.next == null
      ensures old(tail) != null ==> old(tail).next == elem && old(tail).prev == old(tail.prev)
      ensures head == if old(head) == null then elem else old(head)
    {
      var oldTail := tail;
      if oldTail != null {
        oldTail.next := elem;
      }
      tail := elem;
      if head == null {
        head := elem;
      }
      elem.prev := oldTail;
      elem.next := null;
      nodes := nodes + [elem];
    }

    /**
     * insertAfter applied to an element of the list that is not its tail:
     * the list then holds toBeInserted right after elem. (After the tail the
     * list's tail pointer would go stale, since insertAfter does not touch it.)
     */
    method InsertAfterElement(elem: Node, toBeInserted: Node, ghost k: nat)
      requires Valid() && toBeInserted !in nodes
      requires k < |nodes| - 1 && nodes[k] == elem
      modifies this, elem, toBeInserted, elem.next
      ensures nodes == old(nodes[..k + 1]) + [toBeInserted] + old(nodes[k + 1..]) && Valid()
      ensures head == old(head) && tail == old(tail)
    {
      assert elem.next == nodes[k + 1];
      ghost var n := nodes[..k + 1] + [toBeInserted] + nodes[k + 1..];
      assert Distinct(n);
      InsertAfter(elem, toBeInserted);
      nodes := n;
    }

    /**
     * removeHead on a non-empty list: the old head's successor becomes the
     * head, with no predecessor; an emptied list has no tail either.
     */
    method RemoveHead()
      requires Valid() && nodes != []
      modifies this, head.next
      ensures nodes == old(nodes[1..]) && Valid()
      ensures head == old(head.next)
      ensures old(head.next) != null ==> head.prev == null && head.next == old(head.next.next)
      ensures tail == if old(head.next) == null then null else old(tail)
    {
      var oldHead := head;
      var next := oldHead.next;
      if next != null {
        next.prev := null;
      }
      head := next;
      if next == null {
        tail := null;
      }
      assert forall k :: 0 <= k < |nodes| - 1 ==> nodes[1..][k] == nodes[k + 1];
      nodes := nodes[1..];
    }

    /**
     * removeTail on a non-empty list: the old tail's predecessor becomes the
     * tail, with no successor; an emptied list has no head either.
     */
    method RemoveTail()
      requires Valid() && nodes != []
      modifies this, tail.prev
      ensures nodes == old(nodes[..|nodes| - 1]) && Valid()
      ensures tail == old(tail.prev)
      ensures old(tail.prev) != null ==> tail.next == null && tail.prev == old(tail.prev.prev)
      ensures head == if old(tail.prev) == null then null else old(head)
    {
      var oldTail := tail;
      var prev := oldTail.prev;
      if prev != null {
        prev.next := null;
      }
      tail := prev;
      if prev == null {
        head := null;
      }
      assert forall k :: 0 <= k < |nodes| - 1 ==> nodes[..|nodes| - 1][k] == nodes[k];
      nodes := nodes[..|nodes| - 1];
    }
    /**
     * sort on a non-empty list: a bottom-up merge sort that relinks the
     * elements in place (MergeSortPasses); the list then starts and ends at
     * the first and last of the sorted order.
     */
    method Sort()
      requires Valid() && nodes != []
      modifies this, nodes
      ensures Valid() && nodes == SortSpec(old(nodes))
      ensures Sorted(nodes) && multiset(nodes) == multiset(old(nodes))
    {
      var newHead, newTail;
      ghost var sorted;
      newHead, newTail, sorted := MergeSortPasses(head, tail, nodes);
      head := newHead;
      tail := newTail;
      nodes := sorted;
      SortSpecCorrect(old(nodes));
    }
  }
}
