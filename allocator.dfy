/**
 * The boundary-toggling allocator of allocator.h. The store keeps only the
 * borders between free and allocated memory, in ascending address order:
 * the 1st border starts a free block, the 2nd ends it, the 3rd starts the
 * next free block, and so on. Allocating and releasing are the same
 * operation, memToggle, which toggles the two borders of a block; toggling
 * a border that is present removes it, which merges neighbouring blocks.
 *
 * Addresses are byte addresses, 0 is NULL; sizes are size_t values below
 * 2^64 and the size arithmetic wraps as size_t does. The boundary store is
 * the one of allocator.c: a search tree keyed by address, iterated in
 * order, whose insertion fails when no tree node can be allocated; here it
 * is a strictly increasing sequence and a count of the nodes that can
 * still be allocated. SYSTEM_ALLOC is a parameter, 0 when it fails.
 */
module BoundaryAllocator {

  /** ALLOC_ALIGNMENT: addresses and sizes are multiples of it. */
  const ALLOC_ALIGNMENT: nat := 16
  /** ALLOC_GRANULARITY: page sizes are multiples of it. */
  const ALLOC_GRANULARITY: nat := 0x10000
  /** One more than the largest size_t. */
  const SIZE_LIMIT: nat := 0x1_0000_0000_0000_0000

  /** x & ~(a - 1) for the power of two a: x rounded down to a multiple of a. */
  function AlignDown(x: nat, a: nat): (r: nat)
    requires a == ALLOC_ALIGNMENT || a == ALLOC_GRANULARITY
    ensures r <= x < r + a && r % a == 0
  {
    x - x % a
  }

  /**
   * alignedSize: the size rounded down to the alignment, plus the
   * alignment, in size_t. It is a multiple of the alignment larger than
   * the size, except for the last 16 sizes, where it wraps to 0.
   */
  function AlignedSize(size: nat): (r: nat)
    requires size < SIZE_LIMIT
    ensures r % ALLOC_ALIGNMENT == 0 && r < SIZE_LIMIT
    ensures size < SIZE_LIMIT - ALLOC_ALIGNMENT ==> size < r <= size + ALLOC_ALIGNMENT
    ensures size >= SIZE_LIMIT - ALLOC_ALIGNMENT ==> r == 0
  {
    (AlignDown(size, ALLOC_ALIGNMENT) + ALLOC_ALIGNMENT) % SIZE_LIMIT
  }

  /**
   * pageSize: the size requested of the system when no free block fits,
   * rounded down to the granularity plus the granularity, in size_t.
   */
  function PageSize(alignedSize: nat): (r: nat)
    requires alignedSize < SIZE_LIMIT
    ensures r % ALLOC_GRANULARITY == 0 && r < SIZE_LIMIT
    ensures alignedSize < SIZE_LIMIT - ALLOC_GRANULARITY ==> alignedSize < r <= alignedSize + ALLOC_GRANULARITY
    ensures alignedSize >= SIZE_LIMIT - ALLOC_GRANULARITY ==> r == 0
  {
    (AlignDown(alignedSize, ALLOC_GRANULARITY) + ALLOC_GRANULARITY) % SIZE_LIMIT
  }

  ghost predicate Sorted(s: seq<nat>)
  {
    forall i, j :: 0 <= i < j < |s| ==> s[i] < s[j]
  }

  /** A border below every border of an ordered sequence can go in front of it. */
  lemma SortedCons(h: nat, t: seq<nat>)
    requires Sorted(t) && forall y :: y in t ==> h < y
    ensures Sorted([h] + t)
  {
    forall i, j | 0 <= i < j < |[h] + t| ensures ([h] + t)[i] < ([h] + t)[j] {
      if i == 0 {
        assert ([h] + t)[j] == t[j - 1] && t[j - 1] in t;
      } else {
        assert ([h] + t)[i] == t[i - 1] && ([h] + t)[j] == t[j - 1];
      }
    }
  }

  /** Adding a border to the store: the set of borders gains x and stays in order. */
  function InsertSorted(s: seq<nat>, x: nat): (r: seq<nat>)
    requires Sorted(s) && x !in s
    ensures Sorted(r) && |r| == |s| + 1
    ensures forall y :: y in r <==> y in s || y == x
  {
    if s == [] then [x]
    else if x < s[0] then [x] + s
    else
      var rest := InsertSorted(s[1..], x);
      assert forall y :: y in rest ==> s[0] < y by {
        forall y | y in rest ensures s[0] < y {
          if y in s[1..] {
            var k :| 0 <= k < |s[1..]| && s[1..][k] == y;
            assert s[k + 1] == y;
          }
        }
      }
      SortedCons(s[0], rest);
      [s[0]] + rest
  }

  /** Removing a border from the store: the set of borders loses x and stays in order. */
  function Remove(s: seq<nat>, x: nat): (r: seq<nat>)
    requires Sorted(s)
    ensures Sorted(r)
    ensures forall y :: y in r <==> y in s && y != x
  {
    if s == [] then []
    else if s[0] == x then s[1..]
    else
      var rest := Remove(s[1..], x);
      assert forall y :: y in rest ==> s[0] < y by {
        forall y | y in rest ensures s[0] < y {
          var k :| 0 <= k < |s[1..]| && s[1..][k] == y;
          assert s[k + 1] == y;
        }
      }
      SortedCons(s[0], rest);
      [s[0]] + rest
  }

  /** Two ordered sequences of borders with the same members are the same sequence. */
  lemma {:induction false} SortedUnique(a: seq<nat>, b: seq<nat>)
    requires Sorted(a) && Sorted(b)
    requires forall y :: y in a <==> y in b
    ensures a == b
  {
    if b != [] {
      assert b[0] in a;
    }
    if a != [] {
      assert a[0] in b;
      SameFirst(a, b);
      SortedUnique(a[1..], b[1..]);
      assert a == [a[0]] + a[1..] && b == [b[0]] + b[1..];
    }
  }

  /** Ordered sequences with the same members start alike, and their tails have the same members. */
  lemma SameFirst(a: seq<nat>, b: seq<nat>)
    requires Sorted(a) && Sorted(b) && a != [] && b != []
    requires forall y :: y in a <==> y in b
    ensures a[0] == b[0] && Sorted(a[1..]) && Sorted(b[1..])
    ensures forall y :: y in a[1..] <==> y in b[1..]
  {
    assert a[0] in b && b[0] in a;
    var ka :| 0 <= ka < |a| && a[ka] == b[0];
    var kb :| 0 <= kb < |b| && b[kb] == a[0];
    assert a[0] <= a[ka] && b[0] <= b[kb];
    forall y ensures y in a[1..] <==> y in b[1..] {
      if y in a[1..] {
        var k :| 0 <= k < |a[1..]| && a[1..][k] == y;
        assert a[0] < a[k + 1] && y in a && y in b;
        var m :| 0 <= m < |b| && b[m] == y;
        assert m != 0 && b[1..][m - 1] == y;
      }
      if y in b[1..] {
        var k :| 0 <= k < |b[1..]| && b[1..][k] == y;
        assert b[0] < b[k + 1] && y in b && y in a;
        var m :| 0 <= m < |a| && a[m] == y;
        assert m != 0 && a[1..][m - 1] == y;
      }
    }
  }

  /**
   * The border store: its borders in ascending order and the number of
   * tree nodes it can still allocate; removing a border frees its node.
   */
  datatype Store = Store(bounds: seq<nat>, spare: nat)

  /**
   * TOGGLE_BOUNDARY as allocator.c implements it: a border that is present
   * is removed; one that is absent is inserted, which fails (-1, nothing
   * changes) when the store cannot allocate a node. The first component
   * says whether the toggle succeeded.
   */
  function Toggle(st: Store, x: nat): (r: (bool, Store))
    requires Sorted(st.bounds)
    ensures Sorted(r.1.bounds)
    ensures r.0 ==> forall y :: y in r.1.bounds <==> (y in st.bounds) != (y == x)
    ensures r.0 ==> r.1.spare == if x in st.bounds then st.spare + 1 else st.spare - 1
    ensures !r.0 <==> x !in st.bounds && st.spare == 0
    ensures !r.0 ==> r.1 == st
  {
    if x in st.bounds then (true, Store(Remove(st.bounds, x), st.spare + 1))
    else if st.spare == 0 then (false, st)
    else (true, Store(InsertSorted(st.bounds, x), st.spare - 1))
  }

  /**
   * Two toggles in a row, as memToggle does them: the second is made only
   * when the first succeeded, and the first is not undone when the second
   * fails.
   */
  function TogglePair(st: Store, x: nat, y: nat): (r: (bool, Store))
    requires Sorted(st.bounds)
    ensures Sorted(r.1.bounds)
  {
    var first := Toggle(st, x);
    if !first.0 then first else Toggle(first.1, y)
  }

  /** Toggling a border twice gives back the same store. */
  lemma ToggleTwice(st: Store, x: nat)
    requires Sorted(st.bounds) && Toggle(st, x).0
    ensures Toggle(Toggle(st, x).1, x).0
    ensures Toggle(Toggle(st, x).1, x).1 == st
  {
    var once := Toggle(st, x).1;
    var twice := Toggle(once, x).1;
    SortedUnique(twice.bounds, st.bounds);
  }

  /**
   * Coalescing: toggling both borders of a block removes them from the
   * store altogether and frees their two nodes.
   */
  lemma ToggleBlockRemovesIt(st: Store, i: nat)
    requires Sorted(st.bounds) && i + 1 < |st.bounds|
    ensures TogglePair(st, st.bounds[i], st.bounds[i + 1]).0
    ensures forall y :: y in TogglePair(st, st.bounds[i], st.bounds[i + 1]).1.bounds <==>
      y in st.bounds && y != st.bounds[i] && y != st.bounds[i + 1]
    ensures TogglePair(st, st.bounds[i], st.bounds[i + 1]).1.spare == st.spare + 2
  {
    assert st.bounds[i] < st.bounds[i + 1];
  }

  /** Where the first-fit scan ends. */
  datatype Fit =
    | Found(i: nat)  // the pair s[i], s[i + 1]: the first free block large enough
    | NoFit          // every free block is too small
    | Broken         // a border without a pair, or a block ending before it starts

  /**
   * The first-fit scan over the borders taken two by two from s[k]. A block
   * it finds is a pair of borders at an even distance from s[k] that is
   * large enough.
   */
  function FirstFitFrom(s: seq<nat>, k: nat, size: nat): (r: Fit)
    ensures r.Found? ==> k <= r.i && (r.i - k) % 2 == 0 && r.i + 1 < |s|
    ensures r.Found? ==> s[r.i] <= s[r.i + 1] && s[r.i + 1] - s[r.i] >= size
    decreases |s| - k
  {
    if k >= |s| then NoFit
    else if k + 1 >= |s| then Broken
    else if s[k + 1] < s[k] then Broken
    else if s[k + 1] - s[k] >= size then Found(k)
    else FirstFitFrom(s, k + 2, size)
  }

  /**
   * The scan is first fit: every block before the one it finds is too
   * small, and when it finds none the borders pair up into well-formed
   * blocks that are all too small.
   */
  lemma {:induction false} FirstFitSkips(s: seq<nat>, k: nat, size: nat)
    ensures FirstFitFrom(s, k, size).Found? ==>
      forall j :: k <= j < FirstFitFrom(s, k, size).i && (j - k) % 2 == 0 ==>
        s[j] <= s[j + 1] && s[j + 1] - s[j] < size
    ensures FirstFitFrom(s, k, size).NoFit? ==> k >= |s| || (|s| - k) % 2 == 0
    ensures FirstFitFrom(s, k, size).NoFit? ==>
      forall j :: k <= j && j + 1 < |s| && (j - k) % 2 == 0 ==> s[j] <= s[j + 1] && s[j + 1] - s[j] < size
    decreases |s| - k
  {
    if k + 1 < |s| && s[k] <= s[k + 1] && s[k + 1] - s[k] < size {
      FirstFitSkips(s, k + 2, size);
      var r := FirstFitFrom(s, k + 2, size);
      assert FirstFitFrom(s, k, size) == r;
      if r.Found? {
        forall j | k <= j < r.i && (j - k) % 2 == 0
          ensures s[j] <= s[j + 1] && s[j + 1] - s[j] < size
        {
          if j != k {
            assert k + 2 <= j && (j - (k + 2)) % 2 == 0;
          }
        }
      } else if r.NoFit? {
        forall j | k <= j && j + 1 < |s| && (j - k) % 2 == 0
          ensures s[j] <= s[j + 1] && s[j + 1] - s[j] < size
        {
          if j != k {
            assert k + 2 <= j && (j - (k + 2)) % 2 == 0;
          }
        }
      }
    }
  }

  /** The scan over the whole store. */
  function FirstFit(s: seq<nat>, size: nat): (r: Fit)
  {
    FirstFitFrom(s, 0, size)
  }

  /**
   * On an ordered store the scan finds a block whenever one is large
   * enough, and never reports a broken store when the borders are paired.
   */
  lemma {:induction false} FirstFitComplete(s: seq<nat>, k: nat, size: nat)
    requires Sorted(s) && k % 2 == 0 && |s| % 2 == 0
    ensures !FirstFitFrom(s, k, size).Broken?
    ensures FirstFitFrom(s, k, size).NoFit? <==>
      forall j :: k <= j < |s| && j % 2 == 0 ==> s[j + 1] - s[j] < size
    decreases |s| - k
  {
    if k < |s| {
      assert s[k] < s[k + 1];
      if s[k + 1] - s[k] < size {
        FirstFitComplete(s, k + 2, size);
      }
    }
  }

  /**
   * memToggle on a store. With addr non-NULL it toggles the borders at the
   * aligned address and at the aligned address plus the aligned size, and
   * returns the aligned address, or NULL when a toggle fails. With addr
   * NULL it allocates: the first free block large enough gives its start
   * and the border after the new block; when none fits, a page of pageSize
   * bytes at newPage is taken and its free rest, after the new block,
   * becomes a free block. A broken store or a failed page request gives
   * NULL and changes nothing.
   */
  function MemToggleSpec(st: Store, addr: nat, size: nat, newPage: nat): (r: (nat, Store))
    requires Sorted(st.bounds) && size < SIZE_LIMIT
    ensures Sorted(r.1.bounds)
  {
    if addr != 0 then ToggleBlock(st, AlignDown(addr, ALLOC_ALIGNMENT), AlignedSize(size))
    else AllocateSpec(st, AlignedSize(size), newPage)
  }

  /** The two toggles of a block of n bytes at a, giving a when both succeed and NULL otherwise. */
  function ToggleBlock(st: Store, a: nat, n: nat): (r: (nat, Store))
    requires Sorted(st.bounds)
    ensures Sorted(r.1.bounds)
    ensures r.0 != 0 ==> r.0 == a
    ensures a != 0 ==> (r.0 == a <==> TogglePair(st, a, a + n).0)
    ensures r.1 == TogglePair(st, a, a + n).1
    ensures TogglePair(st, a, a + n).0 && n != 0 ==>
      forall y :: y in r.1.bounds <==> (y in st.bounds) != (y == a || y == a + n)
  {
    var t := TogglePair(st, a, a + n);
    (if t.0 then a else 0, t.1)
  }

  /** memToggle with addr NULL, for a block of alignedSize bytes. */
  function AllocateSpec(st: Store, alignedSize: nat, newPage: nat): (r: (nat, Store))
    requires Sorted(st.bounds) && alignedSize < SIZE_LIMIT
    ensures Sorted(r.1.bounds)
  {
    match FirstFit(st.bounds, alignedSize)
    case Found(i) => ToggleBlock(st, st.bounds[i], alignedSize)
    case Broken => (0, st)
    case NoFit =>
      if newPage == 0 then (0, st)
      else
        var t := TogglePair(st, newPage + alignedSize, newPage + PageSize(alignedSize));
        (if t.0 then newPage else 0, t.1)
  }

  /**
   * The page fallback: when no free block fits and the system gives a page
   * whose two borders are not in the store, allocation returns the page
   * exactly when the store can allocate both border nodes, and the store
   * then gains exactly newPage + alignedSize and newPage + pageSize.
   */
  lemma {:induction false} AllocateFromPage(st: Store, alignedSize: nat, newPage: nat)
    requires Sorted(st.bounds) && alignedSize < SIZE_LIMIT && FirstFit(st.bounds, alignedSize).NoFit? && newPage != 0
    requires newPage + alignedSize !in st.bounds && newPage + PageSize(alignedSize) !in st.bounds
    ensures
      var r := AllocateSpec(st, alignedSize, newPage);
      (r.0 == newPage <==> st.spare >= 2) && (r.0 != newPage ==> r.0 == 0) &&
      (r.0 == newPage ==>
        r.1.spare == st.spare - 2 &&
        forall y :: y in r.1.bounds <==> y in st.bounds || y == newPage + alignedSize || y == newPage + PageSize(alignedSize))
  {
    var a := newPage + alignedSize;
    var b := newPage + PageSize(alignedSize);
    if alignedSize >= SIZE_LIMIT - ALLOC_GRANULARITY {
      assert AlignDown(alignedSize, ALLOC_GRANULARITY) == SIZE_LIMIT - ALLOC_GRANULARITY;
      assert PageSize(alignedSize) == 0;
    }
    assert a != b;
    var first := Toggle(st, a);
    if st.spare > 0 {
      assert first.0 && first.1.spare == st.spare - 1 && b !in first.1.bounds;
    }
  }

  /**
   * Allocating from a free block never fails: removing its start frees a
   * node for the border after the new block. The start of the block leaves
   * the store and the border after the new block is toggled.
   */
  lemma AllocateInBlock(st: Store, size: nat, newPage: nat)
    requires Sorted(st.bounds) && size < SIZE_LIMIT && FirstFit(st.bounds, AlignedSize(size)).Found?
    ensures
      var start := st.bounds[FirstFit(st.bounds, AlignedSize(size)).i];
      var r := MemToggleSpec(st, 0, size, newPage);
      r.0 == start &&
      (forall y :: y in r.1.bounds <==> (y in st.bounds && y != start) != (y == start + AlignedSize(size)))
  {
    var start := st.bounds[FirstFit(st.bounds, AlignedSize(size)).i];
    var first := Toggle(st, start);
    assert first.0 && first.1.spare > 0;
    var second := Toggle(first.1, start + AlignedSize(size));
    assert second.0;
  }

  /** An allocation the size of its free block removes the block's two borders. */
  lemma ExactFitCoalesces(st: Store, size: nat, newPage: nat)
    requires Sorted(st.bounds) && size < SIZE_LIMIT && FirstFit(st.bounds, AlignedSize(size)).Found?
    requires
      var i := FirstFit(st.bounds, AlignedSize(size)).i;
      st.bounds[i + 1] - st.bounds[i] == AlignedSize(size)
    ensures
      var i := FirstFit(st.bounds, AlignedSize(size)).i;
      var r := MemToggleSpec(st, 0, size, newPage);
      r.0 == st.bounds[i] &&
      (forall y :: y in r.1.bounds <==> y in st.bounds && y != st.bounds[i] && y != st.bounds[i + 1])
  {
    var i := FirstFit(st.bounds, AlignedSize(size)).i;
    ToggleBlockRemovesIt(st, i);
  }

  /** Toggling the same two borders twice over, both times successfully, gives back the store. */
  lemma TogglePairTwice(st: Store, x: nat, e: nat)
    requires Sorted(st.bounds) && TogglePair(st, x, e).0
    requires TogglePair(TogglePair(st, x, e).1, x, e).0
    ensures TogglePair(TogglePair(st, x, e).1, x, e).1 == st
  {
    var s1 := Toggle(st, x).1;
    var s2 := Toggle(s1, e).1;
    var s3 := Toggle(s2, x).1;
    var s4 := Toggle(s3, e).1;
    if x == e {
      ToggleTwice(st, x);
      ToggleTwice(s2, x);
    } else {
      assert s4.spare == st.spare;
      SortedUnique(s4.bounds, st.bounds);
    }
  }

  /**
   * Releasing what an allocation took gives the store back: memToggle on
   * the address it returned, with the same size, restores every border and
   * every free node. The release inserts the block's start again, so it
   * needs a node to spare when the allocation did not use the whole block.
   */
  lemma ReleaseUndoesAllocate(st: Store, size: nat, newPage: nat)
    requires Sorted(st.bounds) && size < SIZE_LIMIT && FirstFit(st.bounds, AlignedSize(size)).Found?
    requires st.bounds[FirstFit(st.bounds, AlignedSize(size)).i] % ALLOC_ALIGNMENT == 0
    requires st.spare > 0
    ensures
      var r := MemToggleSpec(st, 0, size, newPage);
      r.0 != 0 ==> MemToggleSpec(r.1, r.0, size, newPage) == (r.0, st)
  {
    var start := st.bounds[FirstFit(st.bounds, AlignedSize(size)).i];
    var e := start + AlignedSize(size);
    AllocateInBlock(st, size, newPage);
    var r := MemToggleSpec(st, 0, size, newPage);
    assert r.1 == TogglePair(st, start, e).1;
    if start != 0 {
      assert AlignDown(start, ALLOC_ALIGNMENT) == start;
      if start != e {
        var s1 := Toggle(r.1, start);
        assert s1.0;
        assert Toggle(s1.1, e).0;
      } else {
        assert TogglePair(r.1, start, e).0;
      }
      TogglePairTwice(st, start, e);
    }
  }

  /** The allocator context: the border store allocator.c keeps in its tree. */
  class Allocator {
    var bounds: seq<nat>
    var spare: nat

    ghost predicate Valid()
      reads this
    {
      Sorted(bounds)
    }

    /** TOGGLE_BOUNDARY on the context: the store becomes what Toggle says. */
    method ToggleBoundary(x: nat) returns (ret: int)
      requires Valid()
      modifies this
      ensures Valid()
      ensures ret == (if Toggle(old(Store(bounds, spare)), x).0 then 0 else -1)
      ensures Store(bounds, spare) == Toggle(old(Store(bounds, spare)), x).1
    {
      var r := Toggle(Store(bounds, spare), x);
      bounds, spare := r.1.bounds, r.1.spare;
      ret := if r.0 then 0 else -1;
    }

    /** memToggle on the context: the result and the new store are those of MemToggleSpec. */
    method MemToggle(addr: nat, size: nat, newPage: nat) returns (r: nat)
      requires Valid() && size < SIZE_LIMIT
      modifies this
      ensures Valid()
      ensures (r, Store(bounds, spare)) == MemToggleSpec(old(Store(bounds, spare)), addr, size, newPage)
    {
      var alignedAddr := AlignDown(addr, ALLOC_ALIGNMENT);
      var alignedSize := AlignedSize(size);
      if addr != 0 {
        r := TogglePairAt(alignedAddr, alignedAddr + alignedSize, alignedAddr);
      } else {
        r := Allocate(alignedSize, newPage);
      }
    }

    /** The allocating half of memToggle: first fit, then a new page. */
    method Allocate(alignedSize: nat, newPage: nat) returns (r: nat)
      requires Valid() && alignedSize < SIZE_LIMIT
      modifies this
      ensures Valid()
      ensures (r, Store(bounds, spare)) == AllocateSpec(old(Store(bounds, spare)), alignedSize, newPage)
    {
      ghost var st := Store(bounds, spare);
      var fit := Scan(alignedSize);
      if fit.Broken? {
        return 0;
      }
      if fit.Found? {
        var startAddr := bounds[fit.i];
        r := TogglePairAt(startAddr, startAddr + alignedSize, startAddr);
        return;
      }
      var pageSize := PageSize(alignedSize);
      if newPage == 0 {
        return 0;
      }
      r := TogglePairAt(newPage + alignedSize, newPage + pageSize, newPage);
    }

    /**
     * The scan of memToggle: the borders are read two by two in ascending
     * order, starting from the first.
     */
    method Scan(alignedSize: nat) returns (fit: Fit)
      ensures fit == FirstFit(bounds, alignedSize)
    {
      var k := 0;
      while k < |bounds|
        invariant FirstFitFrom(bounds, k, alignedSize) == FirstFit(bounds, alignedSize)
        decreases |bounds| - k
      {
        if k + 1 >= |bounds| {
          return Broken;
        }
        var startAddr, endAddr := bounds[k], bounds[k + 1];
        if endAddr < startAddr {
          return Broken;
        }
        if endAddr - startAddr >= alignedSize {
          return Found(k);
        }
        k := k + 2;
      }
      fit := NoFit;
    }

    /** The two toggles of memToggle, giving result when both succeed and NULL otherwise. */
    method TogglePairAt(x: nat, y: nat, result: nat) returns (r: nat)
      requires Valid()
      modifies this
      ensures Valid()
      ensures (r, Store(bounds, spare)) == (if TogglePair(old(Store(bounds, spare)), x, y).0 then result else 0, TogglePair(old(Store(bounds, spare)), x, y).1)
    {
      var ret := ToggleBoundary(x);
      if ret != 0 {
        return 0;
      }
      ret := ToggleBoundary(y);
      if ret != 0 {
        return 0;
      }
      r := result;
    }
  }
}
