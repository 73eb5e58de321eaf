/**
 * The fixed-size element allocator of suballocator.h. Free elements form a
 * singly linked LIFO list threaded through the elements themselves: the
 * first bytes of a free element hold the address of the next free one.
 *
 * Addresses are counted in elements (newPage + n is the n-th element of a
 * page) and 0 is NULL. The memory of the elements is the map `cells` from
 * an address to the link stored in it. The page that GET_PAGE returns is a
 * parameter of Allocate, 0 when no page is available.
 */
module SubAllocator {

  /** PAGE_ELEMENTS: the number of elements a page holds. */
  const PAGE_ELEMENTS: nat := 100

  /** The addresses of the elements from..PAGE_ELEMENTS-1 of the page at p, in ascending order. */
  function PageCells(p: nat, from: nat): (r: seq<nat>)
    ensures |r| == if from < PAGE_ELEMENTS then PAGE_ELEMENTS - from else 0
    ensures forall i :: 0 <= i < |r| ==> r[i] == p + from + i
    decreases PAGE_ELEMENTS - from
  {
    if from >= PAGE_ELEMENTS then [] else [p + from] + PageCells(p, from + 1)
  }

  /** The link the i-th element of a free list holds: the next element, NULL after the last. */
  function NextFree(free: seq<nat>, i: nat): nat
  {
    if i + 1 < |free| then free[i + 1] else 0
  }

  /** The allocator context: the head of the free list and the memory of the elements. */
  class AllocCtx {
    var head: nat
    var cells: map<nat, nat>
    /** The free list, head first. */
    ghost var free: seq<nat>

    /**
     * The free list is what following the links from head visits: every
     * free element is a non-NULL address whose cell links to the next one,
     * the last one linking to NULL; no element is on it twice.
     */
    ghost predicate Valid()
      reads this
    {
      (free == [] ==> head == 0)
      && (free != [] ==> head == free[0])
      && (forall i :: 0 <= i < |free| ==> free[i] != 0 && free[i] in cells)
      && (forall i :: 0 <= i < |free| ==> cells[free[i]] == NextFree(free, i))
      && (forall i, j :: 0 <= i < j < |free| ==> free[i] != free[j])
    }

    /** init: the free list is empty. */
    method Init()
      modifies this
      ensures Valid() && head == 0 && free == [] && cells == old(cells)
    {
      head := 0;
      free := [];
    }

    /**
     * allocate: the head of the free list is taken and the head advances to
     * the link stored in it. On an empty list one page is requested first:
     * when none is available the result is NULL and the list stays empty;
     * otherwise its elements are threaded in ascending address order, so
     * this call returns newPage + 0 and the next ones newPage + 1, ...
     */
    method Allocate(newPage: nat) returns (r: nat)
      requires Valid()
      modifies this
      ensures Valid()
      ensures old(free) != [] ==> r == old(free[0]) && free == old(free[1..]) && cells == old(cells)
      ensures old(free) == [] && newPage == 0 ==> r == 0 && free == [] && head == 0
      ensures old(free) == [] && newPage != 0 ==> r == newPage && free == PageCells(newPage, 1)
      ensures r != 0 ==> r !in free
      ensures forall a :: a in old(cells) && !(old(free) == [] && newPage != 0 && newPage <= a < newPage + PAGE_ELEMENTS) ==>
                a in cells && cells[a] == old(cells[a])
      ensures forall a :: a in cells ==> a in old(cells) || (old(free) == [] && newPage != 0 && newPage <= a < newPage + PAGE_ELEMENTS)
    {
      if head == 0 {
        if newPage == 0 {
          return 0;
        }
        ThreadPage(newPage);
      }
      r := head;
      assert free != [] && r == free[0];
      head := cells[r];
      ghost var rest := free[1..];
      assert head == NextFree(free, 0);
      assert forall i :: 0 <= i < |rest| ==> rest[i] == free[i + 1];
      forall i | 0 <= i < |rest|
        ensures cells[rest[i]] == NextFree(rest, i)
      {
        assert cells[free[i + 1]] == NextFree(free, i + 1);
      }
      free := rest;
    }

    /**
     * The refill loop: element n - 1 down to element 0 of the page is
     * linked to the current head and becomes the head.
     */
    method ThreadPage(newPage: nat)
      requires Valid() && free == [] && newPage != 0
      modifies this
      ensures Valid() && free == PageCells(newPage, 0)
      ensures forall a :: a in old(cells) && !(newPage <= a < newPage + PAGE_ELEMENTS) ==> a in cells && cells[a] == old(cells[a])
      ensures forall a :: a in cells ==> a in old(cells) || newPage <= a < newPage + PAGE_ELEMENTS
    {
      var n: nat := PAGE_ELEMENTS;
      while n > 0
        invariant n <= PAGE_ELEMENTS
        invariant Valid() && free == PageCells(newPage, n)
        invariant forall a :: a in old(cells) && !(newPage + n <= a < newPage + PAGE_ELEMENTS) ==> a in cells && cells[a] == old(cells[a])
        invariant forall a :: a in cells ==> a in old(cells) || newPage + n <= a < newPage + PAGE_ELEMENTS
      {
        n := n - 1;
        assert PageCells(newPage, n) == [newPage + n] + free;
        assert newPage + n !in free;
        cells := cells[newPage + n := head];
        head := newPage + n;
        free := [newPage + n] + free;
      }
    }

    /** deallocate: elem becomes the head of the free list, linked to the old head. */
    method Deallocate(elem: nat)
      requires Valid() && elem != 0 && elem !in free
      modifies this
      ensures Valid() && head == elem && free == [elem] + old(free)
      ensures cells == old(cells)[elem := old(head)]
    {
      cells := cells[elem := head];
      head := elem;
      free := [elem] + free;
    }

    /** The list is LIFO: allocating right after deallocating elem returns elem and restores the list. */
    method DeallocateThenAllocate(elem: nat, newPage: nat) returns (r: nat)
      requires Valid() && elem != 0 && elem !in free
      modifies this
      ensures Valid() && r == elem && free == old(free) && head == old(head)
    {
      Deallocate(elem);
      r := Allocate(newPage);
    }
  }
}
