/**
 * The library's growable array list. Items are pointers, modelled as
 * Option values with None for NULL; the array grows and shrinks in blocks
 * of 16 slots.
 */
module List {
  import opened Wrappers

  const BlockSize: nat := 16

  /** A comparison function as List_sort expects it: negative, zero or positive. */
  type Comparator<!T> = (Option<T>, Option<T>) -> int

  /** The items of s, in order, that the pivot compares greater than. */
  function Below<T>(p: Option<T>, s: seq<Option<T>>, cmp: Comparator<T>): (r: seq<Option<T>>)
    ensures |r| <= |s|
    ensures forall i :: 0 <= i < |r| ==> cmp(p, r[i]) > 0 && r[i] in s
  {
    if s == [] then []
    else Below(p, s[..|s| - 1], cmp) + (if cmp(p, s[|s| - 1]) > 0 then [s[|s| - 1]] else [])
  }

  /** The items of s, in order, that the pivot does not compare greater than. */
  function NotBelow<T>(p: Option<T>, s: seq<Option<T>>, cmp: Comparator<T>): (r: seq<Option<T>>)
    ensures |r| <= |s|
    ensures forall i :: 0 <= i < |r| ==> cmp(p, r[i]) <= 0 && r[i] in s
  {
    if s == [] then []
    else NotBelow(p, s[..|s| - 1], cmp) + (if cmp(p, s[|s| - 1]) > 0 then [] else [s[|s| - 1]])
  }

  /** Splitting by the pivot loses and invents nothing. */
  lemma {:induction false} SplitPermutes<T>(p: Option<T>, s: seq<Option<T>>, cmp: Comparator<T>)
    ensures multiset(Below(p, s, cmp)) + multiset(NotBelow(p, s, cmp)) == multiset(s)
    decreases |s|
  {
    if s != [] {
      var init := s[..|s| - 1];
      SplitPermutes(p, init, cmp);
      assert s == init + [s[|s| - 1]];
    }
  }

  /**
   * What List_sort leaves: the items the first one compares greater than,
   * sorted, then the first item, then the rest, sorted.
   */
  function QuickSorted<T>(s: seq<Option<T>>, cmp: Comparator<T>): (r: seq<Option<T>>)
    ensures multiset(r) == multiset(s) && |r| == |s|
    decreases |s|
  {
    if |s| < 2 then s
    else
      var lo := QuickSorted(Below(s[0], s[1..], cmp), cmp);
      var hi := QuickSorted(NotBelow(s[0], s[1..], cmp), cmp);
      SplitPermutes(s[0], s[1..], cmp);
      JoinPermutes(lo, hi, Below(s[0], s[1..], cmp), NotBelow(s[0], s[1..], cmp), s);
      lo + [s[0]] + hi
  }

  /** Permutations of the two sides, joined around the first item, permute the whole. */
  lemma JoinPermutes<T>(lo: seq<Option<T>>, hi: seq<Option<T>>, b: seq<Option<T>>, nb: seq<Option<T>>, s: seq<Option<T>>)
    requires |s| >= 1
    requires multiset(lo) == multiset(b) && multiset(hi) == multiset(nb)
    requires multiset(b) + multiset(nb) == multiset(s[1..])
    ensures multiset(lo + [s[0]] + hi) == multiset(s) && |lo + [s[0]] + hi| == |s|
  {
    assert s == [s[0]] + s[1..];
    assert multiset(lo + [s[0]] + hi) == multiset(lo) + multiset{s[0]} + multiset(hi);
    assert |lo| == |multiset(lo)| && |hi| == |multiset(hi)|;
    assert |s[1..]| == |multiset(s[1..])| && |b| == |multiset(b)| && |nb| == |multiset(nb)|;
  }

  /** One step of QuickSorted on a list of two or more items. */
  lemma QuickSortedUnfold<T>(s: seq<Option<T>>, cmp: Comparator<T>)
    requires |s| >= 2
    ensures QuickSorted(s, cmp) ==
      QuickSorted(Below(s[0], s[1..], cmp), cmp) + [s[0]] + QuickSorted(NotBelow(s[0], s[1..], cmp), cmp)
  {
  }

  /**
   * cmp orders the items of s consistently: a > b exactly when b < a, and
   * "not greater" is transitive.
   */
  ghost predicate Consistent<T>(cmp: Comparator<T>, s: seq<Option<T>>) {
    (forall a, b :: a in s && b in s ==> (cmp(a, b) > 0 <==> cmp(b, a) < 0)) &&
    (forall a, b, c :: a in s && b in s && c in s && cmp(a, b) <= 0 && cmp(b, c) <= 0 ==> cmp(a, c) <= 0)
  }

  ghost predicate SortedBy<T>(s: seq<Option<T>>, cmp: Comparator<T>) {
    forall i, j :: 0 <= i < j < |s| ==> cmp(s[i], s[j]) <= 0
  }

  /** Splitting one more item of s extends exactly one side. */
  lemma SplitStep<T>(p: Option<T>, s: seq<Option<T>>, i: nat, cmp: Comparator<T>)
    requires 1 <= i < |s|
    ensures Below(p, s[1..i + 1], cmp) == Below(p, s[1..i], cmp) + (if cmp(p, s[i]) > 0 then [s[i]] else [])
    ensures NotBelow(p, s[1..i + 1], cmp) == NotBelow(p, s[1..i], cmp) + (if cmp(p, s[i]) > 0 then [] else [s[i]])
  {
    assert s[1..i + 1][..i - 1] == s[1..i];
    assert s[1..i + 1][i - 1] == s[i];
  }

  /** Splitting by the pivot keeps the number of items. */
  lemma {:induction false} SplitLength<T>(p: Option<T>, s: seq<Option<T>>, cmp: Comparator<T>)
    ensures |Below(p, s, cmp)| + |NotBelow(p, s, cmp)| == |s|
    decreases |s|
  {
    if s != [] {
      SplitLength(p, s[..|s| - 1], cmp);
    }
  }

  /** A comparator consistent on s is consistent on any t drawn from s. */
  lemma ConsistentOnPart<T>(cmp: Comparator<T>, s: seq<Option<T>>, t: seq<Option<T>>)
    requires Consistent(cmp, s)
    requires forall x :: x in t ==> x in s
    ensures Consistent(cmp, t)
  {
  }

  /** Sorted runs on either side of a pivot that sits between them join into a sorted run. */
  lemma JoinSorted<T>(a: seq<Option<T>>, p: Option<T>, b: seq<Option<T>>, cmp: Comparator<T>, s: seq<Option<T>>)
    requires Consistent(cmp, s) && p in s
    requires SortedBy(a, cmp) && SortedBy(b, cmp)
    requires forall x :: x in a ==> x in s && cmp(x, p) <= 0
    requires forall y :: y in b ==> y in s && cmp(p, y) <= 0
    ensures SortedBy(a + [p] + b, cmp)
  {
    var r := a + [p] + b;
    forall i, j | 0 <= i < j < |r| ensures cmp(r[i], r[j]) <= 0 {
      if j < |a| {
        assert r[i] == a[i] && r[j] == a[j];
      } else if i < |a| && j == |a| {
        assert r[i] in a;
      } else if i < |a| {
        assert r[i] in a && r[j] == b[j - |a| - 1] && r[j] in b;
      } else if i == |a| {
        assert r[j] == b[j - |a| - 1] && r[j] in b;
      } else {
        assert r[i] == b[i - |a| - 1] && r[j] == b[j - |a| - 1];
      }
    }
  }

  /** The items below the pivot come before it, the others after it. */
  lemma SplitSides<T>(s: seq<Option<T>>, cmp: Comparator<T>)
    requires |s| >= 2 && Consistent(cmp, s)
    ensures forall x :: x in Below(s[0], s[1..], cmp) ==> x in s && cmp(x, s[0]) <= 0
    ensures forall y :: y in NotBelow(s[0], s[1..], cmp) ==> y in s && cmp(s[0], y) <= 0
  {
    var p := s[0];
    forall x | x in Below(p, s[1..], cmp) ensures x in s && cmp(x, p) <= 0 {
      var lo := Below(p, s[1..], cmp);
      var i :| 0 <= i < |lo| && lo[i] == x;
      assert x in s[1..];
    }
    forall y | y in NotBelow(p, s[1..], cmp) ensures y in s && cmp(p, y) <= 0 {
      var hi := NotBelow(p, s[1..], cmp);
      var i :| 0 <= i < |hi| && hi[i] == y;
      assert y in s[1..];
    }
  }

  /** With a consistent comparator, List_sort's order is sorted. */
  lemma {:induction false} QuickSortedIsSorted<T>(s: seq<Option<T>>, cmp: Comparator<T>)
    requires Consistent(cmp, s)
    ensures SortedBy(QuickSorted(s, cmp), cmp)
    decreases |s|
  {
    if |s| >= 2 {
      var p := s[0];
      var lo := Below(p, s[1..], cmp);
      var hi := NotBelow(p, s[1..], cmp);
      SplitSides(s, cmp);
      ConsistentOnPart(cmp, s, lo);
      ConsistentOnPart(cmp, s, hi);
      QuickSortedIsSorted(lo, cmp);
      QuickSortedIsSorted(hi, cmp);
      var a := QuickSorted(lo, cmp);
      var b := QuickSorted(hi, cmp);
      forall x | x in a ensures x in lo {
        assert x in multiset(a);
      }
      forall y | y in b ensures y in hi {
        assert y in multiset(b);
      }
      JoinSorted(a, p, b, cmp, s);
    }
  }

  class List<T(==)> {
    var base: array<Option<T>>
    /** Number of items. */
    var items: nat
    /** Number of slots allocated. */
    var space: nat

    ghost predicate Valid()
      reads this, base
    {
      base.Length == space && items <= space && space >= BlockSize && space % BlockSize == 0
    }

    /** The items, first to last. */
    ghost function Contents(): seq<Option<T>>
      requires Valid()
      reads this, base
    {
      base[..items]
    }

    /** List_new: empty, with 16 slots. */
    constructor()
      ensures Valid() && fresh(base)
      ensures Contents() == [] && space == BlockSize
    {
      base := new Option<T>[BlockSize](_ => None);
      items := 0;
      space := BlockSize;
    }

    /** The realloc of List_insert: 16 more slots, the items kept. */
    method Grow()
      requires Valid()
      modifies this
      ensures Valid() && fresh(base)
      ensures Contents() == old(Contents()) && space == old(space) + BlockSize
    {
      var a := new Option<T>[space + BlockSize](_ => None);
      forall i | 0 <= i < items {
        a[i] := base[i];
      }
      base := a;
      space := space + BlockSize;
    }

    /** The realloc of List_remove: 16 fewer slots, the items kept. */
    method Shrink()
      requires Valid() && space - items > BlockSize
      modifies this
      ensures Valid() && fresh(base)
      ensures Contents() == old(Contents()) && space == old(space) - BlockSize
    {
      var a := new Option<T>[space - BlockSize](_ => None);
      forall i | 0 <= i < items {
        a[i] := base[i];
      }
      base := a;
      space := space - BlockSize;
    }

    /**
     * List_insert: v goes to index n and the items from n on move up one;
     * a full list first grows by 16 slots.
     */
    method Insert(v: Option<T>, n: nat)
      requires Valid() && n <= items
      modifies this, base
      ensures Valid() && (base == old(base) || fresh(base))
      ensures Contents() == old(Contents())[..n] + [v] + old(Contents())[n..]
      ensures space == old(space) + (if old(items) == old(space) then BlockSize else 0)
    {
      if items == space {
        Grow();
      }
      ghost var before := Contents();
      ShiftUp(n);
      base[n] := v;
      items := items + 1;
      assert base[..items] == before[..n] + [v] + before[n..];
    }

    /** The loop of List_insert: the items from n on move up one slot. */
    method ShiftUp(n: nat)
      requires Valid() && n <= items < space
      modifies base
      ensures forall k :: 0 <= k < n ==> base[k] == old(base[k])
      ensures forall k :: n < k <= items ==> base[k] == old(base[k - 1])
    {
      var i := items;
      while i > n
        invariant n <= i <= items
        invariant forall k :: 0 <= k <= i ==> base[k] == old(base[k])
        invariant forall k :: i < k <= items ==> base[k] == old(base[k - 1])
      {
        base[i] := base[i - 1];
        i := i - 1;
      }
    }

    /** List_append: insert at the end; the new item's index is the old size. */
    method Append(v: Option<T>) returns (index: nat)
      requires Valid()
      modifies this, base
      ensures Valid() && (base == old(base) || fresh(base))
      ensures Contents() == old(Contents()) + [v]
      ensures index == old(items) && Contents()[index] == v
      ensures space == old(space) + (if old(items) == old(space) then BlockSize else 0)
    {
      Insert(v, items);
      index := items - 1;
    }

    /** List_set: replace the item at n; nothing happens past the end. */
    method Set(v: Option<T>, n: nat)
      requires Valid()
      modifies base
      ensures Valid()
      ensures n < items ==> Contents() == old(Contents())[n := v]
      ensures n >= items ==> Contents() == old(Contents())
    {
      if n < items {
        base[n] := v;
      }
    }

    /** List_get: the item at n, None (NULL) past the end. */
    method Get(n: nat) returns (v: Option<T>)
      requires Valid()
      ensures n < items ==> v == Contents()[n]
      ensures n >= items ==> v == None
    {
      if n < items {
        return base[n];
      }
      return None;
    }

    /**
     * List_remove: take out the item at n and move the later ones down, then
     * release 16 slots when more than 16 are free. An index past the end,
     * or a NULL item, gives NULL and changes nothing.
     */
    method Remove(n: nat) returns (v: Option<T>)
      requires Valid()
      modifies this, base
      ensures Valid() && (base == old(base) || fresh(base))
      ensures n < old(items) && old(Contents())[n].Some? ==>
        v == old(Contents())[n] &&
        Contents() == old(Contents())[..n] + old(Contents())[n + 1..] &&
        space == old(space) - (if old(space) - (old(items) - 1) > BlockSize then BlockSize else 0)
      ensures !(n < old(items) && old(Contents())[n].Some?) ==>
        v == None && Contents() == old(Contents()) && space == old(space)
    {
      v := Get(n);
      if v.None? {
        return;
      }
      ghost var before := Contents();
      ShiftDown(n);
      items := items - 1;
      assert base[..items] == before[..n] + before[n + 1..];
      if space - items > BlockSize {
        Shrink();
      }
    }

    /** The loop of List_remove: the items after n move down one slot. */
    method ShiftDown(n: nat)
      requires Valid() && n < items
      modifies base
      ensures forall k :: 0 <= k < n ==> base[k] == old(base[k])
      ensures forall k :: n <= k < items - 1 ==> base[k] == old(base[k + 1])
    {
      var i := n;
      while i < items - 1
        invariant n <= i <= items - 1
        invariant forall k :: 0 <= k < n ==> base[k] == old(base[k])
        invariant forall k :: n <= k < i ==> base[k] == old(base[k + 1])
        invariant forall k :: i < k < items ==> base[k] == old(base[k])
      {
        base[i] := base[i + 1];
        i := i + 1;
      }
    }

    /** List_indexOf: the first index holding v, or -1. */
    method IndexOf(v: Option<T>) returns (r: int)
      requires Valid()
      ensures -1 <= r < items
      ensures r == -1 <==> v !in Contents()
      ensures r >= 0 ==> Contents()[r] == v && v !in Contents()[..r]
    {
      var i := 0;
      while i < items
        invariant 0 <= i <= items
        invariant v !in base[..i]
      {
        if base[i] == v {
          return i;
        }
        i := i + 1;
      }
      return -1;
    }

    /** List_getSize. */
    function GetSize(): (n: nat)
      requires Valid()
      reads this, base
      ensures n == |Contents()|
    {
      items
    }

    /** List_copy: a new list with the same items and the same allocation; the items are shared. */
    method Copy() returns (c: List<T>)
      requires Valid()
      ensures fresh(c) && fresh(c.base) && c.Valid()
      ensures c.Contents() == Contents() && c.space == space
    {
      c := new List<T>();
      var a := new Option<T>[space](_ => None);
      forall i | 0 <= i < space {
        a[i] := base[i];
      }
      c.base := a;
      c.items := items;
      c.space := space;
      assert c.base[..c.items] == base[..items];
    }

    /**
     * List_sort: partition the items after the first into those the first
     * compares greater than and the rest, sort both, and write back less,
     * pivot, more.
     */
    method Sort(cmp: Comparator<T>)
      requires Valid()
      modifies base
      ensures Valid()
      ensures Contents() == QuickSorted(old(Contents()), cmp)
      decreases items, 0
    {
      if items < 2 {
        return;
      }
      ghost var s := Contents();
      var reference := base[0];
      var less, more := Partition(cmp);
      SplitLength(reference, s[1..], cmp);
      SortAndJoin(less, more, reference, cmp);
      QuickSortedUnfold(s, cmp);
    }

    /** The end of List_sort: sort the two parts, then write them back around the pivot. */
    method SortAndJoin(less: List<T>, more: List<T>, reference: Option<T>, cmp: Comparator<T>)
      requires Valid() && less.Valid() && more.Valid()
      requires less.base != more.base && less.base != base && more.base != base
      requires less.items + 1 + more.items == items
      modifies base, less.base, more.base
      ensures Valid()
      ensures Contents() == QuickSorted(old(less.Contents()), cmp) + [reference] + QuickSorted(old(more.Contents()), cmp)
      decreases less.items + more.items, 2
    {
      SortBoth(less, more, cmp);
      CopyBack(less, more, reference);
    }

    /** The two recursive List_sort calls, on the parts of the split. */
    static method SortBoth(less: List<T>, more: List<T>, cmp: Comparator<T>)
      requires less.Valid() && more.Valid() && less.base != more.base
      modifies less.base, more.base
      ensures less.Valid() && more.Valid()
      ensures less.Contents() == QuickSorted(old(less.Contents()), cmp)
      ensures more.Contents() == QuickSorted(old(more.Contents()), cmp)
      decreases less.items + more.items, 1
    {
      ghost var hi := more.Contents();
      less.Sort(cmp);
      assert more.Contents() == hi;
      ghost var lo' := less.Contents();
      more.Sort(cmp);
      assert less.Contents() == lo';
    }

    /** The split loop of List_sort: every item after the first goes to less or more. */
    method Partition(cmp: Comparator<T>) returns (less: List<T>, more: List<T>)
      requires Valid() && items >= 1
      ensures fresh(less) && fresh(less.base) && fresh(more) && fresh(more.base)
      ensures less != more && less.base != more.base
      ensures less.Valid() && more.Valid()
      ensures less.Contents() == Below(Contents()[0], Contents()[1..], cmp)
      ensures more.Contents() == NotBelow(Contents()[0], Contents()[1..], cmp)
    {
      ghost var s := Contents();
      less := new List<T>();
      more := new List<T>();
      var reference := base[0];
      var i := 1;
      while i < items
        invariant 1 <= i <= items
        invariant fresh(less) && fresh(less.base) && fresh(more) && fresh(more.base)
        invariant less != more && less.base != more.base
        invariant less.Valid() && more.Valid()
        invariant less.Contents() == Below(reference, s[1..i], cmp)
        invariant more.Contents() == NotBelow(reference, s[1..i], cmp)
      {
        SplitStep(reference, s, i, cmp);
        var current := base[i];
        Deal(less, more, current, cmp(reference, current) > 0);
        i := i + 1;
      }
      assert s[1..i] == s[1..];
    }

    /** One step of the split loop: current is appended to less when toLess, else to more. */
    static method Deal(less: List<T>, more: List<T>, current: Option<T>, toLess: bool)
      requires less != more && less.base != more.base
      requires less.Valid() && more.Valid()
      modifies less, less.base, more, more.base
      ensures less != more && less.base != more.base
      ensures less.Valid() && more.Valid()
      ensures less.base == old(less.base) || fresh(less.base)
      ensures more.base == old(more.base) || fresh(more.base)
      ensures less.Contents() == old(less.Contents()) + (if toLess then [current] else [])
      ensures more.Contents() == old(more.Contents()) + (if toLess then [] else [current])
    {
      if toLess {
        var _ := less.Append(current);
      } else {
        var _ := more.Append(current);
      }
    }

    /** The two memcpy calls and the pivot store at the end of List_sort. */
    method CopyBack(less: List<T>, more: List<T>, reference: Option<T>)
      requires Valid() && less.Valid() && more.Valid()
      requires less.base != base && more.base != base
      requires less.items + 1 + more.items == items
      modifies base
      ensures Valid()
      ensures Contents() == less.Contents() + [reference] + more.Contents()
    {
      ghost var a := less.Contents();
      ghost var b := more.Contents();
      var ls := less.items;
      var ms := more.items;
      Blit(less.base, 0, ls);
      base[ls] := reference;
      ghost var head := base[..ls + 1];
      assert head == a + [reference] by {
        assert base[..ls] == a;
      }
      Blit(more.base, ls + 1, ms);
      assert base[..ls + 1] == head;
      assert base[..items] == base[..ls + 1] + base[ls + 1..items];
    }

    /** A memcpy into base: count items of src land at offset, the other slots keep theirs. */
    method Blit(src: array<Option<T>>, offset: nat, count: nat)
      requires Valid() && src != base
      requires offset + count <= space && count <= src.Length
      modifies base
      ensures base[..offset] == old(base[..offset])
      ensures base[offset..offset + count] == src[..count]
      ensures base[offset + count..] == old(base[offset + count..])
    {
      forall k | offset <= k < offset + count {
        base[k] := src[k - offset];
      }
    }
  }
}
