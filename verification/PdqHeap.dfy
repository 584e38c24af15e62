/** The heap sort pdqsort falls back to when its budget of bad partitions is used up, with a count of the comparisons
    made. It works on the `size` elements from `begin` on; node i of the heap has its children at 2i + 1 and 2i + 2. */
module PdqHeap {
  import opened PdqOrder
  import opened PdqPartition
  import opened Sums

  // ---------------------------------------------------------------- heights

  /** floor(log2(n)) */
  ghost function Log2(n: nat): nat {
    if n < 2 then 0 else 1 + Log2(n / 2)
  }

  lemma {:induction false} Log2Monotone(m: nat, n: nat)
    requires m <= n
    ensures Log2(m) <= Log2(n)
    decreases n
  {
    if m >= 2 { Log2Monotone(m / 2, n / 2); }
  }

  /** Levels below a node: the length of the path of left children that starts at it. */
  ghost function Height(node: nat, size: nat): nat
    decreases size - node
  {
    if size <= 2 * node + 1 then 0 else 1 + Height(2 * node + 1, size)
  }

  lemma {:induction false} HeightMonotone(node: nat, other: nat, size: nat)
    requires node <= other
    ensures Height(other, size) <= Height(node, size)
    decreases size - node
  {
    if 2 * other + 1 < size { HeightMonotone(2 * node + 1, 2 * other + 1, size); }
  }

  lemma {:induction false} HeightHalved(node: nat, size: nat)
    ensures Height(2 * node + 1, size) == Height(node, size / 2)
    decreases size - node
  {
    if 2 * node + 1 < size / 2 { HeightHalved(2 * node + 1, size); }
  }

  lemma {:induction false} HeightIsLog(size: nat)
    ensures Height(0, size) == Log2(size)
  {
    if size >= 2 {
      HeightHalved(0, size);
      HeightIsLog(size / 2);
    }
  }

  lemma HeightBound(node: nat, size: nat, n: nat)
    requires size <= n
    ensures Height(node, size) <= Log2(n)
  {
    HeightMonotone(0, node, size);
    HeightIsLog(size);
    Log2Monotone(size, n);
  }

  // ---------------------------------------------------------------- heaps

  /** Node i is not below either of its children. */
  ghost predicate HeapAt<T>(s: seq<T>, begin: int, i: int, size: int, comp: (T, T) -> bool)
    requires 0 <= begin && 0 <= i < size && begin + size <= |s|
  {
    && (2 * i + 1 < size ==> Leq(comp, s[begin + 2 * i + 1], s[begin + i]))
    && (2 * i + 2 < size ==> Leq(comp, s[begin + 2 * i + 2], s[begin + i]))
  }

  ghost predicate HeapFrom<T>(s: seq<T>, begin: int, lo: int, size: int, comp: (T, T) -> bool)
    requires 0 <= begin && 0 <= lo && 0 <= size && begin + size <= |s|
  {
    forall i :: lo <= i < size ==> HeapAt(s, begin, i, size, comp)
  }

  /** The root is not below any node. */
  lemma {:induction false} RootIsLargest<T(!new)>(s: seq<T>, begin: int, i: int, size: int, comp: (T, T) -> bool)
    requires StrictWeakOrder(comp) && 0 <= begin && 0 <= i < size && begin + size <= |s|
    requires HeapFrom(s, begin, 0, size, comp)
    ensures Leq(comp, s[begin + i], s[begin])
  {
    if i > 0 {
      var parent := (i - 1) / 2;
      RootIsLargest(s, begin, parent, size, comp);
      assert HeapAt(s, begin, parent, size, comp);
      LeqTransitive(comp, s[begin + i], s[begin + parent], s[begin]);
    }
  }

  /** A heap but for the element at `node`, which may be below its children; those are not above its parent. */
  ghost predicate HeapBut<T>(s: seq<T>, begin: int, lo: int, node: int, size: int, comp: (T, T) -> bool)
    requires 0 <= begin && 0 <= lo <= node < size && begin + size <= |s|
  {
    && (forall i :: lo <= i < size && i != node ==> HeapAt(s, begin, i, size, comp))
    && (lo < node ==> lo <= (node - 1) / 2)
    && (lo < node && 2 * node + 1 < size ==> Leq(comp, s[begin + 2 * node + 1], s[begin + (node - 1) / 2]))
    && (lo < node && 2 * node + 2 < size ==> Leq(comp, s[begin + 2 * node + 2], s[begin + (node - 1) / 2]))
  }

  ghost predicate IsLargerChild<T>(s: seq<T>, begin: int, node: int, child: int, size: int, comp: (T, T) -> bool)
    requires 0 <= begin && 0 <= node < child < size && begin + size <= |s|
  {
    && (child == 2 * node + 1 || child == 2 * node + 2)
    && Leq(comp, s[begin + 2 * node + 1], s[begin + child])
    && (2 * node + 2 < size ==> Leq(comp, s[begin + 2 * node + 2], s[begin + child]))
  }

  /** Exchanging the element at `node` with its larger child moves the exception down to that child. */
  lemma SiftedOnce<T(!new)>(s: seq<T>, begin: int, lo: int, node: int, child: int, size: int, comp: (T, T) -> bool)
    requires StrictWeakOrder(comp) && 0 <= begin && 0 <= lo <= node < child < size && begin + size <= |s|
    requires HeapBut(s, begin, lo, node, size, comp)
    requires IsLargerChild(s, begin, node, child, size, comp)
    requires comp(s[begin + node], s[begin + child])
    ensures HeapBut(Swapped(s, begin + node, begin + child), begin, lo, child, size, comp)
  {
    var t := Swapped(s, begin + node, begin + child);
    LessLeq(comp, s[begin + node], s[begin + child], s[begin + child]);
    forall i | lo <= i < size && i != child ensures HeapAt(t, begin, i, size, comp) {
      if i != node {
        assert HeapAt(s, begin, i, size, comp);
      }
    }
    assert HeapAt(s, begin, child, size, comp);
  }

  /** The larger of the children of a node that has one. */
  method LargerChild<T(!new)>(a: array<T>, begin: int, node: int, size: int, comp: (T, T) -> bool)
    returns (child: int, ghost used: nat)
    requires StrictWeakOrder(comp) && 0 <= begin && 0 <= node && 2 * node + 1 < size && begin + size <= a.Length
    ensures 2 * node + 1 <= child < size && IsLargerChild(a[..], begin, node, child, size, comp)
    ensures used <= 1
  {
    child, used := 2 * node + 1, 0;
    if child + 1 < size {
      used := 1;
      if comp(a[begin + child], a[begin + (child + 1)]) {
        LessLeq(comp, a[begin + child], a[begin + (child + 1)], a[begin + (child + 1)]);
        child := child + 1;
      }
    }
  }

  /** One level of SiftDown: either the element may stay, or it changes places with its larger child. */
  method SiftStep<T(!new)>(a: array<T>, begin: int, ghost lo: int, node: int, size: int, comp: (T, T) -> bool,
                           ghost s: seq<T>)
    returns (child: int, stays: bool, ghost used: nat)
    requires StrictWeakOrder(comp) && 0 <= begin && 0 <= lo <= node < 2 * node + 1 < size && begin + size <= a.Length
    requires HeapBut(a[..], begin, lo, node, size, comp)
    requires |s| == a.Length && Permuted(s, a[..], begin, begin + size)
    modifies a
    ensures 2 * node + 1 <= child < size && Permuted(s, a[..], begin, begin + size)
    ensures stays ==> HeapFrom(a[..], begin, lo, size, comp)
    ensures !stays ==> HeapBut(a[..], begin, lo, child, size, comp)
    ensures used <= 2
  {
    child, used := LargerChild(a, begin, node, size, comp);
    used := used + 1;
    var i, j := begin + node, begin + child;
    stays := !comp(a[i], a[j]);
    ghost var t := a[..];
    assert t[i] == a[i] && t[j] == a[j];
    if stays {
      Settled(t, begin, lo, node, child, size, comp);
    } else {
      SiftedOnce(t, begin, lo, node, child, size, comp);
      SwapWithin(a, i, j, begin, begin + size, s);
    }
  }

  /** Sinks the element at `root` to its place, with at most two comparisons for each level below it. */
  method SiftDown<T(!new)>(a: array<T>, begin: int, root: int, size: int, comp: (T, T) -> bool) returns (ghost used: nat)
    requires StrictWeakOrder(comp) && 0 <= begin && 0 <= root < size && begin + size <= a.Length
    requires HeapFrom(a[..], begin, root + 1, size, comp)
    modifies a
    ensures HeapFrom(a[..], begin, root, size, comp)
    ensures Permuted(old(a[..]), a[..], begin, begin + size)
    ensures used <= 2 * Height(root, size)
  {
    ghost var s := a[..];
    var node := root;
    used := 0;
    while 2 * node + 1 < size
      invariant root <= node < size && HeapBut(a[..], begin, root, node, size, comp)
      invariant Permuted(s, a[..], begin, begin + size)
      invariant used + 2 * Height(node, size) <= 2 * Height(root, size)
      decreases size - node
    {
      var child, stays;
      ghost var step;
      child, stays, step := SiftStep(a, begin, root, node, size, comp, s);
      used := used + step;
      HeightMonotone(2 * node + 1, child, size);
      if stays { return; }
      node := child;
    }
    LeafSettled(a[..], begin, root, node, size, comp);
  }

  lemma LeafSettled<T>(s: seq<T>, begin: int, lo: int, node: int, size: int, comp: (T, T) -> bool)
    requires 0 <= begin && 0 <= lo <= node < size <= 2 * node + 1 && begin + size <= |s|
    requires HeapBut(s, begin, lo, node, size, comp)
    ensures HeapFrom(s, begin, lo, size, comp)
  {
  }

  lemma Settled<T(!new)>(s: seq<T>, begin: int, lo: int, node: int, child: int, size: int, comp: (T, T) -> bool)
    requires StrictWeakOrder(comp) && 0 <= begin && 0 <= lo <= node < child < size && begin + size <= |s|
    requires HeapBut(s, begin, lo, node, size, comp) && IsLargerChild(s, begin, node, child, size, comp)
    requires Leq(comp, s[begin + child], s[begin + node])
    ensures HeapFrom(s, begin, lo, size, comp)
  {
    LeqTransitive(comp, s[begin + 2 * node + 1], s[begin + child], s[begin + node]);
    if 2 * node + 2 < size {
      LeqTransitive(comp, s[begin + 2 * node + 2], s[begin + child], s[begin + node]);
    }
  }

  /** std::make_heap */
  method MakeHeap<T(!new)>(a: array<T>, begin: int, size: int, comp: (T, T) -> bool) returns (ghost used: nat)
    requires StrictWeakOrder(comp) && 0 <= begin && 0 <= size && begin + size <= a.Length
    modifies a
    ensures HeapFrom(a[..], begin, 0, size, comp)
    ensures Permuted(old(a[..]), a[..], begin, begin + size)
    ensures used <= Mul(size, Log2(size))
  {
    ghost var s, height := a[..], Log2(size);
    used := 0;
    for root := size / 2 downto 0
      invariant HeapFrom(a[..], begin, root, size, comp) && Permuted(s, a[..], begin, begin + size)
      invariant used <= 2 * Mul(size / 2 - root, height)
    {
      ghost var t := a[..];
      ghost var sifted := SiftDown(a, begin, root, size, comp);
      PermutedTransitive(s, t, a[..], begin, begin + size);
      HeightBound(root, size, size);
      used := used + sifted;
    }
    MulDistributes(size / 2, size / 2, height);
    MulDistributes(size % 2, size / 2 + size / 2, height);
  }

  ghost predicate AllBelow<T>(s: seq<T>, lo: int, hi: int, x: T, comp: (T, T) -> bool)
    requires 0 <= lo <= hi <= |s|
  {
    forall i :: lo <= i < hi ==> Leq(comp, s[i], x)
  }

  lemma HeapBelowRoot<T(!new)>(s: seq<T>, begin: int, k: int, comp: (T, T) -> bool)
    requires StrictWeakOrder(comp) && 0 <= begin && 0 < k && begin + k <= |s| && HeapFrom(s, begin, 0, k, comp)
    ensures AllBelow(s, begin, begin + k, s[begin], comp)
  {
    forall i | begin <= i < begin + k ensures Leq(comp, s[i], s[begin]) {
      RootIsLargest(s, begin, i - begin, k, comp);
    }
  }

  /** The largest of a heap put behind it, in front of a sorted tail. */
  lemma PutLast<T(!new)>(s: seq<T>, begin: int, last: int, end: int, comp: (T, T) -> bool)
    requires StrictWeakOrder(comp) && 0 <= begin < last < end <= |s|
    requires HeapFrom(s, begin, 0, last + 1 - begin, comp)
    requires Sorted(s, last + 1, end, comp) && Below(s, begin, last + 1, end, comp)
    ensures var t := Swapped(s, begin, last);
            && HeapFrom(t, begin, 1, last - begin, comp)
            && Sorted(t, last, end, comp) && Below(t, begin, last, end, comp)
  {
    var t, k := Swapped(s, begin, last), last - begin;
    HeapBelowRoot(s, begin, k + 1, comp);
    forall i | 1 <= i < k ensures HeapAt(t, begin, i, k, comp) {
      assert HeapAt(s, begin, i, k + 1, comp);
    }
    RestBelow(s, begin, last, end, comp);
  }

  lemma RestBelow<T>(s: seq<T>, begin: int, last: int, end: int, comp: (T, T) -> bool)
    requires 0 <= begin < last < end <= |s| && AllBelow(s, begin, last + 1, s[begin], comp)
    requires Sorted(s, last + 1, end, comp) && Below(s, begin, last + 1, end, comp)
    ensures Sorted(Swapped(s, begin, last), last, end, comp) && Below(Swapped(s, begin, last), begin, last, end, comp)
  {
    var t := Swapped(s, begin, last);
    forall i, j | begin <= i < last <= j < end ensures Leq(comp, t[i], t[j]) {
      var i' := if i == begin then last else i;
      assert t[i] == s[i'];
    }
  }

  /** std::sort_heap */
  method SortHeap<T(!new)>(a: array<T>, begin: int, size: int, comp: (T, T) -> bool) returns (ghost used: nat)
    requires StrictWeakOrder(comp) && 0 <= begin && 0 <= size && begin + size <= a.Length
    requires HeapFrom(a[..], begin, 0, size, comp)
    modifies a
    ensures Sorted(a[..], begin, begin + size, comp) && Permuted(old(a[..]), a[..], begin, begin + size)
    ensures used <= 2 * Mul(size, Log2(size))
  {
    ghost var s, height, end := a[..], Log2(size), begin + size;
    used := 0;
    var k := size;
    while k > 1
      invariant 0 <= k <= size && HeapFrom(a[..], begin, 0, k, comp) && Permuted(s, a[..], begin, end)
      invariant Sorted(a[..], begin + k, end, comp) && Below(a[..], begin, begin + k, end, comp)
      invariant used <= 2 * Mul(size - k, height)
    {
      k := k - 1;
      ghost var sifted := SortStep(a, begin, k, end, comp, s);
      HeightBound(0, k, size);
      used := used + sifted;
    }
    SortedConcat(a[..], begin, begin + k, end, comp);
    MulDistributes(k, size - k, height);
  }

  /** The largest of k + 1 elements goes behind the others, which become a heap again. */
  method SortStep<T(!new)>(a: array<T>, begin: int, k: int, ghost end: int, comp: (T, T) -> bool, ghost s: seq<T>)
    returns (ghost used: nat)
    requires StrictWeakOrder(comp) && 0 <= begin && 0 < k && begin + k < end <= a.Length
    requires HeapFrom(a[..], begin, 0, k + 1, comp) && |s| == a.Length && Permuted(s, a[..], begin, end)
    requires Sorted(a[..], begin + k + 1, end, comp) && Below(a[..], begin, begin + k + 1, end, comp)
    modifies a
    ensures HeapFrom(a[..], begin, 0, k, comp) && Permuted(s, a[..], begin, end)
    ensures Sorted(a[..], begin + k, end, comp) && Below(a[..], begin, begin + k, end, comp)
    ensures used <= 2 * Height(0, k)
  {
    PutLast(a[..], begin, begin + k, end, comp);
    SwapWithin(a, begin, begin + k, begin, end, s);
    ghost var t := a[..];
    used := SiftDown(a, begin, 0, k, comp);
    TailKept(s, t, a[..], begin, begin + k, end, comp);
  }

  lemma TailKept<T>(s: seq<T>, t: seq<T>, u: seq<T>, begin: int, mid: int, end: int, comp: (T, T) -> bool)
    requires 0 <= begin <= mid <= end <= |s| && Permuted(s, t, begin, end) && Permuted(t, u, begin, mid)
    requires Sorted(t, mid, end, comp) && Below(t, begin, mid, end, comp)
    ensures Permuted(s, u, begin, end) && Sorted(u, mid, end, comp) && Below(u, begin, mid, end, comp)
  {
    PermutedWiden(t, u, begin, mid, begin, end);
    PermutedTransitive(s, t, u, begin, end);
    PermutedBelow(t, u, begin, mid, end, begin, mid, comp);
  }

  /** std::make_heap followed by std::sort_heap. */
  method HeapSort<T(!new)>(a: array<T>, begin: int, end: int, comp: (T, T) -> bool) returns (ghost used: nat)
    requires StrictWeakOrder(comp) && 0 <= begin <= end <= a.Length
    modifies a
    ensures Sorted(a[..], begin, end, comp) && Permuted(old(a[..]), a[..], begin, end)
    ensures used <= 3 * Mul(end - begin, Log2(end - begin))
  {
    ghost var made := MakeHeap(a, begin, end - begin, comp);
    ghost var t := a[..];
    ghost var sorted := SortHeap(a, begin, end - begin, comp);
    PermutedTransitive(old(a[..]), t, a[..], begin, end);
    used := made + sorted;
  }
}
