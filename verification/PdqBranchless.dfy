/** Block partitioning (BlockQuicksort): misplaced elements are first recorded as offsets into a left and
    a right block and then exchanged in bulk. It meets the same contract as PdqPartition.PartitionRight. */
module PdqBranchless {
  import opened PdqOrder
  import opened PdqPartition

  const BLOCK_SIZE := 64

  ghost predicate Increasing(offs: seq<int>) {
    forall i, j :: 0 <= i < j < |offs| ==> offs[i] < offs[j]
  }

  ghost predicate Unlisted(offs: seq<int>, k: int) {
    k !in offs
  }

  /** offs lists, in increasing order, exactly the k in [0, size) with s[first + k] not below the pivot. */
  ghost predicate LeftBlock<T>(s: seq<T>, first: int, size: int, offs: seq<int>, pivot: T, comp: (T, T) -> bool)
    requires 0 <= first && 0 <= size && first + size <= |s|
  {
    && Increasing(offs)
    && (forall i :: 0 <= i < |offs| ==> 0 <= offs[i] < size && !comp(s[first + offs[i]], pivot))
    && (forall k {:trigger Unlisted(offs, k)} :: 0 <= k < size && Unlisted(offs, k) ==> comp(s[first + k], pivot))
  }

  /** offs lists, in increasing order, exactly the k in [1, size] with s[last - k] below the pivot. */
  ghost predicate RightBlock<T>(s: seq<T>, last: int, size: int, offs: seq<int>, pivot: T, comp: (T, T) -> bool)
    requires 0 <= size <= last <= |s|
  {
    && Increasing(offs)
    && (forall i :: 0 <= i < |offs| ==> 1 <= offs[i] <= size && comp(s[last - offs[i]], pivot))
    && (forall k {:trigger Unlisted(offs, k)} :: 1 <= k <= size && Unlisted(offs, k) ==> !comp(s[last - k], pivot))
  }

  lemma LeftBlockAdd<T>(s: seq<T>, first: int, size: int, offs: seq<int>, pivot: T, comp: (T, T) -> bool)
    requires 0 <= first && 0 <= size && first + size < |s|
    requires LeftBlock(s, first, size, offs, pivot, comp) && !comp(s[first + size], pivot)
    ensures LeftBlock(s, first, size + 1, offs + [size], pivot, comp)
  {
    var offs' := offs + [size];
    forall k | 0 <= k <= size && Unlisted(offs', k) ensures comp(s[first + k], pivot) {
      assert Unlisted(offs, k) && offs'[|offs|] == size;
    }
  }

  lemma RightBlockAdd<T>(s: seq<T>, last: int, size: int, offs: seq<int>, pivot: T, comp: (T, T) -> bool)
    requires 0 <= size < last <= |s|
    requires RightBlock(s, last, size, offs, pivot, comp) && comp(s[last - (size + 1)], pivot)
    ensures RightBlock(s, last, size + 1, offs + [size + 1], pivot, comp)
  {
    var offs' := offs + [size + 1];
    forall k | 1 <= k <= size + 1 && Unlisted(offs', k) ensures !comp(s[last - k], pivot) {
      assert Unlisted(offs, k) && offs'[|offs|] == size + 1;
    }
  }

  /** The left fill loop; the write index never leaves the buffer because num <= i. */
  method FillLeft<T(!new)>(a: array<T>, first: int, size: int, pivot: T, comp: (T, T) -> bool, offsets: array<int>)
    returns (num: int, ghost used: nat)
    requires a as object != offsets as object
    requires 0 <= first && 0 <= size <= offsets.Length && first + size <= a.Length
    modifies offsets
    ensures 0 <= num <= size && used == size
    ensures LeftBlock(a[..], first, size, offsets[..num], pivot, comp)
  {
    num, used := 0, 0;
    ghost var s := a[..];
    for i := 0 to size
      invariant 0 <= num <= i && used == i && a[..] == s
      invariant LeftBlock(s, first, i, offsets[..num], pivot, comp)
    {
      ghost var offs := offsets[..num];
      offsets[num] := i;
      assert offsets[..num] == offs && offsets[..num + 1] == offs + [i];
      used := used + 1;
      if !comp(a[first + i], pivot) {
        LeftBlockAdd(s, first, i, offs, pivot, comp);
        num := num + 1;
      }
    }
  }

  method FillRight<T(!new)>(a: array<T>, last: int, size: int, pivot: T, comp: (T, T) -> bool, offsets: array<int>)
    returns (num: int, ghost used: nat)
    requires a as object != offsets as object
    requires 0 <= size <= last <= a.Length && size <= offsets.Length
    modifies offsets
    ensures 0 <= num <= size && used == size
    ensures RightBlock(a[..], last, size, offsets[..num], pivot, comp)
  {
    num, used := 0, 0;
    ghost var s := a[..];
    for i := 0 to size
      invariant 0 <= num <= i && used == i && a[..] == s
      invariant RightBlock(s, last, i, offsets[..num], pivot, comp)
    {
      ghost var offs := offsets[..num];
      offsets[num] := i + 1;
      assert offsets[..num] == offs && offsets[..num + 1] == offs + [i + 1];
      used := used + 1;
      if comp(a[last - (i + 1)], pivot) {
        RightBlockAdd(s, last, i, offs, pivot, comp);
        num := num + 1;
      }
    }
  }

  /** Array positions ls, increasing and before mid, paired with positions rs, decreasing and from mid on. */
  ghost predicate Pairs(lo: int, mid: int, hi: int, ls: seq<int>, rs: seq<int>) {
    && |ls| == |rs|
    && (forall i, j :: 0 <= i < j < |ls| ==> ls[i] < ls[j])
    && (forall i, j :: 0 <= i < j < |rs| ==> rs[j] < rs[i])
    && (forall i :: 0 <= i < |ls| ==> lo <= ls[i] < mid)
    && (forall i :: 0 <= i < |rs| ==> mid <= rs[i] < hi)
  }

  ghost function Partner(i: int, num: int, useSwaps: bool): (j: int)
    requires 0 <= i < num
    ensures 0 <= j < num
  {
    if useSwaps then i else if i + 1 < num then i + 1 else 0
  }

  ghost predicate Apart(ls: seq<int>, rs: seq<int>, n: int, x: int)
    requires 0 <= n <= |ls| == |rs|
  {
    forall i :: 0 <= i < n ==> ls[i] != x && rs[i] != x
  }

  /** What swap_offsets has done after n pairs: every left position has received the element of its right
      partner; every right position that of its left partner, or of the next one round the cycle; nothing
      else has moved. */
  ghost predicate Exchanged<T>(s: seq<T>, t: seq<T>, lo: int, mid: int, hi: int, ls: seq<int>, rs: seq<int>, n: int,
                               useSwaps: bool)
    requires 0 <= lo <= mid <= hi <= |s| && Pairs(lo, mid, hi, ls, rs) && 0 <= n <= |ls|
  {
    && Permuted(s, t, lo, hi)
    && (forall i {:trigger t[ls[i]]} :: 0 <= i < n ==> t[ls[i]] == s[rs[i]])
    && (forall i {:trigger t[rs[i]]} :: 0 <= i < n ==> t[rs[i]] == s[ls[Partner(i, n, useSwaps)]])
    && (forall x {:trigger Apart(ls, rs, n, x)} :: lo <= x < hi && Apart(ls, rs, n, x) ==> t[x] == s[x])
  }

  lemma NothingExchanged<T>(s: seq<T>, lo: int, mid: int, hi: int, ls: seq<int>, rs: seq<int>, useSwaps: bool)
    requires 0 <= lo <= mid <= hi <= |s| && Pairs(lo, mid, hi, ls, rs)
    ensures Exchanged(s, s, lo, mid, hi, ls, rs, 0, useSwaps)
  {
  }

  /** What one more pair does to each kind of position. */
  ghost predicate PairMoved<T>(s: seq<T>, t: seq<T>, t': seq<T>, lo: int, mid: int, hi: int, ls: seq<int>,
                               rs: seq<int>, n: int, useSwaps: bool)
    requires 0 <= lo <= mid <= hi <= |s| == |t| == |t'| && Pairs(lo, mid, hi, ls, rs) && 0 <= n < |ls|
  {
    && t'[ls[n]] == s[rs[n]]
    && (forall i :: lo <= i < mid && i != ls[n] ==> t'[i] == t[i])
    && (forall i :: mid <= i < hi && i != rs[n] && (useSwaps || n == 0 || i != rs[n - 1]) ==> t'[i] == t[i])
    && t'[rs[n]] == (if useSwaps then s[ls[n]] else s[ls[0]])
    && (!useSwaps && n > 0 ==> t'[rs[n - 1]] == s[ls[n]])
  }

  lemma ApartNext<T>(s: seq<T>, t: seq<T>, t': seq<T>, lo: int, mid: int, hi: int, ls: seq<int>, rs: seq<int>,
                     n: int, useSwaps: bool, x: int)
    requires 0 <= lo <= mid <= hi <= |s| == |t| == |t'| && Pairs(lo, mid, hi, ls, rs) && 0 <= n < |ls|
    requires Exchanged(s, t, lo, mid, hi, ls, rs, n, useSwaps) && PairMoved(s, t, t', lo, mid, hi, ls, rs, n, useSwaps)
    requires lo <= x < hi && Apart(ls, rs, n + 1, x)
    ensures t'[x] == s[x]
  {
    assert Apart(ls, rs, n, x);
    assert x != ls[n] && x != rs[n] && (n > 0 ==> x != rs[n - 1]);
  }

  lemma LeftPartnersNext<T>(s: seq<T>, t: seq<T>, t': seq<T>, lo: int, mid: int, hi: int, ls: seq<int>, rs: seq<int>,
                            n: int, useSwaps: bool, i: int)
    requires 0 <= lo <= mid <= hi <= |s| == |t| == |t'| && Pairs(lo, mid, hi, ls, rs) && 0 <= n < |ls|
    requires Exchanged(s, t, lo, mid, hi, ls, rs, n, useSwaps) && PairMoved(s, t, t', lo, mid, hi, ls, rs, n, useSwaps)
    requires 0 <= i < n + 1
    ensures t'[ls[i]] == s[rs[i]]
  {
    if i < n { assert ls[i] != ls[n] && t'[ls[i]] == t[ls[i]]; }
  }

  lemma RightPartnersNext<T>(s: seq<T>, t: seq<T>, t': seq<T>, lo: int, mid: int, hi: int, ls: seq<int>,
                             rs: seq<int>, n: int, useSwaps: bool, i: int)
    requires 0 <= lo <= mid <= hi <= |s| == |t| == |t'| && Pairs(lo, mid, hi, ls, rs) && 0 <= n < |ls|
    requires Exchanged(s, t, lo, mid, hi, ls, rs, n, useSwaps) && PairMoved(s, t, t', lo, mid, hi, ls, rs, n, useSwaps)
    requires 0 <= i < n + 1
    ensures t'[rs[i]] == s[ls[Partner(i, n + 1, useSwaps)]]
  {
    if i < n && (useSwaps || i < n - 1) {
      assert rs[i] != rs[n] && (n > 0 ==> useSwaps || rs[i] != rs[n - 1]);
      assert t'[rs[i]] == t[rs[i]];
    }
  }

  /** Assembles Exchanged for one more pair from its effect on each kind of position. */
  lemma ExchangedNext<T>(s: seq<T>, t: seq<T>, t': seq<T>, lo: int, mid: int, hi: int, ls: seq<int>, rs: seq<int>,
                         n: int, useSwaps: bool)
    requires 0 <= lo <= mid <= hi <= |s| == |t| == |t'| && Pairs(lo, mid, hi, ls, rs) && 0 <= n < |ls|
    requires Exchanged(s, t, lo, mid, hi, ls, rs, n, useSwaps) && PairMoved(s, t, t', lo, mid, hi, ls, rs, n, useSwaps)
    requires Permuted(s, t', lo, hi)
    ensures Exchanged(s, t', lo, mid, hi, ls, rs, n + 1, useSwaps)
  {
    forall x | lo <= x < hi && Apart(ls, rs, n + 1, x) ensures t'[x] == s[x] {
      ApartNext(s, t, t', lo, mid, hi, ls, rs, n, useSwaps, x);
    }
    forall i | 0 <= i < n + 1 ensures t'[ls[i]] == s[rs[i]] && t'[rs[i]] == s[ls[Partner(i, n + 1, useSwaps)]] {
      LeftPartnersNext(s, t, t', lo, mid, hi, ls, rs, n, useSwaps, i);
      RightPartnersNext(s, t, t', lo, mid, hi, ls, rs, n, useSwaps, i);
    }
  }

  /** One more pair in use_swaps mode. */
  lemma ExchangePair<T>(s: seq<T>, t: seq<T>, lo: int, mid: int, hi: int, ls: seq<int>, rs: seq<int>, n: int)
    requires 0 <= lo <= mid <= hi <= |s| && Pairs(lo, mid, hi, ls, rs) && 0 <= n < |ls|
    requires Exchanged(s, t, lo, mid, hi, ls, rs, n, true)
    ensures Exchanged(s, Swapped(t, ls[n], rs[n]), lo, mid, hi, ls, rs, n + 1, true)
  {
    var x, y := ls[n], rs[n];
    assert Apart(ls, rs, n, x) && Apart(ls, rs, n, y);
    SwapStep(s, t, Swapped(t, x, y), x, y, lo, hi);
    ExchangedNext(s, t, Swapped(t, x, y), lo, mid, hi, ls, rs, n, true);
  }

  /** The first pair in cyclic mode. */
  lemma ExchangeFirst<T>(s: seq<T>, lo: int, mid: int, hi: int, ls: seq<int>, rs: seq<int>)
    requires 0 <= lo <= mid <= hi <= |s| && Pairs(lo, mid, hi, ls, rs) && ls != []
    ensures Exchanged(s, Swapped(s, ls[0], rs[0]), lo, mid, hi, ls, rs, 1, false)
  {
    var x, y := ls[0], rs[0];
    NothingExchanged(s, lo, mid, hi, ls, rs, false);
    SwapStep(s, s, Swapped(s, x, y), x, y, lo, hi);
    ExchangedNext(s, s, Swapped(s, x, y), lo, mid, hi, ls, rs, 0, false);
  }

  /** One more pair in cyclic mode; t is the array with the saved element put into the hole. */
  lemma ExchangeCycle<T>(s: seq<T>, t: seq<T>, lo: int, mid: int, hi: int, ls: seq<int>, rs: seq<int>, n: int)
    requires 0 <= lo <= mid <= hi <= |s| && Pairs(lo, mid, hi, ls, rs) && 0 < n < |ls|
    requires Exchanged(s, t, lo, mid, hi, ls, rs, n, false)
    ensures Exchanged(s, Swapped(Swapped(t, rs[n - 1], ls[n]), ls[n], rs[n]), lo, mid, hi, ls, rs, n + 1, false)
  {
    var hole, x, y := rs[n - 1], ls[n], rs[n];
    assert Apart(ls, rs, n, x) && Apart(ls, rs, n, y);
    var u := Swapped(t, hole, x);
    SwapStep(s, t, u, hole, x, lo, hi);
    SwapStep(s, u, Swapped(u, x, y), x, y, lo, hi);
    assert t[hole] == s[ls[0]];
    ExchangedNext(s, t, Swapped(u, x, y), lo, mid, hi, ls, rs, n, false);
  }

  ghost function LeftPositions(first: int, offs: seq<int>): (ls: seq<int>)
    ensures |ls| == |offs| && forall i :: 0 <= i < |offs| ==> ls[i] == first + offs[i]
  {
    seq(|offs|, i requires 0 <= i < |offs| => first + offs[i])
  }

  ghost function RightPositions(last: int, offs: seq<int>): (rs: seq<int>)
    ensures |rs| == |offs| && forall i :: 0 <= i < |offs| ==> rs[i] == last - offs[i]
  {
    seq(|offs|, i requires 0 <= i < |offs| => last - offs[i])
  }

  /** use_swaps: needed for descending input, where pairs have to be swapped one by one. */
  method SwapPairs<T>(a: array<T>, first: int, last: int, ol: array<int>, sl: int, or: array<int>, sr: int, num: int,
                      ghost lo: int, ghost mid: int, ghost hi: int, ghost ls: seq<int>, ghost rs: seq<int>)
    requires a as object != ol as object && a as object != or as object
    requires 0 <= num && 0 <= sl && sl + num <= ol.Length && 0 <= sr && sr + num <= or.Length
    requires 0 <= lo <= mid <= hi <= a.Length && Pairs(lo, mid, hi, ls, rs) && |ls| == num
    requires forall i :: 0 <= i < num ==> ls[i] == first + ol[sl + i] && rs[i] == last - or[sr + i]
    modifies a
    ensures Exchanged(old(a[..]), a[..], lo, mid, hi, ls, rs, num, true)
  {
    ghost var s := a[..];
    NothingExchanged(s, lo, mid, hi, ls, rs, true);
    for i := 0 to num
      invariant Exchanged(s, a[..], lo, mid, hi, ls, rs, i, true)
    {
      ExchangePair(s, a[..], lo, mid, hi, ls, rs, i);
      IterSwap(a, first + ol[sl + i], last - or[sr + i]);
    }
  }

  /** The body of the cyclic loop: the hole moves from r0 to r1. */
  method MoveRound<T>(a: array<T>, r0: int, l1: int, r1: int, ghost tmp: T) returns (l: int, r: int)
    requires 0 <= l1 < r1 < r0 < a.Length
    modifies a
    ensures l == l1 && r == r1
    ensures a[..][r := tmp] == Swapped(Swapped(old(a[..])[r0 := tmp], r0, l1), l1, r1)
  {
    l := l1;
    a[r0] := a[l];
    r := r1;
    a[l] := a[r];
  }

  /** Otherwise one cyclic permutation through a temporary, with fewer moves. */
  method RotatePairs<T>(a: array<T>, first: int, last: int, ol: array<int>, sl: int, or: array<int>, sr: int, num: int,
                        ghost lo: int, ghost mid: int, ghost hi: int, ghost ls: seq<int>, ghost rs: seq<int>)
    requires a as object != ol as object && a as object != or as object
    requires 0 < num && 0 <= sl && sl + num <= ol.Length && 0 <= sr && sr + num <= or.Length
    requires 0 <= lo <= mid <= hi <= a.Length && Pairs(lo, mid, hi, ls, rs) && |ls| == num
    requires forall i :: 0 <= i < num ==> ls[i] == first + ol[sl + i] && rs[i] == last - or[sr + i]
    modifies a
    ensures Exchanged(old(a[..]), a[..], lo, mid, hi, ls, rs, num, false)
  {
    ghost var s := a[..];
    ExchangeFirst(s, lo, mid, hi, ls, rs);
    var l, r := first + ol[sl], last - or[sr];
    var tmp := a[l];
    a[l] := a[r];
    ghost var t := Swapped(s, ls[0], rs[0]);
    for i := 1 to num
      invariant r == rs[i - 1] && a[..][r := tmp] == t
      invariant Exchanged(s, t, lo, mid, hi, ls, rs, i, false)
    {
      ExchangeCycle(s, t, lo, mid, hi, ls, rs, i);
      l, r := MoveRound(a, r, first + ol[sl + i], last - or[sr + i], tmp);
      t := Swapped(Swapped(t, rs[i - 1], ls[i]), ls[i], rs[i]);
    }
    a[r] := tmp;
    assert a[..] == t;
  }

  method SwapOffsets<T>(a: array<T>, first: int, last: int, ol: array<int>, sl: int, or: array<int>, sr: int, num: int,
                        useSwaps: bool, ghost lo: int, ghost mid: int, ghost hi: int, ghost ls: seq<int>, ghost rs: seq<int>)
    requires a as object != ol as object && a as object != or as object
    requires 0 <= num && 0 <= sl && sl + num <= ol.Length && 0 <= sr && sr + num <= or.Length
    requires 0 <= lo <= mid <= hi <= a.Length && Pairs(lo, mid, hi, ls, rs)
    requires ls == LeftPositions(first, ol[sl..sl + num]) && rs == RightPositions(last, or[sr..sr + num])
    modifies a
    ensures Exchanged(old(a[..]), a[..], lo, mid, hi, ls, rs, num, useSwaps)
  {
    if useSwaps {
      SwapPairs(a, first, last, ol, sl, or, sr, num, lo, mid, hi, ls, rs);
    } else if num > 0 {
      RotatePairs(a, first, last, ol, sl, or, sr, num, lo, mid, hi, ls, rs);
    } else {
      NothingExchanged(a[..], lo, mid, hi, ls, rs, useSwaps);
    }
  }

  lemma BlockPairs<T>(s: seq<T>, first: int, last: int, bl: int, br: int, ol: seq<int>, or: seq<int>, num: int,
                      pivot: T, comp: (T, T) -> bool)
    requires 0 <= first && 0 <= bl && 0 <= br && first + bl <= last - br && last <= |s|
    requires LeftBlock(s, first, bl, ol, pivot, comp) && RightBlock(s, last, br, or, pivot, comp)
    requires 0 <= num <= |ol| && num <= |or|
    ensures Pairs(first, first + bl, last, LeftPositions(first, ol[..num]), RightPositions(last, or[..num]))
  {
  }

  /** Dropping from a list the offsets whose elements have been put right. */
  lemma LeftBlockDrop<T>(s: seq<T>, t: seq<T>, first: int, bl: int, ol: seq<int>, num: int, pivot: T, comp: (T, T) -> bool)
    requires 0 <= first && 0 <= bl && first + bl <= |s| == |t| && 0 <= num <= |ol|
    requires LeftBlock(s, first, bl, ol, pivot, comp)
    requires forall i :: 0 <= i < num ==> comp(t[first + ol[i]], pivot)
    requires forall i :: num <= i < |ol| ==> !comp(t[first + ol[i]], pivot)
    requires forall k {:trigger Unlisted(ol, k)} :: 0 <= k < bl && Unlisted(ol, k) ==> comp(t[first + k], pivot)
    ensures LeftBlock(t, first, bl, ol[num..], pivot, comp)
  {
    forall k | 0 <= k < bl && Unlisted(ol[num..], k) ensures comp(t[first + k], pivot) {
      if !Unlisted(ol, k) {
        assert ol == ol[..num] + ol[num..];
        var i :| 0 <= i < num && ol[..num][i] == k;
      }
    }
  }

  lemma RightBlockDrop<T>(s: seq<T>, t: seq<T>, last: int, br: int, or: seq<int>, num: int, pivot: T, comp: (T, T) -> bool)
    requires 0 <= br <= last <= |s| == |t| && 0 <= num <= |or|
    requires RightBlock(s, last, br, or, pivot, comp)
    requires forall i :: 0 <= i < num ==> !comp(t[last - or[i]], pivot)
    requires forall i :: num <= i < |or| ==> comp(t[last - or[i]], pivot)
    requires forall k {:trigger Unlisted(or, k)} :: 1 <= k <= br && Unlisted(or, k) ==> !comp(t[last - k], pivot)
    ensures RightBlock(t, last, br, or[num..], pivot, comp)
  {
    forall k | 1 <= k <= br && Unlisted(or[num..], k) ensures !comp(t[last - k], pivot) {
      if !Unlisted(or, k) {
        assert or == or[..num] + or[num..];
        var i :| 0 <= i < num && or[..num][i] == k;
      }
    }
  }

  lemma LeftAfterExchange<T>(s: seq<T>, t: seq<T>, first: int, last: int, bl: int, br: int, ol: seq<int>, or: seq<int>,
                             ls: seq<int>, rs: seq<int>, num: int, useSwaps: bool, pivot: T, comp: (T, T) -> bool)
    requires 0 <= first && 0 <= bl && 0 <= br && first + bl <= last - br && last <= |s| == |t|
    requires LeftBlock(s, first, bl, ol, pivot, comp) && RightBlock(s, last, br, or, pivot, comp)
    requires 0 <= num <= |ol| && num <= |or| && |ls| == |rs| == num
    requires forall i :: 0 <= i < num ==> ls[i] == first + ol[i] && rs[i] == last - or[i]
    requires Pairs(first, first + bl, last, ls, rs) && Exchanged(s, t, first, first + bl, last, ls, rs, num, useSwaps)
    ensures LeftBlock(t, first, bl, ol[num..], pivot, comp)
  {
    forall i | 0 <= i < num ensures comp(t[first + ol[i]], pivot) {
      assert t[ls[i]] == s[rs[i]];
    }
    forall i | num <= i < |ol| ensures !comp(t[first + ol[i]], pivot) {
      assert Apart(ls, rs, num, first + ol[i]);
    }
    forall k | 0 <= k < bl && Unlisted(ol, k) ensures comp(t[first + k], pivot) {
      assert Apart(ls, rs, num, first + k);
    }
    LeftBlockDrop(s, t, first, bl, ol, num, pivot, comp);
  }

  lemma RightAfterExchange<T>(s: seq<T>, t: seq<T>, first: int, last: int, bl: int, br: int, ol: seq<int>, or: seq<int>,
                              ls: seq<int>, rs: seq<int>, num: int, useSwaps: bool, pivot: T, comp: (T, T) -> bool)
    requires 0 <= first && 0 <= bl && 0 <= br && first + bl <= last - br && last <= |s| == |t|
    requires LeftBlock(s, first, bl, ol, pivot, comp) && RightBlock(s, last, br, or, pivot, comp)
    requires 0 <= num <= |ol| && num <= |or| && |ls| == |rs| == num
    requires forall i :: 0 <= i < num ==> ls[i] == first + ol[i] && rs[i] == last - or[i]
    requires Pairs(first, first + bl, last, ls, rs) && Exchanged(s, t, first, first + bl, last, ls, rs, num, useSwaps)
    ensures RightBlock(t, last, br, or[num..], pivot, comp)
  {
    forall i | 0 <= i < num ensures !comp(t[last - or[i]], pivot) {
      var j := Partner(i, num, useSwaps);
      assert t[rs[i]] == s[ls[j]];
      assert ls[j] == first + ol[j];
    }
    forall i | num <= i < |or| ensures comp(t[last - or[i]], pivot) {
      assert Apart(ls, rs, num, last - or[i]);
    }
    forall k | 1 <= k <= br && Unlisted(or, k) ensures !comp(t[last - k], pivot) {
      assert Apart(ls, rs, num, last - k);
    }
    RightBlockDrop(s, t, last, br, or, num, pivot, comp);
  }

  /** Exchanges as many recorded elements as both blocks have; at least one of the lists is used up. */
  method ExchangeBlocks<T>(a: array<T>, first: int, last: int, ghost bl: int, ghost br: int,
                           offL: array<int>, startL: int, numL: int, offR: array<int>, startR: int, numR: int,
                           ghost pivot: T, ghost comp: (T, T) -> bool) returns (num: int)
    requires a as object != offL as object && a as object != offR as object
    requires 0 <= first && 0 <= bl && 0 <= br && first + bl <= last - br && last <= a.Length
    requires 0 <= numL && 0 <= startL && startL + numL <= offL.Length
    requires 0 <= numR && 0 <= startR && startR + numR <= offR.Length
    requires LeftBlock(a[..], first, bl, offL[startL..startL + numL], pivot, comp)
    requires RightBlock(a[..], last, br, offR[startR..startR + numR], pivot, comp)
    modifies a
    ensures num == if numL < numR then numL else numR
    ensures Permuted(old(a[..]), a[..], first, last)
    ensures LeftBlock(a[..], first, bl, offL[startL + num..startL + numL], pivot, comp)
    ensures RightBlock(a[..], last, br, offR[startR + num..startR + numR], pivot, comp)
  {
    num := if numL < numR then numL else numR;
    ghost var s, ol, or := a[..], offL[startL..startL + numL], offR[startR..startR + numR];
    BlockPairs(s, first, last, bl, br, ol, or, num, pivot, comp);
    assert ol[..num] == offL[startL..startL + num] && or[..num] == offR[startR..startR + num];
    ghost var ls, rs := LeftPositions(first, ol[..num]), RightPositions(last, or[..num]);
    SwapOffsets(a, first, last, offL, startL, offR, startR, num, numL == numR, first, first + bl, last, ls, rs);
    LeftAfterExchange(s, a[..], first, last, bl, br, ol, or, ls, rs, num, numL == numR, pivot, comp);
    RightAfterExchange(s, a[..], first, last, bl, br, ol, or, ls, rs, num, numL == numR, pivot, comp);
    assert ol[num..] == offL[startL + num..startL + numL] && or[num..] == offR[startR + num..startR + numR];
  }

  /** (begin, first) is below the pivot and [last, end) is not. */
  ghost predicate Flanked<T>(s: seq<T>, begin: int, first: int, last: int, end: int, pivot: T, comp: (T, T) -> bool)
    requires 0 <= begin && first <= |s| && 0 <= last && end <= |s|
  {
    && (forall i :: begin < i < first ==> comp(s[i], pivot))
    && (forall i :: last <= i < end ==> !comp(s[i], pivot))
  }

  lemma FlankedGrowLeft<T>(s: seq<T>, begin: int, first: int, last: int, end: int, size: int, pivot: T, comp: (T, T) -> bool)
    requires 0 <= begin < first && 0 <= size && first + size <= |s| && 0 <= last && end <= |s|
    requires Flanked(s, begin, first, last, end, pivot, comp) && LeftBlock(s, first, size, [], pivot, comp)
    ensures Flanked(s, begin, first + size, last, end, pivot, comp)
  {
    forall i | begin < i < first + size ensures comp(s[i], pivot) {
      if first <= i { assert Unlisted([], i - first) && i == first + (i - first); }
    }
  }

  lemma FlankedGrowRight<T>(s: seq<T>, begin: int, first: int, last: int, end: int, size: int, pivot: T, comp: (T, T) -> bool)
    requires 0 <= begin && first <= |s| && 0 <= size <= last && last <= end <= |s|
    requires Flanked(s, begin, first, last, end, pivot, comp) && RightBlock(s, last, size, [], pivot, comp)
    ensures Flanked(s, begin, first, last - size, end, pivot, comp)
  {
    forall i | last - size <= i < end ensures !comp(s[i], pivot) {
      if i < last { assert Unlisted([], last - i) && i == last - (last - i); }
    }
  }

  /** A rearrangement between the flanks leaves them alone. */
  lemma FlankedPermuted<T>(s: seq<T>, t: seq<T>, begin: int, first: int, last: int, end: int, pivot: T, comp: (T, T) -> bool)
    requires 0 <= begin && 0 <= first <= last <= |s| && end <= |s| && Permuted(s, t, first, last)
    requires Flanked(s, begin, first, last, end, pivot, comp)
    ensures Flanked(t, begin, first, last, end, pivot, comp)
  {
  }

  /** The pending part of a block: nothing to say once its list is empty. */
  ghost predicate Pending<T>(s: seq<T>, first: int, last: int, offL: seq<int>, offR: seq<int>, pivot: T, comp: (T, T) -> bool)
    requires 0 <= first && last <= |s|
  {
    && (offL == [] || offR == [])
    && (offL != [] ==> first + BLOCK_SIZE <= last && LeftBlock(s, first, BLOCK_SIZE, offL, pivot, comp))
    && (offR != [] ==> first + BLOCK_SIZE <= last && RightBlock(s, last, BLOCK_SIZE, offR, pivot, comp))
  }

  function Advanced(num: int, step: int): int {
    if num == 0 then step else 0
  }

  /** A side whose list is used up gets a new block: afterwards both lists hold exactly the positions of the elements
      that belong to the other side, and the array is as before. */
  method Refill<T(!new)>(a: array<T>, first: int, last: int, pivot: T, comp: (T, T) -> bool,
                         offL: array<int>, startL0: int, numL0: int, offR: array<int>, startR0: int, numR0: int)
    returns (startL: int, numL: int, startR: int, numR: int, ghost used: nat)
    requires a as object != offL as object && a as object != offR as object && offL != offR
    requires offL.Length == BLOCK_SIZE && offR.Length == BLOCK_SIZE
    requires 0 <= first && first + 2 * BLOCK_SIZE < last <= a.Length
    requires 0 <= startL0 && 0 <= numL0 && startL0 + numL0 <= BLOCK_SIZE && 0 <= startR0 && 0 <= numR0 && startR0 + numR0 <= BLOCK_SIZE
    requires Pending(a[..], first, last, offL[startL0..startL0 + numL0], offR[startR0..startR0 + numR0], pivot, comp)
    modifies offL, offR
    ensures 0 <= startL && 0 <= numL && startL + numL <= BLOCK_SIZE && 0 <= startR && 0 <= numR && startR + numR <= BLOCK_SIZE
    ensures LeftBlock(a[..], first, BLOCK_SIZE, offL[startL..startL + numL], pivot, comp)
    ensures RightBlock(a[..], last, BLOCK_SIZE, offR[startR..startR + numR], pivot, comp)
    ensures used == Advanced(numL0, BLOCK_SIZE) + Advanced(numR0, BLOCK_SIZE)
  {
    ghost var filled;
    used := 0;
    startL, numL, startR, numR := startL0, numL0, startR0, numR0;
    ghost var s, l, r := a[..], offL[startL..startL + numL], offR[startR..startR + numR];
    if numL == 0 {
      startL := 0;
      numL, filled := FillLeft(a, first, BLOCK_SIZE, pivot, comp, offL);
      used := used + filled;
      l := offL[..numL];
      assert l == offL[startL..startL + numL];
    }
    if numR == 0 {
      startR := 0;
      numR, filled := FillRight(a, last, BLOCK_SIZE, pivot, comp, offR);
      used := used + filled;
      r := offR[..numR];
      assert r == offR[startR..startR + numR];
    }
    assert l == offL[startL..startL + numL] && a[..] == s;
  }

  /** A used-up list means that its whole block joins the flank. */
  lemma BlocksAdvance<T>(s: seq<T>, begin: int, first: int, last: int, end: int, bl: int, br: int, l: seq<int>, r: seq<int>,
                         pivot: T, comp: (T, T) -> bool)
    requires 0 <= begin < first && 0 <= bl && 0 <= br && first + bl <= last - br && last <= end <= |s|
    requires Flanked(s, begin, first, last, end, pivot, comp)
    requires LeftBlock(s, first, bl, l, pivot, comp) && RightBlock(s, last, br, r, pivot, comp)
    ensures Flanked(s, begin, first + Advanced(|l|, bl), last - Advanced(|r|, br), end, pivot, comp)
  {
    if l == [] { FlankedGrowLeft(s, begin, first, last, end, bl, pivot, comp); }
    if r == [] { FlankedGrowRight(s, begin, first + Advanced(|l|, bl), last, end, br, pivot, comp); }
  }

  /** As many elements of both lists as possible trade places; a side whose list runs out grows by its block, and both
      flanks stay correct. */
  method ExchangeAndAdvance<T>(a: array<T>, ghost begin: int, ghost end: int, ghost pivot: T, ghost comp: (T, T) -> bool,
                               first0: int, last0: int, lSize: int, rSize: int, offL: array<int>, startL0: int, numL0: int,
                               offR: array<int>, startR0: int, numR0: int)
    returns (first: int, last: int, startL: int, numL: int, startR: int, numR: int)
    requires a as object != offL as object && a as object != offR as object
    requires 0 <= begin < first0 && 0 <= lSize && 0 <= rSize && first0 + lSize <= last0 - rSize && last0 <= end <= a.Length
    requires 0 <= numL0 && 0 <= startL0 && startL0 + numL0 <= offL.Length
    requires 0 <= numR0 && 0 <= startR0 && startR0 + numR0 <= offR.Length
    requires Flanked(a[..], begin, first0, last0, end, pivot, comp)
    requires LeftBlock(a[..], first0, lSize, offL[startL0..startL0 + numL0], pivot, comp)
    requires RightBlock(a[..], last0, rSize, offR[startR0..startR0 + numR0], pivot, comp)
    modifies a
    ensures Permuted(old(a[..]), a[..], first0, last0)
    ensures 0 <= numL && 0 <= startL && startL + numL == startL0 + numL0
    ensures 0 <= numR && 0 <= startR && startR + numR == startR0 + numR0
    ensures numL == 0 || numR == 0
    ensures first == first0 + Advanced(numL, lSize) && last == last0 - Advanced(numR, rSize)
    ensures LeftBlock(a[..], first0, lSize, offL[startL..startL + numL], pivot, comp)
    ensures RightBlock(a[..], last0, rSize, offR[startR..startR + numR], pivot, comp)
    ensures Flanked(a[..], begin, first, last, end, pivot, comp)
  {
    var num := ExchangeBlocks(a, first0, last0, lSize, rSize, offL, startL0, numL0, offR, startR0, numR0, pivot, comp);
    numL, numR := numL0 - num, numR0 - num;
    startL, startR := startL0 + num, startR0 + num;
    FlankedPermuted(old(a[..]), a[..], begin, first0, last0, end, pivot, comp);
    BlocksAdvance(a[..], begin, first0, last0, end, lSize, rSize,
                  offL[startL..startL + numL], offR[startR..startR + numR], pivot, comp);
    first := first0 + Advanced(numL, lSize);
    last := last0 - Advanced(numR, rSize);
  }

  /** One round of the block loop: refill the empty lists, exchange, advance past finished blocks. */
  method BlockRound<T(!new)>(a: array<T>, begin: int, end: int, pivot: T, comp: (T, T) -> bool,
                             first0: int, last0: int, offL: array<int>, startL0: int, numL0: int,
                             offR: array<int>, startR0: int, numR0: int)
    returns (first: int, last: int, startL: int, numL: int, startR: int, numR: int, ghost used: nat)
    requires a as object != offL as object && a as object != offR as object && offL != offR
    requires offL.Length == BLOCK_SIZE && offR.Length == BLOCK_SIZE
    requires 0 <= begin < first0 && first0 + 2 * BLOCK_SIZE < last0 <= end <= a.Length
    requires 0 <= startL0 && 0 <= numL0 && startL0 + numL0 <= BLOCK_SIZE && 0 <= startR0 && 0 <= numR0 && startR0 + numR0 <= BLOCK_SIZE
    requires Flanked(a[..], begin, first0, last0, end, pivot, comp)
    requires Pending(a[..], first0, last0, offL[startL0..startL0 + numL0], offR[startR0..startR0 + numR0], pivot, comp)
    modifies a, offL, offR
    ensures first0 <= first <= last <= last0 && last - first < last0 - first0
    ensures 0 <= startL && 0 <= numL && startL + numL <= BLOCK_SIZE && 0 <= startR && 0 <= numR && startR + numR <= BLOCK_SIZE
    ensures Permuted(old(a[..]), a[..], first0, last0)
    ensures Flanked(a[..], begin, first, last, end, pivot, comp)
    ensures Pending(a[..], first, last, offL[startL..startL + numL], offR[startR..startR + numR], pivot, comp)
    ensures first == first0 + Advanced(numL, BLOCK_SIZE) && last == last0 - Advanced(numR, BLOCK_SIZE)
    ensures used == Advanced(numL0, BLOCK_SIZE) + Advanced(numR0, BLOCK_SIZE)
  {
    startL, numL, startR, numR, used := Refill(a, first0, last0, pivot, comp, offL, startL0, numL0, offR, startR0, numR0);
    first, last, startL, numL, startR, numR :=
      ExchangeAndAdvance(a, begin, end, pivot, comp, first0, last0, BLOCK_SIZE, BLOCK_SIZE, offL, startL, numL, offR, startR, numR);
  }

  lemma LeftBlockShrink<T>(s: seq<T>, first: int, size: int, offs: seq<int>, pivot: T, comp: (T, T) -> bool)
    requires 0 <= first && 0 < size && first + size <= |s| && offs != []
    requires LeftBlock(s, first, size, offs, pivot, comp)
    ensures var n := |offs| - 1;
            var t := Swapped(s, first + offs[n], first + size - 1);
            LeftBlock(t, first, size - 1, offs[..n], pivot, comp) && !comp(t[first + size - 1], pivot)
  {
    var n := |offs| - 1;
    var t := Swapped(s, first + offs[n], first + size - 1);
    forall i | 0 <= i < n ensures 0 <= offs[i] < size - 1 && !comp(t[first + offs[i]], pivot) {
      assert offs[i] < offs[n];
    }
    forall k | 0 <= k < size - 1 && Unlisted(offs[..n], k) ensures comp(t[first + k], pivot) {
      if k == offs[n] {
        assert Unlisted(offs, size - 1);
      } else {
        assert offs == offs[..n] + [offs[n]];
        assert Unlisted(offs, k);
      }
    }
  }

  /** One turn of the left clean-up: the last listed element changes places with the last of the range. */
  method FinishLeftOne<T>(a: array<T>, offset: int, ghost begin: int, first: int, last: int, ghost end: int,
                          ghost offs: seq<int>,
                          ghost pivot: T, ghost comp: (T, T) -> bool, ghost s: seq<T>, ghost last0: int)
    requires 0 <= begin < first <= last <= last0 <= end <= a.Length && |s| == a.Length && Permuted(s, a[..], first, last0)
    requires Flanked(a[..], begin, first, last, end, pivot, comp)
    requires LeftBlock(a[..], first, last - first, offs + [offset], pivot, comp)
    modifies a
    ensures first < last && Permuted(s, a[..], first, last0)
    ensures Flanked(a[..], begin, first, last - 1, end, pivot, comp)
    ensures LeftBlock(a[..], first, last - 1 - first, offs, pivot, comp)
  {
    ghost var offs' := offs + [offset];
    assert offs'[|offs|] == offset && offs'[..|offs|] == offs;
    LeftBlockShrink(a[..], first, last - first, offs', pivot, comp);
    SwapWithin(a, first + offset, last - 1, first, last0, s);
  }

  /** The elements still recorded on the left go to the end of the middle part, last recorded first. */
  method FinishLeft<T>(a: array<T>, ghost begin: int, first: int, last0: int, ghost end: int, offL: array<int>,
                       startL: int, numL0: int,
                       ghost pivot: T, ghost comp: (T, T) -> bool) returns (last: int)
    requires a as object != offL as object
    requires 0 <= begin < first <= last0 <= end <= a.Length
    requires 0 <= startL && 0 <= numL0 && startL + numL0 <= offL.Length
    requires Flanked(a[..], begin, first, last0, end, pivot, comp)
    requires LeftBlock(a[..], first, last0 - first, offL[startL..startL + numL0], pivot, comp)
    modifies a
    ensures first <= last <= last0 && Permuted(old(a[..]), a[..], first, last0)
    ensures Flanked(a[..], begin, last, last, end, pivot, comp)
  {
    ghost var s := a[..];
    last := last0;
    var numL := numL0;
    while numL > 0
      invariant 0 <= numL <= numL0 && first <= last <= last0
      invariant Permuted(s, a[..], first, last0)
      invariant Flanked(a[..], begin, first, last, end, pivot, comp)
      invariant LeftBlock(a[..], first, last - first, offL[startL..startL + numL], pivot, comp)
      decreases numL
    {
      numL := numL - 1;
      ghost var offs := offL[startL..startL + numL];
      assert offL[startL..startL + numL + 1] == offs + [offL[startL + numL]];
      FinishLeftOne(a, offL[startL + numL], begin, first, last, end, offs, pivot, comp, s, last0);
      last := last - 1;
    }
    assert offL[startL..startL + numL] == [];
    FlankedGrowLeft(a[..], begin, first, last, end, last - first, pivot, comp);
  }

  lemma RightBlockShrink<T>(s: seq<T>, last: int, size: int, offs: seq<int>, pivot: T, comp: (T, T) -> bool)
    requires 0 < size <= last <= |s| && offs != []
    requires RightBlock(s, last, size, offs, pivot, comp)
    ensures var n := |offs| - 1;
            var t := Swapped(s, last - offs[n], last - size);
            RightBlock(t, last, size - 1, offs[..n], pivot, comp) && comp(t[last - size], pivot)
  {
    var n := |offs| - 1;
    var t := Swapped(s, last - offs[n], last - size);
    forall i | 0 <= i < n ensures 1 <= offs[i] <= size - 1 && comp(t[last - offs[i]], pivot) {
      assert offs[i] < offs[n];
    }
    forall k | 1 <= k <= size - 1 && Unlisted(offs[..n], k) ensures !comp(t[last - k], pivot) {
      if k == offs[n] {
        assert Unlisted(offs, size);
      } else {
        assert offs == offs[..n] + [offs[n]];
        assert Unlisted(offs, k);
      }
    }
  }

  method FinishRightOne<T>(a: array<T>, offset: int, ghost begin: int, first: int, last: int, ghost end: int,
                           ghost offs: seq<int>,
                           ghost pivot: T, ghost comp: (T, T) -> bool, ghost s: seq<T>, ghost first0: int)
    requires 0 <= begin < first0 <= first <= last <= end <= a.Length && |s| == a.Length && Permuted(s, a[..], first0, last)
    requires Flanked(a[..], begin, first, last, end, pivot, comp)
    requires RightBlock(a[..], last, last - first, offs + [offset], pivot, comp)
    modifies a
    ensures first < last && Permuted(s, a[..], first0, last)
    ensures Flanked(a[..], begin, first + 1, last, end, pivot, comp)
    ensures RightBlock(a[..], last, last - (first + 1), offs, pivot, comp)
  {
    ghost var offs' := offs + [offset];
    assert offs'[|offs|] == offset && offs'[..|offs|] == offs;
    RightBlockShrink(a[..], last, last - first, offs', pivot, comp);
    SwapWithin(a, last - offset, first, first0, last, s);
  }

  /** The elements still recorded on the right go to the front of the middle part, last recorded first. */
  method FinishRight<T>(a: array<T>, ghost begin: int, first0: int, last: int, ghost end: int, offR: array<int>,
                        startR: int, numR0: int,
                        ghost pivot: T, ghost comp: (T, T) -> bool) returns (first: int)
    requires a as object != offR as object
    requires 0 <= begin < first0 <= last <= end <= a.Length
    requires 0 <= startR && 0 <= numR0 && startR + numR0 <= offR.Length
    requires Flanked(a[..], begin, first0, last, end, pivot, comp)
    requires RightBlock(a[..], last, last - first0, offR[startR..startR + numR0], pivot, comp)
    modifies a
    ensures first0 <= first <= last && Permuted(old(a[..]), a[..], first0, last)
    ensures Flanked(a[..], begin, first, first, end, pivot, comp)
  {
    ghost var s := a[..];
    first := first0;
    var numR := numR0;
    while numR > 0
      invariant 0 <= numR <= numR0 && first0 <= first <= last
      invariant Permuted(s, a[..], first0, last)
      invariant Flanked(a[..], begin, first, last, end, pivot, comp)
      invariant RightBlock(a[..], last, last - first, offR[startR..startR + numR], pivot, comp)
      decreases numR
    {
      numR := numR - 1;
      ghost var offs := offR[startR..startR + numR];
      assert offR[startR..startR + numR + 1] == offs + [offR[startR + numR]];
      FinishRightOne(a, offR[startR + numR], begin, first, last, end, offs, pivot, comp, s, first0);
      first := first + 1;
    }
    assert offR[startR..startR + numR] == [];
    FlankedGrowRight(a[..], begin, first, last, end, last - first, pivot, comp);
  }

  /** The last two blocks, of sizes chosen so that they cover all of [first, last). */
  method LastBlocks<T(!new)>(a: array<T>, begin: int, end: int, pivot: T, comp: (T, T) -> bool,
                             first0: int, last0: int, offL: array<int>, startL0: int, numL0: int,
                             offR: array<int>, startR0: int, numR0: int) returns (first: int, ghost used: nat)
    requires a as object != offL as object && a as object != offR as object && offL != offR
    requires offL.Length == BLOCK_SIZE && offR.Length == BLOCK_SIZE
    requires 0 <= begin < first0 && first0 <= last0 <= first0 + 2 * BLOCK_SIZE && last0 <= end <= a.Length
    requires 0 <= startL0 && 0 <= numL0 && startL0 + numL0 <= BLOCK_SIZE && 0 <= startR0 && 0 <= numR0 && startR0 + numR0 <= BLOCK_SIZE
    requires Flanked(a[..], begin, first0, last0, end, pivot, comp)
    requires Pending(a[..], first0, last0, offL[startL0..startL0 + numL0], offR[startR0..startR0 + numR0], pivot, comp)
    modifies a, offL, offR
    ensures first0 <= first <= last0 && Permuted(old(a[..]), a[..], first0, last0)
    ensures Flanked(a[..], begin, first, first, end, pivot, comp)
    ensures used <= Unknown(last0 - first0, numL0, numR0)
  {
    var startL, numL, startR, numR, last;
    first, last, startL, numL, startR, numR, used :=
      ExchangeLast(a, begin, end, pivot, comp, first0, last0, offL, startL0, numL0, offR, startR0, numR0);
    ghost var t, f := a[..], first;
    first := FinishLeftover(a, begin, first, last, end, offL, startL, numL, offR, startR, numR, pivot, comp);
    PermutedWiden(t, a[..], f, last, first0, last0);
    PermutedTransitive(old(a[..]), t, a[..], first0, last0);
  }

  method ExchangeLast<T(!new)>(a: array<T>, begin: int, end: int, pivot: T, comp: (T, T) -> bool,
                               first0: int, last0: int, offL: array<int>, startL0: int, numL0: int,
                               offR: array<int>, startR0: int, numR0: int)
    returns (first: int, last: int, startL: int, numL: int, startR: int, numR: int, ghost used: nat)
    requires a as object != offL as object && a as object != offR as object && offL != offR
    requires offL.Length == BLOCK_SIZE && offR.Length == BLOCK_SIZE
    requires 0 <= begin < first0 && first0 <= last0 <= first0 + 2 * BLOCK_SIZE && last0 <= end <= a.Length
    requires 0 <= startL0 && 0 <= numL0 && startL0 + numL0 <= BLOCK_SIZE && 0 <= startR0 && 0 <= numR0 && startR0 + numR0 <= BLOCK_SIZE
    requires Flanked(a[..], begin, first0, last0, end, pivot, comp)
    requires Pending(a[..], first0, last0, offL[startL0..startL0 + numL0], offR[startR0..startR0 + numR0], pivot, comp)
    modifies a, offL, offR
    ensures first0 <= first <= last <= last0 && Permuted(old(a[..]), a[..], first0, last0)
    ensures 0 <= startL && 0 <= numL && startL + numL <= BLOCK_SIZE && 0 <= startR && 0 <= numR && startR + numR <= BLOCK_SIZE
    ensures numL == 0 || numR == 0
    ensures numL == 0 && numR == 0 ==> first == last
    ensures Flanked(a[..], begin, first, last, end, pivot, comp)
    ensures numL > 0 ==> LeftBlock(a[..], first, last - first, offL[startL..startL + numL], pivot, comp)
    ensures numR > 0 ==> RightBlock(a[..], last, last - first, offR[startR..startR + numR], pivot, comp)
    ensures used <= Unknown(last0 - first0, numL0, numR0)
  {
    var lSize, rSize;
    startL, numL, startR, numR, lSize, rSize, used := FillLast(a, first0, last0, pivot, comp, offL, startL0, numL0, offR, startR0, numR0);
    first, last, startL, numL, startR, numR :=
      ExchangeAndAdvance(a, begin, end, pivot, comp, first0, last0, lSize, rSize, offL, startL, numL, offR, startR, numR);
    assert numL > 0 ==> first == first0 && last - first == lSize;
    assert numR > 0 ==> last == last0 && last - first == rSize;
  }

  /** All of [first, last) is identified now: swap the elements of the one list that is left. */
  method FinishLeftover<T>(a: array<T>, ghost begin: int, first0: int, last0: int, ghost end: int,
                           offL: array<int>, startL: int, numL: int, offR: array<int>, startR: int, numR: int,
                           ghost pivot: T, ghost comp: (T, T) -> bool) returns (first: int)
    requires a as object != offL as object && a as object != offR as object
    requires 0 <= begin < first0 <= last0 <= end <= a.Length
    requires 0 <= startL && 0 <= numL && startL + numL <= offL.Length && 0 <= startR && 0 <= numR && startR + numR <= offR.Length
    requires numL == 0 || numR == 0
    requires Flanked(a[..], begin, first0, last0, end, pivot, comp)
    requires numL > 0 ==> LeftBlock(a[..], first0, last0 - first0, offL[startL..startL + numL], pivot, comp)
    requires numR > 0 ==> RightBlock(a[..], last0, last0 - first0, offR[startR..startR + numR], pivot, comp)
    requires numL == 0 && numR == 0 ==> first0 == last0
    modifies a
    ensures first0 <= first <= last0 && Permuted(old(a[..]), a[..], first0, last0)
    ensures Flanked(a[..], begin, first, first, end, pivot, comp)
  {
    first := first0;
    if numL > 0 {
      first := FinishLeft(a, begin, first, last0, end, offL, startL, numL, pivot, comp);
    }
    if numR > 0 {
      first := FinishRight(a, begin, first, last0, end, offR, startR, numR, pivot, comp);
    }
  }

  /** The elements of the middle part that no list accounts for. */
  function Unknown(size: int, numL: int, numR: int): int {
    size - if numR != 0 || numL != 0 then BLOCK_SIZE else 0
  }

  method FillLast<T(!new)>(a: array<T>, first: int, last: int, pivot: T, comp: (T, T) -> bool,
                           offL: array<int>, startL0: int, numL0: int, offR: array<int>, startR0: int, numR0: int)
    returns (startL: int, numL: int, startR: int, numR: int, lSize: int, rSize: int, ghost used: nat)
    requires a as object != offL as object && a as object != offR as object && offL != offR
    requires offL.Length == BLOCK_SIZE && offR.Length == BLOCK_SIZE
    requires 0 <= first && first <= last <= first + 2 * BLOCK_SIZE && last <= a.Length
    requires 0 <= startL0 && 0 <= numL0 && startL0 + numL0 <= BLOCK_SIZE && 0 <= startR0 && 0 <= numR0 && startR0 + numR0 <= BLOCK_SIZE
    requires Pending(a[..], first, last, offL[startL0..startL0 + numL0], offR[startR0..startR0 + numR0], pivot, comp)
    modifies offL, offR
    ensures 0 <= startL && 0 <= numL && startL + numL <= BLOCK_SIZE && 0 <= startR && 0 <= numR && startR + numR <= BLOCK_SIZE
    ensures 0 <= lSize && 0 <= rSize && first + lSize == last - rSize
    ensures LeftBlock(a[..], first, lSize, offL[startL..startL + numL], pivot, comp)
    ensures RightBlock(a[..], last, rSize, offR[startR..startR + numR], pivot, comp)
    ensures used <= Unknown(last - first, numL0, numR0)
  {
    ghost var filled;
    used := 0;
    startL, numL, startR, numR := startL0, numL0, startR0, numR0;
    ghost var s, l, r := a[..], offL[startL..startL + numL], offR[startR..startR + numR];
    var unknown := Unknown(last - first, numL, numR);
    if numR != 0 {
      lSize, rSize := unknown, BLOCK_SIZE;
    } else if numL != 0 {
      lSize, rSize := BLOCK_SIZE, unknown;
    } else {
      lSize := unknown / 2;
      rSize := unknown - lSize;
    }
    if unknown != 0 && numL == 0 {
      startL := 0;
      numL, filled := FillLeft(a, first, lSize, pivot, comp, offL);
      used := used + filled;
      l := offL[..numL];
      assert l == offL[startL..startL + numL];
    }
    if unknown != 0 && numR == 0 {
      startR := 0;
      numR, filled := FillRight(a, last, rSize, pivot, comp, offR);
      used := used + filled;
      r := offR[..numR];
      assert r == offR[startR..startR + numR];
    }
    assert l == offL[startL..startL + numL] && a[..] == s;
  }

  /** partition_right_branchless: the contract of PartitionRight, met by block partitioning. */
  method PartitionRightBranchless<T(!new)>(a: array<T>, begin: int, end: int, comp: (T, T) -> bool)
    returns (pos: int, already: bool, ghost used: nat)
    requires 0 <= begin < end <= a.Length
    requires exists i :: begin < i < end && Leq(comp, a[begin], a[i])
    modifies a
    ensures PartitionedRight(old(a[..]), a[..], begin, end, comp, pos, already)
    ensures used <= end - begin + 1
  {
    ghost var s := a[..];
    var pivot := a[begin];
    var first, last;
    first, last, used := OpeningScans(a, begin, end, comp);
    ghost var f, g := first, last;
    already := first >= last;
    // When the scans have met or crossed, last is first or first - 1 and every loop of PartitionBlocks is empty.
    if !already {
      SwapWithin(a, first, last, begin, end, s);
      first := first + 1;
      ghost var blocks;
      first, blocks := PartitionBlocks(a, begin, end, pivot, comp, first, last, s);
      used := used + blocks;
    }
    pos := first - 1;
    PlacePivot(s, a[..], begin, end, comp, pos, already, f, g);
    IterSwap(a, begin, pos);
  }

  /** The part between the first swap and the placement of the pivot. */
  method PartitionBlocks<T(!new)>(a: array<T>, begin: int, end: int, pivot: T, comp: (T, T) -> bool,
                                  first0: int, last0: int, ghost s: seq<T>) returns (first: int, ghost used: nat)
    requires 0 <= begin < first0 <= last0 < end <= a.Length
    requires Flanked(a[..], begin, first0, last0, end, pivot, comp)
    requires |s| == a.Length && Permuted(s, a[..], begin, end)
    modifies a
    ensures begin < first <= end && a[begin] == old(a[begin]) && Permuted(s, a[..], begin, end)
    ensures forall i :: begin < i < first0 ==> a[i] == old(a[i])
    ensures CutAt(a[..], begin + 1, first, end, pivot, comp)
    ensures used <= last0 - first0
  {
    var offL, offR := new int[BLOCK_SIZE], new int[BLOCK_SIZE];
    ghost var step;
    first, used := first0, 0;
    var last, startL, numL, startR, numR := last0, 0, 0, 0, 0;
    while last - first > 2 * BLOCK_SIZE
      invariant begin < first <= last <= end
      invariant used == (last0 - first0) - Unknown(last - first, numL, numR)
      invariant 0 <= startL && 0 <= numL && startL + numL <= BLOCK_SIZE && 0 <= startR && 0 <= numR && startR + numR <= BLOCK_SIZE
      invariant a[begin] == old(a[begin]) && Permuted(s, a[..], begin, end)
      invariant first0 <= first && forall i :: begin < i < first0 ==> a[i] == old(a[i])
      invariant Flanked(a[..], begin, first, last, end, pivot, comp)
      invariant Pending(a[..], first, last, offL[startL..startL + numL], offR[startR..startR + numR], pivot, comp)
      decreases last - first
    {
      ghost var t, f, l := a[..], first, last;
      first, last, startL, numL, startR, numR, step :=
        BlockRound(a, begin, end, pivot, comp, first, last, offL, startL, numL, offR, startR, numR);
      used := used + step;
      PermutedWiden(t, a[..], f, l, begin, end);
      PermutedTransitive(s, t, a[..], begin, end);
    }
    ghost var t, f := a[..], first;
    first, step := LastBlocks(a, begin, end, pivot, comp, first, last, offL, startL, numL, offR, startR, numR);
    used := used + step;
    PermutedWiden(t, a[..], f, last, begin, end);
    PermutedTransitive(s, t, a[..], begin, end);
  }
}
