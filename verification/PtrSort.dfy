/** Sorting the pointer table in place (Buffer.h). */
module PtrSorts {
  import opened PivotSeeds
  import opened PtrArrays

  type Less = (Ptr, Ptr) -> bool

  ghost predicate Transitive(les: Less, x: Ptr, y: Ptr, z: Ptr) {
    && (les(x, y) && les(y, z) ==> les(x, z))
    && (!les(x, y) && !les(y, z) ==> !les(x, z))
  }

  ghost predicate Irreflexive(les: Less, x: Ptr) {
    !les(x, x)
  }

  /** A strict weak order: irreflexive, and both it and its negation are transitive. */
  ghost predicate StrictWeakOrder(les: Less) {
    (forall x :: Irreflexive(les, x)) && (forall x, y, z :: Transitive(les, x, y, z))
  }

  lemma Asymmetric(les: Less, x: Ptr, y: Ptr)
    requires StrictWeakOrder(les)
    ensures !les(x, y) || !les(y, x)
  {
    assert Transitive(les, x, y, x) && Irreflexive(les, x);
  }

  /** The first n entries are in order. */
  ghost predicate SortedTo(les: Less, s: seq<Ptr>, n: nat) {
    n <= |s| && forall i, j :: 0 <= i < j < n ==> !les(s[j], s[i])
  }

  /** Nothing from position e on belongs before anything that stands before e. */
  ghost predicate Split(les: Less, s: seq<Ptr>, e: nat) {
    forall i, j :: 0 <= i < e <= j < |s| ==> !les(s[j], s[i])
  }

  function Swapped(s: seq<Ptr>, i: nat, j: nat): seq<Ptr>
    requires i < |s| && j < |s|
  {
    s[i := s[j]][j := s[i]]
  }

  lemma SwapPermutes(s: seq<Ptr>, i: nat, j: nat)
    requires i < |s| && j < |s|
    ensures multiset(Swapped(s, i, j)) == multiset(s)
  {
  }

  lemma SwapKeepsSplit(les: Less, s: seq<Ptr>, i: nat, j: nat, e: nat)
    requires i < |s| && j < |s| && (i < e <==> j < e) && Split(les, s, e)
    ensures Split(les, Swapped(s, i, j), e)
  {
  }

  /** t is s with some entries between left and end exchanged. */
  ghost predicate Shuffled(les: Less, s: seq<Ptr>, t: seq<Ptr>, left: nat, end: nat) {
    && |t| == |s| && multiset(t) == multiset(s)
    && (forall i :: 0 <= i < |s| && !(left <= i < end) ==> t[i] == s[i])
    && (forall e: nat {:trigger Split(les, t, e)} :: (e <= left || e >= end) && Split(les, s, e) ==> Split(les, t, e))
  }

  lemma SwapShuffles(les: Less, s: seq<Ptr>, t: seq<Ptr>, left: nat, end: nat, i: nat, j: nat)
    requires Shuffled(les, s, t, left, end) && left <= i < end && left <= j < end && end <= |t|
    ensures Shuffled(les, s, Swapped(t, i, j), left, end)
  {
    SwapPermutes(t, i, j);
    forall e: nat {:trigger Split(les, Swapped(t, i, j), e)} | (e <= left || e >= end) && Split(les, s, e)
      ensures Split(les, Swapped(t, i, j), e)
    {
      SwapKeepsSplit(les, t, i, j, e);
    }
  }

  /** A position from the count on reads as null, and a store there is ignored. */
  function Exchanged(s: seq<Ptr>, i: nat, j: nat): seq<Ptr> {
    if i < |s| && j < |s| then Swapped(s, i, j)
    else if i < |s| then s[i := NULL]
    else if j < |s| then s[j := NULL]
    else s
  }

  method Swap(a: PtrArray, i: nat, j: nat)
    requires a.Valid() && i < DWORD && j < DWORD
    modifies a`Contents, a.t4
    ensures a.Valid() && a.Contents == Exchanged(old(a.Contents), i, j)
  {
    hide PtrArray.Valid;
    var temp := a.Get(i);
    var other := a.Get(j);
    a.Set(i, other);
    a.Set(j, temp);
  }

  /** Up to position `right` nothing belongs after the pivot, from position `len` on nothing before it. */
  ghost predicate Parted(les: Less, s: seq<Ptr>, left: nat, right: int, len: int, end: nat, pivot: Ptr) {
    && end <= |s|
    && (forall i {:trigger s[i]} :: left <= i <= right && i < end ==> !les(pivot, s[i]))
    && (forall i {:trigger s[i]} :: left <= i && len <= i < end ==> !les(s[i], pivot))
  }

  lemma SwapParts(les: Less, s: seq<Ptr>, left: nat, right: nat, len: nat, end: nat, pivot: Ptr)
    requires left <= right < len < end && Parted(les, s, left, right - 1, len + 1, end, pivot)
    requires !les(s[right], pivot) && !les(pivot, s[len])
    ensures Parted(les, Swapped(s, right, len), left, right, len, end, pivot)
  {
  }

  lemma PartsMeet(les: Less, s: seq<Ptr>, left: nat, right: nat, len: nat, end: nat, pivot: Ptr)
    requires left <= len <= right && len < end && Parted(les, s, left, right - 1, len + 1, end, pivot)
    requires !les(pivot, s[len])
    ensures Parted(les, s, left, len, len + 1, end, pivot)
  {
  }

  /** One round of a partition: scan from both sides, then exchange the two entries that stopped the
      scans unless the scans have met. */
  method Round(a: PtrArray, les: Less, ghost was: seq<Ptr>, left: nat, right0: int, len0: nat, end: nat, pivot: Ptr,
               ghost stopRight: nat, ghost stopLeft: nat)
    returns (right: int, len: nat)
    requires a.Valid() && StrictWeakOrder(les) && left - 1 <= right0 < len0 <= end <= |a.Contents|
    requires Shuffled(les, was, a.Contents, left, end) && Parted(les, a.Contents, left, right0, len0, end, pivot)
    requires right0 < stopRight < end && !les(a.Contents[stopRight], pivot)
    requires left <= stopLeft < len0 && !les(pivot, a.Contents[stopLeft])
    modifies a`Contents, a.t4
    ensures a.Valid() && Shuffled(les, was, a.Contents, left, end)
    ensures right0 < right <= stopRight && stopLeft <= len < len0 && left <= len
    ensures !les(old(a.Contents)[right], pivot) && forall i :: right0 < i < right ==> les(old(a.Contents)[i], pivot)
    ensures if right >= len then Parted(les, a.Contents, left, len, len + 1, end, pivot)
            else Parted(les, a.Contents, left, right, len, end, pivot)
    ensures right >= len ==> a.Contents == old(a.Contents)
  {
    right := ScanRight(a, les, right0, pivot, stopRight);
    len := ScanLeft(a, les, len0, pivot, stopLeft);
    if right >= len {
      PartsMeet(les, a.Contents, left, right, len, end, pivot);
    } else {
      SwapShuffles(les, was, a.Contents, left, end, right, len);
      SwapParts(les, a.Contents, left, right, len, end, pivot);
      Swap(a, right, len);
    }
  }

  /** The pivot is the last entry of the range and the only greatest one. */
  ghost predicate Stalls(les: Less, s: seq<Ptr>, left: nat, end: nat, pivot: Ptr, k: nat)
    requires end <= |s|
  {
    k == end - 1 && forall i :: left <= i < end - 1 ==> les(s[i], pivot)
  }

  /** Partition the range from left to end around a pivot that is in it. The scans are not guarded:
      they stop inside the range because of the pivot at first and because of the last exchange later.
      The split lies at the end of the range, which is no progress, exactly if the partition stalls. */
  method Partition(a: PtrArray, les: Less, left: nat, end: nat, pivot: Ptr, ghost k: nat) returns (len: nat)
    requires a.Valid() && StrictWeakOrder(les) && left <= k < end <= |a.Contents| && a.Contents[k] == pivot
    modifies a`Contents, a.t4
    ensures a.Valid() && Shuffled(les, old(a.Contents), a.Contents, left, end)
    ensures left <= len < end
    ensures Parted(les, a.Contents, left, len, len + 1, end, pivot)
    ensures len == end - 1 <==> Stalls(les, old(a.Contents), left, end, pivot, k)
    ensures len == end - 1 ==> a.Contents == old(a.Contents)
  {
    var right: int := left - 1;
    len := end;
    assert Irreflexive(les, pivot);
    right, len := Round(a, les, a.Contents, left, right, len, end, pivot, k, k);
    while right < len
      invariant a.Valid() && Shuffled(les, old(a.Contents), a.Contents, left, end)
      invariant left <= right && left <= len < end
      invariant if right >= len then Parted(les, a.Contents, left, len, len + 1, end, pivot)
                else Parted(les, a.Contents, left, right, len, end, pivot)
      invariant if right < len then !Stalls(les, old(a.Contents), left, end, pivot, k)
                else len == end - 1 <==> Stalls(les, old(a.Contents), left, end, pivot, k)
      invariant Stalls(les, old(a.Contents), left, end, pivot, k) ==> a.Contents == old(a.Contents)
      decreases len - right
    {
      right, len := Round(a, les, old(a.Contents), left, right, len, end, pivot, len, right);
    }
  }

  /** The first position after `from` whose entry does not belong before the pivot. */
  method ScanRight(a: PtrArray, les: Less, from: int, pivot: Ptr, ghost stop: nat) returns (right: int)
    requires a.Valid() && StrictWeakOrder(les)
    requires -1 <= from < stop < |a.Contents| && !les(a.Contents[stop], pivot)
    ensures from < right <= stop && !les(a.Contents[right], pivot)
    ensures forall i :: from < i < right ==> les(a.Contents[i], pivot) && !les(pivot, a.Contents[i])
  {
    right := from + 1;
    while true
      invariant from < right <= stop
      invariant forall i :: from < i < right ==> les(a.Contents[i], pivot) && !les(pivot, a.Contents[i])
      decreases stop - right
    {
      var entry := a.Get(right);
      if !les(entry, pivot) {
        return;
      }
      Asymmetric(les, entry, pivot);
      right := right + 1;
    }
  }

  /** The last position before `from` whose entry the pivot does not belong before. */
  method ScanLeft(a: PtrArray, les: Less, from: nat, pivot: Ptr, ghost stop: nat) returns (len: nat)
    requires a.Valid() && StrictWeakOrder(les)
    requires stop < from <= |a.Contents| && !les(pivot, a.Contents[stop])
    ensures stop <= len < from && !les(pivot, a.Contents[len])
    ensures forall i :: len < i < from ==> !les(a.Contents[i], pivot)
  {
    len := from - 1;
    while true
      invariant stop <= len < from
      invariant forall i :: len < i < from ==> !les(a.Contents[i], pivot)
      decreases len
    {
      var entry := a.Get(len);
      if !les(pivot, entry) {
        return;
      }
      Asymmetric(les, entry, pivot);
      len := len - 1;
    }
  }

  /** A partition around any pivot splits the whole range where its parts meet. */
  lemma PartedSplits(les: Less, s: seq<Ptr>, left: nat, len: nat, end: nat, pivot: Ptr)
    requires StrictWeakOrder(les) && left <= len < end && Parted(les, s, left, len, len + 1, end, pivot)
    requires Split(les, s, left) && Split(les, s, end)
    ensures Split(les, s, len + 1)
  {
    forall i, j | 0 <= i < len + 1 <= j < |s|
      ensures !les(s[j], s[i])
    {
      if left <= i && j < end {
        assert Transitive(les, s[j], pivot, s[i]);
      }
    }
  }

  const MAX_STACK := 64

  /** Where the sort stands between two partitions: the array, what is left of `left` in its place, the
      present range from `left` to `len`, where the ranges put aside end, and the seed. */
  datatype State = State(s: seq<Ptr>, left: nat, len: nat, ends: seq<nat>, seed: nat)

  /** The present range is to be partitioned next. */
  predicate Divides(x: State) {
    x.left + 1 < x.len
  }

  predicate Finished(x: State) {
    !Divides(x) && x.ends == []
  }

  /** The stack is full, and is reset before the partition. */
  predicate Overflows(x: State) {
    Divides(x) && |x.ends| == MAX_STACK
  }

  /** The end of the range that is partitioned next, and the ends then put aside before it. */
  function EndOf(x: State): nat {
    if |x.ends| == MAX_STACK then x.ends[0] else x.len
  }

  function Aside(x: State): seq<nat> {
    if |x.ends| == MAX_STACK then [] else x.ends
  }

  function Choice(x: State): nat
    requires x.left < EndOf(x)
  {
    x.left + x.seed % (EndOf(x) - x.left)
  }

  /** The partition that comes next makes no progress. */
  ghost predicate Stuck(les: Less, x: State) {
    && Divides(x) && x.left + 1 < EndOf(x) <= |x.s|
    && Stalls(les, x.s, x.left, EndOf(x), x.s[Choice(x)], Choice(x))
  }

  /** The array splits at the end of the present range and of every range put aside; the last one is the
      nearest, and the first one is the end of the array. */
  ghost predicate Pending(les: Less, s: seq<Ptr>, ends: seq<nat>, len: nat) {
    && |ends| <= MAX_STACK && len <= |s| && Split(les, s, len)
    && (if ends == [] then len == |s| else ends[0] == |s|)
    && (forall k {:trigger ends[k]} :: 0 <= k < |ends| ==> len <= ends[k] <= |s| && Split(les, s, ends[k]))
    && (forall j, k :: 0 <= j < k < |ends| ==> ends[k] <= ends[j])
  }

  /** What is left of `left` is in order and in its place. */
  ghost predicate Done(les: Less, s: seq<Ptr>, left: nat) {
    SortedTo(les, s, left) && Split(les, s, left)
  }

  ghost predicate Sound(les: Less, x: State) {
    x.left <= x.len && Done(les, x.s, x.left) && Pending(les, x.s, x.ends, x.len)
  }

  /** y comes after x by a partition of its range, whose right part is put aside. */
  ghost predicate Divided(les: Less, x: State, y: State) {
    var end := EndOf(x);
    && x.left < y.len <= end <= |x.s| && Shuffled(les, x.s, y.s, x.left, end)
    && Parted(les, y.s, x.left, y.len - 1, y.len, end, x.s[Choice(x)])
    && (y.len == end <==> Stuck(les, x)) && (y.len == end ==> y.s == x.s)
    && y.left == x.left && y.ends == Aside(x) + [end] && y.seed == NextSeed(x.seed)
  }

  /** y comes after x, by a partition or by taking up the range last put aside. */
  ghost predicate Step(les: Less, x: State, y: State) {
    if Divides(x) then Divided(les, x, y)
    else
      x.ends != [] && y == x.(left := x.len, len := x.ends[|x.ends| - 1], ends := x.ends[..|x.ends| - 1])
  }

  lemma PendingReset(les: Less, x: State)
    requires Sound(les, x) && Divides(x)
    ensures x.left + 1 < EndOf(x) && Pending(les, x.s, Aside(x), EndOf(x)) && |Aside(x)| < MAX_STACK
  {
  }

  lemma ShuffleKeeps(les: Less, s: seq<Ptr>, t: seq<Ptr>, ends: seq<nat>, left: nat, len: nat, end: nat, pivot: Ptr)
    requires StrictWeakOrder(les) && Shuffled(les, s, t, left, end) && left < len <= end
    requires Done(les, s, left) && Pending(les, s, ends, end) && |ends| < MAX_STACK
    requires Parted(les, t, left, len - 1, len, end, pivot)
    ensures Done(les, t, left) && Pending(les, t, ends + [end], len)
  {
    assert Split(les, t, left) && Split(les, t, end);
    PartedSplits(les, t, left, len - 1, end, pivot);
    forall k | 0 <= k < |ends|
      ensures Split(les, t, ends[k])
    {
      assert Split(les, s, ends[k]);
    }
  }

  lemma OneMore(les: Less, s: seq<Ptr>, left: nat, len: nat)
    requires Done(les, s, left) && left <= len <= left + 1 && len <= |s| && Split(les, s, len)
    ensures Done(les, s, len)
  {
  }

  /** Whatever comes next, the array is a permutation, sorted left of `left` and split at every end. */
  lemma StepSound(les: Less, x: State, y: State)
    requires StrictWeakOrder(les) && Sound(les, x) && Step(les, x, y)
    ensures Sound(les, y) && multiset(y.s) == multiset(x.s) && |y.s| == |x.s|
  {
    if Divides(x) {
      PendingReset(les, x);
      ShuffleKeeps(les, x.s, y.s, Aside(x), x.left, y.len, EndOf(x), x.s[Choice(x)]);
    } else {
      OneMore(les, x.s, x.left, x.len);
    }
  }

  // A run of the sort, and what it costs.

  ghost predicate StepAt(les: Less, run: seq<State>, i: nat)
    requires i + 1 < |run|
  {
    Step(les, run[i], run[i + 1])
  }

  ghost predicate IsRun(les: Less, run: seq<State>) {
    run != [] && forall i: nat {:trigger StepAt(les, run, i)} :: i + 1 < |run| ==> StepAt(les, run, i)
  }

  lemma RunShorter(les: Less, run: seq<State>)
    requires IsRun(les, run) && |run| > 1
    ensures IsRun(les, run[..|run| - 1]) && Step(les, run[|run| - 2], run[|run| - 1])
  {
    var shorter := run[..|run| - 1];
    forall i: nat | i + 1 < |shorter|
      ensures StepAt(les, shorter, i)
    {
      assert StepAt(les, run, i);
    }
    assert StepAt(les, run, |run| - 2);
  }

  lemma RunLonger(les: Less, run: seq<State>, y: State)
    requires IsRun(les, run) && Step(les, run[|run| - 1], y)
    ensures IsRun(les, run + [y]) && CostOf(les, run + [y]) == Spent(les, CostOf(les, run), run[|run| - 1])
  {
    hide Step, Spent;
    var longer := run + [y];
    forall i: nat | i + 1 < |longer|
      ensures StepAt(les, longer, i)
    {
      assert i + 1 < |run| ==> StepAt(les, run, i);
    }
    assert longer[..|longer| - 1] == run;
  }

  function Start(s: seq<Ptr>, seed: nat): State {
    State(s, 0, |s|, [], seed)
  }

  function LastOf(run: seq<State>): State
    requires run != []
  {
    run[|run| - 1]
  }

  /** How many partitions a run made, how many of them made no progress, how often the stack was reset,
      and how many ranges without an entry were taken up. */
  datatype Cost = Cost(partitions: nat, stalls: nat, resets: nat, empties: nat)

  ghost function Spent(les: Less, c: Cost, x: State): Cost {
    if Divides(x) then
      Cost(c.partitions + 1, c.stalls + if Stuck(les, x) then 1 else 0, c.resets + if Overflows(x) then 1 else 0,
           c.empties)
    else c.(empties := c.empties + if x.left == x.len then 1 else 0)
  }

  ghost function CostOf(les: Less, run: seq<State>): Cost
    requires run != []
  {
    if |run| == 1 then Cost(0, 0, 0, 0) else Spent(les, CostOf(les, run[..|run| - 1]), run[|run| - 2])
  }

  /** How many entries equal the one before. */
  function Twins(s: seq<nat>): nat {
    if |s| < 2 then 0 else Twins(s[..|s| - 1]) + if s[|s| - 1] == s[|s| - 2] then 1 else 0
  }

  lemma TwinsPlus(s: seq<nat>, e: nat, f: nat)
    ensures Twins(s + [e] + [f]) == Twins(s + [e]) + if e == f then 1 else 0
  {
    assert (s + [e] + [f])[..|s| + 1] == s + [e];
  }

  /** Falling ends fit above the last one, but for those that equal their neighbour. */
  lemma {:induction false} EndsFit(ends: seq<nat>, len: nat, n: nat)
    requires forall k :: 0 <= k < |ends| ==> len <= ends[k] <= n
    requires forall j, k :: 0 <= j < k < |ends| ==> ends[k] <= ends[j]
    ensures |ends| <= n - len + Twins(ends + [len]) || n < len
  {
    if ends != [] {
      var m := |ends| - 1;
      EndsFit(ends[..m], ends[m], n);
      assert ends == ends[..m] + [ends[m]];
      TwinsPlus(ends[..m], ends[m], len);
    }
  }

  /** The account of a run that has come to x. */
  ghost predicate Balanced(n: nat, c: Cost, x: State) {
    && c.partitions == x.left + c.empties + |x.ends| + MAX_STACK * c.resets
    && c.empties + (if x.left == x.len then 1 else 0) + Twins(x.ends + [x.len]) <= c.stalls
    && (c.resets > 0 ==> n + c.stalls > MAX_STACK + 1)
  }

  lemma StepBalanced(les: Less, n: nat, c: Cost, x: State, y: State)
    requires StrictWeakOrder(les) && Sound(les, x) && Step(les, x, y) && |x.s| == n && Balanced(n, c, x)
    ensures Balanced(n, Spent(les, c, x), y)
  {
    if Divides(x) {
      PendingReset(les, x);
      EndsFit(x.ends, x.len, n);
      TwinsPlus(Aside(x), EndOf(x), y.len);
    } else {
      var m := |x.ends| - 1;
      assert x.ends == x.ends[..m] + [x.ends[m]];
      TwinsPlus(x.ends[..m], x.ends[m], x.len);
    }
  }

  /** Whatever the sort has done, the array is a permutation, and sorted when it is finished. */
  lemma {:induction false} RunSound(les: Less, run: seq<State>, s: seq<Ptr>, seed: nat)
    requires StrictWeakOrder(les) && IsRun(les, run) && run[0] == Start(s, seed)
    ensures Sound(les, LastOf(run)) && |LastOf(run).s| == |s| && multiset(LastOf(run).s) == multiset(s)
    ensures Finished(LastOf(run)) ==> SortedTo(les, LastOf(run).s, |s|)
  {
    if |run| > 1 {
      var m := |run| - 1;
      RunShorter(les, run);
      RunSound(les, run[..m], s, seed);
      StepSound(les, run[m - 1], run[m]);
    }
    var x := LastOf(run);
    if Finished(x) {
      OneMore(les, x.s, x.left, x.len);
    }
  }

  lemma {:induction false} RunBalanced(les: Less, run: seq<State>, s: seq<Ptr>, seed: nat)
    requires StrictWeakOrder(les) && IsRun(les, run) && run[0] == Start(s, seed) && s != []
    ensures Balanced(|s|, CostOf(les, run), LastOf(run))
  {
    if |run| > 1 {
      var m := |run| - 1;
      RunShorter(les, run);
      RunBalanced(les, run[..m], s, seed);
      RunSound(les, run[..m], s, seed);
      StepBalanced(les, |s|, CostOf(les, run[..m]), run[m - 1], run[m]);
    }
  }

  /** What a sort of n entries costs: n - 1 partitions, and 64 more for each time the stack was reset, and
      at most one more for each partition that made no progress. A sort of at most 65 entries in which
      every partition makes progress never resets the stack. */
  lemma SortCost(les: Less, run: seq<State>, s: seq<Ptr>, seed: nat)
    requires StrictWeakOrder(les) && IsRun(les, run) && run[0] == Start(s, seed) && s != []
    ensures var c := CostOf(les, run);
      && (Divides(LastOf(run)) ==> c.partitions < |s| - 1 + MAX_STACK * c.resets + c.stalls)
      && (Finished(LastOf(run)) ==>
            0 <= c.partitions - (|s| - 1 + MAX_STACK * c.resets) <= c.stalls)
      && (c.resets > 0 ==> |s| + c.stalls > MAX_STACK + 1)
  {
    RunBalanced(les, run, s, seed);
    RunSound(les, run, s, seed);
    EndsFit(LastOf(run).ends, LastOf(run).len, |s|);
  }

  // How long partitions can go on without progress. The pivot is the last entry of its range then, and the
  // seeds see to it that another entry is chosen before long.

  /** A range of an even length never stalls twice in a row. */
  lemma EvenNeverStallsTwice(les: Less, x: State, y: State)
    requires Step(les, x, y) && Stuck(les, x) && EndOf(y) == EndOf(x) && (EndOf(x) - x.left) % 2 == 0
    ensures !Stuck(les, y)
  {
    if Stuck(les, y) {
      var m := EndOf(x) - x.left;
      LastIsOdd(x.seed, m);
      LastIsOdd(y.seed, m);
    }
  }

  lemma LastIsOdd(seed: nat, m: nat)
    requires m > 0 && m % 2 == 0 && seed % m == m - 1
    ensures seed % 2 == 1
  {
    assert seed == m * (seed / m) + m - 1 == 2 * (m / 2 * (seed / m) + m / 2 - 1) + 1;
  }

  /** A stall leaves everything as it is but the seed, for the next partition. */
  lemma {:induction false} StallsInARow(les: Less, run: seq<State>, i: nat, k: nat)
    requires IsRun(les, run) && i + k < |run| && run[i].seed < DWORD
    requires forall m :: i <= m <= i + k ==> Stuck(les, run[m]) && EndOf(run[m]) == EndOf(run[i])
    ensures run[i + k].seed == Seeds(run[i].seed, k)
    ensures run[i + k].left == run[i].left && run[i + k].s == run[i].s
  {
    if k > 0 {
      StallsInARow(les, run, i, k - 1);
      assert StepAt(les, run, i + k - 1);
    }
  }

  lemma FirstNeverStalls(les: Less, x: State)
    requires x.seed == 0
    ensures !Stuck(les, x)
  {
    assert x.left < EndOf(x) ==> Choice(x) == x.left;
  }

  /** A range cannot stall for ever: within 2^32 partitions its first entry is chosen, and that is not
      the last one. */
  lemma StallsEnd(les: Less, run: seq<State>, i: nat, k: nat)
    requires IsRun(les, run) && i + k < |run| && run[i].seed < DWORD
    requires forall m :: i <= m <= i + k ==> Stuck(les, run[m]) && EndOf(run[m]) == EndOf(run[i])
    ensures k < DWORD
  {
    hide *;
    var z := SeedsReachZero(run[i].seed);
    if z <= k {
      StallsInARow(les, run, i, z);
      FirstNeverStalls(les, run[i + z]);
    }
  }

  /** The variables of the sort are what x says. */
  ghost predicate Stands(a: PtrArray, x: State, left: nat, len: nat, stack: array<nat>, pos: nat, seed: nat)
    reads a`Contents, stack
  {
    stack.Length == MAX_STACK && pos <= MAX_STACK && x == State(a.Contents, left, len, stack[..pos], seed)
  }

  /** Partition the range from left to end around its entry k; what is left to do is the part below the split. */
  method SplitOff(a: PtrArray, les: Less, ghost x: State, left: nat, end: nat, k: nat) returns (len: nat)
    requires a.Valid() && StrictWeakOrder(les) && Sound(les, x) && Divides(x)
    requires x.s == a.Contents && left == x.left && end == EndOf(x) && left < end && k == Choice(x)
    modifies a`Contents, a.t4
    ensures a.Valid() && Step(les, x, State(a.Contents, left, len, Aside(x) + [end], NextSeed(x.seed)))
    ensures len == end <==> Stalls(les, old(a.Contents), left, end, old(a.Contents)[k], k)
  {
    PendingReset(les, x);
    hide PtrArray.Valid, Sound, Parted, Shuffled, Stalls;
    var pivot := a.Get(k);
    len := Partition(a, les, left, end, pivot, k);
    len := len + 1;
  }

  /** One partition. A full stack is reset first: everything right of `left` becomes the range again. */
  method Divide(a: PtrArray, les: Less, ghost x: State, left: nat, len0: nat, stack: array<nat>, pos0: nat, seed0: nat)
    returns (len: nat, pos: nat, seed: nat, ghost y: State)
    requires a.Valid() && StrictWeakOrder(les) && Sound(les, x) && Divides(x)
    requires Stands(a, x, left, len0, stack, pos0, seed0)
    modifies a`Contents, a.t4, stack
    ensures a.Valid() && Stands(a, y, left, len, stack, pos, seed) && Step(les, x, y)
  {
    PendingReset(les, x);
    hide PtrArray.Valid, Sound, Step, Divided, Pending;
    len, pos := len0, pos0;
    if pos == MAX_STACK {
      pos := 0;
      len := stack[pos];
    }
    var k := left + seed0 % (len - left);
    seed := (seed0 * 69069 + 1) % DWORD;
    var end := len;
    len := SplitOff(a, les, x, left, end, k);
    y := State(a.Contents, left, len, Aside(x) + [end], seed);
    stack[pos] := end;
    pos := pos + 1;
    assert stack[..pos] == Aside(x) + [end];
  }

  /** Narrow the range from left to len until it has at most one entry, putting aside where each
      range given up ends. */
  method Narrow(a: PtrArray, les: Less, left: nat, len0: nat, stack: array<nat>, pos0: nat, seed0: nat, fuel0: nat,
                ghost run0: seq<State>)
    returns (len: nat, pos: nat, seed: nat, fuel: nat, ghost run: seq<State>)
    requires a.Valid() && StrictWeakOrder(les) && IsRun(les, run0) && Sound(les, LastOf(run0))
    requires Stands(a, LastOf(run0), left, len0, stack, pos0, seed0)
    modifies a`Contents, a.t4, stack
    ensures a.Valid() && IsRun(les, run) && run0 <= run && Sound(les, LastOf(run)) && fuel <= fuel0
    ensures Stands(a, LastOf(run), left, len, stack, pos, seed)
    ensures CostOf(les, run).partitions == CostOf(les, run0).partitions + (fuel0 - fuel)
    ensures if Divides(LastOf(run)) then fuel == 0 else fuel == fuel0 ==> run == run0
  {
    len, pos, seed, fuel, run := len0, pos0, seed0, fuel0, run0;
    while left + 1 < len && fuel > 0
      invariant a.Valid() && IsRun(les, run) && run0 <= run && Sound(les, LastOf(run)) && fuel <= fuel0
      invariant Stands(a, LastOf(run), left, len, stack, pos, seed)
      invariant CostOf(les, run).partitions == CostOf(les, run0).partitions + (fuel0 - fuel)
      invariant fuel == fuel0 ==> run == run0
      decreases fuel
    {
      fuel := fuel - 1;
      ghost var y;
      len, pos, seed, y := Divide(a, les, LastOf(run), left, len, stack, pos, seed);
      StepSound(les, LastOf(run), y);
      RunLonger(les, run, y);
      run := run + [y];
    }
  }

  /** Sort the array in place with an explicit stack of 64 range ends. `seed0` is where the pseudorandom
      choice of pivots starts; `fuel0` bounds the number of partitions and `done` tells that it sufficed. */
  method Sort(a: PtrArray, les: Less, seed0: nat, fuel0: nat) returns (done: bool, ghost run: seq<State>)
    requires a.Valid() && StrictWeakOrder(les)
    modifies a`Contents, a.t4
    ensures a.Valid() && multiset(a.Contents) == multiset(old(a.Contents))
    ensures done ==> SortedTo(les, a.Contents, |a.Contents|)
    ensures IsRun(les, run) && run[0] == Start(old(a.Contents), seed0) && LastOf(run).s == a.Contents
    ensures if done then Finished(LastOf(run)) && CostOf(les, run).partitions <= fuel0
            else Divides(LastOf(run)) && CostOf(les, run).partitions == fuel0
    ensures |a.Contents| <= 1 ==> done
    ensures var c := CostOf(les, run); fuel0 + 1 >= |a.Contents| + MAX_STACK * c.resets + c.stalls ==> done
  {
    var len, left, stack, pos, seed, fuel := a.m_Count, 0, new nat[MAX_STACK], 0, seed0, fuel0;
    run := Begin(les, a.Contents, seed0);
    hide Divided, Step, Sound, IsRun, CostOf, PtrArray.Valid, SortedTo;
    while true
      invariant a.Valid() && IsRun(les, run) && run[0] == Start(old(a.Contents), seed0) && Sound(les, LastOf(run))
      invariant Stands(a, LastOf(run), left, len, stack, pos, seed)
      invariant CostOf(les, run).partitions + fuel == fuel0
      decreases fuel, pos
    {
      len, pos, seed, fuel, run := Narrow(a, les, left, len, stack, pos, seed, fuel, run);
      if left + 1 < len {
        done := false;
        break;
      }
      if pos == 0 {
        done := true;
        break;
      }
      run := TakeUp(les, run);
      left := len;
      pos := pos - 1;
      len := stack[pos];
    }
    RunSound(les, run, old(a.Contents), seed0);
    if |a.Contents| > 0 {
      SortCost(les, run, old(a.Contents), seed0);
    }
  }

  lemma Begin(les: Less, s: seq<Ptr>, seed: nat) returns (run: seq<State>)
    ensures IsRun(les, run) && run == [Start(s, seed)] && Sound(les, LastOf(run)) && CostOf(les, run).partitions == 0
  {
    run := [Start(s, seed)];
  }

  /** Take up the range last put aside. */
  lemma TakeUp(les: Less, run: seq<State>) returns (longer: seq<State>)
    requires StrictWeakOrder(les) && IsRun(les, run) && Sound(les, LastOf(run))
    requires !Divides(LastOf(run)) && LastOf(run).ends != []
    ensures run <= longer && IsRun(les, longer) && Sound(les, LastOf(longer))
    ensures var x := LastOf(run); var m := |x.ends| - 1;
      LastOf(longer) == x.(left := x.len, len := x.ends[m], ends := x.ends[..m])
    ensures CostOf(les, longer).partitions == CostOf(les, run).partitions
  {
    var x := LastOf(run);
    var m := |x.ends| - 1;
    var y := x.(left := x.len, len := x.ends[m], ends := x.ends[..m]);
    StepSound(les, x, y);
    RunLonger(les, run, y);
    longer := run + [y];
  }
}
