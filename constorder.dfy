/** The new order of the constant pool chosen by the offline compactor (`classOptimize`,
    classCvt/classOptimizer.c). Every constant falls into one of three groups: directly
    used (an instruction, a declaration or an exception handler names it, so the compact
    file must give it an address), used only through another constant (its data must be
    placed but needs no address), and unused. The new pool holds the first group, then
    the second, then the third, each group in its original order.

    Constant indices start at 1: entry `i` of a pool of `n` entries is constant `i + 1`,
    and index 0 means "no constant". The forward map takes an old index to the new one,
    the reverse map a new index to the old one. */
module ConstantOrder {

  // ---------------------------------------------------------------------------
  // The reference order
  // ---------------------------------------------------------------------------

  /** 0: directly used, 1: used through another constant, 2: unused. */
  function Group(used: bool, direct: bool): int {
    if direct then 0 else if used then 1 else 2
  }

  /** The flags the marking passes keep: whatever is directly used is used. */
  ghost predicate FlagsOk(used: seq<bool>, direct: seq<bool>) {
    |used| == |direct| && forall i | 0 <= i < |used| :: direct[i] ==> used[i]
  }

  /** How many of the first `i` constants are in group `k`. */
  function CountIn(used: seq<bool>, direct: seq<bool>, i: int, k: int): (c: nat)
    requires |used| == |direct| && 0 <= i <= |used|
    ensures c <= i
  {
    if i == 0 then 0
    else CountIn(used, direct, i - 1, k) + (if Group(used[i - 1], direct[i - 1]) == k then 1 else 0)
  }

  /** The first new index of group `k`. */
  function Start(used: seq<bool>, direct: seq<bool>, k: int): nat
    requires |used| == |direct|
  {
    var n := |used|;
    if k <= 0 then 1
    else if k == 1 then 1 + CountIn(used, direct, n, 0)
    else 1 + CountIn(used, direct, n, 0) + CountIn(used, direct, n, 1)
  }

  /** The new index of old constant `i + 1`. */
  function NewIndex(used: seq<bool>, direct: seq<bool>, i: int): nat
    requires |used| == |direct| && 0 <= i < |used|
  {
    var k := Group(used[i], direct[i]);
    Start(used, direct, k) + CountIn(used, direct, i, k)
  }

  // ---------------------------------------------------------------------------
  // Counting
  // ---------------------------------------------------------------------------

  lemma {:induction false} CountSplit(used: seq<bool>, direct: seq<bool>, i: int)
    requires |used| == |direct| && 0 <= i <= |used|
    ensures CountIn(used, direct, i, 0) + CountIn(used, direct, i, 1) + CountIn(used, direct, i, 2) == i
  {
    if i > 0 {
      CountSplit(used, direct, i - 1);
    }
  }

  lemma {:induction false} CountMonotone(used: seq<bool>, direct: seq<bool>, i: int, j: int, k: int)
    requires |used| == |direct| && 0 <= i <= j <= |used|
    ensures CountIn(used, direct, i, k) <= CountIn(used, direct, j, k)
    decreases j - i
  {
    if i < j {
      CountMonotone(used, direct, i, j - 1, k);
    }
  }

  /** A constant of group `k` is counted before any later constant is. */
  lemma CountStrict(used: seq<bool>, direct: seq<bool>, i: int, j: int)
    requires |used| == |direct| && 0 <= i < j <= |used|
    ensures CountIn(used, direct, i, Group(used[i], direct[i])) < CountIn(used, direct, j, Group(used[i], direct[i]))
  {
    CountMonotone(used, direct, i + 1, j, Group(used[i], direct[i]));
  }

  // ---------------------------------------------------------------------------
  // The properties of the order
  // ---------------------------------------------------------------------------

  /** Each new index lies inside its group's range, and the ranges tile 1..n. */
  lemma NewIndexRange(used: seq<bool>, direct: seq<bool>, i: int)
    requires |used| == |direct| && 0 <= i < |used|
    ensures var k := Group(used[i], direct[i]);
      Start(used, direct, k) <= NewIndex(used, direct, i) < Start(used, direct, k) + CountIn(used, direct, |used|, k)
    ensures 1 <= NewIndex(used, direct, i) <= |used|
  {
    CountStrict(used, direct, i, |used|);
    CountSplit(used, direct, |used|);
  }

  /** Groups come in the order direct, used, unused, and each group keeps the original
      relative order: the new order is the original order sorted by group, stably. */
  lemma NewIndexOrder(used: seq<bool>, direct: seq<bool>, i: int, j: int)
    requires |used| == |direct| && 0 <= i < |used| && 0 <= j < |used|
    ensures NewIndex(used, direct, i) < NewIndex(used, direct, j) <==>
      Group(used[i], direct[i]) < Group(used[j], direct[j]) ||
      (Group(used[i], direct[i]) == Group(used[j], direct[j]) && i < j)
  {
    NewIndexRange(used, direct, i);
    NewIndexRange(used, direct, j);
    if i < j {
      CountStrict(used, direct, i, j);
    } else if j < i {
      CountStrict(used, direct, j, i);
    }
  }

  /** Different constants get different new indices. */
  lemma NewIndexInjective(used: seq<bool>, direct: seq<bool>, i: int, j: int)
    requires |used| == |direct| && 0 <= i < |used| && 0 <= j < |used|
    requires NewIndex(used, direct, i) == NewIndex(used, direct, j)
    ensures i == j
  {
    NewIndexOrder(used, direct, i, j);
    NewIndexOrder(used, direct, j, i);
  }

  /** A directly used constant never moves to a higher index, so an 8-bit `ldc` operand
      still fits after renumbering. */
  lemma DirectNeverRises(used: seq<bool>, direct: seq<bool>, i: int)
    requires |used| == |direct| && 0 <= i < |used| && direct[i]
    ensures NewIndex(used, direct, i) <= i + 1
  {
  }

  /** The export boundaries: exactly the directly used constants get an index below
      `1 + Count0` (an address in the compact file), and exactly the used ones an index
      below `1 + Count0 + Count1` (their data written). */
  lemma Boundaries(used: seq<bool>, direct: seq<bool>, i: int)
    requires FlagsOk(used, direct) && 0 <= i < |used|
    ensures direct[i] <==> NewIndex(used, direct, i) < 1 + CountIn(used, direct, |used|, 0)
    ensures used[i] <==> NewIndex(used, direct, i) < 1 + CountIn(used, direct, |used|, 0) + CountIn(used, direct, |used|, 1)
  {
    NewIndexRange(used, direct, i);
  }

  // ---------------------------------------------------------------------------
  // Building the maps
  // ---------------------------------------------------------------------------

  /** The test each of the three placing loops applies, as written. */
  predicate Selected(used: bool, direct: bool, k: int) {
    if k == 0 then direct else if k == 1 then used && !direct else !used
  }

  /** What has been placed so far: the forward map is right for every constant of the
      groups before `k` and for those of group `k` before `i`, and every reverse entry
      below `next` names the constant that was given that new index. */
  ghost predicate Placed(used: seq<bool>, direct: seq<bool>, fmap: seq<int>, rmap: seq<int>, k: int, i: int, next: int)
    requires |used| == |direct| && |fmap| == |used| + 1 && |rmap| == |used| + 1
  {
    (forall j | 0 <= j < |used| && (Group(used[j], direct[j]) < k || (Group(used[j], direct[j]) == k && j < i)) ::
       fmap[j + 1] == NewIndex(used, direct, j)) &&
    next <= |rmap| &&
    (forall m | 1 <= m < next :: 1 <= rmap[m] <= |used| && NewIndex(used, direct, rmap[m] - 1) == m)
  }

  /** Placing constant `i` of group `k` at index `next`. */
  lemma PlaceStep(used: seq<bool>, direct: seq<bool>, fmap: seq<int>, rmap: seq<int>, k: int, i: int, next: int)
    requires |used| == |direct| && |fmap| == |used| + 1 && |rmap| == |used| + 1 && 0 <= i < |used|
    requires Placed(used, direct, fmap, rmap, k, i, next)
    requires Group(used[i], direct[i]) == k && next == NewIndex(used, direct, i) && 1 <= next <= |used|
    ensures Placed(used, direct, fmap[i + 1 := next], rmap[next := i + 1], k, i + 1, next + 1)
  {
    NewIndexRange(used, direct, i);
    var fmap', rmap' := fmap[i + 1 := next], rmap[next := i + 1];
    forall j | 0 <= j < |used| && (Group(used[j], direct[j]) < k || (Group(used[j], direct[j]) == k && j < i + 1))
      ensures fmap'[j + 1] == NewIndex(used, direct, j)
    {
      if j != i {
        assert fmap'[j + 1] == fmap[j + 1];
      }
    }
    forall m | 1 <= m < next + 1
      ensures 1 <= rmap'[m] <= |used| && NewIndex(used, direct, rmap'[m] - 1) == m
    {
      if m != next {
        assert rmap'[m] == rmap[m];
      }
    }
  }

  /** Passing over constant `i` of another group. */
  lemma SkipStep(used: seq<bool>, direct: seq<bool>, fmap: seq<int>, rmap: seq<int>, k: int, i: int, next: int)
    requires |used| == |direct| && |fmap| == |used| + 1 && |rmap| == |used| + 1 && 0 <= i < |used|
    requires Placed(used, direct, fmap, rmap, k, i, next)
    requires Group(used[i], direct[i]) != k
    ensures Placed(used, direct, fmap, rmap, k, i + 1, next)
  {
  }

  /** With the flags as the marking passes keep them, each loop's test picks its group. */
  lemma SelectedGroup(used: seq<bool>, direct: seq<bool>, i: int, k: int)
    requires FlagsOk(used, direct) && 0 <= i < |used| && 0 <= k <= 2
    ensures Selected(used[i], direct[i], k) <==> Group(used[i], direct[i]) == k
  {
  }

  /** A finished group: the next loop starts from it. */
  lemma PlacedGroup(used: seq<bool>, direct: seq<bool>, fmap: seq<int>, rmap: seq<int>, k: int, next: int)
    requires |used| == |direct| && |fmap| == |used| + 1 && |rmap| == |used| + 1
    requires Placed(used, direct, fmap, rmap, k, |used|, next)
    ensures Placed(used, direct, fmap, rmap, k + 1, 0, next)
  {
  }

  /** One turn of a placing loop (`u`, `d` are the flags, which the loop does not change). */
  method PlaceOne(used: array<bool>, direct: array<bool>, ghost u: seq<bool>, ghost d: seq<bool>, k: int,
                  fmap: array<int>, rmap: array<int>, i: int, next0: int)
    returns (next: int)
    requires used[..] == u && direct[..] == d && FlagsOk(u, d) && 0 <= i < |u| && 0 <= k <= 2
    requires fmap.Length == |u| + 1 && rmap.Length == |u| + 1 && fmap != rmap
    requires next0 == Start(u, d, k) + CountIn(u, d, i, k)
    requires Placed(u, d, fmap[..], rmap[..], k, i, next0)
    modifies fmap, rmap
    ensures next == Start(u, d, k) + CountIn(u, d, i + 1, k)
    ensures Placed(u, d, fmap[..], rmap[..], k, i + 1, next)
    ensures fmap[0] == old(fmap[0]) && rmap[0] == old(rmap[0])
  {
    SelectedGroup(u, d, i, k);
    if Selected(used[i], direct[i], k) {
      NewIndexRange(u, d, i);
      PlaceStep(u, d, fmap[..], rmap[..], k, i, next0);
      fmap[i + 1] := next0;
      rmap[next0] := i + 1;
      next := next0 + 1;
    } else {
      SkipStep(u, d, fmap[..], rmap[..], k, i, next0);
      next := next0;
    }
  }

  /** One placing loop: give the constants of group `k`, in order, the next free indices. */
  method PlaceGroup(used: array<bool>, direct: array<bool>, ghost u: seq<bool>, ghost d: seq<bool>, k: int,
                    fmap: array<int>, rmap: array<int>, next0: int)
    returns (next: int)
    requires used[..] == u && direct[..] == d && FlagsOk(u, d) && 0 <= k <= 2
    requires fmap.Length == |u| + 1 && rmap.Length == |u| + 1 && fmap != rmap
    requires next0 == Start(u, d, k)
    requires Placed(u, d, fmap[..], rmap[..], k, 0, next0)
    modifies fmap, rmap
    ensures next == Start(u, d, k) + CountIn(u, d, |u|, k)
    ensures Placed(u, d, fmap[..], rmap[..], k + 1, 0, next)
    ensures fmap[0] == old(fmap[0]) && rmap[0] == old(rmap[0])
  {
    next := next0;
    var i := 0;
    while i < used.Length
      invariant 0 <= i <= |u|
      invariant next == Start(u, d, k) + CountIn(u, d, i, k)
      invariant Placed(u, d, fmap[..], rmap[..], k, i, next)
      invariant fmap[0] == old(fmap[0]) && rmap[0] == old(rmap[0])
    {
      next := PlaceOne(used, direct, u, d, k, fmap, rmap, i, next);
      i := i + 1;
    }
    PlacedGroup(u, d, fmap[..], rmap[..], k, next);
  }

  /** The forward and reverse maps of `classOptimize`, with the two sizes it records: the
      number of addressable constants and of placed constants, each plus one for index 0. */
  method BuildMaps(used: array<bool>, direct: array<bool>)
    returns (fmap: array<int>, rmap: array<int>, addressable: int, placed: int)
    requires used != direct && used.Length == direct.Length && used.Length + 1 < 0x1_0000
    requires FlagsOk(used[..], direct[..])
    ensures fresh(fmap) && fresh(rmap) && fmap.Length == used.Length + 1 && rmap.Length == used.Length + 1
    ensures fmap[0] == 0 && rmap[0] == 0
    ensures forall j | 0 <= j < used.Length :: fmap[j + 1] == NewIndex(used[..], direct[..], j)
    ensures forall m | 1 <= m <= used.Length :: 1 <= rmap[m] <= used.Length && NewIndex(used[..], direct[..], rmap[m] - 1) == m
    ensures addressable == 1 + CountIn(used[..], direct[..], used.Length, 0)
    ensures placed == addressable + CountIn(used[..], direct[..], used.Length, 1)
  {
    ghost var u, d := used[..], direct[..];
    fmap := new int[used.Length + 1];
    rmap := new int[used.Length + 1];
    fmap[0] := 0;
    rmap[0] := 0;
    var next := PlaceGroup(used, direct, u, d, 0, fmap, rmap, 1);
    addressable := next;
    next := PlaceGroup(used, direct, u, d, 1, fmap, rmap, next);
    placed := next;
    next := PlaceGroup(used, direct, u, d, 2, fmap, rmap, next);
    CountSplit(u, d, |u|);
    assert forall j | 0 <= j < |u| :: Group(u[j], d[j]) < 3;
  }

  // ---------------------------------------------------------------------------
  // The maps as a permutation
  // ---------------------------------------------------------------------------

  /** The forward map restricted to 1..n is a permutation and the reverse map is its
      inverse (index 0 maps to itself). */
  ghost predicate Inverse(fmap: seq<int>, rmap: seq<int>) {
    |fmap| == |rmap| && |fmap| > 0 && fmap[0] == 0 && rmap[0] == 0 &&
    (forall j | 1 <= j < |fmap| :: 1 <= fmap[j] < |fmap| && rmap[fmap[j]] == j) &&
    (forall m | 1 <= m < |rmap| :: 1 <= rmap[m] < |rmap| && fmap[rmap[m]] == m)
  }

  /** The maps `BuildMaps` returns are inverse permutations. */
  lemma MapsInverse(used: seq<bool>, direct: seq<bool>, fmap: seq<int>, rmap: seq<int>)
    requires |used| == |direct| && |fmap| == |used| + 1 && |rmap| == |used| + 1
    requires fmap[0] == 0 && rmap[0] == 0
    requires forall j | 0 <= j < |used| :: fmap[j + 1] == NewIndex(used, direct, j)
    requires forall m | 1 <= m <= |used| :: 1 <= rmap[m] <= |used| && NewIndex(used, direct, rmap[m] - 1) == m
    ensures Inverse(fmap, rmap)
  {
    forall j | 1 <= j < |fmap| ensures 1 <= fmap[j] < |fmap| && rmap[fmap[j]] == j {
      NewIndexRange(used, direct, j - 1);
      var m := fmap[j];
      NewIndexInjective(used, direct, rmap[m] - 1, j - 1);
    }
  }

  /** The pool after the move pass: new entry `i` is old entry `rmap[i + 1] - 1`. */
  method Permute<T>(pool: array<T>, rmap: seq<int>)
    requires |rmap| == pool.Length + 1
    requires forall m | 1 <= m <= pool.Length :: 1 <= rmap[m] <= pool.Length
    modifies pool
    ensures forall i | 0 <= i < pool.Length :: pool[i] == old(pool[rmap[i + 1] - 1])
  {
    var cl: seq<T> := [];
    var i := 0;
    while i < pool.Length
      invariant 0 <= i <= pool.Length && |cl| == i
      invariant forall j | 0 <= j < i :: cl[j] == pool[rmap[j + 1] - 1]
    {
      cl := cl + [pool[rmap[i + 1] - 1]];
      i := i + 1;
    }
    i := 0;
    while i < pool.Length
      invariant 0 <= i <= pool.Length
      invariant forall j | 0 <= j < i :: pool[j] == cl[j]
      invariant forall j | i <= j < pool.Length :: pool[j] == old(pool[j])
    {
      pool[i] := cl[i];
      i := i + 1;
    }
  }

  /** A constant moved by the reverse map is found at its forward-mapped index. */
  lemma MovedAt<T>(old_: seq<T>, new_: seq<T>, fmap: seq<int>, rmap: seq<int>, j: int)
    requires |fmap| == |old_| + 1 && Inverse(fmap, rmap) && |new_| == |old_|
    requires forall i | 0 <= i < |new_| :: new_[i] == old_[rmap[i + 1] - 1]
    requires 0 <= j < |old_|
    ensures new_[fmap[j + 1] - 1] == old_[j]
  {
  }
}
