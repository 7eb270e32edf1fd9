/** The thread list and the round-robin scheduler (uJ/uj.c: `ujThreadCreate`, `ujInstr`,
    `ujThreadDestroy`). Threads are chained through their `nextThread` handles from
    `gFirstThread`; `gCurThread` names the thread whose turn is next. */
module Scheduler {
  import opened Bytes
  import opened Errors

  /** `UJ_THREAD_QUANTUM`: instructions per turn. */
  const Quantum := 10

  /** The handle that follows position `i` of the list `order` (0 after the last). */
  function Next(order: seq<word>, i: int): word
    requires 0 <= i < |order|
  {
    if i + 1 < |order| then order[i + 1] else 0
  }

  /** The first position of handle `h` in a list. */
  function IndexOf(order: seq<word>, h: word): (i: int)
    requires h in order
    ensures 0 <= i < |order| && order[i] == h
    ensures forall k | 0 <= k < i :: order[k] != h
  {
    if order[0] == h then 0 else 1 + IndexOf(order[1..], h)
  }

  /** The position after `i` round the ring: the next one, or the head after the last. */
  function RingNext(order: seq<word>, i: int): word
    requires 0 <= i < |order|
  {
    if i + 1 < |order| then order[i + 1] else order[0]
  }

  lemma RingNextMod(order: seq<word>, i: int)
    requires 0 <= i < |order|
    ensures RingNext(order, i) == order[(i + 1) % |order|]
  {
    if i + 1 == |order| {
      assert (i + 1) % |order| == 0;
    }
  }

  predicate Distinct(order: seq<word>) {
    forall i, j | 0 <= i < j < |order| :: order[i] != order[j]
  }

  /** Dropping position `i` of a list. */
  function Without(order: seq<word>, i: int): seq<word>
    requires 0 <= i < |order|
  {
    order[..i] + order[i + 1..]
  }

  lemma WithoutDistinct(order: seq<word>, i: int)
    requires Distinct(order) && 0 <= i < |order|
    ensures Distinct(Without(order, i)) && |Without(order, i)| == |order| - 1
    ensures forall h :: h in Without(order, i) <==> h in order && h != order[i]
  {
    var w := Without(order, i);
    forall h ensures h in w <==> h in order && h != order[i] {
      if h in w {
        var k :| 0 <= k < |w| && w[k] == h;
        if k < i {
          assert order[k] == h;
        } else {
          assert order[k + 1] == h;
        }
      }
      if h in order && h != order[i] {
        var k :| 0 <= k < |order| && order[k] == h;
        if k < i {
          assert w[k] == h;
        } else {
          assert w[k - 1] == h;
        }
      }
    }
  }

  /** Each link of the list without position `i` is the old one, except the predecessor's,
      which now leads past the dropped handle. */
  lemma NextWithout(order: seq<word>, i: int, k: int)
    requires 0 <= i < |order| && 0 <= k < |order| - 1
    ensures Without(order, i)[k] == if k < i then order[k] else order[k + 1]
    ensures Next(Without(order, i), k) ==
      if k < i - 1 then Next(order, k) else if k == i - 1 then Next(order, i) else Next(order, k + 1)
  {
  }

  /** The handles of a list, as a set. */
  ghost function Elems(order: seq<word>): set<word> {
    if order == [] then {} else {order[0]} + Elems(order[1..])
  }

  lemma {:induction false} ElemsIn(order: seq<word>)
    ensures forall x :: x in Elems(order) <==> x in order
  {
    if order != [] {
      ElemsIn(order[1..]);
      forall x | x in order ensures x in Elems(order) {
        if x != order[0] {
          var k :| 0 <= k < |order| && order[k] == x;
          assert order[1..][k - 1] == x;
        }
      }
    }
  }

  /** The chain `order` as the links store it: `first` is its head, `links` gives each
      listed handle's `nextThread`, and no handle is listed twice or is 0. */
  ghost predicate ChainOk(order: seq<word>, first: word, links: map<word, int>) {
    Distinct(order) && 0 !in links && |links| == |order| &&
    (forall i | 0 <= i < |order| :: order[i] in links) &&
    (forall i {:trigger links[order[i]]} | 0 <= i < |order| :: links[order[i]] == Next(order, i)) &&
    first == (if |order| == 0 then 0 else order[0])
  }

  /** Linking a new handle at the head keeps the chain well formed. */
  lemma ChainAdd(order: seq<word>, first: word, links: map<word, int>, h: word)
    requires ChainOk(order, first, links) && h != 0 && h !in links
    ensures ChainOk([h] + order, h, links[h := first])
  {
    var o := [h] + order;
    forall i | 0 <= i < |o| ensures o[i] in links[h := first] && links[h := first][o[i]] == Next(o, i) {
      if i > 0 {
        assert o[i] == order[i - 1];
      }
    }
  }

  /** Unlinking position `i` (the predecessor's link, or the head, takes the removed
      handle's link) keeps the chain well formed. */
  lemma ChainRemove(order: seq<word>, first: word, links: map<word, int>, i: int)
    requires ChainOk(order, first, links) && 0 <= i < |order|
    ensures var l2 := if i == 0 then links else links[order[i - 1] := links[order[i]]];
            ChainOk(Without(order, i), if i == 0 then links[order[0]] else first, l2 - {order[i]})
  {
    var l2 := if i == 0 then links else links[order[i - 1] := links[order[i]]];
    var l3 := l2 - {order[i]};
    var w := Without(order, i);
    WithoutDistinct(order, i);
    RemoveLinks(order, links, i);
    if i == 0 && |w| > 0 {
      assert w[0] == order[1];
    }
  }

  lemma RemoveLinks(order: seq<word>, links: map<word, int>, i: int)
    requires Distinct(order) && 0 <= i < |order|
    requires forall k | 0 <= k < |order| :: order[k] in links && links[order[k]] == Next(order, k)
    ensures var l3 := (if i == 0 then links else links[order[i - 1] := links[order[i]]]) - {order[i]};
            var w := Without(order, i);
            forall k | 0 <= k < |w| :: w[k] in l3 && l3[w[k]] == Next(w, k)
  {
    var l3 := (if i == 0 then links else links[order[i - 1] := links[order[i]]]) - {order[i]};
    var w := Without(order, i);
    forall k | 0 <= k < |w| ensures w[k] in l3 && l3[w[k]] == Next(w, k) {
      NextWithout(order, i, k);
      if k < i {
        assert w[k] == order[k] && w[k] != order[i];
      } else {
        assert w[k] == order[k + 1] && w[k] != order[i];
      }
    }
  }

  /** The list of live threads: `links` maps each live thread handle to that thread's
      `nextThread`, and `order` is the chain from `first` through the links. The threads'
      stacks are not needed here. */
  class Ring {
    var first: word
    var cur: word
    var links: map<word, int>
    ghost var order: seq<word>

    ghost predicate Valid()
      reads this
    {
      ChainOk(order, first, links)
    }

    constructor ()
      ensures Valid() && order == [] && links == map[] && first == 0 && cur == 0
    {
      first := 0;
      cur := 0;
      links := map[];
      order := [];
    }

    /** `ujThreadCreate` linking thread `th` under the new handle `h` (0 when the heap is
        out of memory): the new thread goes to the front of the chain, and becomes the
        current thread when it is the only one. */
    method Add(h: word) returns (r: word)
      requires Valid() && h !in links
      modifies this
      ensures Valid() && r == h
      ensures h == 0 ==> order == old(order) && links == old(links) && cur == old(cur)
      ensures h != 0 ==> order == [h] + old(order) && links == old(links)[h := old(first)]
      ensures h != 0 ==> cur == if old(order) == [] then h else old(cur)
    {
      if h == 0 {
        return 0;
      }
      ChainAdd(order, first, links, h);
      if first == 0 {
        cur := h;
      }
      links := links[h := first];
      first := h;
      order := [h] + order;
      r := h;
    }

    /** `ujThreadDestroy`: unlink thread `h`, through the predecessor's `nextThread` or
        `gFirstThread`, and free its handle; `ErrInternal` when it is not on the chain. The
        current thread is not touched. */
    method Destroy(h: word) returns (ret: int)
      requires Valid()
      modifies this
      ensures Valid() && cur == old(cur)
      ensures h in old(order) ==>
        ret == ErrNone && h !in links &&
        order == Without(old(order), IndexOf(old(order), h))
      ensures h !in old(order) ==>
        ret == ErrInternal && links == old(links) && order == old(order)
    {
      ghost var i := 0;
      var p := first;
      var prev: word := 0;
      while p != 0 && p != h
        invariant 0 <= i <= |order| && p == (if i < |order| then order[i] else 0)
        invariant prev == (if i == 0 then 0 else order[i - 1])
        invariant forall k | 0 <= k < i :: order[k] != h
        decreases |order| - i
      {
        prev := p;
        p := links[p];
        i := i + 1;
      }
      if p == 0 {
        assert h !in order;
        return ErrInternal;
      }
      assert i == IndexOf(order, h);
      Unlink(h, prev, i);
      ret := ErrNone;
    }

    /** The unlink itself, for handle `h` at position `i` after `prev`. */
    method Unlink(h: word, prev: word, ghost i: int)
      requires Valid() && 0 <= i < |order| && order[i] == h
      requires prev == (if i == 0 then 0 else order[i - 1])
      modifies this
      ensures Valid() && cur == old(cur)
      ensures order == Without(old(order), i) && h !in links
    {
      ChainRemove(order, first, links, i);
      var nxt := links[h];
      var f := first;
      var l := links;
      if prev == 0 {
        f := nxt;
      } else {
        l := l[prev := nxt];
      }
      l := l - {h};
      ghost var o := Without(order, i);
      assert ChainOk(o, f, l);
      first, links, order := f, l, o;
    }
  }

  /** A handle is on the chain exactly when it has a thread. */
  lemma ChainListed(order: seq<word>, first: word, links: map<word, int>, h: word)
    requires ChainOk(order, first, links)
    ensures h in order <==> h in links
  {
    ElemsIn(order);
    ElemsSize(order);
    assert Elems(order) <= links.Keys;
    SameSizeSubset(Elems(order), links.Keys);
  }

  lemma {:induction false} ElemsSize(order: seq<word>)
    requires Distinct(order)
    ensures |Elems(order)| == |order|
  {
    if order != [] {
      ElemsSize(order[1..]);
      ElemsIn(order[1..]);
      assert order[0] !in order[1..];
    }
  }

  lemma SameSizeSubset(a: set<word>, b: set<word>)
    requires a <= b && |a| == |b|
    ensures a == b
  {
    assert b == a + (b - a);
  }

  // ---------------------------------------------------------------------------
  // One turn
  // ---------------------------------------------------------------------------

  /** A turn of up to `Quantum` instructions from instruction `i` on, where instruction `k`
      reports `run(k).0` and leaves the thread done when `run(k).1`: the code the turn
      returns and whether the thread died. `ErrRetryLater` ends the turn as success. */
  function Turn(run: nat -> (int, bool), i: nat): (int, bool)
    decreases Quantum - i
  {
    if i >= Quantum then (ErrNone, false)
    else
      var (code, done) := run(i);
      if code == ErrRetryLater then (ErrNone, false)
      else if done then (code, true)
      else if code != ErrNone then (code, false)
      else Turn(run, i + 1)
  }

  /** A turn stops at its first instruction that reports anything but success or leaves the
      thread done, and answers with that instruction's outcome. */
  lemma {:induction false} TurnStops(run: nat -> (int, bool), i: nat, k: nat)
    requires i <= k < Quantum && run(k) != (ErrNone, false)
    requires forall j | i <= j < k :: run(j) == (ErrNone, false)
    ensures Turn(run, i) == if run(k).0 == ErrRetryLater then (ErrNone, false) else run(k)
    decreases k - i
  {
    if i < k {
      TurnStops(run, i + 1, k);
    }
  }

  /** A turn whose instructions all succeed without finishing runs all `Quantum` of them. */
  lemma {:induction false} TurnFull(run: nat -> (int, bool), i: nat)
    requires forall j | i <= j < Quantum :: run(j) == (ErrNone, false)
    ensures Turn(run, i) == (ErrNone, false)
    decreases Quantum - i
  {
    if i < Quantum {
      TurnFull(run, i + 1);
    }
  }

  /** A turn never passes `ErrRetryLater` on, and a dead thread is reported only by an
      instruction that left it done. */
  lemma {:induction false} TurnCodes(run: nat -> (int, bool), i: nat)
    ensures Turn(run, i).0 != ErrRetryLater
    ensures Turn(run, i).1 ==> exists k | i <= k < Quantum :: run(k).1 && run(k).0 == Turn(run, i).0
    ensures !Turn(run, i).1 && Turn(run, i).0 != ErrNone ==>
      exists k | i <= k < Quantum :: run(k).0 == Turn(run, i).0
    decreases Quantum - i
  {
    if i < Quantum {
      TurnCodes(run, i + 1);
    }
  }

  /** The instruction loop of `ujInstr`. */
  method RunQuantum(run: nat -> (int, bool)) returns (ret: int, died: bool)
    ensures (ret, died) == Turn(run, 0)
  {
    var i: nat := 0;
    ret := ErrNone;
    died := false;
    while i < Quantum
      invariant i <= Quantum && !died && Turn(run, 0) == Turn(run, i)
      decreases Quantum - i
    {
      var (code, done) := run(i);
      ret := code;
      if ret == ErrRetryLater {
        return ErrNone, false;
      }
      died := done;
      if died || ret != ErrNone {
        return;
      }
      i := i + 1;
    }
    ret := ErrNone;
  }

  /** `ujInstr`: run the current thread for one turn, hand the next turn to its successor on
      the chain (the first thread after the last), and destroy it when it died. */
  method Instr(ring: Ring, run: nat -> (int, bool)) returns (ret: int)
    requires ring.Valid() && ring.cur in ring.order
    modifies ring
    ensures ring.Valid()
    ensures var i := IndexOf(old(ring.order), old(ring.cur));
            ret == Turn(run, 0).0 &&
            ring.cur == RingNext(old(ring.order), i) &&
            if Turn(run, 0).1 then
              ring.order == Without(old(ring.order), i)
            else
              ring.order == old(ring.order) && ring.links == old(ring.links)
    ensures ring.order != [] ==> ring.cur in ring.order
  {
    var h := ring.cur;
    ghost var o := ring.order;
    ghost var i := IndexOf(o, h);
    var died: bool;
    ret, died := RunQuantum(run);
    Successor(ring, h, i);
    if died {
      var _ := ring.Destroy(h);
      WithoutDistinct(o, i);
      if ring.order != [] {
        assert ring.cur != h;
      }
    }
  }

  /** The hand-over: the handle after `h` on the chain, or the head after the last. */
  method Successor(ring: Ring, h: word, ghost i: int)
    requires ring.Valid() && 0 <= i < |ring.order| && ring.order[i] == h
    modifies ring
    ensures ring.Valid() && ring.order == old(ring.order) && ring.links == old(ring.links)
    ensures ring.cur == RingNext(ring.order, i)
  {
    var nxt := ring.links[h];
    ring.cur := nxt;
    if ring.cur == 0 {
      ring.cur := ring.first;
    }
  }
}
