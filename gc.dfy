/** The mark phase of the collector (`ujGC`, uJ/uj.c). The heap service behind
    `ujHeapMark`/`ujHeapFirstMarked` is an arena of handles, each with a mark of 0, 1 or 2
    that only ever grows. Step 1 marks the roots: the references in every class's static
    fields (1), every thread's own chunk (2), its `this` instance (1) and every tagged
    non-null slot of its stack (1). Step 2 takes any handle marked 1, marks it 2 and marks
    the handles it refers to 1, until no handle is marked 1. */
module Gc {
  import opened Bytes
  import opened Errors
  import opened Threads
  import opened Scheduler

  // ---------------------------------------------------------------------------
  // The arena
  // ---------------------------------------------------------------------------

  /** A chunk as the collector sees it: an instance, with the references its fields hold
      over the class chain; an object array, with its elements; or anything else. */
  datatype Chunk = Instance(fields: seq<word>) | ObjArray(elems: seq<word>) | Plain

  function Refs(c: Chunk): seq<word> {
    match c
    case Instance(f) => f
    case ObjArray(e) => e
    case Plain => []
  }

  /** The mark `ujHeapMark(h, v)` leaves on a chunk marked `m`: it never lowers a mark. */
  function Raised(m: int, v: int): (r: int)
    ensures r >= m && r >= v && (r == m || r == v)
  {
    if m < v then v else m
  }

  class Arena {
    const chunks: map<word, Chunk>
    var marks: map<word, int>

    ghost predicate Valid()
      reads this
    {
      0 !in chunks && forall h | h in chunks :: h in marks && 0 <= marks[h] <= 2
    }

    /** `ujHeapMark`: raise the mark of `h` to `v`; a handle the arena does not hold is
        left alone. */
    method Mark(h: word, v: int)
      requires Valid() && 1 <= v <= 2
      modifies this
      ensures Valid()
      ensures forall g | g in chunks :: marks[g] == if g == h then Raised(old(marks[g]), v) else old(marks[g])
    {
      if h in chunks && marks[h] < v {
        marks := marks[h := v];
      }
    }

    /** `ujHeapFirstMarked`: some handle marked `v`, or 0 when there is none. Which one the
        heap picks first is not modelled. */
    method FirstMarked(v: int) returns (h: word)
      requires Valid()
      ensures h != 0 ==> h in chunks && marks[h] == v
      ensures h == 0 ==> forall g | g in chunks :: marks[g] != v
    {
      if g :| g in chunks && marks[g] == v {
        h := g;
      } else {
        h := 0;
      }
    }
  }

  // ---------------------------------------------------------------------------
  // Reachability
  // ---------------------------------------------------------------------------

  /** The non-null references of a list that name chunks of the arena. */
  ghost function Live(chunks: map<word, Chunk>, refs: seq<word>): set<word> {
    set i | 0 <= i < |refs| && refs[i] != 0 && refs[i] in chunks :: refs[i]
  }

  /** Every chunk of `s` refers only to chunks of `s`. */
  ghost predicate Closed(chunks: map<word, Chunk>, s: set<word>) {
    forall h | h in s && h in chunks :: Live(chunks, Refs(chunks[h])) <= s
  }

  /** `s` and every chunk one reference away from it. */
  ghost function Step(chunks: map<word, Chunk>, s: set<word>): set<word> {
    s + set h, i | h in s && h in chunks && 0 <= i < |Refs(chunks[h])| &&
                   Refs(chunks[h])[i] != 0 && Refs(chunks[h])[i] in chunks :: Refs(chunks[h])[i]
  }

  lemma StepGrows(chunks: map<word, Chunk>, s: set<word>)
    requires s <= chunks.Keys
    ensures s <= Step(chunks, s) <= chunks.Keys
    ensures Step(chunks, s) != s ==> |chunks.Keys - Step(chunks, s)| < |chunks.Keys - s|
  {
    var t := Step(chunks, s);
    if t != s {
      var x :| x in t && x !in s;
      var a := chunks.Keys - s;
      var b := chunks.Keys - t;
      assert a == b + (a - b);
      assert x in a - b;
    }
  }

  /** The chunks reachable from `s`: `Step` repeated until nothing changes. */
  ghost function Reach(chunks: map<word, Chunk>, s: set<word>): set<word>
    requires s <= chunks.Keys
    decreases |chunks.Keys - s|
  {
    StepGrows(chunks, s);
    var t := Step(chunks, s);
    if t == s then s else Reach(chunks, t)
  }

  /** The reachable set holds the start, lies in the arena and is closed. */
  lemma {:induction false} ReachClosed(chunks: map<word, Chunk>, s: set<word>)
    requires s <= chunks.Keys
    ensures s <= Reach(chunks, s) <= chunks.Keys && Closed(chunks, Reach(chunks, s))
    decreases |chunks.Keys - s|
  {
    StepGrows(chunks, s);
    var t := Step(chunks, s);
    if t == s {
      forall h | h in s && h in chunks ensures Live(chunks, Refs(chunks[h])) <= s {
        forall k | k in Live(chunks, Refs(chunks[h])) ensures k in s {
          var i :| 0 <= i < |Refs(chunks[h])| && Refs(chunks[h])[i] != 0 && Refs(chunks[h])[i] in chunks &&
                   Refs(chunks[h])[i] == k;
          assert k in t;
        }
      }
    } else {
      ReachClosed(chunks, t);
    }
  }

  /** ... and it is the least such set: every closed set holding the start holds it. */
  lemma {:induction false} ReachLeast(chunks: map<word, Chunk>, s: set<word>, m: set<word>)
    requires s <= chunks.Keys && s <= m && Closed(chunks, m)
    ensures Reach(chunks, s) <= m
    decreases |chunks.Keys - s|
  {
    StepGrows(chunks, s);
    var t := Step(chunks, s);
    if t != s {
      forall k | k in t ensures k in m {
        if k !in s {
          var h, i :| h in s && h in chunks && 0 <= i < |Refs(chunks[h])| &&
                      Refs(chunks[h])[i] != 0 && Refs(chunks[h])[i] in chunks && Refs(chunks[h])[i] == k;
          assert k in Live(chunks, Refs(chunks[h]));
        }
      }
      ReachLeast(chunks, t, m);
    }
  }

  // ---------------------------------------------------------------------------
  // The roots
  // ---------------------------------------------------------------------------

  /** The non-null values of the tagged slots below `p`. */
  ghost function StackRoots(s: StackState, p: int): set<word> {
    set q | 0 <= q < p && q < |s.slots| && q < |s.refs| && s.refs[q] && s.slots[q] != 0 :: s.slots[q]
  }

  /** The references of every class's static fields, as the field walk finds them. */
  ghost function ClassRoots(classRefs: seq<seq<word>>): set<word> {
    set c, i | 0 <= c < |classRefs| && 0 <= i < |classRefs[c]| && classRefs[c][i] != 0 :: classRefs[c][i]
  }

  /** What a thread holds on to besides its own chunk: its instance and its stack. */
  ghost function OwnRoots(th: Thread): set<word>
    requires th.Valid()
    reads th, th.stack, th.tags
  {
    (if HasInst(th.Frame()) then {th.instH} else {}) + StackRoots(th.State(), th.spBase)
  }

  /** `base` together with the first `n` sets of `ss`. */
  ghost function Union(base: set<word>, ss: seq<set<word>>, n: int): set<word>
    requires 0 <= n <= |ss|
  {
    if n == 0 then base else Union(base, ss, n - 1) + ss[n - 1]
  }

  /** The first `n` handles of the chain. */
  ghost function Handles(order: seq<word>, n: int): set<word> {
    set k | 0 <= k < n && k < |order| :: order[k]
  }

  lemma HandlesStep(order: seq<word>, j: int)
    requires 0 <= j < |order|
    ensures Handles(order, j + 1) == Handles(order, j) + {order[j]}
  {
    assert order[j] in Handles(order, j + 1);
  }

  ghost function Level(h: word, twos: set<word>, ones: set<word>): int {
    if h in twos then 2 else if h in ones then 1 else 0
  }

  // ---------------------------------------------------------------------------
  // Step 1
  // ---------------------------------------------------------------------------

  /** One raise to 1 on top of a state described by `twos` and `ones`. */
  method MarkOne(arena: Arena, h: word, ghost twos: set<word>, ghost ones: set<word>, ghost ones': set<word>)
    requires arena.Valid() && forall g | g in arena.chunks :: arena.marks[g] == Level(g, twos, ones)
    requires forall g | g in arena.chunks :: g in ones' <==> g in ones || (g == h && h != 0)
    modifies arena
    ensures arena.Valid()
    ensures forall g | g in arena.chunks :: arena.marks[g] == Level(g, twos, ones')
  {
    if h != 0 {
      arena.Mark(h, 1);
    }
  }

  /** Mark every non-null reference of `refs` with 1, last first (the object-array walk;
      the field walk of `ujGcPrvMarkClass` is taken to mark the same references). */
  method MarkRefs(arena: Arena, refs: seq<word>, ghost twos: set<word>, ghost ones: set<word>)
    requires arena.Valid() && forall g | g in arena.chunks :: arena.marks[g] == Level(g, twos, ones)
    modifies arena
    ensures arena.Valid()
    ensures forall g | g in arena.chunks :: arena.marks[g] == Level(g, twos, ones + Live(arena.chunks, refs))
  {
    var t := |refs|;
    while t > 0
      invariant 0 <= t <= |refs| && arena.Valid()
      invariant forall g | g in arena.chunks :: arena.marks[g] == Level(g, twos, ones + Live(arena.chunks, refs[t..]))
      decreases t
    {
      t := t - 1;
      LiveCons(arena.chunks, refs, t);
      MarkOne(arena, refs[t], twos, ones + Live(arena.chunks, refs[t + 1..]), ones + Live(arena.chunks, refs[t..]));
    }
  }

  lemma LiveCons(chunks: map<word, Chunk>, refs: seq<word>, t: int)
    requires 0 <= t < |refs|
    ensures Live(chunks, refs[t..]) ==
            Live(chunks, refs[t + 1..]) + (if refs[t] != 0 && refs[t] in chunks then {refs[t]} else {})
  {
    var a := refs[t..];
    var b := refs[t + 1..];
    forall k ensures k in Live(chunks, a) <==>
      k in Live(chunks, b) + (if refs[t] != 0 && refs[t] in chunks then {refs[t]} else {}) {
      if k in Live(chunks, a) {
        var i :| 0 <= i < |a| && a[i] != 0 && a[i] in chunks && a[i] == k;
        if i > 0 {
          assert b[i - 1] == k;
        }
      }
      if k in Live(chunks, b) {
        var i :| 0 <= i < |b| && b[i] != 0 && b[i] in chunks && b[i] == k;
        assert a[i + 1] == k;
      }
      if k == refs[t] && refs[t] != 0 && refs[t] in chunks {
        assert a[0] == k;
      }
    }
  }

  /** Mark the tagged non-null slots of the stack `th`. */
  method MarkStack(arena: Arena, th: Thread, ghost twos: set<word>, ghost ones: set<word>)
    requires arena.Valid() && th.Valid() && forall g | g in arena.chunks :: arena.marks[g] == Level(g, twos, ones)
    modifies arena
    ensures arena.Valid()
    ensures forall g | g in arena.chunks ::
      arena.marks[g] == Level(g, twos, ones + StackRoots(th.State(), th.spBase))
  {
    ghost var s := th.State();
    var t16: nat := 0;
    while t16 < th.spBase
      invariant t16 <= th.spBase && arena.Valid() && th.State() == s
      invariant forall g | g in arena.chunks :: arena.marks[g] == Level(g, twos, ones + StackRoots(s, t16))
      decreases th.spBase - t16
    {
      var tagged := th.BitGet(t16);
      var v := th.stack[t16];
      StackRootsStep(s, t16);
      if tagged {
        MarkOne(arena, v, twos, ones + StackRoots(s, t16), ones + StackRoots(s, t16 + 1));
      }
      t16 := t16 + 1;
    }
  }

  lemma StackRootsStep(s: StackState, p: int)
    requires 0 <= p < |s.slots| && p < |s.refs|
    ensures StackRoots(s, p + 1) == StackRoots(s, p) + (if s.refs[p] && s.slots[p] != 0 then {s.slots[p]} else {})
  {
  }

  /** Step 1 for one thread: its chunk, its instance and its stack. */
  method MarkThread(arena: Arena, h: word, th: Thread, ghost own: set<word>, ghost twos: set<word>, ghost ones: set<word>)
    requires arena.Valid() && th.Valid() && own == OwnRoots(th)
    requires forall g | g in arena.chunks :: arena.marks[g] == Level(g, twos, ones)
    modifies arena
    ensures arena.Valid()
    ensures forall g | g in arena.chunks :: arena.marks[g] == Level(g, twos + {h}, ones + own)
  {
    arena.Mark(h, 2);
    ghost var i0: set<word> := {};
    if th.flags % 2 == 1 {
      arena.Mark(th.instH, 1);
      i0 := {th.instH};
    }
    MarkStack(arena, th, twos + {h}, ones + i0);
    assert ones + i0 + StackRoots(th.State(), th.spBase) == ones + OwnRoots(th);
  }

  // ---------------------------------------------------------------------------
  // Step 2
  // ---------------------------------------------------------------------------

  /** Every chunk marked 2 refers only to marked chunks. */
  ghost predicate BlackOk(arena: Arena)
    requires arena.Valid()
    reads arena
  {
    forall h | h in arena.chunks && arena.marks[h] == 2 ::
      forall k | k in Live(arena.chunks, Refs(arena.chunks[h])) :: arena.marks[k] >= 1
  }

  /** Marking the references of chunk `h` keeps every mark within `reach`, adds no 2 and
      leaves every reference of `h` marked. */
  method MarkChildren(arena: Arena, h: word, ghost reach: set<word>)
    requires arena.Valid() && h in arena.chunks && h in reach && Closed(arena.chunks, reach)
    modifies arena
    ensures arena.Valid()
    ensures forall g | g in arena.chunks :: arena.marks[g] >= old(arena.marks[g])
    ensures forall g | g in arena.chunks && arena.marks[g] != old(arena.marks[g]) ::
      old(arena.marks[g]) == 0 && arena.marks[g] == 1 && g in reach
    ensures forall k | k in Live(arena.chunks, Refs(arena.chunks[h])) :: arena.marks[k] >= 1
  {
    var refs := Refs(arena.chunks[h]);
    var t := |refs|;
    while t > 0
      invariant 0 <= t <= |refs| && arena.Valid()
      invariant forall g | g in arena.chunks :: arena.marks[g] >= old(arena.marks[g])
      invariant forall g | g in arena.chunks && arena.marks[g] != old(arena.marks[g]) ::
        old(arena.marks[g]) == 0 && arena.marks[g] == 1 && g in reach
      invariant forall k | k in Live(arena.chunks, refs[t..]) :: arena.marks[k] >= 1
      decreases t
    {
      t := t - 1;
      var c := refs[t];
      LiveCons(arena.chunks, refs, t);
      if c != 0 {
        if c in arena.chunks {
          assert c in Live(arena.chunks, refs);
        }
        arena.Mark(c, 1);
      }
    }
  }

  /** The handles not yet marked 2. */
  ghost function Unfinished(arena: Arena): set<word>
    requires arena.Valid()
    reads arena
  {
    set g | g in arena.chunks && arena.marks[g] < 2
  }

  /** Step 2 for handle `h`, marked 1: mark it 2 and its references 1. */
  method Blacken(arena: Arena, h: word, ghost reach: set<word>)
    requires arena.Valid() && h in arena.chunks && arena.marks[h] == 1 && BlackOk(arena)
    requires h in reach && Closed(arena.chunks, reach)
    modifies arena
    ensures arena.Valid() && BlackOk(arena)
    ensures forall g | g in arena.chunks :: arena.marks[g] >= old(arena.marks[g])
    ensures forall g | g in arena.chunks && arena.marks[g] >= 1 :: old(arena.marks[g]) >= 1 || g in reach
    ensures Unfinished(arena) == old(Unfinished(arena)) - {h}
  {
    arena.Mark(h, 2);
    ghost var m1 := arena.marks;
    MarkChildren(arena, h, reach);
    assert forall g | g in arena.chunks && arena.marks[g] == 2 :: m1[g] == 2;
  }

  // ---------------------------------------------------------------------------
  // ujGC
  // ---------------------------------------------------------------------------

  /** All roots that name chunks of the arena; `own` lists, thread by thread along the
      chain `order`, what each thread holds on to besides its own chunk. */
  ghost function Roots(chunks: map<word, Chunk>, classRefs: seq<seq<word>>, order: seq<word>, own: seq<set<word>>): set<word>
    requires |own| == |order|
  {
    (Handles(order, |order|) + Union(ClassRoots(classRefs) * chunks.Keys, own, |own|)) * chunks.Keys
  }

  /** Step 1 for the classes: the references of every class's static fields get 1. */
  method MarkClasses(arena: Arena, classRefs: seq<seq<word>>)
    requires arena.Valid() && forall g | g in arena.chunks :: arena.marks[g] == 0
    modifies arena
    ensures arena.Valid()
    ensures forall g | g in arena.chunks :: arena.marks[g] == Level(g, {}, ClassRoots(classRefs) * arena.chunks.Keys)
  {
    ghost var ones: set<word> := {};
    var c := 0;
    while c < |classRefs|
      invariant 0 <= c <= |classRefs| && arena.Valid()
      invariant ones == ClassRoots(classRefs[..c]) * arena.chunks.Keys
      invariant forall g | g in arena.chunks :: arena.marks[g] == Level(g, {}, ones)
      decreases |classRefs| - c
    {
      MarkRefs(arena, classRefs[c], {}, ones);
      ClassRootsStep(arena.chunks, classRefs, c);
      ones := ones + Live(arena.chunks, classRefs[c]);
      c := c + 1;
    }
    assert classRefs[..c] == classRefs;
  }

  /** Step 1 for the threads, walking the chain of live threads from its head; `own`
      lists, thread by thread, what each holds on to besides its own chunk. */
  method MarkThreads(arena: Arena, ring: Ring, threadOf: map<word, Thread>, ghost own: seq<set<word>>, ghost ones: set<word>)
    requires arena.Valid() && ring.Valid() && |own| == |ring.order|
    requires forall i | 0 <= i < |ring.order| ::
      ring.order[i] in threadOf && threadOf[ring.order[i]].Valid() && OwnRoots(threadOf[ring.order[i]]) == own[i]
    requires forall g | g in arena.chunks :: arena.marks[g] == Level(g, {}, ones)
    modifies arena
    ensures arena.Valid()
    ensures forall g | g in arena.chunks ::
      arena.marks[g] == Level(g, Handles(ring.order, |ring.order|), Union(ones, own, |own|))
  {
    ghost var order := ring.order;
    var links := ring.links;
    var first := ring.first;
    var handle := first;
    ghost var j := 0;
    ghost var twos: set<word> := {};
    ghost var acc: set<word> := ones;
    while handle != 0
      invariant ChainOk(order, first, links)
      invariant 0 <= j <= |order| && handle == (if j < |order| then order[j] else 0)
      invariant arena.Valid()
      invariant twos == Handles(order, j) && acc == Union(ones, own, j)
      invariant forall g | g in arena.chunks :: arena.marks[g] == Level(g, twos, acc)
      decreases |order| - j
    {
      MarkThread(arena, handle, threadOf[handle], own[j], twos, acc);
      twos := twos + {handle};
      acc := acc + own[j];
      HandlesStep(order, j);
      handle := links[handle];
      j := j + 1;
    }
  }


  /** Step 2: while some chunk is marked 1, blacken it. Starting from marks within the
      closed set `reach` that take in the whole of `roots`, every mark stays within
      `reach`, and no chunk is left marked 1. */
  method Drain(arena: Arena, ghost roots: set<word>, ghost reach: set<word>)
    requires arena.Valid() && BlackOk(arena) && Closed(arena.chunks, reach)
    requires forall g | g in arena.chunks && arena.marks[g] >= 1 :: g in reach
    requires forall g | g in roots :: g in arena.chunks && arena.marks[g] >= 1
    modifies arena
    ensures arena.Valid() && BlackOk(arena)
    ensures forall g | g in arena.chunks :: arena.marks[g] != 1
    ensures forall g | g in arena.chunks && arena.marks[g] >= 1 :: g in reach
    ensures forall g | g in roots :: arena.marks[g] >= 1
  {
    var h := arena.FirstMarked(1);
    while h != 0
      invariant arena.Valid() && BlackOk(arena)
      invariant h != 0 ==> h in arena.chunks && arena.marks[h] == 1
      invariant h == 0 ==> forall g | g in arena.chunks :: arena.marks[g] != 1
      invariant forall g | g in arena.chunks && arena.marks[g] >= 1 :: g in reach
      invariant forall g | g in roots :: g in arena.chunks && arena.marks[g] >= 1
      decreases |Unfinished(arena)|
    {
      Blacken(arena, h, reach);
      h := arena.FirstMarked(1);
    }
  }

  /** `ujGC`: with every mark clear beforehand, the chunks left marked 2 are exactly those
      reachable from the roots, and every other chunk stays unmarked. `classRefs` lists,
      per class on the class list, the references its static fields hold; `threadOf` gives
      the thread behind each live thread handle, whose own chunk holds no references. */
  method Collect(arena: Arena, classRefs: seq<seq<word>>, ring: Ring, threadOf: map<word, Thread>, ghost own: seq<set<word>>)
    returns (ret: int)
    requires arena.Valid() && ring.Valid() && |own| == |ring.order|
    requires forall i | 0 <= i < |ring.order| ::
      ring.order[i] in threadOf && threadOf[ring.order[i]].Valid() && OwnRoots(threadOf[ring.order[i]]) == own[i]
    requires forall g | g in arena.chunks :: arena.marks[g] == 0
    requires forall i | 0 <= i < |ring.order| :: ring.order[i] in arena.chunks ==> arena.chunks[ring.order[i]].Plain?
    modifies arena
    ensures arena.Valid() && ret == ErrNone
    ensures var r := Reach(arena.chunks, Roots(arena.chunks, classRefs, ring.order, own));
            forall g | g in arena.chunks :: arena.marks[g] == if g in r then 2 else 0
  {
    ghost var roots := Roots(arena.chunks, classRefs, ring.order, own);
    MarkRoots(arena, classRefs, ring, threadOf, own);
    ghost var reach := Reach(arena.chunks, roots);
    ReachClosed(arena.chunks, roots);
    Drain(arena, roots, reach);
    ghost var black := set g | g in arena.chunks && arena.marks[g] == 2;
    assert Closed(arena.chunks, black);
    ReachLeast(arena.chunks, roots, black);
    ret := ErrNone;
  }

  /** Step 1 as a whole: exactly the roots end up marked, and only chunks that hold no
      references are marked 2. */
  method MarkRoots(arena: Arena, classRefs: seq<seq<word>>, ring: Ring, threadOf: map<word, Thread>, ghost own: seq<set<word>>)
    requires arena.Valid() && ring.Valid() && |own| == |ring.order|
    requires forall i | 0 <= i < |ring.order| ::
      ring.order[i] in threadOf && threadOf[ring.order[i]].Valid() && OwnRoots(threadOf[ring.order[i]]) == own[i]
    requires forall g | g in arena.chunks :: arena.marks[g] == 0
    requires forall i | 0 <= i < |ring.order| :: ring.order[i] in arena.chunks ==> arena.chunks[ring.order[i]].Plain?
    modifies arena
    ensures arena.Valid() && BlackOk(arena)
    ensures forall g | g in arena.chunks && arena.marks[g] >= 1 :: g in Roots(arena.chunks, classRefs, ring.order, own)
    ensures forall g | g in Roots(arena.chunks, classRefs, ring.order, own) :: g in arena.chunks && arena.marks[g] >= 1
  {
    MarkClasses(arena, classRefs);
    MarkThreads(arena, ring, threadOf, own, ClassRoots(classRefs) * arena.chunks.Keys);
    ghost var twos := Handles(ring.order, |ring.order|);
    ghost var ones := Union(ClassRoots(classRefs) * arena.chunks.Keys, own, |own|);
    assert forall h | h in twos && h in arena.chunks :: arena.chunks[h].Plain? by {
      forall h | h in twos && h in arena.chunks ensures arena.chunks[h].Plain? {
        var k :| 0 <= k < |ring.order| && ring.order[k] == h;
      }
    }
    RootsMarked(arena, twos, ones);
  }

  /** After step 1 exactly the roots are marked, and only chunks that hold no references
      (the threads' own) are marked 2. */
  lemma RootsMarked(arena: Arena, twos: set<word>, ones: set<word>)
    requires arena.Valid()
    requires forall h | h in twos && h in arena.chunks :: arena.chunks[h].Plain?
    requires forall g | g in arena.chunks :: arena.marks[g] == Level(g, twos, ones)
    ensures BlackOk(arena)
    ensures forall g | g in arena.chunks && arena.marks[g] >= 1 :: g in (twos + ones) * arena.chunks.Keys
    ensures forall g | g in (twos + ones) * arena.chunks.Keys :: arena.marks[g] >= 1
  {
    forall h | h in arena.chunks && arena.marks[h] == 2 ensures Live(arena.chunks, Refs(arena.chunks[h])) == {} {
      assert arena.chunks[h].Plain?;
    }
  }

  lemma ClassRootsStep(chunks: map<word, Chunk>, classRefs: seq<seq<word>>, c: int)
    requires 0 <= c < |classRefs|
    ensures ClassRoots(classRefs[..c + 1]) * chunks.Keys ==
            ClassRoots(classRefs[..c]) * chunks.Keys + Live(chunks, classRefs[c])
  {
    var a := classRefs[..c];
    var b := classRefs[..c + 1];
    forall k | k in ClassRoots(b) * chunks.Keys ensures k in ClassRoots(a) * chunks.Keys + Live(chunks, classRefs[c]) {
      var d, i :| 0 <= d < |b| && 0 <= i < |b[d]| && b[d][i] != 0 && b[d][i] == k;
      if d < c {
        assert a[d][i] == k;
      } else {
        assert classRefs[c][i] == k;
      }
    }
    forall k | k in ClassRoots(a) ensures k in ClassRoots(b) {
      var d, i :| 0 <= d < |a| && 0 <= i < |a[d]| && a[d][i] != 0 && a[d][i] == k;
      assert b[d][i] == k;
    }
    forall k | k in Live(chunks, classRefs[c]) ensures k in ClassRoots(b) {
      var i :| 0 <= i < |classRefs[c]| && classRefs[c][i] != 0 && classRefs[c][i] in chunks && classRefs[c][i] == k;
      assert b[c][i] == k;
    }
  }
}
