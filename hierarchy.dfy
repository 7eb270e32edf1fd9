/** `instanceof` (`ujThreadPrvInstanceof`): the wanted class is looked up by name; for an
    ordinary class it is searched for along the object's superclass chain; for an interface
    the chain is marked and then the whole class list is rescanned, marking every interface a
    marked class implements, until the wanted interface is met or no marked class remains.
    The marks are the two-bit `mark` of each class: 1 = still to expand, 2 = expanded. */
module Hierarchy {
  import opened Bytes
  import opened Errors
  import opened ClassFiles
  import opened Strings
  import opened Registry

  /** The access flags carry `ACC_INTERFACE`: at offset 6 of a compact class, 8 bytes
      before the interface list of a standard class. A native class is never an interface
      here. */
  predicate IsInterface(c: ClassDesc) {
    !c.native
    && (ReadU16(c.src.data, if c.src.ujc then 6 else Addr(c.interfaces - 8)) / AccInterface) % 2 == 1
  }

  /** The number of interfaces, stored just before the list. */
  function IfaceCount(c: ClassDesc): nat {
    ReadU16(c.src.data, Addr(c.interfaces - 2))
  }

  /** Where entry `j` of the interface list is: 24-bit pointers in a compact class, 16-bit
      constant indices in a standard one. */
  function IfaceEntry(c: ClassDesc, j: int): word {
    Addr(c.interfaces + (if c.src.ujc then 3 else 2) * j)
  }

  /** The class named by interface entry `j` of class `p`. */
  function ResolveIface(classes: seq<ClassDesc>, hashed: bool, p: int, j: int): (r: Option<nat>)
    requires 0 <= p < |classes|
    ensures r.Some? ==> r.value < |classes|
  {
    var c := classes[p];
    var data := c.src.data;
    var addr := IfaceEntry(c, j);
    if c.src.ujc then FindClassSpec(classes, Adr(data, Addr(ReadU24(data, addr) + 1)), hashed)
    else FindClassSpec(classes, RefParam(c, ReadU16(data, addr)), hashed)
  }

  /** Entry `j` of a resolved row, and row `p` of a resolved table: named so that the
      facts about them are only used where a proof asks for them. */
  function Entry(rs: seq<Option<nat>>, j: int): Option<nat>
    requires 0 <= j < |rs|
  {
    rs[j]
  }

  function Row(ifaces: seq<seq<Option<nat>>>, p: int): seq<Option<nat>>
    requires 0 <= p < |ifaces|
  {
    ifaces[p]
  }

  /** `rs` lists the classes named by the interface entries of class `p`, in order. */
  ghost predicate RowFits(classes: seq<ClassDesc>, hashed: bool, p: int, rs: seq<Option<nat>>)
    requires 0 <= p < |classes|
  {
    |rs| == IfaceCount(classes[p])
    && forall j {:trigger Entry(rs, j)} | 0 <= j < |rs| :: Entry(rs, j) == ResolveIface(classes, hashed, p, j)
  }

  predicate InRange(rs: seq<Option<nat>>, n: int) {
    forall j | 0 <= j < |rs| :: rs[j].Some? ==> rs[j].value < n
  }

  predicate TableOk(ifaces: seq<seq<Option<nat>>>, n: int) {
    |ifaces| == n && forall p | 0 <= p < n :: InRange(ifaces[p], n)
  }

  /** `ifaces` holds the resolved interface list of every class. */
  ghost predicate TableFits(classes: seq<ClassDesc>, hashed: bool, ifaces: seq<seq<Option<nat>>>) {
    TableOk(ifaces, |classes|)
    && forall p {:trigger Row(ifaces, p)} | 0 <= p < |classes| :: RowFits(classes, hashed, p, Row(ifaces, p))
  }

  /** The resolved interface lists of all classes. */
  function IfaceTable(classes: seq<ClassDesc>, hashed: bool): (t: seq<seq<Option<nat>>>)
    ensures TableFits(classes, hashed, t)
  {
    var t := seq(|classes|, p requires 0 <= p < |classes| =>
                 seq(IfaceCount(classes[p]), j requires 0 <= j < IfaceCount(classes[p]) => ResolveIface(classes, hashed, p, j)));
    assert forall p | 0 <= p < |classes| :: Row(t, p) == t[p];
    t
  }

  /** The table is determined by the classes: there is exactly one that fits. */
  lemma TableUnique(classes: seq<ClassDesc>, hashed: bool, a: seq<seq<Option<nat>>>, b: seq<seq<Option<nat>>>)
    requires TableFits(classes, hashed, a) && TableFits(classes, hashed, b)
    ensures a == b
  {
    forall p | 0 <= p < |classes| ensures a[p] == b[p] {
      assert RowFits(classes, hashed, p, Row(a, p)) && RowFits(classes, hashed, p, Row(b, p));
      forall j | 0 <= j < |a[p]| ensures a[p][j] == b[p][j] {
        assert Entry(a[p], j) == Entry(b[p], j);
      }
    }
  }

  // ---------------------------------------------------------------------------------
  // What the search can reach: a class on the object's superclass chain, then the
  // interface entries of Java classes, step by step.

  /** `t` is named by one of the interface entries of the Java class `p`. */
  predicate IfaceEdge(classes: seq<ClassDesc>, ifaces: seq<seq<Option<nat>>>, p: int, t: int) {
    0 <= p < |classes| && |ifaces| == |classes| && !classes[p].native && Some(t) in ifaces[p]
  }

  predicate IsIfacePath(classes: seq<ClassDesc>, ifaces: seq<seq<Option<nat>>>, path: seq<int>) {
    |path| >= 1 && forall i | 0 <= i < |path| - 1 :: IfaceEdge(classes, ifaces, path[i], path[i + 1])
  }

  /** `x` is the class `o` itself or one of its superclasses. */
  predicate OnChain(classes: seq<ClassDesc>, o: int, x: int)
    requires ChainOk(classes) && 0 <= o < |classes|
  {
    0 <= x < |classes| && (x == o || IsAncestor(classes, x, o))
  }

  /** `t` is reachable from the object's class `o`: up the superclass chain, then along
      interface entries. */
  ghost predicate Explored(classes: seq<ClassDesc>, ifaces: seq<seq<Option<nat>>>, o: int, t: int)
    requires ChainOk(classes) && 0 <= o < |classes|
  {
    exists path {:trigger IsIfacePath(classes, ifaces, path)} | IsIfacePath(classes, ifaces, path) :: OnChain(classes, o, path[0]) && path[|path| - 1] == t
  }

  lemma ExploredChain(classes: seq<ClassDesc>, ifaces: seq<seq<Option<nat>>>, o: int, x: int)
    requires ChainOk(classes) && 0 <= o < |classes| && OnChain(classes, o, x)
    ensures Explored(classes, ifaces, o, x)
  {
    assert IsIfacePath(classes, ifaces, [x]);
  }

  lemma ExploredStep(classes: seq<ClassDesc>, ifaces: seq<seq<Option<nat>>>, o: int, p: int, t: int)
    requires ChainOk(classes) && 0 <= o < |classes|
    requires Explored(classes, ifaces, o, p) && IfaceEdge(classes, ifaces, p, t)
    ensures Explored(classes, ifaces, o, t)
  {
    var path :| IsIfacePath(classes, ifaces, path) && OnChain(classes, o, path[0]) && path[|path| - 1] == p;
    var path' := path + [t];
    forall i | 0 <= i < |path'| - 1 ensures IfaceEdge(classes, ifaces, path'[i], path'[i + 1]) {
      if i < |path| - 1 {
        assert path'[i] == path[i] && path'[i + 1] == path[i + 1];
      }
    }
    assert IsIfacePath(classes, ifaces, path');
  }

  /** Every class marked so far is reachable from the object's class. */
  ghost predicate MarkedExplored(classes: seq<ClassDesc>, ifaces: seq<seq<Option<nat>>>, o: int, marks: seq<int>)
    requires ChainOk(classes) && 0 <= o < |classes|
  {
    forall x | 0 <= x < |marks| && marks[x] != 0 :: Explored(classes, ifaces, o, x)
  }

  predicate TwoBits(marks: seq<int>) {
    forall x | 0 <= x < |marks| :: 0 <= marks[x] <= 2
  }

  // ---------------------------------------------------------------------------------
  // The algorithm, as functions of the marks.

  function Zeros(n: nat): (z: seq<int>)
    ensures |z| == n && forall i | 0 <= i < n :: z[i] == 0
  {
    seq(n, i => 0)
  }

  /** The walk up the superclass chain from `cls`: whether `wanted` is met, and the marks
      (each passed class marked 1 when the wanted class is an interface). */
  function ChainWalk(classes: seq<ClassDesc>, wanted: int, cls: int, iface: bool, marks: seq<int>): (r: (bool, seq<int>))
    requires ChainOk(classes) && 0 <= cls < |classes| && |marks| == |classes|
    ensures |r.1| == |marks|
    decreases cls
  {
    assert LinkOk(classes, cls);
    if cls == wanted then (true, marks)
    else
      var m := if iface then marks[cls := 1] else marks;
      if classes[cls].supr == -1 then (false, m) else ChainWalk(classes, wanted, classes[cls].supr, iface, m)
  }

  /** The interface loop over the resolved entries `rs` of a class, from entry `j`: `ErrNone`
      when the wanted class is among them, `ErrDependencyMissing` when one cannot be found,
      otherwise `ErrFalse`. Each class found is marked 1. */
  function IfaceScan(rs: seq<Option<nat>>, wanted: int, j: nat, marks: seq<int>) : (r: (int, seq<int>))
    requires InRange(rs, |marks|)
    ensures |r.1| == |marks|
    ensures r.0 == ErrNone || r.0 == ErrDependencyMissing || r.0 == ErrFalse
    decreases |rs| - j
  {
    if j >= |rs| then (ErrFalse, marks)
    else match rs[j]
      case None => (ErrDependencyMissing, marks)
      case Some(tc) =>
        var m := marks[tc := 1];
        if tc == wanted then (ErrNone, m) else IfaceScan(rs, wanted, j + 1, m)
  }

  /** The rescan from position `k` down to the oldest class. Expanding a class restarts the
      scan at the newest one; `fuel` bounds the number of expansions. */
  function Rescan(classes: seq<ClassDesc>, ifaces: seq<seq<Option<nat>>>, wanted: int, k: int, marks: seq<int>,
                  fuel: nat): (r: (int, seq<int>))
    requires -1 <= k < |classes| && |marks| == |classes| && TableOk(ifaces, |classes|)
    ensures |r.1| == |marks|
    decreases fuel, k + 1
  {
    if k < 0 then (ErrFalse, marks)
    else if marks[k] == 1 && !classes[k].native then
      if fuel == 0 then (ErrInternal, marks)
      else
        var s := IfaceScan(ifaces[k], wanted, 0, marks[k := 2]);
        if s.0 != ErrFalse then s else Rescan(classes, ifaces, wanted, |classes| - 1, s.1, fuel - 1)
    else Rescan(classes, ifaces, wanted, k - 1, marks, fuel)
  }

  /** The class `instanceof` looks for: the class constant `descrIdx` of the current class. */
  function WantedOf(classes: seq<ClassDesc>, hashed: bool, cur: ClassDesc, descrIdx: int): Option<nat>
    requires 0 <= descrIdx < 0x1_0000
  {
    FindClassSpec(classes, RefParam(cur, descrIdx), hashed)
  }

  /** `ujThreadPrvInstanceof` for an object of class `obj`, given the resolved interface
      lists `ifaces`: the result code and the marks. */
  function InstanceOfSpec(classes: seq<ClassDesc>, hashed: bool, ifaces: seq<seq<Option<nat>>>, cur: ClassDesc,
                          descrIdx: int, obj: int, marks: seq<int>, fuel: nat): (r: (int, seq<int>))
    requires ChainOk(classes) && TableOk(ifaces, |classes|)
    requires 0 <= descrIdx < 0x1_0000 && 0 <= obj < |classes| && |marks| == |classes|
    ensures |r.1| == |marks|
  {
    match WantedOf(classes, hashed, cur, descrIdx)
    case None => (ErrDependencyMissing, marks)
    case Some(w) =>
      var iface := IsInterface(classes[w]);
      var m0 := if iface then Zeros(|marks|) else marks;
      var walk := ChainWalk(classes, w, obj, iface, m0);
      if walk.0 then (ErrNone, walk.1)
      else if !iface then (ErrFalse, walk.1)
      else Rescan(classes, ifaces, w, |classes| - 1, walk.1, fuel)
  }

  // ---------------------------------------------------------------------------------
  // Properties.

  /** The chain walk meets the wanted class exactly when it is the class itself or one of
      its superclasses. */
  lemma {:induction false} ChainWalkHit(classes: seq<ClassDesc>, wanted: int, cls: int, iface: bool, marks: seq<int>)
    requires ChainOk(classes) && 0 <= cls < |classes| && |marks| == |classes|
    ensures ChainWalk(classes, wanted, cls, iface, marks).0 <==> (cls == wanted || IsAncestor(classes, wanted, cls))
    decreases cls
  {
    assert LinkOk(classes, cls);
    if cls != wanted && classes[cls].supr != -1 {
      var m := if iface then marks[cls := 1] else marks;
      ChainWalkHit(classes, wanted, classes[cls].supr, iface, m);
    }
  }

  /** Marking a reachable class keeps every mark reachable and two bits wide. */
  lemma MarkExplored(classes: seq<ClassDesc>, ifaces: seq<seq<Option<nat>>>, o: int, marks: seq<int>, x: int, v: int)
    requires ChainOk(classes) && 0 <= o < |classes|
    requires 0 <= x < |marks| && Explored(classes, ifaces, o, x) && 0 <= v <= 2
    requires MarkedExplored(classes, ifaces, o, marks) && TwoBits(marks)
    ensures MarkedExplored(classes, ifaces, o, marks[x := v]) && TwoBits(marks[x := v])
  {
  }

  /** A chain walk that does not meet the wanted class marks exactly the class and its
      superclasses with 1. */
  lemma {:induction false} ChainWalkMarks(classes: seq<ClassDesc>, wanted: int, cls: int, marks: seq<int>)
    requires ChainOk(classes) && 0 <= cls < |classes| && |marks| == |classes|
    requires !ChainWalk(classes, wanted, cls, true, marks).0
    ensures forall x | 0 <= x < |marks| ::
              ChainWalk(classes, wanted, cls, true, marks).1[x] == if OnChain(classes, cls, x) then 1 else marks[x]
    decreases cls
  {
    assert LinkOk(classes, cls);
    var s := classes[cls].supr;
    if s != -1 {
      ChainWalkMarks(classes, wanted, s, marks[cls := 1]);
      forall x | 0 <= x < |marks| ensures OnChain(classes, cls, x) <==> x == cls || OnChain(classes, s, x) {
        assert IsAncestor(classes, x, cls) <==> (s == x || IsAncestor(classes, x, s));
      }
    }
  }

  /** The chain walk for an interface, from cleared marks, marks only reachable classes. */
  lemma ChainWalkExplored(classes: seq<ClassDesc>, ifaces: seq<seq<Option<nat>>>, wanted: int, obj: int)
    requires ChainOk(classes) && 0 <= obj < |classes|
    requires !ChainWalk(classes, wanted, obj, true, Zeros(|classes|)).0
    ensures var m := ChainWalk(classes, wanted, obj, true, Zeros(|classes|)).1;
            MarkedExplored(classes, ifaces, obj, m) && TwoBits(m)
  {
    ChainWalkMarks(classes, wanted, obj, Zeros(|classes|));
    var m := ChainWalk(classes, wanted, obj, true, Zeros(|classes|)).1;
    forall x | 0 <= x < |m| && m[x] != 0 ensures Explored(classes, ifaces, obj, x) {
      ExploredChain(classes, ifaces, obj, x);
    }
  }

  /** Expanding a reachable Java class marks only reachable classes, and a hit is reachable. */
  lemma {:induction false} IfaceScanSound(classes: seq<ClassDesc>, ifaces: seq<seq<Option<nat>>>, o: int, wanted: int,
                                          c: int, j: nat, marks: seq<int>)
    requires ChainOk(classes) && 0 <= o < |classes|
    requires 0 <= c < |classes| && |marks| == |classes| && TableOk(ifaces, |classes|) && !classes[c].native
    requires Explored(classes, ifaces, o, c) && MarkedExplored(classes, ifaces, o, marks) && TwoBits(marks)
    ensures var r := IfaceScan(ifaces[c], wanted, j, marks);
            MarkedExplored(classes, ifaces, o, r.1) && TwoBits(r.1)
            && (r.0 == ErrNone ==> Explored(classes, ifaces, o, wanted))
    decreases |ifaces[c]| - j
  {
    var rs := ifaces[c];
    assert InRange(rs, |classes|);
    if j < |rs| && rs[j].Some? {
      var tc := rs[j].value;
      assert IfaceEdge(classes, ifaces, c, tc);
      ExploredStep(classes, ifaces, o, c, tc);
      MarkExplored(classes, ifaces, o, marks, tc, 1);
      if tc != wanted {
        IfaceScanSound(classes, ifaces, o, wanted, c, j + 1, marks[tc := 1]);
      }
    }
  }

  /** A rescan hit is reachable, and the marks stay two bits wide. */
  lemma {:induction false} RescanSound(classes: seq<ClassDesc>, ifaces: seq<seq<Option<nat>>>, o: int, wanted: int,
                                       k: int, marks: seq<int>, fuel: nat)
    requires ChainOk(classes) && 0 <= o < |classes|
    requires -1 <= k < |classes| && |marks| == |classes| && TableOk(ifaces, |classes|)
    requires MarkedExplored(classes, ifaces, o, marks) && TwoBits(marks)
    ensures Rescan(classes, ifaces, wanted, k, marks, fuel).0 == ErrNone ==> Explored(classes, ifaces, o, wanted)
    ensures TwoBits(Rescan(classes, ifaces, wanted, k, marks, fuel).1)
    decreases fuel, k + 1
  {
    if k >= 0 {
      if marks[k] == 1 && !classes[k].native {
        if fuel > 0 {
          MarkExplored(classes, ifaces, o, marks, k, 2);
          var m := marks[k := 2];
          IfaceScanSound(classes, ifaces, o, wanted, k, 0, m);
          var s := IfaceScan(ifaces[k], wanted, 0, m);
          if s.0 == ErrFalse {
            RescanSound(classes, ifaces, o, wanted, |classes| - 1, s.1, fuel - 1);
          }
        }
      } else {
        RescanSound(classes, ifaces, o, wanted, k - 1, marks, fuel);
      }
    }
  }

  /** For an ordinary class `instanceof` is exact: true exactly when the wanted class is the
      object's class or one of its superclasses, false otherwise. */
  lemma ClassInstanceOf(classes: seq<ClassDesc>, hashed: bool, ifaces: seq<seq<Option<nat>>>, cur: ClassDesc, descrIdx: int, obj: int,
                        marks: seq<int>, fuel: nat)
    requires ChainOk(classes) && TableOk(ifaces, |classes|) && 0 <= descrIdx < 0x1_0000 && 0 <= obj < |classes| && |marks| == |classes|
    requires WantedOf(classes, hashed, cur, descrIdx).Some?
    requires !IsInterface(classes[WantedOf(classes, hashed, cur, descrIdx).value])
    ensures var w := WantedOf(classes, hashed, cur, descrIdx).value;
            var code := InstanceOfSpec(classes, hashed, ifaces, cur, descrIdx, obj, marks, fuel).0;
            (code == ErrNone <==> (obj == w || IsAncestor(classes, w, obj)))
            && (code == ErrNone || code == ErrFalse)
  {
    var w := WantedOf(classes, hashed, cur, descrIdx).value;
    ChainWalkHit(classes, w, obj, false, marks);
  }

  /** `instanceof` never answers true wrongly: the wanted class is reachable from the
      object's class, up its superclass chain and then along interface entries. */
  lemma InstanceOfSound(classes: seq<ClassDesc>, hashed: bool, ifaces: seq<seq<Option<nat>>>, cur: ClassDesc, descrIdx: int, obj: int,
                        marks: seq<int>, fuel: nat)
    requires ChainOk(classes) && TableOk(ifaces, |classes|) && 0 <= descrIdx < 0x1_0000 && 0 <= obj < |classes| && |marks| == |classes|
    requires InstanceOfSpec(classes, hashed, ifaces, cur, descrIdx, obj, marks, fuel).0 == ErrNone
    ensures WantedOf(classes, hashed, cur, descrIdx).Some?
    ensures Explored(classes, ifaces, obj, WantedOf(classes, hashed, cur, descrIdx).value)
  {
    var w := WantedOf(classes, hashed, cur, descrIdx).value;
    var iface := IsInterface(classes[w]);
    var m0 := if iface then Zeros(|marks|) else marks;
    ChainWalkHit(classes, w, obj, iface, m0);
    if ChainWalk(classes, w, obj, iface, m0).0 {
      ExploredChain(classes, ifaces, obj, w);
    } else {
      ChainWalkExplored(classes, ifaces, w, obj);
      RescanSound(classes, ifaces, obj, w, |classes| - 1, ChainWalk(classes, w, obj, true, m0).1, fuel);
    }
  }

  // ---------------------------------------------------------------------------------
  // Completeness for an interface: with every entry resolved, an acyclic interface graph
  // and enough fuel, the search answers exactly whether the interface is reachable.

  /** Every interface entry of a Java class names a class that is loaded. */
  predicate AllResolve(classes: seq<ClassDesc>, ifaces: seq<seq<Option<nat>>>)
    requires |ifaces| == |classes|
  {
    forall p | 0 <= p < |classes| && !classes[p].native :: forall j | 0 <= j < |ifaces[p]| :: ifaces[p][j].Some?
  }

  /** `rank` decreases along every interface entry of a Java class: the interface graph has
      no cycle. */
  predicate Ranked(classes: seq<ClassDesc>, ifaces: seq<seq<Option<nat>>>, rank: seq<nat>) {
    TableOk(ifaces, |classes|) && |rank| == |classes|
    && forall p, j | 0 <= p < |classes| && !classes[p].native && 0 <= j < |ifaces[p]| && ifaces[p][j].Some? ::
         ifaces[p][j].value < |classes| && rank[ifaces[p][j].value] < rank[p]
  }

  /** The number of interface paths that start at class `x`, `x` alone included. */
  function Paths(classes: seq<ClassDesc>, ifaces: seq<seq<Option<nat>>>, rank: seq<nat>, x: int): (r: nat)
    requires Ranked(classes, ifaces, rank) && 0 <= x < |classes|
    ensures r >= 1
    decreases rank[x], 1, 0
  {
    1 + if classes[x].native then 0 else PathSum(classes, ifaces, rank, x, 0)
  }

  /** The paths that start at the entries of class `x` from entry `j` on. */
  function PathSum(classes: seq<ClassDesc>, ifaces: seq<seq<Option<nat>>>, rank: seq<nat>, x: int, j: int): nat
    requires Ranked(classes, ifaces, rank) && 0 <= x < |classes| && !classes[x].native && 0 <= j <= |ifaces[x]|
    decreases rank[x], 0, |ifaces[x]| - j
  {
    if j == |ifaces[x]| then 0
    else
      (match ifaces[x][j] case None => 0 case Some(c) => Paths(classes, ifaces, rank, c))
      + PathSum(classes, ifaces, rank, x, j + 1)
  }

  /** What a class waiting for expansion still owes the search. */
  function Owed(classes: seq<ClassDesc>, ifaces: seq<seq<Option<nat>>>, rank: seq<nat>, marks: seq<int>, x: int): nat
    requires Ranked(classes, ifaces, rank) && 0 <= x < |classes| == |marks|
  {
    if marks[x] == 1 && !classes[x].native then Paths(classes, ifaces, rank, x) else 0
  }

  /** The expansions still owed by the first `n` classes. */
  function TotalOwed(classes: seq<ClassDesc>, ifaces: seq<seq<Option<nat>>>, rank: seq<nat>, marks: seq<int>, n: int): nat
    requires Ranked(classes, ifaces, rank) && 0 <= n <= |classes| == |marks|
    decreases n
  {
    if n == 0 then 0 else TotalOwed(classes, ifaces, rank, marks, n - 1) + Owed(classes, ifaces, rank, marks, n - 1)
  }

  /** The fuel that always suffices: the interface paths from every Java class. */
  function PathBound(classes: seq<ClassDesc>, ifaces: seq<seq<Option<nat>>>, rank: seq<nat>): nat
    requires Ranked(classes, ifaces, rank)
  {
    TotalOwed(classes, ifaces, rank, seq(|classes|, _ => 1), |classes|)
  }

  lemma {:induction false} TotalOwedUpdate(classes: seq<ClassDesc>, ifaces: seq<seq<Option<nat>>>, rank: seq<nat>,
                                           marks: seq<int>, t: int, v: int, n: int)
    requires Ranked(classes, ifaces, rank) && 0 <= n <= |classes| == |marks| && 0 <= t < |marks|
    ensures TotalOwed(classes, ifaces, rank, marks[t := v], n) + (if t < n then Owed(classes, ifaces, rank, marks, t) else 0)
            == TotalOwed(classes, ifaces, rank, marks, n) + (if t < n then Owed(classes, ifaces, rank, marks[t := v], t) else 0)
    decreases n
  {
    if n > 0 {
      TotalOwedUpdate(classes, ifaces, rank, marks, t, v, n - 1);
    }
  }

  lemma {:induction false} TotalOwedBound(classes: seq<ClassDesc>, ifaces: seq<seq<Option<nat>>>, rank: seq<nat>,
                                          marks: seq<int>, n: int)
    requires Ranked(classes, ifaces, rank) && 0 <= n <= |classes| == |marks|
    ensures TotalOwed(classes, ifaces, rank, marks, n) <= TotalOwed(classes, ifaces, rank, seq(|classes|, _ => 1), n)
    decreases n
  {
    if n > 0 {
      TotalOwedBound(classes, ifaces, rank, marks, n - 1);
    }
  }

  /** Walking the entries of Java class `c` from `j` adds at most their paths to what is owed. */
  lemma {:induction false} IfaceScanOwed(classes: seq<ClassDesc>, ifaces: seq<seq<Option<nat>>>, rank: seq<nat>,
                                         wanted: int, c: int, j: nat, marks: seq<int>)
    requires Ranked(classes, ifaces, rank) && 0 <= c < |classes| == |marks| && !classes[c].native && j <= |ifaces[c]|
    ensures TotalOwed(classes, ifaces, rank, IfaceScan(ifaces[c], wanted, j, marks).1, |classes|)
            <= TotalOwed(classes, ifaces, rank, marks, |classes|) + PathSum(classes, ifaces, rank, c, j)
    decreases |ifaces[c]| - j
  {
    var rs := ifaces[c];
    assert InRange(rs, |classes|);
    if j < |rs| && rs[j].Some? {
      var tc := rs[j].value;
      TotalOwedUpdate(classes, ifaces, rank, marks, tc, 1, |classes|);
      if tc != wanted {
        IfaceScanOwed(classes, ifaces, rank, wanted, c, j + 1, marks[tc := 1]);
      }
    }
  }

  /** With every entry resolved, the interface loop of a class meets the wanted class or
      answers false. */
  lemma {:induction false} IfaceScanResolved(rs: seq<Option<nat>>, wanted: int, j: nat, marks: seq<int>)
    requires InRange(rs, |marks|) && forall i | 0 <= i < |rs| :: rs[i].Some?
    ensures IfaceScan(rs, wanted, j, marks).0 != ErrDependencyMissing
    decreases |rs| - j
  {
    if j < |rs| && rs[j].value != wanted {
      IfaceScanResolved(rs, wanted, j + 1, marks[rs[j].value := 1]);
    }
  }

  /** With every entry resolved, an acyclic interface graph and as much fuel as is owed, the
      rescan never runs out of fuel: it meets the wanted class or answers false. */
  lemma {:induction false} RescanEnds(classes: seq<ClassDesc>, ifaces: seq<seq<Option<nat>>>, rank: seq<nat>,
                                      wanted: int, k: int, marks: seq<int>, fuel: nat)
    requires Ranked(classes, ifaces, rank) && AllResolve(classes, ifaces)
    requires -1 <= k < |classes| == |marks| && fuel >= TotalOwed(classes, ifaces, rank, marks, |classes|)
    ensures Rescan(classes, ifaces, wanted, k, marks, fuel).0 in {ErrNone, ErrFalse}
    decreases fuel, k + 1
  {
    if k >= 0 {
      if marks[k] == 1 && !classes[k].native {
        var m := marks[k := 2];
        TotalOwedUpdate(classes, ifaces, rank, marks, k, 2, |classes|);
        assert fuel > 0;
        assert InRange(ifaces[k], |classes|);
        IfaceScanResolved(ifaces[k], wanted, 0, m);
        IfaceScanOwed(classes, ifaces, rank, wanted, k, 0, m);
        var s := IfaceScan(ifaces[k], wanted, 0, m);
        if s.0 == ErrFalse {
          RescanEnds(classes, ifaces, rank, wanted, |classes| - 1, s.1, fuel - 1);
        }
      } else {
        RescanEnds(classes, ifaces, rank, wanted, k - 1, marks, fuel);
      }
    }
  }

  /** The entries `rs` are all resolved and their classes all marked. */
  predicate Expanded(rs: seq<Option<nat>>, marks: seq<int>) {
    forall j | 0 <= j < |rs| :: rs[j].Some? && rs[j].value < |marks| && marks[rs[j].value] != 0
  }

  /** The marks while the rescan has not met the wanted class and scans down from `k`: the
      wanted class is unmarked, the chain is marked, every expanded Java class has its
      entries marked, and no class above `k` waits for expansion. */
  ghost predicate Covering(classes: seq<ClassDesc>, ifaces: seq<seq<Option<nat>>>, o: int, wanted: int, k: int,
                           marks: seq<int>)
    requires ChainOk(classes) && 0 <= o < |classes| && |marks| == |ifaces| == |classes|
    requires 0 <= wanted < |classes|
  {
    TwoBits(marks) && marks[wanted] == 0
    && (forall x | 0 <= x < |marks| && OnChain(classes, o, x) :: marks[x] != 0)
    && (forall x | 0 <= x < |marks| && marks[x] == 2 && !classes[x].native :: Expanded(ifaces[x], marks))
    && (forall x | 0 <= x < |marks| && k < x :: marks[x] != 1 || classes[x].native)
  }

  /** An interface loop that answers false resolved every entry, marked each 1, and left
      every other mark alone or at 1. */
  lemma {:induction false} IfaceScanFalse(rs: seq<Option<nat>>, wanted: int, j: nat, marks: seq<int>)
    requires InRange(rs, |marks|) && 0 <= wanted < |marks| && IfaceScan(rs, wanted, j, marks).0 == ErrFalse
    ensures var m := IfaceScan(rs, wanted, j, marks).1;
            m[wanted] == marks[wanted]
            && (forall x | 0 <= x < |marks| :: m[x] == marks[x] || m[x] == 1)
            && (forall i | j <= i < |rs| :: rs[i].Some? && rs[i].value < |m| && m[rs[i].value] == 1)
    decreases |rs| - j
  {
    if j < |rs| {
      var tc := rs[j].value;
      IfaceScanFalse(rs, wanted, j + 1, marks[tc := 1]);
    }
  }

  /** Once nothing waits for expansion, every reachable class is marked. */
  lemma {:induction false} CoveredPath(classes: seq<ClassDesc>, ifaces: seq<seq<Option<nat>>>, o: int, wanted: int,
                                       marks: seq<int>, path: seq<int>, i: int)
    requires ChainOk(classes) && 0 <= o < |classes| && |marks| == |ifaces| == |classes| && 0 <= wanted < |classes|
    requires Covering(classes, ifaces, o, wanted, -1, marks)
    requires IsIfacePath(classes, ifaces, path) && OnChain(classes, o, path[0]) && 0 <= i < |path|
    ensures 0 <= path[i] < |marks| && marks[path[i]] != 0
    decreases i
  {
    if i > 0 {
      CoveredPath(classes, ifaces, o, wanted, marks, path, i - 1);
      var p := path[i - 1];
      assert IfaceEdge(classes, ifaces, p, path[i]);
      assert marks[p] == 2;
      assert Expanded(ifaces[p], marks);
    }
  }

  lemma CoveredUnreachable(classes: seq<ClassDesc>, ifaces: seq<seq<Option<nat>>>, o: int, wanted: int, marks: seq<int>)
    requires ChainOk(classes) && 0 <= o < |classes| && |marks| == |ifaces| == |classes| && 0 <= wanted < |classes|
    requires Covering(classes, ifaces, o, wanted, -1, marks)
    ensures !Explored(classes, ifaces, o, wanted)
  {
    forall path | IsIfacePath(classes, ifaces, path) && OnChain(classes, o, path[0])
      ensures path[|path| - 1] != wanted
    {
      CoveredPath(classes, ifaces, o, wanted, marks, path, |path| - 1);
    }
  }

  /** The chain walk for an interface that does not meet it, from cleared marks, starts the
      rescan with a covering: the chain marked 1, nothing else marked. */
  lemma ChainWalkCovers(classes: seq<ClassDesc>, ifaces: seq<seq<Option<nat>>>, wanted: int, obj: int)
    requires ChainOk(classes) && 0 <= obj < |classes| && |ifaces| == |classes| && 0 <= wanted < |classes|
    requires !ChainWalk(classes, wanted, obj, true, Zeros(|classes|)).0
    ensures Covering(classes, ifaces, obj, wanted, |classes| - 1, ChainWalk(classes, wanted, obj, true, Zeros(|classes|)).1)
  {
    ChainWalkHit(classes, wanted, obj, true, Zeros(|classes|));
    ChainWalkMarks(classes, wanted, obj, Zeros(|classes|));
  }

  /** Expanding class `k` without meeting the wanted class keeps the covering, and the
      rescan starts again from the newest class. */
  lemma ExpandCovers(classes: seq<ClassDesc>, ifaces: seq<seq<Option<nat>>>, o: int, wanted: int, k: int, marks: seq<int>)
    requires ChainOk(classes) && 0 <= o < |classes| && TableOk(ifaces, |classes|) && 0 <= wanted < |classes|
    requires 0 <= k < |classes| == |marks| && Covering(classes, ifaces, o, wanted, k, marks)
    requires marks[k] == 1 && !classes[k].native && IfaceScan(ifaces[k], wanted, 0, marks[k := 2]).0 == ErrFalse
    ensures Covering(classes, ifaces, o, wanted, |classes| - 1, IfaceScan(ifaces[k], wanted, 0, marks[k := 2]).1)
  {
    var m := marks[k := 2];
    assert InRange(ifaces[k], |classes|);
    var s := IfaceScan(ifaces[k], wanted, 0, m);
    IfaceScanFalse(ifaces[k], wanted, 0, m);
    assert Expanded(ifaces[k], s.1);
    forall x | 0 <= x < |marks| && s.1[x] == 2 && !classes[x].native ensures Expanded(ifaces[x], s.1) {
      if x != k {
        assert Expanded(ifaces[x], marks);
      }
    }
  }

  /** A rescan that answers false has covered everything reachable, so the wanted class is
      not reachable. */
  lemma {:induction false} RescanComplete(classes: seq<ClassDesc>, ifaces: seq<seq<Option<nat>>>, o: int, wanted: int,
                                          k: int, marks: seq<int>, fuel: nat)
    requires ChainOk(classes) && 0 <= o < |classes| && TableOk(ifaces, |classes|) && 0 <= wanted < |classes|
    requires -1 <= k < |classes| == |marks| && Covering(classes, ifaces, o, wanted, k, marks)
    ensures Rescan(classes, ifaces, wanted, k, marks, fuel).0 == ErrFalse ==> !Explored(classes, ifaces, o, wanted)
    decreases fuel, k + 1
  {
    if k < 0 {
      CoveredUnreachable(classes, ifaces, o, wanted, marks);
    } else if marks[k] == 1 && !classes[k].native {
      if fuel > 0 {
        var m := marks[k := 2];
        assert InRange(ifaces[k], |classes|);
        var s := IfaceScan(ifaces[k], wanted, 0, m);
        if s.0 == ErrFalse {
          ExpandCovers(classes, ifaces, o, wanted, k, marks);
          RescanComplete(classes, ifaces, o, wanted, |classes| - 1, s.1, fuel - 1);
        }
      }
    } else {
      RescanComplete(classes, ifaces, o, wanted, k - 1, marks, fuel);
    }
  }

  /** The search for interface `w` from class `obj`, chain walk and rescan, answers true
      exactly when `w` is reachable, and never runs out of fuel or misses a class. */
  lemma InterfaceSearch(classes: seq<ClassDesc>, ifaces: seq<seq<Option<nat>>>, w: int, obj: int, fuel: nat, rank: seq<nat>)
    requires ChainOk(classes) && TableOk(ifaces, |classes|) && 0 <= obj < |classes| && 0 <= w < |classes|
    requires AllResolve(classes, ifaces) && Ranked(classes, ifaces, rank) && fuel >= PathBound(classes, ifaces, rank)
    ensures var walk := ChainWalk(classes, w, obj, true, Zeros(|classes|));
            var code := if walk.0 then ErrNone else Rescan(classes, ifaces, w, |classes| - 1, walk.1, fuel).0;
            (code == ErrNone <==> Explored(classes, ifaces, obj, w)) && (code == ErrNone || code == ErrFalse)
  {
    var z := Zeros(|classes|);
    ChainWalkHit(classes, w, obj, true, z);
    if ChainWalk(classes, w, obj, true, z).0 {
      ExploredChain(classes, ifaces, obj, w);
    } else {
      var m := ChainWalk(classes, w, obj, true, z).1;
      SearchSound(classes, ifaces, w, obj, fuel);
      SearchComplete(classes, ifaces, w, obj, fuel);
      TotalOwedBound(classes, ifaces, rank, m, |classes|);
      RescanEnds(classes, ifaces, rank, w, |classes| - 1, m, fuel);
    }
  }

  lemma SearchSound(classes: seq<ClassDesc>, ifaces: seq<seq<Option<nat>>>, w: int, obj: int, fuel: nat)
    requires ChainOk(classes) && TableOk(ifaces, |classes|) && 0 <= obj < |classes| && 0 <= w < |classes|
    requires !ChainWalk(classes, w, obj, true, Zeros(|classes|)).0
    ensures Rescan(classes, ifaces, w, |classes| - 1, ChainWalk(classes, w, obj, true, Zeros(|classes|)).1, fuel).0 == ErrNone
            ==> Explored(classes, ifaces, obj, w)
  {
    ChainWalkExplored(classes, ifaces, w, obj);
    RescanSound(classes, ifaces, obj, w, |classes| - 1, ChainWalk(classes, w, obj, true, Zeros(|classes|)).1, fuel);
  }

  lemma SearchComplete(classes: seq<ClassDesc>, ifaces: seq<seq<Option<nat>>>, w: int, obj: int, fuel: nat)
    requires ChainOk(classes) && TableOk(ifaces, |classes|) && 0 <= obj < |classes| && 0 <= w < |classes|
    requires !ChainWalk(classes, w, obj, true, Zeros(|classes|)).0
    ensures Rescan(classes, ifaces, w, |classes| - 1, ChainWalk(classes, w, obj, true, Zeros(|classes|)).1, fuel).0 == ErrFalse
            ==> !Explored(classes, ifaces, obj, w)
  {
    ChainWalkCovers(classes, ifaces, w, obj);
    RescanComplete(classes, ifaces, obj, w, |classes| - 1, ChainWalk(classes, w, obj, true, Zeros(|classes|)).1, fuel);
  }

  /** For an interface, `instanceof` is exact: when every interface entry of a Java class is
      loaded, the interface graph is acyclic and the fuel covers its paths, the answer is
      true exactly when the interface is reachable from the object's class, and false
      otherwise. */
  lemma InterfaceInstanceOf(classes: seq<ClassDesc>, hashed: bool, ifaces: seq<seq<Option<nat>>>, cur: ClassDesc,
                            descrIdx: int, obj: int, marks: seq<int>, fuel: nat, rank: seq<nat>)
    requires ChainOk(classes) && TableOk(ifaces, |classes|) && 0 <= descrIdx < 0x1_0000 && 0 <= obj < |classes| && |marks| == |classes|
    requires WantedOf(classes, hashed, cur, descrIdx).Some?
    requires IsInterface(classes[WantedOf(classes, hashed, cur, descrIdx).value])
    requires AllResolve(classes, ifaces) && Ranked(classes, ifaces, rank) && fuel >= PathBound(classes, ifaces, rank)
    ensures var w := WantedOf(classes, hashed, cur, descrIdx).value;
            var code := InstanceOfSpec(classes, hashed, ifaces, cur, descrIdx, obj, marks, fuel).0;
            (code == ErrNone <==> Explored(classes, ifaces, obj, w))
            && (code == ErrNone || code == ErrFalse)
  {
    InterfaceSearch(classes, ifaces, WantedOf(classes, hashed, cur, descrIdx).value, obj, fuel, rank);
  }

  /** An unknown class name is reported before any mark changes. */
  lemma MissingClass(classes: seq<ClassDesc>, hashed: bool, ifaces: seq<seq<Option<nat>>>, cur: ClassDesc, descrIdx: int, obj: int,
                     marks: seq<int>, fuel: nat)
    requires ChainOk(classes) && TableOk(ifaces, |classes|) && 0 <= descrIdx < 0x1_0000 && 0 <= obj < |classes| && |marks| == |classes|
    requires WantedOf(classes, hashed, cur, descrIdx).None?
    ensures InstanceOfSpec(classes, hashed, ifaces, cur, descrIdx, obj, marks, fuel) == (ErrDependencyMissing, marks)
  {
  }

  // ---------------------------------------------------------------------------------
  // The method, over the class table's marks.

  method ClearMarks(reg: ClassTable)
    requires reg.Valid()
    modifies reg
    ensures reg.classes == old(reg.classes) && reg.marks == Zeros(|reg.classes|) && reg.Valid()
  {
    var k := 0;
    while k < |reg.marks|
      invariant 0 <= k <= |reg.marks| == |reg.classes| && reg.classes == old(reg.classes) && reg.Valid()
      invariant forall i | 0 <= i < k :: reg.marks[i] == 0
      decreases |reg.marks| - k
    {
      reg.marks := reg.marks[k := 0];
      k := k + 1;
    }
  }

  method WalkChain(reg: ClassTable, wanted: int, obj: int, iface: bool) returns (hit: bool)
    requires reg.Valid() && 0 <= obj < |reg.classes|
    modifies reg
    ensures reg.classes == old(reg.classes) && reg.Valid()
    ensures (hit, reg.marks) == ChainWalk(reg.classes, wanted, obj, iface, old(reg.marks))
  {
    ghost var target := ChainWalk(reg.classes, wanted, obj, iface, reg.marks);
    var cls := obj;
    while true
      invariant 0 <= cls < |reg.classes| && reg.classes == old(reg.classes) && reg.Valid()
      invariant ChainWalk(reg.classes, wanted, cls, iface, reg.marks) == target
      decreases cls
    {
      assert LinkOk(reg.classes, cls);
      if cls == wanted {
        return true;
      }
      if iface {
        reg.marks := reg.marks[cls := 1];
      }
      if reg.classes[cls].supr == -1 {
        return false;
      }
      cls := reg.classes[cls].supr;
    }
  }

  /** Resolving interface entry `j` of class `c`, found at `addr`. */
  method ResolveEntry(reg: ClassTable, c: int, j: int, addr: word, ghost rs: seq<Option<nat>>) returns (tc: Option<nat>)
    requires 0 <= c < |reg.classes| && addr == IfaceEntry(reg.classes[c], j)
    requires RowFits(reg.classes, reg.hashed, c, rs) && 0 <= j < |rs|
    ensures tc == rs[j]
  {
    assert Entry(rs, j) == ResolveIface(reg.classes, reg.hashed, c, j);
    var cls := reg.classes[c];
    var data := cls.src.data;
    if cls.src.ujc {
      tc := reg.FindClass(Adr(data, Addr(ReadU24(data, addr) as int + 1)));
    } else {
      tc := reg.ClassFromRef(cls, ReadU16(data, addr));
    }
  }

  /** The interface loop of one marked class, whose resolved entries are `rs`. */
  method ScanInterfaces(reg: ClassTable, wanted: int, c: int, ghost rs: seq<Option<nat>>) returns (code: int)
    requires reg.Valid() && 0 <= c < |reg.classes| && RowFits(reg.classes, reg.hashed, c, rs)
    requires InRange(rs, |reg.classes|)
    modifies reg
    ensures reg.classes == old(reg.classes) && reg.Valid()
    ensures (code, reg.marks) == IfaceScan(rs, wanted, 0, old(reg.marks))
  {
    var cls := reg.classes[c];
    var n := IfaceCount(cls);
    var addr := cls.interfaces;
    var j := 0;
    assert IfaceEntry(cls, 0) == addr;
    ghost var target := IfaceScan(rs, wanted, 0, reg.marks);
    while j < n
      invariant 0 <= j <= n && reg.classes == old(reg.classes) && reg.Valid()
      invariant addr == IfaceEntry(cls, j)
      invariant IfaceScan(rs, wanted, j, reg.marks) == target
      decreases n - j
    {
      var tc := ResolveEntry(reg, c, j, addr, rs);
      var w := if cls.src.ujc then 3 else 2;
      AddrAdd(cls.interfaces + w * j, w);
      assert cls.interfaces + w * j + w == cls.interfaces + w * (j + 1);
      addr := Addr(addr as int + w);
      if tc.None? {
        return ErrDependencyMissing;
      }
      reg.marks := reg.marks[tc.value := 1];
      if tc.value == wanted {
        return ErrNone;
      }
      j := j + 1;
    }
    return ErrFalse;
  }

  /** Expanding marked class `k`: mark it 2 and walk its interfaces. */
  method ExpandClass(reg: ClassTable, wanted: int, k: int, ghost ifaces: seq<seq<Option<nat>>>) returns (code: int)
    requires reg.Valid() && 0 <= k < |reg.classes| && TableFits(reg.classes, reg.hashed, ifaces)
    modifies reg
    ensures reg.classes == old(reg.classes) && reg.Valid()
    ensures (code, reg.marks) == IfaceScan(ifaces[k], wanted, 0, old(reg.marks)[k := 2])
  {
    assert Row(ifaces, k) == ifaces[k];
    reg.marks := reg.marks[k := 2];
    code := ScanInterfaces(reg, wanted, k, ifaces[k]);
  }

  /** One step of the rescan at position `k`. */
  lemma RescanStep(classes: seq<ClassDesc>, ifaces: seq<seq<Option<nat>>>, wanted: int, k: int, marks: seq<int>,
                   fuel: nat)
    requires 0 <= k < |classes| && |marks| == |classes| && TableOk(ifaces, |classes|)
    ensures Rescan(classes, ifaces, wanted, k, marks, fuel) ==
            if marks[k] == 1 && !classes[k].native then
              if fuel == 0 then (ErrInternal, marks)
              else if IfaceScan(ifaces[k], wanted, 0, marks[k := 2]).0 != ErrFalse then
                IfaceScan(ifaces[k], wanted, 0, marks[k := 2])
              else Rescan(classes, ifaces, wanted, |classes| - 1, IfaceScan(ifaces[k], wanted, 0, marks[k := 2]).1, fuel - 1)
            else Rescan(classes, ifaces, wanted, k - 1, marks, fuel)
  {
  }

  method RescanClasses(reg: ClassTable, wanted: int, fuel0: nat, ghost ifaces: seq<seq<Option<nat>>>)
    returns (code: int)
    requires reg.Valid() && TableFits(reg.classes, reg.hashed, ifaces)
    modifies reg
    ensures reg.classes == old(reg.classes) && reg.Valid()
    ensures (code, reg.marks) == Rescan(reg.classes, ifaces, wanted, |reg.classes| - 1, old(reg.marks), fuel0)
  {
    ghost var target := Rescan(reg.classes, ifaces, wanted, |reg.classes| - 1, reg.marks, fuel0);
    var k := |reg.classes| - 1;
    var fuel := fuel0;
    while k >= 0
      invariant -1 <= k < |reg.classes| && reg.classes == old(reg.classes) && reg.Valid()
      invariant Rescan(reg.classes, ifaces, wanted, k, reg.marks, fuel) == target
      decreases fuel, k + 1
    {
      RescanStep(reg.classes, ifaces, wanted, k, reg.marks, fuel);
      if reg.marks[k] == 1 && !reg.classes[k].native {
        if fuel == 0 {
          return ErrInternal;
        }
        code := ExpandClass(reg, wanted, k, ifaces);
        if code != ErrFalse {
          return code;
        }
        fuel := fuel - 1;
        k := |reg.classes| - 1;
      } else {
        k := k - 1;
      }
    }
    return ErrFalse;
  }

  /** `ujThreadPrvInstanceof`. `cur` is the current thread's class (`t->cls`), `obj` the
      class of the object the handle refers to; `ifaces` is the resolved interface table
      (`IfaceTable`, the only one that fits). */
  method InstanceOf(reg: ClassTable, cur: ClassDesc, descrIdx: int, obj: int, fuel: nat,
                    ghost ifaces: seq<seq<Option<nat>>>) returns (code: int)
    requires reg.Valid() && TableFits(reg.classes, reg.hashed, ifaces)
    requires 0 <= descrIdx < 0x1_0000 && 0 <= obj < |reg.classes|
    modifies reg
    ensures reg.classes == old(reg.classes) && reg.Valid()
    ensures (code, reg.marks) == InstanceOfSpec(reg.classes, reg.hashed, ifaces, cur, descrIdx, obj, old(reg.marks), fuel)
  {
    var wanted := reg.ClassFromRef(cur, descrIdx);
    if wanted.None? {
      return ErrDependencyMissing;
    }
    var w := wanted.value;
    var iface := IsInterface(reg.classes[w]);
    if iface {
      ClearMarks(reg);
    }
    var hit := WalkChain(reg, w, obj, iface);
    if hit {
      return ErrNone;
    }
    if !iface {
      return ErrFalse;
    }
    code := RescanClasses(reg, w, fuel, ifaces);
  }
}
