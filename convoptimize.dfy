/** `classOptimize` (classCvt/classOptimizer.c): lay out the fields, optimise and mark
    every method's code, mark what the declarations and the used reference constants name,
    reorder the pool (directly used constants first, then the rest of the used ones, then
    the unused), renumber every index the class holds and move the constants. */
module Optimizer {
  import opened Bytes
  import opened FieldLayout
  import opened ConvClass
  import opened CodePasses
  import opened PoolMarks
  import opened MethodCode
  import opened ConstantOrder
  import opened Renumber

  // ---------------------------------------------------------------------------
  // Field offsets
  // ---------------------------------------------------------------------------

  /** Every field's descriptor is a non-empty string of the pool. */
  ghost predicate TypesReadable(pool: seq<Const>, fs: seq<Member>) {
    forall i | 0 <= i < |fs| :: 1 <= fs[i].descrIdx <= |pool| && |pool[fs[i].descrIdx - 1].text| > 0
  }

  /** What the layout needs of each field: static or not, and its type character. */
  ghost function Infos(pool: seq<Const>, fs: seq<Member>): (r: seq<FieldInfo>)
    requires TypesReadable(pool, fs)
    ensures |r| == |fs|
  {
    seq(|fs|, i requires 0 <= i < |fs| => FieldInfo(IsStatic(fs[i].access), pool[fs[i].descrIdx - 1].text[0]))
  }

  /** The fields once placed: each gets its type character and its 16-bit offset in its group. */
  ghost function LaidOut(pool: seq<Const>, fs: seq<Member>): (r: seq<Member>)
    requires TypesReadable(pool, fs)
    ensures |r| == |fs|
  {
    var infos := Infos(pool, fs);
    seq(|fs|, i requires 0 <= i < |fs| => fs[i].(offset := GroupOffset(infos, i) % 0x1_0000, typ := infos[i].typ))
  }

  lemma LaidOutAt(pool: seq<Const>, fs: seq<Member>, j: int)
    requires TypesReadable(pool, fs) && 0 <= j < |fs|
    ensures LaidOut(pool, fs)[j] == fs[j].(offset := GroupOffset(Infos(pool, fs), j) % 0x1_0000, typ := Infos(pool, fs)[j].typ)
  {
  }

  lemma GroupTotalStep(infos: seq<FieldInfo>, i: int, st: bool)
    requires 0 <= i < |infos|
    ensures GroupTotal(infos[..i + 1], st) == GroupTotal(infos[..i], st) + (if infos[i].isStatic == st then Size(infos[i]) else 0)
  {
    assert infos[..i + 1][..i] == infos[..i];
  }

  /** One field of the offset loop, on the two running 16-bit totals: the field is
      placed at its group's running offset, and that offset then moves past it. */
  lemma OffsetStep(infos: seq<FieldInfo>, i: int, cls: int, inst: int, cls2: int, inst2: int)
    requires 0 <= i < |infos|
    requires cls == GroupTotal(infos[..i], true) % 0x1_0000 && inst == GroupTotal(infos[..i], false) % 0x1_0000
    requires cls2 == if infos[i].isStatic then (cls + Size(infos[i])) % 0x1_0000 else cls
    requires inst2 == if infos[i].isStatic then inst else (inst + Size(infos[i])) % 0x1_0000
    ensures GroupOffset(infos, i) % 0x1_0000 == if infos[i].isStatic then cls else inst
    ensures cls2 == GroupTotal(infos[..i + 1], true) % 0x1_0000 && inst2 == GroupTotal(infos[..i + 1], false) % 0x1_0000
  {
    GroupTotalStep(infos, i, true);
    GroupTotalStep(infos, i, false);
    ModStep(GroupTotal(infos[..i], true), Size(infos[i]));
    ModStep(GroupTotal(infos[..i], false), Size(infos[i]));
  }

  lemma ModStep(a: int, b: int)
    requires 0 <= a && 0 <= b
    ensures (a % 0x1_0000 + b) % 0x1_0000 == (a + b) % 0x1_0000
  {
  }

  /** The "calculate fields' offsets" step: two running 16-bit offsets, static and instance. */
  method ComputeOffsets(c: JClass, ghost pool: seq<Const>)
    requires c.Valid() && c.pool[..] == pool && TypesReadable(pool, c.fields[..])
    modifies c.fields
    ensures c.fields[..] == LaidOut(pool, old(c.fields[..]))
  {
    ghost var fs := c.fields[..];
    ghost var infos := Infos(pool, fs);
    ghost var lo := LaidOut(pool, fs);
    var clsOfst, instOfst := 0, 0;
    var i := 0;
    while i < c.fields.Length
      invariant 0 <= i <= c.fields.Length
      invariant clsOfst == GroupTotal(infos[..i], true) % 0x1_0000
      invariant instOfst == GroupTotal(infos[..i], false) % 0x1_0000
      invariant c.fields[..] == lo[..i] + fs[i..]
    {
      clsOfst, instOfst := PlaceField(c, pool, fs, i, clsOfst, instOfst);
      i := i + 1;
    }
  }

  /** One turn of the offset loop: field `i` gets its type and its group's running offset,
      which then moves past it. */
  method PlaceField(c: JClass, ghost pool: seq<Const>, ghost fs: seq<Member>, i: int, clsOfst: int, instOfst: int)
    returns (cls2: int, inst2: int)
    requires c.Valid() && c.pool[..] == pool && TypesReadable(pool, fs) && 0 <= i < |fs| == c.fields.Length
    requires clsOfst == GroupTotal(Infos(pool, fs)[..i], true) % 0x1_0000
    requires instOfst == GroupTotal(Infos(pool, fs)[..i], false) % 0x1_0000
    requires c.fields[..] == LaidOut(pool, fs)[..i] + fs[i..]
    modifies c.fields
    ensures cls2 == GroupTotal(Infos(pool, fs)[..i + 1], true) % 0x1_0000
    ensures inst2 == GroupTotal(Infos(pool, fs)[..i + 1], false) % 0x1_0000
    ensures c.fields[..] == LaidOut(pool, fs)[..i + 1] + fs[i + 1..]
  {
    ghost var infos, lo := Infos(pool, fs), LaidOut(pool, fs);
    assert c.fields[..][i] == fs[i];
    var f := c.fields[i];
    var t := c.pool[f.descrIdx - 1].text[0];
    var sz := TypeToSize(t);
    assert infos[i] == FieldInfo(IsStatic(f.access), t);
    var ofs := if IsStatic(f.access) then clsOfst else instOfst;
    cls2, inst2 := clsOfst, instOfst;
    if IsStatic(f.access) {
      cls2 := (clsOfst + sz) % 0x1_0000;
    } else {
      inst2 := (instOfst + sz) % 0x1_0000;
    }
    OffsetStep(infos, i, clsOfst, instOfst, cls2, inst2);
    LaidOutAt(pool, fs, i);
    ghost var before := c.fields[..];
    c.fields[i] := f.(offset := ofs, typ := t);
    assert c.fields[..] == before[i := lo[i]];
    SpliceStep(lo, fs, i);
  }

  lemma SpliceStep<T>(done: seq<T>, rest: seq<T>, i: int)
    requires 0 <= i < |done| == |rest|
    ensures (done[..i] + rest[i..])[i := done[i]] == done[..i + 1] + rest[i + 1..]
  {
  }

  /** While a group fits in 16 bits, the fields placed in it do not overlap: each ends at
      or before the offset of the next field of its group. */
  lemma LaidOutDisjoint(pool: seq<Const>, fs: seq<Member>, i: int, j: int)
    requires TypesReadable(pool, fs) && 0 <= i < j < |fs| && IsStatic(fs[i].access) == IsStatic(fs[j].access)
    requires GroupTotal(Infos(pool, fs), IsStatic(fs[i].access)) < 0x1_0000
    ensures LaidOut(pool, fs)[i].offset + TypeToSize(LaidOut(pool, fs)[i].typ) <= LaidOut(pool, fs)[j].offset
  {
    var infos := Infos(pool, fs);
    FieldsDisjoint(infos, i, j);
    FieldWithinGroup(infos, j);
  }

  // ---------------------------------------------------------------------------
  // Marking
  // ---------------------------------------------------------------------------

  /** Fields and methods keep their names and descriptors. */
  ghost predicate SameNames(a: seq<Member>, b: seq<Member>) {
    |a| == |b| && forall k | 0 <= k < |a| :: a[k].nameIdx == b[k].nameIdx && a[k].descrIdx == b[k].descrIdx
  }

  lemma {:induction false} NamedBySameNames(a: seq<Member>, b: seq<Member>, n: int, k: int)
    requires SameNames(a, b) && 0 <= n <= |a|
    ensures NamedByMember(a, n, k) == NamedByMember(b, n, k)
  {
    if n > 0 {
      NamedBySameNames(a, b, n - 1, k);
    }
  }

  lemma DeclaredSameNames(pool: seq<Const>, thisClass: int, superClass: int, ifs: seq<int>,
                          fs: seq<Member>, fs2: seq<Member>, ms: seq<Member>, ms2: seq<Member>)
    requires DeclReadable(pool, thisClass, superClass, ifs, fs, ms) && SameNames(fs, fs2) && SameNames(ms, ms2)
    ensures DeclReadable(pool, thisClass, superClass, ifs, fs2, ms2)
    ensures forall k :: Declared(pool, thisClass, superClass, ifs, fs, ms, k) == Declared(pool, thisClass, superClass, ifs, fs2, ms2, k)
  {
    forall k ensures Declared(pool, thisClass, superClass, ifs, fs, ms, k) == Declared(pool, thisClass, superClass, ifs, fs2, ms2, k) {
      NamedBySameNames(fs, fs2, |fs|, k);
      NamedBySameNames(ms, ms2, |ms|, k);
    }
  }

  /** Code optimisation and all marking. */
  method MarkStage(c: JClass, ghost pool: seq<Const>) returns (ok: bool)
    requires c.Valid() && c.pool[..] == pool
    requires TypesReadable(pool, c.fields[..])
    requires forall i | 0 <= i < c.methods.Length :: AttrsReadable(pool, c.thisClass, c.methods[..], c.methods[i].attrs)
    requires DeclReadable(pool, c.thisClass, c.superClass, c.interfaces[..], c.fields[..], c.methods[..])
    requires forall i | 0 <= i < |pool| :: TargetsReadable(pool, i)
    modifies c.fields, c.methods, c.used, c.direct
    ensures c.fields[..] == LaidOut(pool, old(c.fields[..]))
    ensures ok <==> forall i | 0 <= i < c.methods.Length ::
      AttrsFine(pool, c.thisClass, c.fields[..], old(c.methods[..]), old(c.methods[i].attrs))
    ensures ok ==> SameHeads(c.methods[..], old(c.methods[..])) && MembersCodeOk(c.methods[..])
    ensures ok ==> forall i | 0 <= i < c.methods.Length ::
      AttrsOptimisedTo(pool, c.thisClass, c.fields[..], old(c.methods[..]), old(c.methods[i].attrs), c.methods[i].attrs)
    ensures ok ==> forall k | 0 <= k < |pool| ::
      c.direct[k] == (old(c.direct[k]) || MethodsName(c.methods[..], k + 1) ||
                      Declared(pool, c.thisClass, c.superClass, c.interfaces[..], old(c.fields[..]), old(c.methods[..]), k + 1))
    ensures ok ==> CascadeReadable(pool, c.direct[..])
    ensures ok ==> forall k | 0 <= k < |pool| ::
      c.used[k] == (old(c.used[k]) || MethodsName(c.methods[..], k + 1) ||
                    Declared(pool, c.thisClass, c.superClass, c.interfaces[..], old(c.fields[..]), old(c.methods[..]), k + 1) ||
                    Reached(pool, c.direct[..], |pool|, k + 1))
  {
    ghost var fs0, ms0 := c.fields[..], c.methods[..];
    ComputeOffsets(c, pool);
    ok := OptimiseCode(c, pool);
    if !ok {
      return;
    }
    assert SameNames(fs0, c.fields[..]);
    assert SameNames(ms0, c.methods[..]);
    DeclaredSameNames(pool, c.thisClass, c.superClass, c.interfaces[..], fs0, c.fields[..], ms0, c.methods[..]);
    MarkDeclared(c, pool);
    MarkIndirect(c, pool);
  }

  // ---------------------------------------------------------------------------
  // Reordering
  // ---------------------------------------------------------------------------

  lemma FixKeepsNames(a: Attr, b: Attr, fm: seq<int>, n: int)
    requires FixReadable(a, |fm|) && Map16(fm) && AttrFixedTo(a, b, fm) && AttrNamesIn(a, n)
    ensures AttrNamesIn(b, n)
  {
  }

  /** The code fix and the renumbering, through the forward map. */
  method RenumberStage(c: JClass, ghost pool: seq<Const>, fmap: array<int>, ghost fm: seq<int>,
                       ghost fs: seq<Member>, ghost ms: seq<Member>) returns (ghost fixed: seq<Member>)
    requires c.Valid() && c.pool[..] == pool && fmap[..] == fm && |fm| == |pool| + 1 && Map16(fm) && fmap != c.interfaces
    requires c.fields[..] == fs && c.methods[..] == ms
    requires forall i, j | 0 <= i < |ms| && 0 <= j < |ms[i].attrs| :: FixReadable(ms[i].attrs[j], |pool| + 1)
    requires forall i | 0 <= i < |pool| :: RefsIn(pool[i], |pool| + 1)
    requires DeclNamesIn(pool, c.thisClass, c.superClass, c.interfaces[..], fs, ms, c.attrs, |pool| + 1)
    modifies c, c.pool, c.interfaces, c.fields, c.methods
    ensures c.pool[..] == RemappedPool(pool, fm)
    ensures DeclsRenumbered(pool, fm, old(c.thisClass), old(c.superClass), old(c.interfaces[..]), fs, old(c.attrs),
                            c.thisClass, c.superClass, c.interfaces[..], c.fields[..], c.attrs)
    ensures MethodsRenumbered(ms, fixed, c.methods[..], fm)
    ensures forall i | 0 <= i < |fixed| :: |fixed[i].attrs| == |ms[i].attrs|
    ensures forall i, j | 0 <= i < |fixed| && 0 <= j < |fixed[i].attrs| :: AttrFixedTo(ms[i].attrs[j], fixed[i].attrs[j], fm)
    ensures c.addressable == old(c.addressable) && c.placed == old(c.placed)
  {
    ghost var tc, sc, ifs, ats := c.thisClass, c.superClass, c.interfaces[..], c.attrs;
    FixCode(c, fmap);
    fixed := c.methods[..];
    forall i | 0 <= i < |fixed| ensures MemberNamesIn(fixed[i], |fm|) {
      forall j | 0 <= j < |fixed[i].attrs| ensures AttrNamesIn(fixed[i].attrs[j], |fm|) {
        FixKeepsNames(ms[i].attrs[j], fixed[i].attrs[j], fm, |fm|);
      }
    }
    RemapDeclared(c, pool, fmap);
    assert DeclsRenumbered(pool, fm, tc, sc, ifs, fs, ats, c.thisClass, c.superClass, c.interfaces[..], c.fields[..], c.attrs);
    assert MethodsRenumbered(ms, fixed, c.methods[..], fm);
    RemapPool(c.pool, fmap);
    assert c.pool[..] == RemappedPool(pool, fm);
  }

  /** The "move actual constants around" step on one array: entry `j` goes to `fm[j + 1] - 1`. */
  method MoveArray<T>(a: array<T>, rm: seq<int>, ghost fm: seq<int>)
    requires |fm| == a.Length + 1 && Inverse(fm, rm)
    modifies a
    ensures Moved(fm, old(a[..]), a[..])
  {
    ghost var a0 := a[..];
    Permute(a, rm);
    forall j | 0 <= j < a.Length ensures a[..][fm[j + 1] - 1] == a0[j] {
      MovedAt(a0, a[..], fm, rm, j);
    }
  }

  /** The "create maps" step: the forward and reverse maps and the two group boundaries. */
  method OrderStage(c: JClass, ghost u: seq<bool>, ghost d: seq<bool>)
    returns (fmap: array<int>, rmap: array<int>, addressable: int, placed: int)
    requires c.Valid() && c.used[..] == u && c.direct[..] == d && FlagsOk(u, d)
    ensures fresh(fmap) && fresh(rmap) && fmap.Length == |u| + 1
    ensures MapsFor(u, d, fmap[..], rmap[..], addressable, placed)
  {
    fmap, rmap, addressable, placed := BuildMaps(c.used, c.direct);
    ghost var fm := fmap[..];
    MapsInverse(u, d, fm, rmap[..]);
    assert Map16(fm) by {
      forall j | 0 <= j < |fm| ensures 0 <= fm[j] < 0x1_0000 {
        if j > 0 {
          assert 1 <= fm[j] < |fm|;
        }
      }
    }
    forall j | 0 <= j < |u|
      ensures (d[j] <==> fmap[j + 1] < addressable) && (u[j] <==> fmap[j + 1] < placed)
    {
      Boundaries(u, d, j);
    }
  }

  /** `b` is `a` with entry `j` moved to `fm[j + 1] - 1`. */
  ghost predicate Moved<T>(fm: seq<int>, a: seq<T>, b: seq<T>) {
    |fm| == |a| + 1 && |b| == |a| && (forall j | 1 <= j < |fm| :: 1 <= fm[j] < |fm|) &&
    forall j | 0 <= j < |a| :: b[fm[j + 1] - 1] == a[j]
  }

  /** The "move actual constants around" step: the pool and its two flag arrays. */
  method MoveStage(c: JClass, rmap: array<int>, ghost fm: seq<int>, ghost p: seq<Const>, ghost us: seq<bool>, ghost ds: seq<bool>)
    requires c.Valid() && |fm| == c.pool.Length + 1 && Inverse(fm, rmap[..])
    requires c.pool[..] == p && c.used[..] == us && c.direct[..] == ds
    modifies c.pool, c.used, c.direct
    ensures Moved(fm, p, c.pool[..]) && Moved(fm, us, c.used[..]) && Moved(fm, ds, c.direct[..])
    ensures c.interfaces[..] == old(c.interfaces[..]) && c.fields[..] == old(c.fields[..]) && c.methods[..] == old(c.methods[..])
  {
    MoveArray(c.pool, rmap[..], fm);
    MoveArray(c.used, rmap[..], fm);
    MoveArray(c.direct, rmap[..], fm);
  }

  /** What the "create maps" step gives: `fm` sends old constant `j + 1` to its place in
      the three groups, `rm` is its inverse, and the two boundaries split the groups. */
  ghost predicate MapsFor(u: seq<bool>, d: seq<bool>, fm: seq<int>, rm: seq<int>, addressable: int, placed: int) {
    |u| == |d| && |fm| == |u| + 1 && Inverse(fm, rm) && Map16(fm) &&
    (forall j | 0 <= j < |u| :: fm[j + 1] == NewIndex(u, d, j)) &&
    (forall j | 0 <= j < |u| :: (d[j] <==> fm[j + 1] < addressable) && (u[j] <==> fm[j + 1] < placed))
  }

  /** The pool with every reference constant renumbered. */
  ghost function RemappedPool(pool: seq<Const>, fm: seq<int>): (r: seq<Const>)
    requires forall j | 0 <= j < |pool| :: RefsIn(pool[j], |fm|)
    ensures |r| == |pool|
  {
    seq(|pool|, j requires 0 <= j < |pool| => RemapConst(pool[j], fm))
  }

  /** The order the maps give, as values: the pool, renumbered, and its flags have moved
      by the maps into the three groups. */
  ghost predicate OrderedBy(pool: seq<Const>, u: seq<bool>, d: seq<bool>, fm: seq<int>, rm: seq<int>,
                            pool2: seq<Const>, used2: seq<bool>, direct2: seq<bool>, addressable: int, placed: int) {
    |u| == |pool| && MapsFor(u, d, fm, rm, addressable, placed) &&
    (forall j | 0 <= j < |pool| :: RefsIn(pool[j], |fm|)) &&
    Moved(fm, RemappedPool(pool, fm), pool2) && Moved(fm, u, used2) && Moved(fm, d, direct2)
  }

  /** The declarations renumbered through `fm`: this class and its superclass now name
      the strings their class constants led to. */
  ghost predicate DeclsRenumbered(pool: seq<Const>, fm: seq<int>, tc: int, sc: int, ifs: seq<int>, fs: seq<Member>, ats: seq<Attr>,
                                  tc2: int, sc2: int, ifs2: seq<int>, fs2: seq<Member>, ats2: seq<Attr>) {
    1 <= tc <= |pool| && 0 <= pool[tc - 1].first < |fm| && tc2 == fm[pool[tc - 1].first] &&
    (sc == 0 ==> sc2 == 0) &&
    (sc != 0 ==> 1 <= sc <= |pool| && 0 <= pool[sc - 1].first < |fm| && sc2 == fm[pool[sc - 1].first]) &&
    |ifs2| == |ifs| && (forall i | 0 <= i < |ifs| :: 0 <= ifs[i] < |fm| && ifs2[i] == fm[ifs[i]]) &&
    |fs2| == |fs| && (forall i | 0 <= i < |fs| :: MemberNamesIn(fs[i], |fm|) && fs2[i] == RemapMember(fs[i], fm)) &&
    AllNamesIn(ats, |fm|) && ats2 == RemapAttrs(ats, fm)
  }

  /** The methods at the end are the fixed methods with their names renumbered. */
  ghost predicate MethodsRenumbered(ms: seq<Member>, fixed: seq<Member>, final: seq<Member>, fm: seq<int>) {
    SameHeads(fixed, ms) && |final| == |fixed| &&
    forall i | 0 <= i < |fixed| :: MemberNamesIn(fixed[i], |fm|) && final[i] == RemapMember(fixed[i], fm)
  }

  /** The maps, the code fix, the renumbering and the move. */
  method ReorderStage(c: JClass, ghost pool: seq<Const>, ghost u: seq<bool>, ghost d: seq<bool>,
                      ghost tc: int, ghost sc: int, ghost ifs: seq<int>, ghost fs: seq<Member>, ghost ms: seq<Member>, ghost ats: seq<Attr>)
    returns (ghost fm: seq<int>, ghost rm: seq<int>, ghost fixed: seq<Member>)
    requires c.Valid() && c.pool[..] == pool && c.used[..] == u && c.direct[..] == d && FlagsOk(u, d)
    requires c.thisClass == tc && c.superClass == sc && c.interfaces[..] == ifs && c.fields[..] == fs && c.methods[..] == ms && c.attrs == ats
    requires forall i, j | 0 <= i < |ms| && 0 <= j < |ms[i].attrs| :: FixReadable(ms[i].attrs[j], |pool| + 1)
    requires forall i | 0 <= i < |pool| :: RefsIn(pool[i], |pool| + 1)
    requires DeclNamesIn(pool, tc, sc, ifs, fs, ms, ats, |pool| + 1)
    modifies c, c.pool, c.used, c.direct, c.interfaces, c.fields, c.methods
    ensures |fm| == |pool| + 1 && Map16(fm)
    ensures OrderedBy(pool, u, d, fm, rm, c.pool[..], c.used[..], c.direct[..], c.addressable, c.placed)
    ensures DeclsRenumbered(pool, fm, tc, sc, ifs, fs, ats, c.thisClass, c.superClass, c.interfaces[..], c.fields[..], c.attrs)
    ensures MethodsRenumbered(ms, fixed, c.methods[..], fm)
    ensures forall i | 0 <= i < |fixed| :: |fixed[i].attrs| == |ms[i].attrs|
    ensures forall i, j | 0 <= i < |fixed| && 0 <= j < |fixed[i].attrs| :: AttrFixedTo(ms[i].attrs[j], fixed[i].attrs[j], fm)
  {
    var fmap, rmap, addressable, placed := OrderStage(c, u, d);
    fm, rm := fmap[..], rmap[..];
    c.addressable, c.placed := addressable, placed;
    fixed := RenumberStage(c, pool, fmap, fm, fs, ms);
    ghost var p1, ifs2, fs2, ms2 := c.pool[..], c.interfaces[..], c.fields[..], c.methods[..];
    assert DeclsRenumbered(pool, fm, tc, sc, ifs, fs, ats, c.thisClass, c.superClass, ifs2, fs2, c.attrs);
    assert MethodsRenumbered(ms, fixed, ms2, fm);
    MoveStage(c, rmap, fm, p1, u, d);
    assert c.interfaces[..] == ifs2 && c.fields[..] == fs2 && c.methods[..] == ms2;
  }

  // ---------------------------------------------------------------------------
  // The whole compaction
  // ---------------------------------------------------------------------------

  /** Every attribute of the class, its fields and its methods has a name in the pool. */
  ghost predicate AttrNamesOk(pool: seq<Const>, fs: seq<Member>, ms: seq<Member>, ats: seq<Attr>) {
    (forall i | 0 <= i < |fs| :: AllNamesIn(fs[i].attrs, |pool| + 1)) &&
    (forall i | 0 <= i < |ms| :: AllNamesIn(ms[i].attrs, |pool| + 1)) &&
    AllNamesIn(ats, |pool| + 1)
  }

  /** The reference constants lead where the cascade and the renumbering can follow. */
  lemma TargetsAreRefs(pool: seq<Const>, i: int)
    requires 0 <= i < |pool| && TargetsReadable(pool, i)
    ensures RefsIn(pool[i], |pool| + 1)
  {
  }

  /** `optimised` is the methods' code after the optimisation pass and `final` the class's
      methods at the end: every instruction names, through the map, what it named before. */
  ghost predicate CodeFollows(final: seq<Member>, optimised: seq<Member>, fm: seq<int>) {
    |final| == |optimised| &&
    forall i | 0 <= i < |final| ::
      |final[i].attrs| == |optimised[i].attrs| &&
      forall j | 0 <= j < |final[i].attrs| ::
        final[i].attrs[j].Code? == optimised[i].attrs[j].Code? &&
        (final[i].attrs[j].Code? ==>
          var s, t := final[i].attrs[j].code, optimised[i].attrs[j].code;
          |s| == |t| && AllOk(s) && AllOk(t) && forall p | 0 <= p < |s| :: Operand(t[p]) < |fm| && Operand(s[p]) == fm[Operand(t[p])])
  }

  /** The methods after the optimisation pass: same heads, every code attribute rewritten. */
  ghost predicate OptimisedFrom(pool: seq<Const>, tc: int, fs: seq<Member>, ms0: seq<Member>, ms: seq<Member>) {
    (forall i | 0 <= i < |ms0| :: AttrsReadable(pool, tc, ms0, ms0[i].attrs)) &&
    SameHeads(ms, ms0) && MembersCodeOk(ms) &&
    forall i | 0 <= i < |ms| :: AttrsOptimisedTo(pool, tc, fs, ms0, ms0[i].attrs, ms[i].attrs)
  }

  /** The marks the ordering uses: a constant is directly used when it was already, when
      some method's optimised code names it or when a declaration names it; it is used
      when it is directly used or a directly used reference constant leads to it. */
  ghost predicate MarksFrom(pool: seq<Const>, tc: int, sc: int, ifs: seq<int>, fs0: seq<Member>, ms0: seq<Member>,
                            u0: seq<bool>, d0: seq<bool>, ms: seq<Member>, u: seq<bool>, d: seq<bool>) {
    |u0| == |pool| && |d0| == |pool| && |u| == |pool| && |d| == |pool| && FlagsOk(u, d) &&
    CascadeReadable(pool, d) && MembersCodeOk(ms) && DeclReadable(pool, tc, sc, ifs, fs0, ms0) &&
    (forall k | 0 <= k < |pool| :: d[k] == (d0[k] || MethodsName(ms, k + 1) || Declared(pool, tc, sc, ifs, fs0, ms0, k + 1))) &&
    (forall k | 0 <= k < |pool| :: u[k] == (u0[k] || d[k] || Reached(pool, d, |pool|, k + 1)))
  }

  /** `classOptimize`. Each fatal exit of the converter is `ok == false`. The ghost
      results name the intermediate states: the maps, the marks the ordering used, the
      methods after the optimisation pass and after the fix pass. */
  method Optimize(c: JClass, ghost pool: seq<Const>)
    returns (ok: bool, ghost fm: seq<int>, ghost rm: seq<int>, ghost u: seq<bool>, ghost d: seq<bool>,
             ghost optimised: seq<Member>, ghost fixed: seq<Member>)
    requires c.Valid() && c.pool[..] == pool && FlagsOk(c.used[..], c.direct[..])
    requires TypesReadable(pool, c.fields[..])
    requires forall i | 0 <= i < c.methods.Length :: AttrsReadable(pool, c.thisClass, c.methods[..], c.methods[i].attrs)
    requires DeclReadable(pool, c.thisClass, c.superClass, c.interfaces[..], c.fields[..], c.methods[..])
    requires forall i | 0 <= i < |pool| :: TargetsReadable(pool, i)
    requires AttrNamesOk(pool, c.fields[..], c.methods[..], c.attrs)
    modifies c, c.pool, c.used, c.direct, c.interfaces, c.fields, c.methods
    ensures ok <==> forall i | 0 <= i < c.methods.Length ::
      AttrsFine(pool, old(c.thisClass), LaidOut(pool, old(c.fields[..])), old(c.methods[..]), old(c.methods[i].attrs))
    ensures ok ==> OptimisedFrom(pool, old(c.thisClass), LaidOut(pool, old(c.fields[..])), old(c.methods[..]), optimised)
    ensures ok ==> MarksFrom(pool, old(c.thisClass), old(c.superClass), old(c.interfaces[..]), old(c.fields[..]), old(c.methods[..]),
                             old(c.used[..]), old(c.direct[..]), optimised, u, d)
    ensures ok ==> OrderedBy(pool, u, d, fm, rm, c.pool[..], c.used[..], c.direct[..], c.addressable, c.placed)
    ensures ok ==> DeclsRenumbered(pool, fm, old(c.thisClass), old(c.superClass), old(c.interfaces[..]), LaidOut(pool, old(c.fields[..])),
                                   old(c.attrs), c.thisClass, c.superClass, c.interfaces[..], c.fields[..], c.attrs)
    ensures ok ==> MethodsRenumbered(optimised, fixed, c.methods[..], fm) && CodeFollows(c.methods[..], optimised, fm)
  {
    ghost var tc, sc, ifs, fs0, ms0, at0 := c.thisClass, c.superClass, c.interfaces[..], c.fields[..], c.methods[..], c.attrs;
    ghost var u0, d0 := c.used[..], c.direct[..];
    fm, rm, u, d, optimised, fixed := [], [], [], [], [], [];
    ok := MarkStage(c, pool);
    if !ok {
      return;
    }
    optimised, u, d := c.methods[..], c.used[..], c.direct[..];
    ghost var laid := c.fields[..];
    assert OptimisedFrom(pool, tc, laid, ms0, optimised);
    assert MarksFrom(pool, tc, sc, ifs, fs0, ms0, u0, d0, optimised, u, d);
    ReadyToReorder(pool, tc, sc, ifs, fs0, laid, ms0, optimised, at0);
    fm, rm, fixed := ReorderStage(c, pool, u, d, tc, sc, ifs, laid, optimised, at0);
    CodeFollowsFix(pool, u, d, optimised, fixed, c.methods[..], fm);
  }

  /** After the marking, everything the renumbering reads lies in the pool. */
  lemma ReadyToReorder(pool: seq<Const>, tc: int, sc: int, ifs: seq<int>, fs0: seq<Member>, fs: seq<Member>,
                       ms0: seq<Member>, ms: seq<Member>, ats: seq<Attr>)
    requires forall i | 0 <= i < |ms0| :: AttrsReadable(pool, tc, ms0, ms0[i].attrs)
    requires DeclReadable(pool, tc, sc, ifs, fs0, ms0) && AttrNamesOk(pool, fs0, ms0, ats)
    requires forall i | 0 <= i < |pool| :: TargetsReadable(pool, i)
    requires TypesReadable(pool, fs0) && fs == LaidOut(pool, fs0)
    requires SameHeads(ms, ms0) && forall i | 0 <= i < |ms| :: AttrsOptimisedTo(pool, tc, fs, ms0, ms0[i].attrs, ms[i].attrs)
    ensures forall i | 0 <= i < |pool| :: RefsIn(pool[i], |pool| + 1)
    ensures forall i, j | 0 <= i < |ms| && 0 <= j < |ms[i].attrs| :: FixReadable(ms[i].attrs[j], |pool| + 1)
    ensures DeclNamesIn(pool, tc, sc, ifs, fs, ms, ats, |pool| + 1)
  {
    forall i | 0 <= i < |pool| ensures RefsIn(pool[i], |pool| + 1) {
      TargetsAreRefs(pool, i);
    }
    forall i, j | 0 <= i < |ms| && 0 <= j < |ms[i].attrs| ensures FixReadable(ms[i].attrs[j], |pool| + 1) {
      OptimisedInRange(pool, tc, fs, ms0, ms0[i].attrs[j], ms[i].attrs[j]);
    }
    forall i | 0 <= i < |ms| ensures MemberNamesIn(ms[i], |pool| + 1) {
      forall j | 0 <= j < |ms[i].attrs| ensures AttrNamesIn(ms[i].attrs[j], |pool| + 1) {
        assert AttrNamesIn(ms0[i].attrs[j], |pool| + 1);
      }
    }
    forall i | 0 <= i < |fs| ensures MemberNamesIn(fs[i], |pool| + 1) {
      LaidOutAt(pool, fs0, i);
    }
  }

  /** The code at the end names, through the map, what the optimised code named. */
  lemma CodeFollowsFix(pool: seq<Const>, u: seq<bool>, d: seq<bool>, ms: seq<Member>, fixed: seq<Member>,
                       final: seq<Member>, fm: seq<int>)
    requires |u| == |pool| && |d| == |pool| && |fm| == |pool| + 1 && fm[0] == 0 && Map16(fm)
    requires MembersCodeOk(ms) && forall k | 0 <= k < |pool| :: MethodsName(ms, k + 1) ==> d[k]
    requires forall k | 0 <= k < |pool| :: fm[k + 1] == NewIndex(u, d, k)
    requires forall i, j | 0 <= i < |ms| && 0 <= j < |ms[i].attrs| :: FixReadable(ms[i].attrs[j], |pool| + 1)
    requires MethodsRenumbered(ms, fixed, final, fm) && forall i | 0 <= i < |fixed| :: |fixed[i].attrs| == |ms[i].attrs|
    requires forall i, j | 0 <= i < |fixed| && 0 <= j < |fixed[i].attrs| :: AttrFixedTo(ms[i].attrs[j], fixed[i].attrs[j], fm)
    ensures CodeFollows(final, ms, fm)
  {
    forall i, j, p | 0 <= i < |ms| && 0 <= j < |ms[i].attrs| && ms[i].attrs[j].Code? && 0 <= p < |ms[i].attrs[j].code|
      ensures Operand(final[i].attrs[j].code[p]) == fm[Operand(ms[i].attrs[j].code[p])]
    {
      assert final[i].attrs[j] == RemapAttr(fixed[i].attrs[j], fm);
      InstrFollows(pool, u, d, ms, fm, i, j, p);
    }
  }

  /** The optimised code names only constants of the pool. */
  lemma OptimisedInRange(pool: seq<Const>, thisClass: int, fs: seq<Member>, ms: seq<Member>, a: Attr, b: Attr)
    requires a.Code? ==> CodeReadable(pool, thisClass, ms, a.code) && ExcsReadable(a.excs, |pool|)
    requires AttrOptimisedTo(pool, thisClass, fs, ms, a, b)
    ensures FixReadable(b, |pool| + 1)
  {
    if a.Code? {
      forall i | 0 <= i < |a.code| ensures InstrOk(b.code[i]) && Operand(b.code[i]) <= |pool| {
        OptInstrDropsReferences(pool, thisClass, fs, ms, a.code[i]);
      }
    }
  }

  /** The fix pass sends each instruction's constant through the map without losing a
      bit: an 8-bit `ldc` names a directly used constant, which never moves up. */
  lemma InstrFollows(pool: seq<Const>, u: seq<bool>, d: seq<bool>, ms: seq<Member>, fm: seq<int>, i: int, j: int, p: int)
    requires |u| == |pool| && |d| == |pool| && |fm| == |pool| + 1 && Map16(fm) && fm[0] == 0
    requires MembersCodeOk(ms) && 0 <= i < |ms| && 0 <= j < |ms[i].attrs| && ms[i].attrs[j].Code?
    requires 0 <= p < |ms[i].attrs[j].code| && Operand(ms[i].attrs[j].code[p]) <= |pool|
    requires forall k | 0 <= k < |pool| :: MethodsName(ms, k + 1) ==> d[k]
    requires forall k | 0 <= k < |pool| :: fm[k + 1] == NewIndex(u, d, k)
    ensures Operand(FixInstr(ms[i].attrs[j].code[p], fm)) == fm[Operand(ms[i].attrs[j].code[p])]
  {
    var code := ms[i].attrs[j].code;
    var t := code[p];
    if t.op == OpLdc && t.bytes[0] != 0 {
      var b: int := t.bytes[0];
      MentionedIff(code, b);
      NamedInMethods(ms, i, j, b);
      DirectNeverRises(u, d, b - 1);
    }
    FixOperand(t, fm);
  }

  /** A constant some method's code names is found by `MethodsName`. */
  lemma {:induction false} NamedInMethods(ms: seq<Member>, i: int, j: int, k: int)
    requires MembersCodeOk(ms) && 0 <= i < |ms| && 0 <= j < |ms[i].attrs| && ms[i].attrs[j].Code?
    requires Mentioned(ms[i].attrs[j].code, k)
    ensures MethodsName(ms, k)
    decreases |ms|
  {
    if i < |ms| - 1 {
      var ms' := ms[..|ms| - 1];
      assert ms'[i] == ms[i];
      NamedInMethods(ms', i, j, k);
    } else {
      NamedInAttrs(ms[i].attrs, j, k);
    }
  }

  lemma {:induction false} NamedInAttrs(ats: seq<Attr>, j: int, k: int)
    requires forall j' | 0 <= j' < |ats| :: ats[j'].Code? ==> AllOk(ats[j'].code)
    requires 0 <= j < |ats| && ats[j].Code? && Mentioned(ats[j].code, k)
    ensures CodeNames(ats, k)
    decreases |ats|
  {
    if j < |ats| - 1 {
      var ats' := ats[..|ats| - 1];
      assert ats'[j] == ats[j];
      NamedInAttrs(ats', j, k);
    }
  }
}
