/** The per-method steps of `classOptimize` (classCvt/classOptimizer.c) that walk the
    attributes: optimising each method's code and marking what it names, sending the code
    through the constant map once the pool is reordered, and renumbering the names of
    attributes. The code of a method is the instruction list the basic-block engine hands
    to a pass. */
module MethodCode {
  import opened Bytes
  import opened ConvClass
  import opened CodePasses
  import opened PoolMarks
  import ConstantOrder

  // ---------------------------------------------------------------------------
  // The optimisation step
  // ---------------------------------------------------------------------------

  /** The passes can work on this code: every instruction can be optimised and marked. */
  ghost predicate CodeReadable(pool: seq<Const>, thisClass: int, ms: seq<Member>, code: seq<Instr>) {
    forall i | 0 <= i < |code| :: InstrReadable(pool, thisClass, ms, code[i]) && Operand(code[i]) <= |pool|
  }

  ghost predicate ExcsReadable(excs: seq<Exc>, n: int) {
    forall e | 0 <= e < |excs| :: 0 <= excs[e].catchType <= n
  }

  /** Every code attribute of `ats` can be worked on. */
  ghost predicate AttrsReadable(pool: seq<Const>, thisClass: int, ms: seq<Member>, ats: seq<Attr>) {
    forall j | 0 <= j < |ats| :: ats[j].Code? ==> CodeReadable(pool, thisClass, ms, ats[j].code) && ExcsReadable(ats[j].excs, |pool|)
  }

  ghost predicate Optimisable(pool: seq<Const>, thisClass: int, fs: seq<Member>, ms: seq<Member>, code: seq<Instr>)
    requires CodeReadable(pool, thisClass, ms, code)
  {
    forall i | 0 <= i < |code| :: OptInstr(pool, thisClass, fs, ms, code[i]).Some?
  }

  /** `code2` is `code` after the optimisation pass: each instruction rewritten by itself. */
  ghost predicate OptimisedTo(pool: seq<Const>, thisClass: int, fs: seq<Member>, ms: seq<Member>, code: seq<Instr>, code2: seq<Instr>)
    requires CodeReadable(pool, thisClass, ms, code)
  {
    |code2| == |code| && forall i | 0 <= i < |code| :: OptInstr(pool, thisClass, fs, ms, code[i]) == Some(code2[i])
  }

  /** A method's attributes can be optimised: at most one of them is code, and every
      instruction of it can be rewritten. */
  ghost predicate AttrsFine(pool: seq<Const>, thisClass: int, fs: seq<Member>, ms: seq<Member>, ats: seq<Attr>)
    requires AttrsReadable(pool, thisClass, ms, ats)
  {
    (forall j1, j2 | 0 <= j1 < j2 < |ats| :: !(ats[j1].Code? && ats[j2].Code?)) &&
    (forall j | 0 <= j < |ats| :: ats[j].Code? ==> Optimisable(pool, thisClass, fs, ms, ats[j].code))
  }

  /** `b` is attribute `a` after optimisation: only the code of a code attribute changes. */
  ghost predicate AttrOptimisedTo(pool: seq<Const>, thisClass: int, fs: seq<Member>, ms: seq<Member>, a: Attr, b: Attr)
    requires a.Code? ==> CodeReadable(pool, thisClass, ms, a.code)
  {
    if a.Code? then b.Code? && b == a.(code := b.code) && OptimisedTo(pool, thisClass, fs, ms, a.code, b.code)
    else b == a
  }

  ghost predicate AttrsOptimisedTo(pool: seq<Const>, thisClass: int, fs: seq<Member>, ms: seq<Member>, ats: seq<Attr>, bs: seq<Attr>)
    requires AttrsReadable(pool, thisClass, ms, ats)
  {
    |bs| == |ats| && forall j | 0 <= j < |ats| :: AttrOptimisedTo(pool, thisClass, fs, ms, ats[j], bs[j])
  }

  /** Some code attribute of `ats` names constant `k`, by an instruction or a catch type. */
  ghost predicate CodeNames(ats: seq<Attr>, k: int)
    requires forall j | 0 <= j < |ats| :: ats[j].Code? ==> AllOk(ats[j].code)
  {
    |ats| > 0 &&
    ((ats[|ats| - 1].Code? && (Mentioned(ats[|ats| - 1].code, k) || CaughtBy(ats[|ats| - 1].excs, |ats[|ats| - 1].excs|, k))) ||
     CodeNames(ats[..|ats| - 1], k))
  }

  lemma CodeNamesStep(bs: seq<Attr>, a: Attr)
    requires forall j | 0 <= j < |bs| :: bs[j].Code? ==> AllOk(bs[j].code)
    requires a.Code? ==> AllOk(a.code)
    ensures forall k :: CodeNames(bs + [a], k) <==>
      ((a.Code? && (Mentioned(a.code, k) || CaughtBy(a.excs, |a.excs|, k))) || CodeNames(bs, k))
  {
    assert (bs + [a])[..|bs|] == bs;
  }

  ghost predicate MembersCodeOk(ms: seq<Member>) {
    forall i, j | 0 <= i < |ms| && 0 <= j < |ms[i].attrs| :: ms[i].attrs[j].Code? ==> AllOk(ms[i].attrs[j].code)
  }

  /** The code of some method among `ms` names constant `k`. */
  ghost predicate MethodsName(ms: seq<Member>, k: int)
    requires MembersCodeOk(ms)
  {
    |ms| > 0 && (CodeNames(ms[|ms| - 1].attrs, k) || MethodsName(ms[..|ms| - 1], k))
  }

  lemma MethodsNameStep(ms: seq<Member>, m: Member)
    requires MembersCodeOk(ms) && forall j | 0 <= j < |m.attrs| :: m.attrs[j].Code? ==> AllOk(m.attrs[j].code)
    ensures MembersCodeOk(ms + [m])
    ensures forall k :: MethodsName(ms + [m], k) <==> (CodeNames(m.attrs, k) || MethodsName(ms, k))
  {
    assert (ms + [m])[..|ms|] == ms;
  }

  /** One code attribute: the optimisation pass, then the marking of every constant the
      new code and the exception table name. */
  method OptimiseCodeAttr(c: JClass, ghost pool: seq<Const>, ghost fs: seq<Member>, ghost ms: seq<Member>, a: Attr)
    returns (ok: bool, b: Attr)
    requires c.Valid() && c.pool[..] == pool && SameHeads(c.fields[..], fs) && SameHeads(c.methods[..], ms)
    requires a.Code? && CodeReadable(pool, c.thisClass, ms, a.code) && ExcsReadable(a.excs, |pool|)
    modifies c.used, c.direct
    ensures ok <==> Optimisable(pool, c.thisClass, fs, ms, a.code)
    ensures ok ==> AttrOptimisedTo(pool, c.thisClass, fs, ms, a, b) && AllOk(b.code)
    ensures ok ==> forall k | 0 <= k < c.used.Length ::
      c.used[k] == (old(c.used[k]) || Mentioned(b.code, k + 1) || CaughtBy(b.excs, |b.excs|, k + 1))
    ensures ok ==> forall k | 0 <= k < c.used.Length ::
      c.direct[k] == (old(c.direct[k]) || Mentioned(b.code, k + 1) || CaughtBy(b.excs, |b.excs|, k + 1))
  {
    var instrs := new Instr[|a.code|](i requires 0 <= i < |a.code| => a.code[i]);
    assert instrs[..] == a.code;
    ok := OptimizationPass(c, pool, fs, ms, instrs);
    if !ok {
      return false, a;
    }
    forall i | 0 <= i < instrs.Length
      ensures InstrOk(instrs[i]) && Operand(instrs[i]) <= c.used.Length
    {
      OptInstrDropsReferences(pool, c.thisClass, fs, ms, a.code[i]);
    }
    MarkConstantsPass(instrs, c.used, c.direct);
    MarkCatchTypes(c.used, c.direct, a.excs);
    b := a.(code := instrs[..]);
  }

  /** The code attributes of one method. A second code attribute is fatal. */
  method OptimiseMethod(c: JClass, ghost pool: seq<Const>, ghost fs: seq<Member>, ghost ms: seq<Member>, i: int)
    returns (ok: bool)
    requires c.Valid() && c.pool[..] == pool && SameHeads(c.fields[..], fs) && SameHeads(c.methods[..], ms)
    requires 0 <= i < c.methods.Length && AttrsReadable(pool, c.thisClass, ms, c.methods[i].attrs)
    modifies c.methods, c.used, c.direct
    ensures ok <==> AttrsFine(pool, c.thisClass, fs, ms, old(c.methods[i].attrs))
    ensures forall i' | 0 <= i' < c.methods.Length && i' != i :: c.methods[i'] == old(c.methods[i'])
    ensures ok ==> c.methods[i] == old(c.methods[i]).(attrs := c.methods[i].attrs)
    ensures ok ==> AttrsOptimisedTo(pool, c.thisClass, fs, ms, old(c.methods[i].attrs), c.methods[i].attrs)
    ensures ok ==> forall j | 0 <= j < |c.methods[i].attrs| :: c.methods[i].attrs[j].Code? ==> AllOk(c.methods[i].attrs[j].code)
    ensures ok ==> forall k | 0 <= k < c.used.Length :: c.used[k] == (old(c.used[k]) || CodeNames(c.methods[i].attrs, k + 1))
    ensures ok ==> forall k | 0 <= k < c.used.Length :: c.direct[k] == (old(c.direct[k]) || CodeNames(c.methods[i].attrs, k + 1))
  {
    ghost var u0, d0 := c.used[..], c.direct[..];
    var ats := c.methods[i].attrs;
    var bs: seq<Attr> := [];
    var found := false;
    var j := 0;
    while j < |ats|
      invariant 0 <= j <= |ats| && |bs| == j && c.methods[..] == old(c.methods[..])
      invariant found <==> exists j' | 0 <= j' < j :: ats[j'].Code?
      invariant forall j1, j2 | 0 <= j1 < j2 < j :: !(ats[j1].Code? && ats[j2].Code?)
      invariant forall j' | 0 <= j' < j :: ats[j'].Code? ==> Optimisable(pool, c.thisClass, fs, ms, ats[j'].code)
      invariant forall j' | 0 <= j' < j :: AttrOptimisedTo(pool, c.thisClass, fs, ms, ats[j'], bs[j'])
      invariant forall j' | 0 <= j' < j :: bs[j'].Code? ==> AllOk(bs[j'].code)
      invariant forall k | 0 <= k < c.used.Length :: c.used[k] == (u0[k] || CodeNames(bs, k + 1))
      invariant forall k | 0 <= k < c.used.Length :: c.direct[k] == (d0[k] || CodeNames(bs, k + 1))
    {
      var a := ats[j];
      if a.Code? {
        if found {
          return false;
        }
        found := true;
        ok, a := OptimiseCodeAttr(c, pool, fs, ms, a);
        if !ok {
          return false;
        }
      }
      CodeNamesStep(bs, a);
      bs := bs + [a];
      j := j + 1;
    }
    c.methods[i] := c.methods[i].(attrs := bs);
    return true;
  }

  /** The "code optimization pass(es)" step: every method's code, in order. */
  method OptimiseCode(c: JClass, ghost pool: seq<Const>)
    returns (ok: bool)
    requires c.Valid() && c.pool[..] == pool
    requires forall i | 0 <= i < c.methods.Length :: AttrsReadable(pool, c.thisClass, c.methods[..], c.methods[i].attrs)
    modifies c.methods, c.used, c.direct
    ensures ok <==> forall i | 0 <= i < c.methods.Length ::
      AttrsFine(pool, c.thisClass, c.fields[..], old(c.methods[..]), old(c.methods[i].attrs))
    ensures ok ==> SameHeads(c.methods[..], old(c.methods[..])) && MembersCodeOk(c.methods[..])
    ensures ok ==> forall i | 0 <= i < c.methods.Length ::
      AttrsOptimisedTo(pool, c.thisClass, c.fields[..], old(c.methods[..]), old(c.methods[i].attrs), c.methods[i].attrs)
    ensures ok ==> forall k | 0 <= k < c.used.Length :: c.used[k] == (old(c.used[k]) || MethodsName(c.methods[..], k + 1))
    ensures ok ==> forall k | 0 <= k < c.used.Length :: c.direct[k] == (old(c.direct[k]) || MethodsName(c.methods[..], k + 1))
  {
    ghost var fs, ms, u0, d0 := c.fields[..], c.methods[..], c.used[..], c.direct[..];
    var i := 0;
    while i < c.methods.Length
      invariant 0 <= i <= c.methods.Length && SameHeads(c.methods[..], ms)
      invariant forall i' | i <= i' < c.methods.Length :: c.methods[i'] == ms[i']
      invariant forall i' | 0 <= i' < i :: AttrsFine(pool, c.thisClass, fs, ms, ms[i'].attrs)
      invariant forall i' | 0 <= i' < i :: AttrsOptimisedTo(pool, c.thisClass, fs, ms, ms[i'].attrs, c.methods[i'].attrs)
      invariant MembersCodeOk(c.methods[..i])
      invariant forall k | 0 <= k < c.used.Length :: c.used[k] == (u0[k] || MethodsName(c.methods[..i], k + 1))
      invariant forall k | 0 <= k < c.used.Length :: c.direct[k] == (d0[k] || MethodsName(c.methods[..i], k + 1))
    {
      ghost var before := c.methods[..];
      ok := OptimiseMethod(c, pool, fs, ms, i);
      if !ok {
        return false;
      }
      assert c.methods[..i] == before[..i];
      assert c.methods[..i + 1] == c.methods[..i] + [c.methods[i]];
      MethodsNameStep(c.methods[..i], c.methods[i]);
      i := i + 1;
    }
    assert c.methods[..i] == c.methods[..];
    return true;
  }

  // ---------------------------------------------------------------------------
  // Following the constant map
  // ---------------------------------------------------------------------------

  /** A map of length `n` can be applied to an attribute's code and exception table. */
  ghost predicate FixReadable(a: Attr, n: int) {
    a.Code? ==> (AllOk(a.code) &&
      (forall i | 0 <= i < |a.code| :: Operand(a.code[i]) < n) &&
      (forall e | 0 <= e < |a.excs| :: 0 <= a.excs[e].catchType < n))
  }

  /** `b` is `a` with its code and catch types sent through the map. */
  ghost predicate AttrFixedTo(a: Attr, b: Attr, fm: seq<int>)
    requires FixReadable(a, |fm|) && Map16(fm)
  {
    if a.Code? then
      b.Code? && b == a.(code := b.code, excs := b.excs) &&
      |b.code| == |a.code| && (forall i | 0 <= i < |a.code| :: b.code[i] == FixInstr(a.code[i], fm)) &&
      |b.excs| == |a.excs| && (forall e | 0 <= e < |a.excs| :: b.excs[e] == a.excs[e].(catchType := fm[a.excs[e].catchType]))
    else b == a
  }

  /** The catch types of an exception table sent through the map. */
  method FixCatchTypes(excs: seq<Exc>, fm: array<int>) returns (r: seq<Exc>)
    requires forall e | 0 <= e < |excs| :: 0 <= excs[e].catchType < fm.Length
    ensures |r| == |excs| && forall e | 0 <= e < |excs| :: r[e] == excs[e].(catchType := fm[excs[e].catchType])
  {
    r := [];
    var e := 0;
    while e < |excs|
      invariant 0 <= e <= |excs| && |r| == e
      invariant forall e' | 0 <= e' < e :: r[e'] == excs[e'].(catchType := fm[excs[e'].catchType])
    {
      r := r + [excs[e].(catchType := fm[excs[e].catchType])];
      e := e + 1;
    }
  }

  /** One code attribute through the map: the fix pass over its code, then the catch types. */
  method FixCodeAttr(a: Attr, fm: array<int>) returns (b: Attr)
    requires a.Code? && FixReadable(a, fm.Length) && Map16(fm[..])
    ensures AttrFixedTo(a, b, fm[..])
  {
    var instrs := new Instr[|a.code|](i requires 0 <= i < |a.code| => a.code[i]);
    assert instrs[..] == a.code;
    FixConstantsPass(instrs, fm);
    var excs := FixCatchTypes(a.excs, fm);
    b := a.(code := instrs[..], excs := excs);
  }

  /** The "correct code for the reordered constants" step over one method. */
  method FixMethod(c: JClass, fm: array<int>, i: int)
    requires c.Valid() && 0 <= i < c.methods.Length && Map16(fm[..])
    requires forall j | 0 <= j < |c.methods[i].attrs| :: FixReadable(c.methods[i].attrs[j], fm.Length)
    modifies c.methods
    ensures forall i' | 0 <= i' < c.methods.Length && i' != i :: c.methods[i'] == old(c.methods[i'])
    ensures c.methods[i] == old(c.methods[i]).(attrs := c.methods[i].attrs)
    ensures |c.methods[i].attrs| == |old(c.methods[i].attrs)|
    ensures forall j | 0 <= j < |c.methods[i].attrs| :: AttrFixedTo(old(c.methods[i].attrs[j]), c.methods[i].attrs[j], fm[..])
  {
    var ats := c.methods[i].attrs;
    var bs: seq<Attr> := [];
    var j := 0;
    while j < |ats|
      invariant 0 <= j <= |ats| && |bs| == j && c.methods[..] == old(c.methods[..])
      invariant forall j' | 0 <= j' < j :: AttrFixedTo(ats[j'], bs[j'], fm[..])
    {
      var a := ats[j];
      if a.Code? {
        a := FixCodeAttr(a, fm);
      }
      bs := bs + [a];
      j := j + 1;
    }
    c.methods[i] := c.methods[i].(attrs := bs);
  }

  method FixCode(c: JClass, fm: array<int>)
    requires c.Valid() && Map16(fm[..])
    requires forall i, j | 0 <= i < c.methods.Length && 0 <= j < |c.methods[i].attrs| :: FixReadable(c.methods[i].attrs[j], fm.Length)
    modifies c.methods
    ensures SameHeads(c.methods[..], old(c.methods[..]))
    ensures forall i | 0 <= i < c.methods.Length :: |c.methods[i].attrs| == |old(c.methods[i].attrs)|
    ensures forall i, j | 0 <= i < c.methods.Length && 0 <= j < |c.methods[i].attrs| ::
      AttrFixedTo(old(c.methods[i].attrs[j]), c.methods[i].attrs[j], fm[..])
  {
    ghost var ms := c.methods[..];
    var i := 0;
    while i < c.methods.Length
      invariant 0 <= i <= c.methods.Length && SameHeads(c.methods[..], ms)
      invariant forall i' | i <= i' < c.methods.Length :: c.methods[i'] == ms[i']
      invariant forall i' | 0 <= i' < i :: |c.methods[i'].attrs| == |ms[i'].attrs|
      invariant forall i', j | 0 <= i' < i && 0 <= j < |c.methods[i'].attrs| :: AttrFixedTo(ms[i'].attrs[j], c.methods[i'].attrs[j], fm[..])
    {
      FixMethod(c, fm, i);
      i := i + 1;
    }
  }

  // ---------------------------------------------------------------------------
  // Attribute names
  // ---------------------------------------------------------------------------

  /** The names of an attribute and of the attributes nested in its code lie below `n`. */
  ghost predicate AttrNamesIn(a: Attr, n: int)
    decreases a
  {
    0 <= a.nameIdx < n && (a.Code? ==> forall j | 0 <= j < |a.attrs| :: AttrNamesIn(a.attrs[j], n))
  }

  /** `classOptPrvRemapAttrs` on one attribute: its name and, for code, the names of the
      attributes nested in it go through the map; nothing else changes. */
  function RemapAttr(a: Attr, fm: seq<int>): (r: Attr)
    requires AttrNamesIn(a, |fm|)
    ensures r.nameIdx == fm[a.nameIdx] && r.Code? == a.Code?
    ensures r.Generic? ==> r.data == a.data
    ensures r.Code? ==> r.code == a.code && r.excs == a.excs && |r.attrs| == |a.attrs|
    decreases a
  {
    match a
    case Generic(n, d) => Generic(fm[n], d)
    case Code(n, code, excs, ats) =>
      Code(fm[n], code, excs, seq(|ats|, j requires 0 <= j < |ats| => RemapAttr(ats[j], fm)))
  }

  ghost predicate AllNamesIn(ats: seq<Attr>, n: int) {
    forall j | 0 <= j < |ats| :: AttrNamesIn(ats[j], n)
  }

  function RemapAttrs(ats: seq<Attr>, fm: seq<int>): (r: seq<Attr>)
    requires AllNamesIn(ats, |fm|)
    ensures |r| == |ats|
  {
    seq(|ats|, j requires 0 <= j < |ats| => RemapAttr(ats[j], fm))
  }

  /** The recursive renaming, in place on the attribute list. */
  method RemapAttrList(ats: seq<Attr>, fm: array<int>) returns (r: seq<Attr>)
    requires AllNamesIn(ats, fm.Length)
    ensures r == RemapAttrs(ats, fm[..])
    decreases ats
  {
    r := [];
    var j := 0;
    while j < |ats|
      invariant 0 <= j <= |ats| && |r| == j
      invariant forall j' | 0 <= j' < j :: r[j'] == RemapAttr(ats[j'], fm[..])
    {
      var a := ats[j];
      if a.Code? {
        var inner := RemapAttrList(a.attrs, fm);
        a := Code(fm[a.nameIdx], a.code, a.excs, inner);
      } else {
        a := Generic(fm[a.nameIdx], a.data);
      }
      r := r + [a];
      j := j + 1;
    }
  }

  /** Renaming by a permutation loses nothing: the inverse map gives back the original
      attribute. */
  lemma {:induction false} RemapAttrInverse(a: Attr, fm: seq<int>, rm: seq<int>)
    requires ConstantOrder.Inverse(fm, rm) && AttrNamesIn(a, |fm|)
    ensures AttrNamesIn(RemapAttr(a, fm), |rm|) && RemapAttr(RemapAttr(a, fm), rm) == a
    decreases a
  {
    var r := RemapAttr(a, fm);
    if a.Code? {
      forall j | 0 <= j < |a.attrs| ensures AttrNamesIn(r.attrs[j], |rm|) && RemapAttr(r.attrs[j], rm) == a.attrs[j] {
        RemapAttrInverse(a.attrs[j], fm, rm);
      }
      assert RemapAttr(r, rm).attrs == a.attrs;
    }
  }

  lemma RemapAttrsInverse(ats: seq<Attr>, fm: seq<int>, rm: seq<int>)
    requires ConstantOrder.Inverse(fm, rm) && AllNamesIn(ats, |fm|)
    ensures AllNamesIn(RemapAttrs(ats, fm), |rm|) && RemapAttrs(RemapAttrs(ats, fm), rm) == ats
  {
    forall j | 0 <= j < |ats| ensures AttrNamesIn(RemapAttrs(ats, fm)[j], |rm|) && RemapAttr(RemapAttrs(ats, fm)[j], rm) == ats[j] {
      RemapAttrInverse(ats[j], fm, rm);
    }
  }
}
