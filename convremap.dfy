/** Renumbering every constant index the compact class keeps once the pool order is
    chosen (classCvt/classOptimizer.c, the "correct other constant sources" and "correct
    constant->constant refs" steps of `classOptimize`). Each renumbering goes through the
    forward map; sent back through the reverse map it gives the original. */
module Renumber {
  import opened ConvClass
  import opened MethodCode
  import ConstantOrder

  // ---------------------------------------------------------------------------
  // Constants
  // ---------------------------------------------------------------------------

  /** The indices a reference constant holds lie below `n`. */
  ghost predicate RefsIn(e: Const, n: int) {
    (NamesOne(e.tag) ==> 0 <= e.first < n) && (NamesTwo(e.tag) ==> 0 <= e.first < n && 0 <= e.second < n)
  }

  /** A class or string reference renames its string; a member reference or a
      name-and-type renames both its words; other constants carry no index. */
  function RemapConst(e: Const, fm: seq<int>): (r: Const)
    requires RefsIn(e, |fm|)
    ensures r.tag == e.tag && r.raw == e.raw && r.text == e.text
    ensures r.first == (if NamesOne(e.tag) || NamesTwo(e.tag) then fm[e.first] else e.first)
    ensures r.second == (if NamesTwo(e.tag) then fm[e.second] else e.second)
  {
    if NamesOne(e.tag) then e.(first := fm[e.first])
    else if NamesTwo(e.tag) then e.(first := fm[e.first], second := fm[e.second])
    else e
  }

  lemma RemapConstInverse(e: Const, fm: seq<int>, rm: seq<int>)
    requires ConstantOrder.Inverse(fm, rm) && RefsIn(e, |fm|)
    ensures RefsIn(RemapConst(e, fm), |rm|) && RemapConst(RemapConst(e, fm), rm) == e
  {
  }

  /** The constant-to-constant step, over the whole pool. */
  method RemapPool(pool: array<Const>, fm: array<int>)
    requires forall i | 0 <= i < pool.Length :: RefsIn(pool[i], fm.Length)
    modifies pool
    ensures forall i | 0 <= i < pool.Length :: pool[i] == RemapConst(old(pool[i]), fm[..])
  {
    var i := 0;
    while i < pool.Length
      invariant 0 <= i <= pool.Length
      invariant forall j | 0 <= j < i :: pool[j] == RemapConst(old(pool[j]), fm[..])
      invariant forall j | i <= j < pool.Length :: pool[j] == old(pool[j])
    {
      var e := pool[i];
      if e.tag == CClass || e.tag == CStrRef {
        pool[i] := e.(first := fm[e.first]);
      }
      if e.tag == CField || e.tag == CMethod || e.tag == CInterface || e.tag == CNameType {
        pool[i] := e.(first := fm[e.first], second := fm[e.second]);
      }
      i := i + 1;
    }
  }

  // ---------------------------------------------------------------------------
  // Declarations
  // ---------------------------------------------------------------------------

  ghost predicate MemberNamesIn(m: Member, n: int) {
    0 <= m.nameIdx < n && 0 <= m.descrIdx < n && AllNamesIn(m.attrs, n)
  }

  /** A field or method with its name, its descriptor and its attributes' names renumbered. */
  function RemapMember(m: Member, fm: seq<int>): (r: Member)
    requires MemberNamesIn(m, |fm|)
    ensures r.access == m.access && r.offset == m.offset && r.typ == m.typ
    ensures r.nameIdx == fm[m.nameIdx] && r.descrIdx == fm[m.descrIdx] && r.attrs == RemapAttrs(m.attrs, fm)
  {
    m.(nameIdx := fm[m.nameIdx], descrIdx := fm[m.descrIdx], attrs := RemapAttrs(m.attrs, fm))
  }

  lemma RemapMemberInverse(m: Member, fm: seq<int>, rm: seq<int>)
    requires ConstantOrder.Inverse(fm, rm) && MemberNamesIn(m, |fm|)
    ensures MemberNamesIn(RemapMember(m, fm), |rm|) && RemapMember(RemapMember(m, fm), rm) == m
  {
    RemapAttrsInverse(m.attrs, fm, rm);
  }

  /** The field loop and the method loop. */
  method RemapMembers(ms: array<Member>, fm: array<int>)
    requires forall i | 0 <= i < ms.Length :: MemberNamesIn(ms[i], fm.Length)
    modifies ms
    ensures forall i | 0 <= i < ms.Length :: ms[i] == RemapMember(old(ms[i]), fm[..])
  {
    var i := 0;
    while i < ms.Length
      invariant 0 <= i <= ms.Length
      invariant forall j | 0 <= j < i :: ms[j] == RemapMember(old(ms[j]), fm[..])
      invariant forall j | i <= j < ms.Length :: ms[j] == old(ms[j])
    {
      var m := ms[i];
      var ats := RemapAttrList(m.attrs, fm);
      ms[i] := m.(nameIdx := fm[m.nameIdx], descrIdx := fm[m.descrIdx], attrs := ats);
      i := i + 1;
    }
  }

  /** The interface loop. */
  method RemapList(s: array<int>, fm: array<int>)
    requires s != fm && forall i | 0 <= i < s.Length :: 0 <= s[i] < fm.Length
    modifies s
    ensures forall i | 0 <= i < s.Length :: s[i] == fm[old(s[i])]
  {
    var i := 0;
    while i < s.Length
      invariant 0 <= i <= s.Length
      invariant forall j | 0 <= j < i :: s[j] == fm[old(s[j])]
      invariant forall j | i <= j < s.Length :: s[j] == old(s[j])
    {
      s[i] := fm[s[i]];
      i := i + 1;
    }
  }

  /** What the declarations hold can be renumbered by a map of length `n`. */
  ghost predicate DeclNamesIn(pool: seq<Const>, thisClass: int, superClass: int, ifs: seq<int>,
                              fs: seq<Member>, ms: seq<Member>, ats: seq<Attr>, n: int) {
    1 <= thisClass <= |pool| && 0 <= pool[thisClass - 1].first < n &&
    (superClass != 0 ==> 1 <= superClass <= |pool| && 0 <= pool[superClass - 1].first < n) &&
    (forall i | 0 <= i < |ifs| :: 0 <= ifs[i] < n) &&
    (forall i | 0 <= i < |fs| :: MemberNamesIn(fs[i], n)) &&
    (forall i | 0 <= i < |ms| :: MemberNamesIn(ms[i], n)) &&
    AllNamesIn(ats, n)
  }

  /** The "correct other constant sources" step. This class and its superclass are
      re-pointed from their class constants to the name strings those lead to. */
  method RemapDeclared(c: JClass, ghost pool: seq<Const>, fm: array<int>)
    requires c.Valid() && c.pool[..] == pool && fm != c.interfaces
    requires DeclNamesIn(pool, c.thisClass, c.superClass, c.interfaces[..], c.fields[..], c.methods[..], c.attrs, fm.Length)
    modifies c, c.interfaces, c.fields, c.methods
    ensures c.thisClass == fm[pool[old(c.thisClass) - 1].first]
    ensures old(c.superClass) == 0 ==> c.superClass == 0
    ensures old(c.superClass) != 0 ==> c.superClass == fm[pool[old(c.superClass) - 1].first]
    ensures forall i | 0 <= i < c.interfaces.Length :: c.interfaces[i] == fm[old(c.interfaces[i])]
    ensures forall i | 0 <= i < c.fields.Length :: c.fields[i] == RemapMember(old(c.fields[i]), fm[..])
    ensures forall i | 0 <= i < c.methods.Length :: c.methods[i] == RemapMember(old(c.methods[i]), fm[..])
    ensures c.attrs == RemapAttrs(old(c.attrs), fm[..])
    ensures c.addressable == old(c.addressable) && c.placed == old(c.placed)
  {
    c.thisClass := fm[c.pool[c.thisClass - 1].first];
    if c.superClass != 0 {
      c.superClass := fm[c.pool[c.superClass - 1].first];
    }
    RemapList(c.interfaces, fm);
    RemapMembers(c.fields, fm);
    RemapMembers(c.methods, fm);
    c.attrs := RemapAttrList(c.attrs, fm);
  }
}
