/** Deciding which constants the compact class keeps (classCvt/classOptimizer.c,
    `classOptimize`). A constant is "directly used" when an instruction, an exception
    handler or a declaration of the class names it; then every directly used reference
    constant lends the "used" mark to the strings it leads to. Constant `k` (from 1) has
    its marks at `used[k - 1]` and `direct[k - 1]`. */
module PoolMarks {
  import opened ConvClass

  /** Give constant `idx` both marks. */
  method MarkDirect(used: array<bool>, direct: array<bool>, idx: int)
    requires used != direct && used.Length == direct.Length && 1 <= idx <= used.Length
    modifies used, direct
    ensures used[..] == old(used[..])[idx - 1 := true] && direct[..] == old(direct[..])[idx - 1 := true]
  {
    used[idx - 1] := true;
    direct[idx - 1] := true;
  }

  // ---------------------------------------------------------------------------
  // What names a constant
  // ---------------------------------------------------------------------------

  /** One of the first `n` entries of `s` is `k`. */
  ghost predicate InList(s: seq<int>, n: int, k: int)
    requires 0 <= n <= |s|
  {
    n > 0 && (s[n - 1] == k || InList(s, n - 1, k))
  }

  /** One of the first `n` members has `k` as its name or descriptor. */
  ghost predicate NamedByMember(ms: seq<Member>, n: int, k: int)
    requires 0 <= n <= |ms|
  {
    n > 0 && (ms[n - 1].nameIdx == k || ms[n - 1].descrIdx == k || NamedByMember(ms, n - 1, k))
  }

  /** One of the first `n` handlers catches the class `k`. */
  ghost predicate CaughtBy(excs: seq<Exc>, n: int, k: int)
    requires 0 <= n <= |excs|
  {
    n > 0 && (excs[n - 1].catchType == k || CaughtBy(excs, n - 1, k))
  }

  lemma {:induction false} InListIff(s: seq<int>, n: int, k: int)
    requires 0 <= n <= |s|
    ensures InList(s, n, k) <==> exists i | 0 <= i < n :: s[i] == k
  {
    if n > 0 {
      InListIff(s, n - 1, k);
    }
  }

  lemma {:induction false} NamedByMemberIff(ms: seq<Member>, n: int, k: int)
    requires 0 <= n <= |ms|
    ensures NamedByMember(ms, n, k) <==> exists i | 0 <= i < n :: ms[i].nameIdx == k || ms[i].descrIdx == k
  {
    if n > 0 {
      NamedByMemberIff(ms, n - 1, k);
    }
  }

  // ---------------------------------------------------------------------------
  // Marking lists of indices
  // ---------------------------------------------------------------------------

  /** Both marks for every constant the list names (the interface loop). */
  method MarkList(used: array<bool>, direct: array<bool>, s: seq<int>)
    requires used != direct && used.Length == direct.Length
    requires forall i | 0 <= i < |s| :: 1 <= s[i] <= used.Length
    modifies used, direct
    ensures forall k | 0 <= k < used.Length :: used[k] == (old(used[k]) || InList(s, |s|, k + 1))
    ensures forall k | 0 <= k < used.Length :: direct[k] == (old(direct[k]) || InList(s, |s|, k + 1))
  {
    ghost var u0, d0 := used[..], direct[..];
    var i := 0;
    while i < |s|
      invariant 0 <= i <= |s|
      invariant forall k | 0 <= k < used.Length :: used[k] == (u0[k] || InList(s, i, k + 1))
      invariant forall k | 0 <= k < used.Length :: direct[k] == (d0[k] || InList(s, i, k + 1))
    {
      MarkDirect(used, direct, s[i]);
      i := i + 1;
    }
  }

  /** Both marks for every member's name and descriptor (the field and method loops). */
  method MarkMembers(used: array<bool>, direct: array<bool>, ms: array<Member>)
    requires used != direct && used.Length == direct.Length
    requires forall i | 0 <= i < ms.Length :: 1 <= ms[i].nameIdx <= used.Length && 1 <= ms[i].descrIdx <= used.Length
    modifies used, direct
    ensures forall k | 0 <= k < used.Length :: used[k] == (old(used[k]) || NamedByMember(ms[..], ms.Length, k + 1))
    ensures forall k | 0 <= k < used.Length :: direct[k] == (old(direct[k]) || NamedByMember(ms[..], ms.Length, k + 1))
  {
    ghost var u0, d0, s := used[..], direct[..], ms[..];
    var i := 0;
    while i < ms.Length
      invariant 0 <= i <= ms.Length
      invariant forall k | 0 <= k < used.Length :: used[k] == (u0[k] || NamedByMember(s, i, k + 1))
      invariant forall k | 0 <= k < used.Length :: direct[k] == (d0[k] || NamedByMember(s, i, k + 1))
    {
      MarkDirect(used, direct, ms[i].nameIdx);
      MarkDirect(used, direct, ms[i].descrIdx);
      i := i + 1;
    }
  }

  /** Both marks for the class each exception handler catches (0: any, no mark). */
  method MarkCatchTypes(used: array<bool>, direct: array<bool>, excs: seq<Exc>)
    requires used != direct && used.Length == direct.Length
    requires forall i | 0 <= i < |excs| :: 0 <= excs[i].catchType <= used.Length
    modifies used, direct
    ensures forall k | 0 <= k < used.Length :: used[k] == (old(used[k]) || CaughtBy(excs, |excs|, k + 1))
    ensures forall k | 0 <= k < used.Length :: direct[k] == (old(direct[k]) || CaughtBy(excs, |excs|, k + 1))
  {
    ghost var u0, d0 := used[..], direct[..];
    var i := 0;
    while i < |excs|
      invariant 0 <= i <= |excs|
      invariant forall k | 0 <= k < used.Length :: used[k] == (u0[k] || CaughtBy(excs, i, k + 1))
      invariant forall k | 0 <= k < used.Length :: direct[k] == (d0[k] || CaughtBy(excs, i, k + 1))
    {
      var idx := excs[i].catchType;
      if idx != 0 {
        MarkDirect(used, direct, idx);
      }
      i := i + 1;
    }
  }

  // ---------------------------------------------------------------------------
  // The declarations
  // ---------------------------------------------------------------------------

  /** The declarations can be read: this class and its superclass name class constants
      whose name strings are in the pool, and so are the interfaces and the members'
      names and descriptors. */
  ghost predicate DeclReadable(pool: seq<Const>, thisClass: int, superClass: int, ifs: seq<int>, fs: seq<Member>, ms: seq<Member>) {
    1 <= thisClass <= |pool| && 1 <= pool[thisClass - 1].first <= |pool| &&
    (superClass != 0 ==> 1 <= superClass <= |pool| && 1 <= pool[superClass - 1].first <= |pool|) &&
    (forall i | 0 <= i < |ifs| :: 1 <= ifs[i] <= |pool|) &&
    (forall i | 0 <= i < |fs| :: 1 <= fs[i].nameIdx <= |pool| && 1 <= fs[i].descrIdx <= |pool|) &&
    (forall i | 0 <= i < |ms| :: 1 <= ms[i].nameIdx <= |pool| && 1 <= ms[i].descrIdx <= |pool|)
  }

  /** Constant `k` is named by a declaration: the name string of this class or of its
      superclass, an interface, or a member's name or descriptor. */
  ghost predicate Declared(pool: seq<Const>, thisClass: int, superClass: int, ifs: seq<int>, fs: seq<Member>, ms: seq<Member>, k: int)
    requires DeclReadable(pool, thisClass, superClass, ifs, fs, ms)
  {
    k == pool[thisClass - 1].first || (superClass != 0 && k == pool[superClass - 1].first) ||
    InList(ifs, |ifs|, k) || NamedByMember(fs, |fs|, k) || NamedByMember(ms, |ms|, k)
  }

  /** The "mark other used resources" step of `classOptimize`. */
  method MarkDeclared(c: JClass, ghost pool: seq<Const>)
    requires c.Valid() && c.pool[..] == pool
    requires DeclReadable(pool, c.thisClass, c.superClass, c.interfaces[..], c.fields[..], c.methods[..])
    modifies c.used, c.direct
    ensures forall k | 0 <= k < c.used.Length ::
      c.used[k] == (old(c.used[k]) || Declared(pool, c.thisClass, c.superClass, c.interfaces[..], c.fields[..], c.methods[..], k + 1))
    ensures forall k | 0 <= k < c.used.Length ::
      c.direct[k] == (old(c.direct[k]) || Declared(pool, c.thisClass, c.superClass, c.interfaces[..], c.fields[..], c.methods[..], k + 1))
  {
    MarkDirect(c.used, c.direct, c.pool[c.thisClass - 1].first);
    if c.superClass != 0 {
      MarkDirect(c.used, c.direct, c.pool[c.superClass - 1].first);
    }
    MarkList(c.used, c.direct, c.interfaces[..]);
    MarkMembers(c.used, c.direct, c.fields);
    MarkMembers(c.used, c.direct, c.methods);
  }

  // ---------------------------------------------------------------------------
  // From constants to the strings they lead to
  // ---------------------------------------------------------------------------

  /** The words the cascade follows from constant `i + 1` can be read: the string of a
      class or string reference; the class constant and name-and-type of a member reference
      with their strings. */
  ghost predicate TargetsReadable(pool: seq<Const>, i: int)
    requires 0 <= i < |pool|
  {
    var e := pool[i];
    (NamesOne(e.tag) ==> 1 <= e.first <= |pool|) &&
    (NamesTwo(e.tag) ==>
      1 <= e.first <= |pool| && 1 <= pool[e.first - 1].first <= |pool| &&
      1 <= e.second <= |pool| && 1 <= pool[e.second - 1].first <= |pool| && 1 <= pool[e.second - 1].second <= |pool|)
  }

  /** The constants a directly used constant `i + 1` marks used. A member reference and a
      name-and-type are both read as "class, name-and-type": the class's name string, and
      the name and descriptor strings of the name-and-type. */
  ghost function Targets(pool: seq<Const>, i: int): set<int>
    requires 0 <= i < |pool| && TargetsReadable(pool, i)
  {
    var e := pool[i];
    if NamesOne(e.tag) then {e.first}
    else if NamesTwo(e.tag) then {pool[e.first - 1].first, pool[e.second - 1].first, pool[e.second - 1].second}
    else {}
  }

  ghost predicate CascadeReadable(pool: seq<Const>, direct: seq<bool>) {
    |direct| == |pool| && forall i | 0 <= i < |pool| :: direct[i] ==> TargetsReadable(pool, i)
  }

  /** Some directly used constant among the first `n` marks `k`. */
  ghost predicate Reached(pool: seq<Const>, direct: seq<bool>, n: int, k: int)
    requires CascadeReadable(pool, direct) && 0 <= n <= |pool|
  {
    n > 0 && ((direct[n - 1] && k in Targets(pool, n - 1)) || Reached(pool, direct, n - 1, k))
  }

  lemma {:induction false} ReachedIff(pool: seq<Const>, direct: seq<bool>, n: int, k: int)
    requires CascadeReadable(pool, direct) && 0 <= n <= |pool|
    ensures Reached(pool, direct, n, k) <==> exists i | 0 <= i < n :: direct[i] && k in Targets(pool, i)
  {
    if n > 0 {
      ReachedIff(pool, direct, n - 1, k);
    }
  }

  /** The marks constant `i + 1` hands on. */
  method MarkTargets(c: JClass, ghost pool: seq<Const>, i: int)
    requires c.Valid() && c.pool[..] == pool && 0 <= i < |pool| && TargetsReadable(pool, i)
    modifies c.used
    ensures forall k | 0 <= k < c.used.Length :: c.used[k] == (old(c.used[k]) || k + 1 in Targets(pool, i))
  {
    var e := c.pool[i];
    if e.tag == CClass || e.tag == CStrRef {
      c.used[e.first - 1] := true;
    }
    if e.tag == CField || e.tag == CMethod || e.tag == CInterface || e.tag == CNameType {
      var cn := c.pool[e.first - 1];
      c.used[cn.first - 1] := true;
      cn := c.pool[e.second - 1];
      var t := cn.second;
      c.used[cn.first - 1] := true;
      c.used[t - 1] := true;
    }
  }

  /** The "const -> const references" step: each directly used constant marks its
      targets used. The step is not repeated, so the class and name-and-type constants a
      member reference leads through are not themselves marked. */
  method MarkIndirect(c: JClass, ghost pool: seq<Const>)
    requires c.Valid() && c.pool[..] == pool && CascadeReadable(pool, c.direct[..])
    modifies c.used
    ensures forall k | 0 <= k < c.used.Length :: c.used[k] == (old(c.used[k]) || Reached(pool, c.direct[..], |pool|, k + 1))
  {
    ghost var u0 := c.used[..];
    var i := 0;
    while i < c.pool.Length
      invariant 0 <= i <= c.pool.Length
      invariant forall k | 0 <= k < c.used.Length :: c.used[k] == (u0[k] || Reached(pool, c.direct[..], i, k + 1))
    {
      if c.direct[i] {
        MarkTargets(c, pool, i);
      }
      i := i + 1;
    }
  }
}
