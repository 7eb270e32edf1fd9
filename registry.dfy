/** The list of loaded classes (`gFirstClass`), class search by name, and loading a class
    from its bytes or registering a native class, with the placement of its static and
    instance data after those of its superclasses.

    The C list is linked newest-first through `nextClass`; the model keeps the classes in
    load order, so a class is identified by its position and the search runs from the last
    position down. A superclass is always loaded before its subclasses, so its position is
    smaller. */
module Registry {
  import opened Bytes
  import opened Errors
  import opened FieldLayout
  import opened ClassFiles
  import opened Strings

  /** One `UjClass` record, without its monitor and its mark (the mark lives in
      `ClassTable.marks`). `supr` is the position of the superclass, or -1. */
  datatype ClassDesc = ClassDesc(
    native: bool,
    src: ClassBytes,
    nativeName: seq<byte>,
    supr: int,
    instDataOfst: int,
    instDataSize: int,
    clsDataOfst: int,
    clsDataSize: int,
    nameHash: int,
    interfaces: word,
    fields: word,
    methods: word)

  /** How `ujThreadPrvFindClass` names each kind of class: a native class by its C string, a
      compact class by the constant index at offset 2, a standard class by the class constant
      just before its interface list. */
  function NameParam(c: ClassDesc): (p: StrParam)
    ensures ParamOk(p)
  {
    if c.native then Ptr(c.nativeName)
    else if c.src.ujc then Idx(c.src, ReadU16(c.src.data, 2))
    else Ref(c.src, ReadU16(c.src.data, Addr(c.interfaces - 6)), 1)
  }

  /** A class the search accepts: matching stored hash (when hashing is configured in), then
      equal names. */
  predicate Candidate(c: ClassDesc, name: StrParam, hashed: bool)
    requires ParamOk(name)
  {
    (!hashed || HashOf(name) == Some(c.nameHash)) && SameString(NameParam(c), name)
  }

  /** The newest set position below `k`. */
  function Newest(bs: seq<bool>, k: nat): (r: Option<nat>)
    requires k <= |bs|
    ensures r.Some? ==> r.value < k
  {
    if k == 0 then None else if bs[k - 1] then Some(k - 1) else Newest(bs, k - 1)
  }

  /** `Newest` finds a set position with none set above it, and gives up only when none
      below `k` is set. */
  lemma {:induction false} NewestMeaning(bs: seq<bool>, k: nat)
    requires k <= |bs|
    ensures var r := Newest(bs, k);
      (r.Some? ==> bs[r.value] && forall j | r.value < j < k :: !bs[j]) &&
      (r.None? ==> forall j | 0 <= j < k :: !bs[j])
  {
    if k > 0 && !bs[k - 1] {
      NewestMeaning(bs, k - 1);
    }
  }

  /** Which classes the search accepts. */
  function Accepted(classes: seq<ClassDesc>, name: StrParam, hashed: bool): (bs: seq<bool>)
    requires ParamOk(name)
    ensures |bs| == |classes|
  {
    seq(|classes|, j requires 0 <= j < |classes| => Candidate(classes[j], name, hashed))
  }

  /** The search over the first `k` classes, newest first: the most recently loaded candidate. */
  function FindFrom(classes: seq<ClassDesc>, name: StrParam, hashed: bool, k: nat): (r: Option<nat>)
    requires ParamOk(name) && k <= |classes|
    ensures r.Some? ==> r.value < k
  {
    Newest(Accepted(classes, name, hashed), k)
  }

  /** The search returns a candidate with no candidate above it, and gives up only when no
      class among the first `k` is a candidate. */
  lemma FindFromMeaning(classes: seq<ClassDesc>, name: StrParam, hashed: bool, k: nat)
    requires ParamOk(name) && k <= |classes|
    ensures var r := FindFrom(classes, name, hashed, k);
      (r.Some? ==> Candidate(classes[r.value], name, hashed)) &&
      (r.Some? ==> forall j {:trigger Candidate(classes[j], name, hashed)} | r.value < j < k ::
                     !Candidate(classes[j], name, hashed)) &&
      (r.None? ==> forall j {:trigger Candidate(classes[j], name, hashed)} | 0 <= j < k ::
                     !Candidate(classes[j], name, hashed))
  {
    var bs := Accepted(classes, name, hashed);
    NewestMeaning(bs, k);
    assert forall j | 0 <= j < k :: bs[j] == Candidate(classes[j], name, hashed);
  }

  /** One step of the search from the top. */
  lemma FindFromStep(classes: seq<ClassDesc>, name: StrParam, hashed: bool, k: nat, i: nat)
    requires ParamOk(name) && k <= |classes| && k == i + 1
    ensures FindFrom(classes, name, hashed, k) ==
            if Accepted(classes, name, hashed)[i] then Some(i) else FindFrom(classes, name, hashed, i)
  {
  }

  function FindClassSpec(classes: seq<ClassDesc>, name: StrParam, hashed: bool): Option<nat>
    requires ParamOk(name)
  {
    FindFrom(classes, name, hashed, |classes|)
  }

  /** The stored hash is the hash of the class's name. Loading a standard class and
      registering a native class establish it; a compact class carries its hash in its bytes. */
  predicate HashConsistent(c: ClassDesc) {
    HashOf(NameParam(c)) == Some(c.nameHash)
  }

  lemma CandidateIgnoresHash(c: ClassDesc, name: StrParam)
    requires ParamOk(name) && HashConsistent(c)
    ensures Candidate(c, name, true) == Candidate(c, name, false)
  {
    if SameString(NameParam(c), name) {
      HashRespectsEquality(NameParam(c), name);
    }
  }

  /** With consistent stored hashes, the hashed search finds exactly what the plain search
      finds: the hash only skips classes whose names differ. */
  lemma HashedSearchAgrees(classes: seq<ClassDesc>, name: StrParam, k: nat)
    requires ParamOk(name) && k <= |classes|
    requires forall i {:trigger HashConsistent(classes[i])} | 0 <= i < |classes| :: HashConsistent(classes[i])
    ensures FindFrom(classes, name, true, k) == FindFrom(classes, name, false, k)
  {
    forall j | 0 <= j < |classes|
      ensures Accepted(classes, name, true)[j] == Accepted(classes, name, false)[j]
    {
      assert HashConsistent(classes[j]);
      CandidateIgnoresHash(classes[j], name);
    }
    assert Accepted(classes, name, true) == Accepted(classes, name, false);
  }

  // ---------------------------------------------------------------------------------
  // The superclass chain and the data layout it implies.

  predicate Word16(x: int) {
    0 <= x < 0x1_0000
  }

  /** Each class's data comes right after its superclass's (offset = superclass offset plus
      superclass size, in 16 bits); a class with no superclass starts at 0. */
  predicate LinkOk(classes: seq<ClassDesc>, i: int)
    requires 0 <= i < |classes|
  {
    var c := classes[i];
    Word16(c.instDataOfst) && Word16(c.instDataSize) && Word16(c.clsDataOfst) && Word16(c.clsDataSize)
    && 0 <= c.nameHash < 0x100
    && if c.supr == -1 then c.instDataOfst == 0 && c.clsDataOfst == 0
       else 0 <= c.supr < i
            && c.instDataOfst == (classes[c.supr].instDataOfst + classes[c.supr].instDataSize) % 0x1_0000
            && c.clsDataOfst == (classes[c.supr].clsDataOfst + classes[c.supr].clsDataSize) % 0x1_0000
  }

  predicate ChainOk(classes: seq<ClassDesc>) {
    forall i | 0 <= i < |classes| :: LinkOk(classes, i)
  }

  /** Instance data of a class and all its superclasses. */
  function ChainInstSize(classes: seq<ClassDesc>, i: int): nat
    requires ChainOk(classes) && 0 <= i < |classes|
    decreases i
  {
    assert LinkOk(classes, i);
    classes[i].instDataSize + (if classes[i].supr == -1 then 0 else ChainInstSize(classes, classes[i].supr))
  }

  function ChainClsSize(classes: seq<ClassDesc>, i: int): nat
    requires ChainOk(classes) && 0 <= i < |classes|
    decreases i
  {
    assert LinkOk(classes, i);
    classes[i].clsDataSize + (if classes[i].supr == -1 then 0 else ChainClsSize(classes, classes[i].supr))
  }

  /** `a` is a proper superclass of `i`. */
  predicate IsAncestor(classes: seq<ClassDesc>, a: int, i: int)
    requires ChainOk(classes) && 0 <= i < |classes|
    decreases i
  {
    assert LinkOk(classes, i);
    classes[i].supr != -1 && (classes[i].supr == a || IsAncestor(classes, a, classes[i].supr))
  }

  /** While the whole chain fits in 16 bits, a class's instance data ends exactly where the
      chain's total ends, and every superclass's instance data lies entirely below it: no
      two classes of one chain share a byte. The same holds for class data. */
  lemma {:induction false} ChainLayout(classes: seq<ClassDesc>, i: int)
    requires ChainOk(classes) && 0 <= i < |classes|
    requires ChainInstSize(classes, i) < 0x1_0000 && ChainClsSize(classes, i) < 0x1_0000
    ensures classes[i].instDataOfst + classes[i].instDataSize == ChainInstSize(classes, i)
    ensures classes[i].clsDataOfst + classes[i].clsDataSize == ChainClsSize(classes, i)
    ensures forall a | IsAncestor(classes, a, i) ::
              0 <= a < i && classes[a].instDataOfst + classes[a].instDataSize <= classes[i].instDataOfst
              && classes[a].clsDataOfst + classes[a].clsDataSize <= classes[i].clsDataOfst
    decreases i
  {
    assert LinkOk(classes, i);
    var c := classes[i];
    if c.supr != -1 {
      var s := c.supr;
      ChainLayout(classes, s);
      assert c.instDataOfst == classes[s].instDataOfst + classes[s].instDataSize;
      assert c.clsDataOfst == classes[s].clsDataOfst + classes[s].clsDataSize;
      forall a | IsAncestor(classes, a, i)
        ensures 0 <= a < i && classes[a].instDataOfst + classes[a].instDataSize <= c.instDataOfst
        ensures classes[a].clsDataOfst + classes[a].clsDataSize <= c.clsDataOfst
      {
        assert classes[i].supr == s;
        if a != s {
          assert IsAncestor(classes, a, s);
          assert 0 <= a < s;
          assert classes[a].instDataOfst + classes[a].instDataSize <= classes[s].instDataOfst;
          assert LinkOk(classes, s);
        } else {
          assert classes[a].instDataOfst + classes[a].instDataSize == c.instDataOfst;
        }
      }
    }
  }

  // ---------------------------------------------------------------------------------
  // Decoding a class's header (the part of `ujLoadClass` before allocation).

  /** What `ujLoadClass` extracts from a class's bytes. `superName` is the address of the
      superclass name (its 2-byte length), absent when the class has no superclass. */
  datatype Header = Header(
    ujc: bool,
    superName: Option<word>,
    interfaces: word,
    fields: word,
    methods: word,
    clsDatSz: int,
    instDatSz: int,
    nameHash: int)

  /** The sizes a decoded header reports fit the 16-bit fields, and its hash is one byte. */
  predicate HeaderFits(h: Header) {
    Word16(h.clsDatSz) && Word16(h.instDatSz) && 0 <= h.nameHash < 0x100
  }

  /** The compact format: everything is at fixed offsets or behind 24-bit pointers, and the
      name hash is stored at offset 17. */
  function HeaderUjc(data: seq<byte>, hashed: bool): (r: Option<Header>)
    ensures r.Some? ==> HeaderFits(r.value) && r.value.ujc
  {
    var sup := ReadU16(data, 4);
    var superName := if sup != 0 then Some(Addr(ConstAddrUjc(data, sup) + 1)) else None;
    var interfaces := ReadU24(data, 8);
    var fields := ReadU24(data, 14);
    var hash := if hashed then ReadByte(data, 17) else 0;
    match Totals(FieldList(true, data, fields, ReadU16(data, Addr(fields - 2))))
    case None => None
    case Some(t) =>
      Some(Header(true, superName, interfaces, fields, ReadU24(data, 11), t.clsDatSz, t.instDatSz, hash))
  }

  /** The address of the UTF-8 name of the class constant `idx` (one past its tag), as the
      loader finds the superclass and own class names. */
  function ClassNameAddr(data: seq<byte>, idx: int): Option<word>
    requires 0 <= idx < 0x1_0000
  {
    match ConstAddrClass(data, idx)
    case None => None
    case Some(c) =>
      match ConstAddrClass(data, ReadU16(data, Addr(c + 1)))
      case None => None
      case Some(n) => Some(Addr(n + 1))
  }

  /** The superclass name of a standard class: `Some(None)` when the super class index is 0. */
  function StdSuper(data: seq<byte>, interfaces: word): Option<Option<word>> {
    var sup := ReadU16(data, Addr(interfaces - 4));
    if sup == 0 then Some(None)
    else match ClassNameAddr(data, sup) case None => None case Some(n) => Some(Some(n))
  }

  /** The hash of a standard class's own name, or 0 when hashing is configured out. */
  function StdHash(data: seq<byte>, interfaces: word, hashed: bool): (r: Option<int>)
    ensures r.Some? ==> 0 <= r.value < 0x100
  {
    if !hashed then Some(0)
    else match ClassNameAddr(data, ReadU16(data, Addr(interfaces - 6)))
      case None => None
      case Some(n) => HashOf(Adr(data, n))
  }

  /** Where a standard class's interfaces and fields are: after the pool come access flags,
      this class, super class and the interface count; then the interfaces, the field count
      and the fields. The result is the interface list, the field list and the field totals. */
  function StdLayout(data: seq<byte>): Option<(word, word, FieldTotals)> {
    match PoolEnd(data)
    case None => None
    case Some(pe) =>
      var numIf := ReadU16(data, Addr(pe + 6));
      var interfaces := Addr(pe + 8);
      var a := Addr(interfaces + 2 * numIf);
      match Totals(FieldList(false, data, Addr(a + 2), ReadU16(data, a)))
      case None => None
      case Some(t) => Some((interfaces, Addr(a + 2), t))
  }

  /** The standard format. */
  function HeaderStd(data: seq<byte>, hashed: bool): (r: Option<Header>)
    ensures r.Some? ==> HeaderFits(r.value) && !r.value.ujc
    ensures r.Some? ==> StdHash(data, r.value.interfaces, hashed) == Some(r.value.nameHash)
  {
    match StdLayout(data)
    case None => None
    case Some(l) =>
      var superName := StdSuper(data, l.0);
      var hash := StdHash(data, l.0, hashed);
      if superName.None? || hash.None? then None
      else Some(Header(false, superName.value, l.0, l.1, Addr(l.2.end + 2), l.2.clsDatSz, l.2.instDatSz, hash.value))
  }

  /** `None` for bytes that are neither format (the C returns `UJ_ERR_INTERNAL`), and where a
      constant lookup gives up. */
  function HeaderOf(data: seq<byte>, hashed: bool): (r: Option<Header>)
    ensures r.Some? ==> HeaderFits(r.value)
    ensures r.Some? ==> (r.value.ujc <==> ReadU16(data, 0) == UjcMagic)
  {
    if ReadU16(data, 0) == UjcMagic then HeaderUjc(data, hashed)
    else if ReadU32(data, 0) == ClassMagic then HeaderStd(data, hashed)
    else None
  }

  method ClassNameAddrOf(data: seq<byte>, idx: int) returns (r: Option<word>)
    requires 0 <= idx < 0x1_0000
    ensures r == ClassNameAddr(data, idx)
  {
    var c := FindConstClass(data, idx);
    if c.None? {
      return None;
    }
    var n := FindConstClass(data, ReadU16(data, Addr(c.value + 1)));
    if n.None? {
      return None;
    }
    return Some(Addr(n.value + 1));
  }

  method ParseUjc(data: seq<byte>, hashed: bool) returns (h: Option<Header>)
    ensures h == HeaderUjc(data, hashed)
  {
    var sup := ReadU16(data, 4);
    var superName := None;
    if sup != 0 {
      superName := Some(Addr(ConstAddrUjc(data, sup) + 1));
    }
    var interfaces := ReadU24(data, 8);
    var fields := ReadU24(data, 14);
    var hash := 0;
    if hashed {
      hash := ReadByte(data, 17);
    }
    var t := SumFields(true, data, fields, ReadU16(data, Addr(fields - 2)));
    if t.None? {
      return None;
    }
    return Some(Header(true, superName, interfaces, fields, ReadU24(data, 11), t.value.clsDatSz, t.value.instDatSz, hash));
  }

  method ParseStdSuper(data: seq<byte>, interfaces: word) returns (r: Option<Option<word>>)
    ensures r == StdSuper(data, interfaces)
  {
    var sup := ReadU16(data, Addr(interfaces as int - 4));
    if sup == 0 {
      return Some(None);
    }
    var n := ClassNameAddrOf(data, sup);
    if n.None? {
      return None;
    }
    return Some(Some(n.value));
  }

  method ParseStdHash(data: seq<byte>, interfaces: word, hashed: bool) returns (r: Option<int>)
    ensures r == StdHash(data, interfaces, hashed)
  {
    if !hashed {
      return Some(0);
    }
    var n := ClassNameAddrOf(data, ReadU16(data, Addr(interfaces as int - 6)));
    if n.None? {
      return None;
    }
    r := Hash(Adr(data, n.value));
  }

  method ParseStdLayout(data: seq<byte>) returns (r: Option<(word, word, FieldTotals)>)
    ensures r == StdLayout(data)
  {
    var pe := SkipConstants(data);
    if pe.None? {
      return None;
    }
    var numIf := ReadU16(data, Addr(pe.value as int + 6));
    var interfaces := Addr(pe.value as int + 8);
    var a := Addr(interfaces as int + 2 * numIf);
    var t := SumFields(false, data, Addr(a as int + 2), ReadU16(data, a));
    if t.None? {
      return None;
    }
    return Some((interfaces, Addr(a as int + 2), t.value));
  }

  method ParseStd(data: seq<byte>, hashed: bool) returns (h: Option<Header>)
    ensures h == HeaderStd(data, hashed)
  {
    var l := ParseStdLayout(data);
    if l.None? {
      return None;
    }
    var interfaces := l.value.0;
    var superName := ParseStdSuper(data, interfaces);
    var hash := ParseStdHash(data, interfaces, hashed);
    if superName.None? || hash.None? {
      return None;
    }
    var t := l.value.2;
    return Some(Header(false, superName.value, interfaces, l.value.1, Addr(t.end as int + 2), t.clsDatSz, t.instDatSz, hash.value));
  }

  method ParseHeader(data: seq<byte>, hashed: bool) returns (h: Option<Header>)
    ensures h == HeaderOf(data, hashed)
  {
    if ReadU16(data, 0) == UjcMagic {
      h := ParseUjc(data, hashed);
    } else if ReadU32(data, 0) == ClassMagic {
      h := ParseStd(data, hashed);
    } else {
      h := None;
    }
  }

  // ---------------------------------------------------------------------------------
  // Loading and registering.

  /** The record of a newly linked class whose superclass is at `supr` (or -1). */
  function NewClass(classes: seq<ClassDesc>, native: bool, src: ClassBytes, nativeName: seq<byte>,
                    supr: int, instSz: int, clsSz: int, hash: int,
                    interfaces: word, fields: word, methods: word): ClassDesc
    requires -1 <= supr < |classes|
  {
    var instOfst := if supr == -1 then 0 else (classes[supr].instDataOfst + classes[supr].instDataSize) % 0x1_0000;
    var clsOfst := if supr == -1 then 0 else (classes[supr].clsDataOfst + classes[supr].clsDataSize) % 0x1_0000;
    ClassDesc(native, src, nativeName, supr, instOfst, instSz, clsOfst, clsSz, hash, interfaces, fields, methods)
  }

  /** `ujLoadClass` once the header is decoded: the result code and the new list.
      `allocOk` is whether the non-movable allocation of the class record succeeds. */
  function LoadFrom(classes: seq<ClassDesc>, hashed: bool, data: seq<byte>, header: Option<Header>, allocOk: bool)
    : (int, seq<ClassDesc>)
  {
    match header
    case None => (ErrInternal, classes)
    case Some(h) =>
      var found := if h.superName.None? then Some(-1) else
        match FindClassSpec(classes, Adr(data, h.superName.value), hashed)
        case None => None
        case Some(s) => Some(s as int);
      if found.None? then (ErrDependencyMissing, classes)
      else if !allocOk then (ErrOutOfMemory, classes)
      else (ErrNone, classes + [NewClass(classes, false, ClassBytes(h.ujc, data), [], found.value,
                                         h.instDatSz, h.clsDatSz, h.nameHash, h.interfaces, h.fields, h.methods)])
  }

  /** `ujLoadClass`. */
  function LoadSpec(classes: seq<ClassDesc>, hashed: bool, data: seq<byte>, allocOk: bool): (int, seq<ClassDesc>) {
    LoadFrom(classes, hashed, data, HeaderOf(data, hashed), allocOk)
  }

  /** `ujRegisterNativeClass`: `super` is the position of the superclass or -1. */
  function RegisterSpec(classes: seq<ClassDesc>, hashed: bool, name: seq<byte>, clsDatSz: int, instDatSz: int,
                        super: int, allocOk: bool): (int, seq<ClassDesc>)
    requires -1 <= super < |classes|
  {
    if !allocOk then (ErrOutOfMemory, classes)
    else
      var hash := if hashed then HashText(Text(Ptr(name))) as int else 0;
      (ErrNone, classes + [NewClass(classes, true, ClassBytes(false, []), name, super,
                                    instDatSz, clsDatSz, hash, 0, 0, 0)])
  }

  class ClassTable {
    /** Whether class search compares hashes first (`UJ_OPT_CLASS_SEARCH`). */
    const hashed: bool
    var classes: seq<ClassDesc>
    /** The two-bit `mark` of each class, used by `instanceof`. */
    var marks: seq<int>

    ghost predicate Valid()
      reads this
    {
      |marks| == |classes| && ChainOk(classes)
    }

    constructor (hashed: bool)
      ensures this.hashed == hashed && classes == [] && marks == [] && Valid()
    {
      this.hashed := hashed;
      classes := [];
      marks := [];
    }

    /** `ujThreadPrvFindClass`. */
    method FindClass(name: StrParam) returns (r: Option<nat>)
      requires ParamOk(name)
      ensures r == FindClassSpec(classes, name, hashed)
    {
      var nameCrc: Option<int> := None;
      if hashed {
        nameCrc := Hash(name);
      }
      var k := |classes|;
      while k > 0
        invariant 0 <= k <= |classes|
        invariant FindFrom(classes, name, hashed, k) == FindClassSpec(classes, name, hashed)
        decreases k
      {
        var i := k - 1;
        var c := classes[i];
        FindFromStep(classes, name, hashed, k, i);
        if !hashed || nameCrc == Some(c.nameHash) {
          var eq := StrEqual(NameParam(c), name);
          if eq {
            return Some(i);
          }
        }
        k := i;
      }
      return None;
    }

    /** `ujThreadPrvClassFromRef`: the class named by class constant `idx` of `c`. */
    method ClassFromRef(c: ClassDesc, idx: int) returns (r: Option<nat>)
      requires 0 <= idx < 0x1_0000
      ensures r == FindClassSpec(classes, RefParam(c, idx), hashed)
    {
      r := FindClass(RefParam(c, idx));
    }

    method LoadClass(data: seq<byte>, allocOk: bool) returns (err: int)
      requires Valid()
      modifies this
      ensures (err, classes) == LoadSpec(old(classes), hashed, data, allocOk)
      ensures marks == old(marks) + (if err == ErrNone then [0] else [])
    {
      var h := ParseHeader(data, hashed);
      if h.None? {
        return ErrInternal;
      }
      var supr: int := -1;
      if h.value.superName.Some? {
        var s := FindClass(Adr(data, h.value.superName.value));
        if s.None? {
          return ErrDependencyMissing;
        }
        supr := s.value;
      }
      if !allocOk {
        return ErrOutOfMemory;
      }
      var hv := h.value;
      classes := classes + [NewClass(classes, false, ClassBytes(hv.ujc, data), [], supr,
                                     hv.instDatSz, hv.clsDatSz, hv.nameHash, hv.interfaces, hv.fields, hv.methods)];
      marks := marks + [0];
      return ErrNone;
    }

    method RegisterNativeClass(name: seq<byte>, clsDatSz: int, instDatSz: int, super: int, allocOk: bool)
      returns (err: int)
      requires Valid() && -1 <= super < |classes|
      modifies this
      ensures (err, classes) == RegisterSpec(old(classes), hashed, name, clsDatSz, instDatSz, super, allocOk)
      ensures marks == old(marks) + (if err == ErrNone then [0] else [])
    {
      if !allocOk {
        return ErrOutOfMemory;
      }
      var hash := 0;
      if hashed {
        var hv := Hash(Ptr(name));
        hash := hv.value;
      }
      classes := classes + [NewClass(classes, true, ClassBytes(false, []), name, super,
                                     instDatSz, clsDatSz, hash, 0, 0, 0)];
      marks := marks + [0];
      return ErrNone;
    }
  }

  /** The parameter `ujThreadPrvClassFromRef` builds: in a compact class the index names the
      string directly, in a standard class it names a class constant. */
  function RefParam(c: ClassDesc, idx: int): (p: StrParam)
    requires 0 <= idx < 0x1_0000
    ensures ParamOk(p)
  {
    if c.src.ujc then Idx(c.src, idx) else Ref(c.src, idx, 1)
  }

  // ---------------------------------------------------------------------------------
  // Properties of loading.

  /** A failed load changes nothing, and the dependency is missing exactly when the header
      names a superclass the search cannot find; the superclass is looked up before anything
      is allocated or linked. */
  lemma LoadFailureChangesNothing(classes: seq<ClassDesc>, hashed: bool, data: seq<byte>, header: Option<Header>,
                                  allocOk: bool)
    ensures LoadFrom(classes, hashed, data, header, allocOk).0 != ErrNone ==>
              LoadFrom(classes, hashed, data, header, allocOk).1 == classes
    ensures LoadFrom(classes, hashed, data, header, allocOk).0 == ErrDependencyMissing <==>
            (header.Some? && header.value.superName.Some?
             && FindClassSpec(classes, Adr(data, header.value.superName.value), hashed).None?)
    ensures LoadFrom(classes, hashed, data, header, allocOk).0 == ErrInternal <==> header.None?
  {
  }

  /** A successful load appends exactly one class, linked after the class its header names
      as superclass, with its data placed right after the superclass's. */
  lemma LoadSuccess(classes: seq<ClassDesc>, hashed: bool, data: seq<byte>, header: Option<Header>, allocOk: bool)
    requires LoadFrom(classes, hashed, data, header, allocOk).0 == ErrNone
    ensures var r := LoadFrom(classes, hashed, data, header, allocOk).1;
            var h := header.value;
            |r| == |classes| + 1 && r[..|classes|] == classes && allocOk
            && var c := r[|classes|];
            !c.native && c.src == ClassBytes(h.ujc, data) && c.nameHash == h.nameHash
            && c.instDataSize == h.instDatSz && c.clsDataSize == h.clsDatSz
            && c.interfaces == h.interfaces && c.fields == h.fields && c.methods == h.methods
            && (h.superName.None? ==> c.supr == -1 && c.instDataOfst == 0 && c.clsDataOfst == 0)
            && (h.superName.Some? ==>
                  FindClassSpec(classes, Adr(data, h.superName.value), hashed) == Some(c.supr)
                  && c.instDataOfst == (classes[c.supr].instDataOfst + classes[c.supr].instDataSize) % 0x1_0000
                  && c.clsDataOfst == (classes[c.supr].clsDataOfst + classes[c.supr].clsDataSize) % 0x1_0000)
  {
    var r := LoadFrom(classes, hashed, data, header, allocOk).1;
    assert r[..|classes|] == classes;
  }

  lemma ChainOkAppend(classes: seq<ClassDesc>, c: ClassDesc)
    requires ChainOk(classes) && LinkOk(classes + [c], |classes|)
    ensures ChainOk(classes + [c])
  {
    var r := classes + [c];
    forall i | 0 <= i < |r| ensures LinkOk(r, i) {
      if i < |classes| {
        assert LinkOk(classes, i);
        assert r[i] == classes[i];
        if classes[i].supr != -1 {
          assert r[classes[i].supr] == classes[classes[i].supr];
        }
      }
    }
  }

  /** Loading keeps every class's data right after its superclass's. */
  lemma LoadKeepsChain(classes: seq<ClassDesc>, hashed: bool, data: seq<byte>, allocOk: bool)
    requires ChainOk(classes)
    ensures ChainOk(LoadSpec(classes, hashed, data, allocOk).1)
  {
    var header := HeaderOf(data, hashed);
    if LoadFrom(classes, hashed, data, header, allocOk).0 == ErrNone {
      LoadFromKeepsChain(classes, hashed, data, header, allocOk);
    }
  }

  lemma LoadFromKeepsChain(classes: seq<ClassDesc>, hashed: bool, data: seq<byte>, header: Option<Header>,
                           allocOk: bool)
    requires ChainOk(classes) && header.Some? && HeaderFits(header.value)
    requires LoadFrom(classes, hashed, data, header, allocOk).0 == ErrNone
    ensures ChainOk(LoadFrom(classes, hashed, data, header, allocOk).1)
  {
    var r := LoadFrom(classes, hashed, data, header, allocOk).1;
    LoadSuccess(classes, hashed, data, header, allocOk);
    assert r == classes + [r[|classes|]];
    ChainOkAppend(classes, r[|classes|]);
  }

  /** Registering keeps the chain property too, for sizes that fit the 16-bit fields. */
  lemma RegisterKeepsChain(classes: seq<ClassDesc>, hashed: bool, name: seq<byte>, clsDatSz: int, instDatSz: int,
                           super: int, allocOk: bool)
    requires ChainOk(classes) && -1 <= super < |classes| && Word16(clsDatSz) && Word16(instDatSz)
    ensures ChainOk(RegisterSpec(classes, hashed, name, clsDatSz, instDatSz, super, allocOk).1)
  {
    if allocOk {
      var r := RegisterSpec(classes, hashed, name, clsDatSz, instDatSz, super, allocOk).1;
      assert r == classes + [r[|classes|]];
      ChainOkAppend(classes, r[|classes|]);
    }
  }

  /** A standard class's name parameter resolves to the name the loader reads through the
      class constant. */
  lemma StdNameResolves(data: seq<byte>, idx: int)
    requires 0 <= idx < 0x1_0000
    ensures Process(Ref(ClassBytes(false, data), idx, 1)) ==
            match ClassNameAddr(data, idx) case None => None case Some(n) => Some(Adr(data, n))
  {
  }

  lemma LoadedRecord(classes: seq<ClassDesc>, hashed: bool, data: seq<byte>, header: Option<Header>, allocOk: bool)
    requires LoadFrom(classes, hashed, data, header, allocOk).0 == ErrNone
    ensures header.Some? && |LoadFrom(classes, hashed, data, header, allocOk).1| == |classes| + 1
    ensures var c := LoadFrom(classes, hashed, data, header, allocOk).1[|classes|];
            !c.native && c.src == ClassBytes(header.value.ujc, data)
            && c.interfaces == header.value.interfaces && c.nameHash == header.value.nameHash
  {
  }

  /** With hashing on, the hash a standard header records is the hash of the class's name
      parameter. */
  lemma StdHashIsNameHash(data: seq<byte>, interfaces: word, v: int)
    requires StdHash(data, interfaces, true) == Some(v)
    ensures HashOf(Ref(ClassBytes(false, data), ReadU16(data, Addr(interfaces - 6)), 1)) == Some(v)
  {
    StdNameResolves(data, ReadU16(data, Addr(interfaces - 6)));
  }

  lemma StdHeaderHash(data: seq<byte>, h: Header)
    requires HeaderStd(data, true) == Some(h)
    ensures !h.ujc && HashOf(Ref(ClassBytes(false, data), ReadU16(data, Addr(h.interfaces - 6)), 1)) == Some(h.nameHash)
  {
    StdHashIsNameHash(data, h.interfaces, h.nameHash);
  }

  /** A registered native class carries the hash of its own name. */
  lemma RegisteredHashConsistent(classes: seq<ClassDesc>, allocOk: bool, name: seq<byte>,
                                 clsDatSz: int, instDatSz: int, super: int)
    requires -1 <= super < |classes|
    requires RegisterSpec(classes, true, name, clsDatSz, instDatSz, super, allocOk).0 == ErrNone
    ensures HashConsistent(RegisterSpec(classes, true, name, clsDatSz, instDatSz, super, allocOk).1[|classes|])
  {
  }

  /** So does a loaded standard class (a compact class brings its hash with it). */
  lemma LoadedHashConsistent(classes: seq<ClassDesc>, data: seq<byte>, allocOk: bool)
    requires LoadSpec(classes, true, data, allocOk).0 == ErrNone && ReadU16(data, 0) != UjcMagic
    ensures HashConsistent(LoadSpec(classes, true, data, allocOk).1[|classes|])
  {
    var hd := HeaderOf(data, true);
    assert hd == HeaderStd(data, true);
    LoadedRecord(classes, true, data, hd, allocOk);
    var h := hd.value;
    assert hd == Some(h);
    assert LoadSpec(classes, true, data, allocOk) == LoadFrom(classes, true, data, Some(h), allocOk);
    StdHeaderHash(data, h);
    LoadedFromStd(classes, data, h, allocOk);
  }

  lemma LoadedFromStd(classes: seq<ClassDesc>, data: seq<byte>, h: Header, allocOk: bool)
    requires LoadFrom(classes, true, data, Some(h), allocOk).0 == ErrNone && !h.ujc
    requires HashOf(Ref(ClassBytes(false, data), ReadU16(data, Addr(h.interfaces - 6)), 1)) == Some(h.nameHash)
    ensures HashConsistent(LoadFrom(classes, true, data, Some(h), allocOk).1[|classes|])
  {
    LoadedRecord(classes, true, data, Some(h), allocOk);
    var c := LoadFrom(classes, true, data, Some(h), allocOk).1[|classes|];
    assert NameParam(c) == Ref(ClassBytes(false, data), ReadU16(data, Addr(h.interfaces - 6)), 1);
  }

  /** The newest class shadows older ones of the same name: once loaded, a search for its
      name finds it. */
  lemma NewestFoundFirst(classes: seq<ClassDesc>, c: ClassDesc, name: StrParam, hashed: bool)
    requires ParamOk(name) && Candidate(c, name, hashed)
    ensures FindClassSpec(classes + [c], name, hashed) == Some(|classes|)
  {
    assert (classes + [c])[|classes|] == c;
  }
}
