/** Strings the virtual machine compares without copying them: a C string of a native
    class, or a UTF-8 constant inside some class's bytes, reached through one of several
    indirections (`UjPrvStrEqualParam`). Each is first reduced to a pointer or to an address;
    comparison checks the lengths first and then the characters from the last to the first,
    and the one-byte hash used to speed up class search runs over the characters in the same
    order. */
module Strings {
  import opened Bytes
  import opened ClassFiles

  /** What a string parameter needs of a class: its format and its bytes. */
  datatype ClassBytes = ClassBytes(ujc: bool, data: seq<byte>)

  /** The parameter kinds (`STR_EQ_PAR_TYPE_*`). `Ref2` names the current thread's class,
      which the model passes in directly. */
  datatype StrParam =
    | Ptr(s: seq<byte>)
    | Ref2(cur: ClassBytes, idx: int, offset: int)
    | Ref(cls: ClassBytes, idx: int, offset: int)
    | Idx(cls: ClassBytes, strIdx: int)
    | Adr(data: seq<byte>, addr: word)
    | Ujc(cls: ClassBytes, addr: word)

  /** Constant indices are `uint16_t`, the second offset a `uint8_t`. */
  predicate ParamOk(p: StrParam) {
    match p
    case Ptr(_) => true
    case Ref2(_, idx, offset) => 0 <= idx < 0x1_0000 && 0 <= offset < 0x100
    case Ref(_, idx, offset) => 0 <= idx < 0x1_0000 && 0 <= offset < 0x100
    case Idx(_, strIdx) => 0 <= strIdx < 0x1_0000
    case Adr(_, _) => true
    case Ujc(_, _) => true
  }

  predicate Resolved(p: StrParam) {
    p.Ptr? || p.Adr?
  }

  function Rank(p: StrParam): nat {
    match p
    case Ref2(_, _, _) => 3
    case Ref(_, _, _) => 2
    case Idx(_, _) => 1
    case _ => 0
  }

  /** `ujThreadPrvStrEqualProcessParam`: REF2 becomes REF, REF reads the string index stored
      `offset` bytes into constant `idx` and becomes IDX, IDX becomes the address just past the
      tag byte of constant `strIdx`, and UJC follows a 24-bit pointer. `None` only where the
      constant walk itself gives up. */
  function Process(p: StrParam): (r: Option<StrParam>)
    requires ParamOk(p)
    ensures r.Some? ==> Resolved(r.value)
    ensures Resolved(p) ==> r == Some(p)
    decreases Rank(p)
  {
    match p
    case Ptr(_) => Some(p)
    case Ref2(c, idx, offset) => Process(Ref(c, idx, offset))
    case Ref(c, idx, offset) =>
      (match ConstAddr(c.ujc, c.data, idx)
       case None => None
       case Some(a) => Process(Idx(c, ReadU16(c.data, Addr(a + offset)))))
    case Idx(c, strIdx) =>
      (match ConstAddr(c.ujc, c.data, strIdx)
       case None => None
       case Some(a) => Some(Adr(c.data, Addr(a + 1))))
    case Adr(_, _) => Some(p)
    case Ujc(c, addr) => Some(Adr(c.data, Addr(ReadU24(c.data, addr) + 1)))
  }

  /** `ujThreadPrvStrEqualGetLen`: a pointer's length is the 16-bit `ujCstrlen`; an address
      points at a big-endian 16-bit length. */
  function Length(r: StrParam): (n: nat)
    requires Resolved(r)
    ensures n < 0x1_0000
    ensures r.Ptr? ==> n <= |r.s|
  {
    if r.Ptr? then |r.s| % 0x1_0000 else ReadU16(r.data, r.addr)
  }

  /** `ujThreadPrvStrEqualGetChar`: the characters follow the length. */
  function CharAt(r: StrParam, i: nat): byte
    requires Resolved(r) && i < Length(r)
  {
    if r.Ptr? then r.s[i] else ReadByte(r.data, Addr(r.addr + 2 + i))
  }

  function Text(r: StrParam): (t: seq<byte>)
    requires Resolved(r)
    ensures |t| == Length(r)
    ensures forall i | 0 <= i < |t| :: t[i] == CharAt(r, i)
  {
    seq(Length(r), i requires 0 <= i < Length(r) => CharAt(r, i))
  }

  /** Two parameters name the same string. */
  predicate SameString(p1: StrParam, p2: StrParam)
    requires ParamOk(p1) && ParamOk(p2)
  {
    var r1 := Process(p1);
    var r2 := Process(p2);
    r1.Some? && r2.Some? && Text(r1.value) == Text(r2.value)
  }

  /** `ujThreadPrvStrEqualEx`. */
  method StrEqual(p1: StrParam, p2: StrParam) returns (eq: bool)
    requires ParamOk(p1) && ParamOk(p2)
    ensures eq <==> SameString(p1, p2)
    ensures eq <==> (Process(p1).Some? && Process(p2).Some?
                     && Length(Process(p1).value) == Length(Process(p2).value)
                     && forall i | 0 <= i < Length(Process(p1).value) ::
                          CharAt(Process(p1).value, i) == CharAt(Process(p2).value, i))
  {
    var o1 := Process(p1);
    var o2 := Process(p2);
    if o1.None? || o2.None? {
      return false;
    }
    var r1 := o1.value;
    var r2 := o2.value;
    var L := Length(r1);
    if Length(r2) != L {
      assert |Text(r1)| != |Text(r2)|;
      return false;
    }
    while L > 0
      invariant 0 <= L <= Length(r1)
      invariant forall i | L <= i < Length(r1) :: CharAt(r1, i) == CharAt(r2, i)
      decreases L
    {
      L := L - 1;
      if CharAt(r1, L) != CharAt(r2, L) {
        assert Text(r1)[L] != Text(r2)[L];
        return false;
      }
    }
    assert Text(r1) == Text(r2);
    return true;
  }

  /** One step of `ujPrvHashString`: rotate-like shift with 0x41 fed back from the top bit,
      then mix in the character. */
  function HashStep(c: bv8, ch: byte): bv8 {
    (c << 1) ^ (if c & 0x80 != 0 then 0x41 else 0) ^ (ch as bv8)
  }

  /** The hash of a text, processing the characters from the last to the first. */
  function HashText(t: seq<byte>): bv8
  {
    if |t| == 0 then 0xCC else HashStep(HashText(t[1..]), t[0])
  }

  function HashOf(p: StrParam): Option<int>
    requires ParamOk(p)
  {
    match Process(p)
    case None => None
    case Some(r) => Some(HashText(Text(r)) as int)
  }

  /** `ujPrvHashString`. */
  method Hash(p: StrParam) returns (h: Option<int>)
    requires ParamOk(p)
    ensures h == HashOf(p)
    ensures h.Some? ==> 0 <= h.value < 0x100
  {
    var o := Process(p);
    if o.None? {
      return None;
    }
    var r := o.value;
    var L := Length(r);
    var c: bv8 := 0xCC;
    while L > 0
      invariant 0 <= L <= Length(r)
      invariant c == HashText(Text(r)[L..])
      decreases L
    {
      L := L - 1;
      assert Text(r)[L..][1..] == Text(r)[L + 1..];
      c := HashStep(c, CharAt(r, L));
    }
    assert Text(r)[0..] == Text(r);
    return Some(c as int);
  }

  /** Equal strings hash alike, so a search may skip every candidate whose stored hash
      differs from the hash of the wanted name. */
  lemma HashRespectsEquality(p1: StrParam, p2: StrParam)
    requires ParamOk(p1) && ParamOk(p2) && SameString(p1, p2)
    ensures HashOf(p1).Some? && HashOf(p1) == HashOf(p2)
  {
  }

  /** Comparing is symmetric and transitive on resolvable parameters. */
  lemma SameStringEquivalence(p1: StrParam, p2: StrParam, p3: StrParam)
    requires ParamOk(p1) && ParamOk(p2) && ParamOk(p3)
    ensures Process(p1).Some? ==> SameString(p1, p1)
    ensures SameString(p1, p2) ==> SameString(p2, p1)
    ensures SameString(p1, p2) && SameString(p2, p3) ==> SameString(p1, p3)
  {
  }

  /** A parameter and what it reduces to name the same string. */
  lemma ProcessKeepsString(p: StrParam)
    requires ParamOk(p) && Process(p).Some?
    ensures ParamOk(Process(p).value) && SameString(p, Process(p).value)
  {
  }

  /** A native class name against a string stored in class bytes: equal exactly when the
      stored length is the C string's length and the stored characters are its characters. */
  lemma PtrAgainstStored(s: seq<byte>, data: seq<byte>, addr: word)
    requires |s| < 0x1_0000
    ensures SameString(Ptr(s), Adr(data, addr)) <==>
            (ReadU16(data, addr) == |s| && forall i | 0 <= i < |s| :: ReadByte(data, Addr(addr + 2 + i)) == s[i])
  {
    var t1 := Text(Ptr(s));
    var t2 := Text(Adr(data, addr));
    assert Length(Ptr(s)) == |s|;
    if SameString(Ptr(s), Adr(data, addr)) {
      assert t1 == t2;
      forall i | 0 <= i < |s| ensures ReadByte(data, Addr(addr + 2 + i)) == s[i] {
        assert t1[i] == t2[i];
      }
    }
    if ReadU16(data, addr) == |s| && forall i | 0 <= i < |s| :: ReadByte(data, Addr(addr + 2 + i)) == s[i] {
      assert t1 == t2;
    }
  }
}
