/** Locating things inside a class's bytes: the constant-pool walk of the standard class
    format, the constant-address table of the compact (UJC) format, the pool skip and the
    field-table walks that `ujLoadClass` performs. */
module ClassFiles {
  import opened Bytes
  import opened FieldLayout

  const TagUtf8 := 1
  const TagInt := 3
  const TagFloat := 4
  const TagLong := 5
  const TagDouble := 6
  const TagClass := 7
  const TagStrRef := 8
  const TagField := 9
  const TagMethod := 10
  const TagInterface := 11
  const TagNameType := 12

  const AccStatic := 0x0008
  const AccInterface := 0x0200

  const UjcMagic := 0x4AEC
  const ClassMagic := 0xCAFE_BABE

  /** The first constant of a standard class file starts right after magic, versions and count. */
  const PoolStart: word := 10

  /** `ujThreadReadBE16_ex` returns `int16_t`. */
  function ReadI16(data: seq<byte>, off: int): (r: int)
    ensures -0x8000 <= r < 0x8000
    ensures ReadU16(data, off) < 0x8000 ==> r == ReadU16(data, off)
  {
    S16(ReadU16(data, off))
  }

  /** Class-file addresses are `UInt24`, which is a `uint32_t`: sums wrap at 2^32. */
  function Addr(x: int): (a: word)
    ensures 0 <= x < 0x1_0000_0000 ==> a == x
  {
    x % 0x1_0000_0000
  }

  /** Wrapping an intermediate address does not change the final one. */
  lemma AddrAdd(x: int, k: int)
    ensures Addr(Addr(x) + k) == Addr(x + k)
  {
    var q := x / 0x1_0000_0000;
    assert x == q * 0x1_0000_0000 + Addr(x);
    assert x + k == (Addr(x) + k) + q * 0x1_0000_0000;
  }

  lemma AddrAfterTag(a: word, k: int)
    ensures Addr(Addr(a + 1) + k) == Addr(a + 1 + k)
  {
    if a + 1 == 0x1_0000_0000 {
      assert Addr(a + 1) == 0;
    }
  }

  predicate IsWideTag(tag: int) {
    tag == TagLong || tag == TagDouble
  }

  predicate IsFourByteTag(tag: int) {
    tag == TagInt || tag == TagFloat || tag == TagField || tag == TagMethod
    || tag == TagInterface || tag == TagNameType
  }

  /** Bytes an entry occupies after its tag byte. The two walkers differ on an unknown tag:
      the index lookup skips four bytes (`lookup`), the loader's pool skip none. */
  function BodySize(data: seq<byte>, addr: word, lookup: bool): int
  {
    var tag := ReadByte(data, addr);
    if tag == TagUtf8 then 2 + ReadI16(data, Addr(addr + 1))
    else if IsFourByteTag(tag) then 4
    else if IsWideTag(tag) then 8
    else if tag == TagClass || tag == TagStrRef then 2
    else if lookup then 4
    else 0
  }

  /** The address after skipping entries from `addr` while a 16-bit down-counter standing at
      `left` runs to zero; a long or double entry takes two counts. A wide entry met with one
      count left would make the C counter wrap to 65535 and walk on: the model reports that
      case as `None`. */
  function Walk(data: seq<byte>, addr: word, left: nat, lookup: bool): Option<word>
    decreases left
  {
    if left == 0 then Some(addr)
    else
      var next := Addr(addr + 1 + BodySize(data, addr, lookup));
      if IsWideTag(ReadByte(data, addr)) then
        if left == 1 then None else Walk(data, next, left - 2, lookup)
      else Walk(data, next, left - 1, lookup)
  }

  /** `ujThreadPrvFindConst_ex_class`: the address of the tag byte of constant `idx`.
      The loop is `while (--idx)`, so index 0 walks 65535 counts. */
  function ConstAddrClass(data: seq<byte>, idx: int): Option<word>
    requires 0 <= idx < 0x1_0000
  {
    Walk(data, PoolStart, (idx - 1) % 0x1_0000, true)
  }

  /** `ujThreadPrvFindConst_ex_ujc`: the compact format keeps a table of 24-bit
      constant addresses at offset 20. */
  function ConstAddrUjc(data: seq<byte>, idx: int): word {
    ReadU24(data, Addr(20 + 3 * (idx - 1)))
  }

  /** `ujThreadPrvFindConst_ex`, dispatching on the class's format. */
  function ConstAddr(ujc: bool, data: seq<byte>, idx: int): Option<word>
    requires 0 <= idx < 0x1_0000
  {
    if ujc then Some(ConstAddrUjc(data, idx)) else ConstAddrClass(data, idx)
  }

  /** The size switch both walkers run on the tag byte at `addr`. */
  method EntrySize(data: seq<byte>, addr: word, lookup: bool) returns (size: int)
    ensures size == BodySize(data, addr, lookup)
    ensures ReadByte(data, addr) != TagUtf8 ==> 0 <= size <= 8
  {
    var tag := ReadByte(data, addr);
    if tag == TagUtf8 {
      size := 2 + ReadI16(data, Addr(addr as int + 1));
    } else if IsFourByteTag(tag) {
      size := 4;
    } else if tag == TagLong || tag == TagDouble {
      size := 8;
    } else if tag == TagClass || tag == TagStrRef {
      size := 2;
    } else if lookup {
      size := 4;
    } else {
      size := 0;
    }
  }

  /** The lookup walk of `ujThreadPrvFindConst_ex_class`, loop by loop. */
  method FindConstClass(data: seq<byte>, idx: int) returns (r: Option<word>)
    requires 0 <= idx < 0x1_0000
    ensures r == ConstAddrClass(data, idx)
  {
    var left := (idx - 1) % 0x1_0000;
    var addr: word := PoolStart;
    ghost var target := ConstAddrClass(data, idx);
    while left != 0
      invariant 0 <= left < 0x1_0000
      invariant Walk(data, addr, left, true) == target
      decreases left
    {
      var tag := ReadByte(data, addr);
      var size := EntrySize(data, addr, true);
      AddrAfterTag(addr, size);
      addr := Addr(Addr(addr as int + 1) as int + size);
      if tag == TagLong || tag == TagDouble {
        if left == 1 {
          return None;
        }
        left := left - 1;
      }
      left := left - 1;
    }
    return Some(addr);
  }

  /** The constant skip at the start of `ujLoadClass`: `t = count - 1; while (t--)`. */
  function PoolEnd(data: seq<byte>): Option<word> {
    Walk(data, PoolStart, (ReadU16(data, 8) - 1) % 0x1_0000, false)
  }

  method SkipConstants(data: seq<byte>) returns (r: Option<word>)
    ensures r == PoolEnd(data)
  {
    var left := (ReadU16(data, 8) - 1) % 0x1_0000;
    var addr: word := PoolStart;
    while left != 0
      invariant 0 <= left < 0x1_0000
      invariant Walk(data, addr, left, false) == PoolEnd(data)
      decreases left
    {
      var tag := ReadByte(data, addr);
      var size := EntrySize(data, addr, false);
      AddrAfterTag(addr, size);
      addr := Addr(Addr(addr as int + 1) as int + size);
      left := left - 1;
      if tag == TagLong || tag == TagDouble {
        if left == 0 {
          return None;
        }
        left := left - 1;
      }
    }
    return Some(addr);
  }

  // ---------------------------------------------------------------------------------
  // A reference description of a constant pool, and the walk's agreement with it.

  /** One constant as stored: its tag and the bytes after the tag. */
  datatype Const = Const(tag: byte, body: seq<byte>)

  /** A constant the walkers know how to size. A UTF-8 body is its 16-bit length and that
      many bytes, shorter than 0x8000 because the length is read as a signed value. */
  predicate WellFormedConst(e: Const) {
    if e.tag == TagUtf8 then
      2 <= |e.body| < 0x8002 && e.body[..2] == EncodeU16(|e.body| - 2)
    else if IsFourByteTag(e.tag) then |e.body| == 4
    else if IsWideTag(e.tag) then |e.body| == 8
    else if e.tag == TagClass || e.tag == TagStrRef then |e.body| == 2
    else false
  }

  function EncodeConst(e: Const): seq<byte> {
    [e.tag] + e.body
  }

  function EncodePool(es: seq<Const>): (r: seq<byte>)
  {
    if |es| == 0 then [] else EncodeConst(es[0]) + EncodePool(es[1..])
  }

  /** Pool indices the constants take: two for a long or double. */
  function Slots(es: seq<Const>): nat {
    if |es| == 0 then 0 else (if IsWideTag(es[0].tag) then 2 else 1) + Slots(es[1..])
  }

  /** Where `es` is stored in `data` at `addr`. */
  predicate StoredAt(data: seq<byte>, addr: int, es: seq<Const>) {
    0 <= addr && addr + |EncodePool(es)| <= |data| && data[addr..addr + |EncodePool(es)|] == EncodePool(es)
  }

  lemma BodySizeOfStored(data: seq<byte>, addr: word, es: seq<Const>, lookup: bool)
    requires |es| > 0 && WellFormedConst(es[0]) && StoredAt(data, addr, es)
    requires addr + 1 + |es[0].body| < 0x1_0000_0000
    ensures ReadByte(data, addr) == es[0].tag
    ensures BodySize(data, addr, lookup) == |es[0].body|
    ensures StoredAt(data, addr + 1 + |es[0].body|, es[1..])
  {
    var e := es[0];
    StoredHead(data, addr, es);
    if e.tag == TagUtf8 {
      Utf8Length(data, addr + 1, e.body);
    }
  }

  /** A stored pool is its first constant's tag, its body, and the rest of the pool. */
  lemma StoredHead(data: seq<byte>, addr: int, es: seq<Const>)
    requires |es| > 0 && StoredAt(data, addr, es)
    ensures addr + 1 + |es[0].body| <= |data| && data[addr] == es[0].tag
    ensures data[addr + 1..addr + 1 + |es[0].body|] == es[0].body
    ensures StoredAt(data, addr + 1 + |es[0].body|, es[1..])
  {
    var e := es[0];
    var enc := EncodePool(es);
    var rest := EncodePool(es[1..]);
    var n := 1 + |e.body|;
    assert enc == [e.tag] + e.body + rest;
    var d := data[addr..addr + |enc|];
    assert d == enc;
    assert data[addr] == d[0];
    SliceOfSlice(data, addr, addr + |enc|, 1, n);
    assert enc[1..n] == e.body;
    SliceOfSlice(data, addr, addr + |enc|, n, |enc|);
    assert enc[n..] == rest;
  }

  lemma SliceOfSlice(data: seq<byte>, a: int, b: int, i: int, j: int)
    requires 0 <= a <= b <= |data| && 0 <= i <= j <= b - a
    ensures data[a..b][i..j] == data[a + i..a + j]
  {
    assert forall k | 0 <= k < j - i :: data[a..b][i..j][k] == data[a + i + k];
  }

  /** The signed length at the head of a stored UTF-8 body is its byte count. */
  lemma Utf8Length(data: seq<byte>, off: int, body: seq<byte>)
    requires 2 <= |body| < 0x8002 && body[..2] == EncodeU16(|body| - 2)
    requires 0 <= off && off + |body| <= |data| && data[off..off + |body|] == body
    requires off < 0x1_0000_0000
    ensures ReadI16(data, Addr(off)) == |body| - 2
  {
    assert data[off..off + 2] == body[..2];
    ReadU16Encode(data, off, |body| - 2);
  }

  function ConstSlots(e: Const): nat {
    if IsWideTag(e.tag) then 2 else 1
  }

  /** One stored constant is one step of the walk. */
  lemma WalkOne(data: seq<byte>, addr: word, e: Const, left: nat, rest: nat, lookup: bool)
    requires ReadByte(data, addr) == e.tag && BodySize(data, addr, lookup) == |e.body|
    requires addr + 1 + |e.body| < 0x1_0000_0000 && left == ConstSlots(e) + rest
    ensures Walk(data, addr, left, lookup) == Walk(data, addr + 1 + |e.body|, rest, lookup)
  {
  }

  lemma PrefixShape(es: seq<Const>, k: nat, j: nat)
    requires 0 < k <= |es| && k == j + 1
    ensures Slots(es[..k]) == ConstSlots(es[0]) + Slots(es[1..][..j])
    ensures |EncodePool(es[..k])| == 1 + |es[0].body| + |EncodePool(es[1..][..j])|
    ensures |EncodePool(es)| == 1 + |es[0].body| + |EncodePool(es[1..])|
  {
    assert es[..k][0] == es[0] && es[..k][1..] == es[1..][..j];
  }

  predicate AllWellFormed(es: seq<Const>) {
    forall i | 0 <= i < |es| :: WellFormedConst(es[i])
  }

  lemma AllWellFormedTail(es: seq<Const>)
    requires |es| > 0 && AllWellFormed(es)
    ensures WellFormedConst(es[0]) && AllWellFormed(es[1..])
  {
    forall i | 0 <= i < |es| - 1 ensures WellFormedConst(es[1..][i]) {
      assert es[1..][i] == es[i + 1];
    }
  }

  /** Walking the counts of the first `k` stored constants lands on the tag byte of
      constant `k`, for either walker. */
  lemma WalkStored(data: seq<byte>, addr: word, es: seq<Const>, k: nat, lookup: bool)
    requires AllWellFormed(es)
    requires StoredAt(data, addr, es) && addr + |EncodePool(es)| < 0x1_0000_0000
    requires k <= |es|
    ensures Walk(data, addr, Slots(es[..k]), lookup) == Some(addr + |EncodePool(es[..k])|)
  {
    StoredChained(data, addr, es, lookup);
    WalkChained(data, addr, es, k, lookup);
  }

  /** What the walk sees of a stored pool, constant by constant: each tag and body size, with
      no address wrapping on the way. */
  ghost predicate Chained(data: seq<byte>, addr: int, es: seq<Const>, lookup: bool)
    decreases |es|
  {
    |es| == 0 ||
    (0 <= addr && addr + 1 + |es[0].body| < 0x1_0000_0000 && ReadByte(data, addr) == es[0].tag &&
     BodySize(data, addr, lookup) == |es[0].body| && Chained(data, addr + 1 + |es[0].body|, es[1..], lookup))
  }

  lemma {:induction false} StoredChained(data: seq<byte>, addr: word, es: seq<Const>, lookup: bool)
    requires AllWellFormed(es)
    requires StoredAt(data, addr, es) && addr + |EncodePool(es)| < 0x1_0000_0000
    ensures Chained(data, addr, es, lookup)
    decreases |es|
  {
    if |es| > 0 {
      AllWellFormedTail(es);
      var next := StoredTail(data, addr, es, lookup);
      StoredChained(data, next, es[1..], lookup);
    }
  }

  lemma {:induction false} WalkChained(data: seq<byte>, addr: word, es: seq<Const>, k: nat, lookup: bool)
    requires Chained(data, addr, es, lookup) && addr + |EncodePool(es)| < 0x1_0000_0000
    requires k <= |es|
    ensures Walk(data, addr, Slots(es[..k]), lookup) == Some(addr + |EncodePool(es[..k])|)
    decreases k
  {
    SlotsPrefix(es, k);
    if k > 0 {
      var next := addr + 1 + |es[0].body|;
      var j := k - 1;
      PrefixShape(es, 1, 0);
      WalkChained(data, next, es[1..], j, lookup);
      WalkStoredStep(data, addr, es, k, lookup, next, j);
    }
  }

  /** The constants after the first are stored right after it. */
  lemma StoredTail(data: seq<byte>, addr: word, es: seq<Const>, lookup: bool) returns (next: word)
    requires |es| > 0 && WellFormedConst(es[0]) && StoredAt(data, addr, es)
    requires addr + |EncodePool(es)| < 0x1_0000_0000
    ensures next == addr + 1 + |es[0].body| && StoredAt(data, next, es[1..])
    ensures next + |EncodePool(es[1..])| == addr + |EncodePool(es)|
    ensures ReadByte(data, addr) == es[0].tag && BodySize(data, addr, lookup) == |es[0].body|
  {
    PrefixShape(es, 1, 0);
    BodySizeOfStored(data, addr, es, lookup);
    next := addr + 1 + |es[0].body|;
  }

  lemma WalkStoredStep(data: seq<byte>, addr: word, es: seq<Const>, k: nat, lookup: bool, next: int, j: nat)
    requires 0 < k <= |es| && k == j + 1
    requires ReadByte(data, addr) == es[0].tag && BodySize(data, addr, lookup) == |es[0].body|
    requires next == addr + 1 + |es[0].body| < 0x1_0000_0000
    requires Walk(data, next, Slots(es[1..][..j]), lookup) == Some(next + |EncodePool(es[1..][..j])|)
    ensures Walk(data, addr, Slots(es[..k]), lookup) == Some(addr + |EncodePool(es[..k])|)
  {
    PrefixShape(es, k, j);
    WalkOne(data, addr, es[0], Slots(es[..k]), Slots(es[1..][..j]), lookup);
  }

  /** On a standard class file whose pool holds well-formed constants `es`, the lookup of
      the index of the `k`-th constant returns the address where that constant is stored,
      and the loader's skip of a pool whose count is `1 + Slots(es)` ends right after the
      last constant. */
  lemma PoolLayout(data: seq<byte>, es: seq<Const>, k: nat)
    requires AllWellFormed(es)
    requires StoredAt(data, PoolStart, es) && PoolStart + |EncodePool(es)| < 0x1_0000_0000
    requires 1 + Slots(es) < 0x1_0000
    requires k <= |es|
    ensures 1 + Slots(es[..k]) < 0x1_0000
    ensures ConstAddrClass(data, 1 + Slots(es[..k])) == Some(PoolStart + |EncodePool(es[..k])|)
    ensures ReadU16(data, 8) == 1 + Slots(es) ==> PoolEnd(data) == Some(PoolStart + |EncodePool(es)|)
  {
    SlotsPrefix(es, k);
    WalkStored(data, PoolStart, es, k, true);
    assert ConstAddrClass(data, 1 + Slots(es[..k])) == Walk(data, PoolStart, Slots(es[..k]), true);
    assert es[..|es|] == es;
    WalkStored(data, PoolStart, es, |es|, false);
    assert (1 + Slots(es) - 1) % 0x1_0000 == Slots(es);
  }

  lemma {:induction false} SlotsPrefix(es: seq<Const>, k: nat)
    requires k <= |es|
    ensures Slots(es[..k]) <= Slots(es)
    ensures |EncodePool(es[..k])| <= |EncodePool(es)|
  {
    if k > 0 {
      assert es[..k][1..] == es[1..][..k - 1];
      SlotsPrefix(es[1..], k - 1);
    }
  }

  // ---------------------------------------------------------------------------------
  // Field tables.

  /** `ujPrvSkipAttribute`: an attribute is a 2-byte name, a 4-byte length and its data. */
  function SkipAttributes(data: seq<byte>, addr: word, n: nat): word
    decreases n
  {
    if n == 0 then addr
    else SkipAttributes(data, Addr(addr + 6 + ReadU32(data, Addr(addr + 2))), n - 1)
  }

  method SkipAttributesLoop(data: seq<byte>, addr0: word, n0: nat) returns (addr: word)
    ensures addr == SkipAttributes(data, addr0, n0)
  {
    addr := addr0;
    var n := n0;
    while n != 0
      invariant SkipAttributes(data, addr, n) == SkipAttributes(data, addr0, n0)
      decreases n
    {
      addr := Addr(addr + 6 + ReadU32(data, Addr(addr + 2)));
      n := n - 1;
    }
  }

  /** A field record: 10 bytes in the compact format (flags, two hashes, name and type
      addresses); flags, name index, descriptor index, attribute count and attributes in the
      standard format. */
  function FieldIsStatic(data: seq<byte>, addr: word): bool {
    (ReadU16(data, addr) / AccStatic) % 2 == 1
  }

  /** The first character of the field's type descriptor (a UTF-8 constant: tag, 2-byte
      length, characters). */
  function FieldTypeChar(ujc: bool, data: seq<byte>, addr: word): Option<byte> {
    if ujc then Some(ReadByte(data, ReadU24(data, Addr(addr + 7)) + 3))
    else match ConstAddrClass(data, ReadU16(data, Addr(addr + 4)))
      case None => None
      case Some(c) => Some(ReadByte(data, Addr(c + 3)))
  }

  function NextField(ujc: bool, data: seq<byte>, addr: word): word {
    if ujc then Addr(addr + 10)
    else SkipAttributes(data, Addr(addr + 8), ReadU16(data, Addr(addr + 6)))
  }

  /** The field record at `addr` and the address of the next one. */
  function FieldAt(ujc: bool, data: seq<byte>, addr: word): Option<(FieldInfo, word)> {
    match FieldTypeChar(ujc, data, addr)
    case None => None
    case Some(t) => Some((FieldInfo(FieldIsStatic(data, addr), t), NextField(ujc, data, addr)))
  }

  /** The `n` fields recorded from `addr` on, and the address after the last one. */
  function FieldList(ujc: bool, data: seq<byte>, addr: word, n: nat): Option<(seq<FieldInfo>, word)>
    decreases n
  {
    if n == 0 then Some(([], addr))
    else match FieldAt(ujc, data, addr)
      case None => None
      case Some(f) =>
        match FieldList(ujc, data, f.1, n - 1)
        case None => None
        case Some(r) => Some(([f.0] + r.0, r.1))
  }

  /** The sizes `ujLoadClass` accumulates in its `uint16_t` counters. */
  datatype FieldTotals = FieldTotals(clsDatSz: int, instDatSz: int, end: word)

  function Totals(r: Option<(seq<FieldInfo>, word)>): Option<FieldTotals> {
    match r
    case None => None
    case Some(p) => Some(FieldTotals(GroupTotal(p.0, true) % 0x1_0000, GroupTotal(p.0, false) % 0x1_0000, p.1))
  }

  function Prepend(done: seq<FieldInfo>, r: Option<(seq<FieldInfo>, word)>): Option<(seq<FieldInfo>, word)> {
    match r
    case None => None
    case Some(p) => Some((done + p.0, p.1))
  }

  lemma PrependNothing(r: Option<(seq<FieldInfo>, word)>)
    ensures Prepend([], r) == r
  {
    if r.Some? {
      assert [] + r.value.0 == r.value.0;
    }
  }

  /** Adding one field to the accumulated 16-bit totals. */
  lemma TotalsStep(done: seq<FieldInfo>, f: FieldInfo, cls: int, inst: int)
    requires cls == GroupTotal(done, true) % 0x1_0000 && inst == GroupTotal(done, false) % 0x1_0000
    ensures Bump(cls, inst, f).0 == GroupTotal(done + [f], true) % 0x1_0000
    ensures Bump(cls, inst, f).1 == GroupTotal(done + [f], false) % 0x1_0000
  {
    OtherGroupDoesNotMove(done, f);
    Mod16Add(GroupTotal(done, f.isStatic), Size(f));
  }

  lemma FieldListStep(ujc: bool, data: seq<byte>, addr: word, n: nat, done: seq<FieldInfo>, f: FieldInfo, next: word,
                      left: nat)
    requires n == left + 1 && FieldAt(ujc, data, addr) == Some((f, next))
    ensures Prepend(done, FieldList(ujc, data, addr, n)) == Prepend(done + [f], FieldList(ujc, data, next, left))
  {
    var rest := FieldList(ujc, data, next, left);
    if rest.Some? {
      assert done + ([f] + rest.value.0) == done + [f] + rest.value.0;
    }
  }

  /** Adding one field's size to the 16-bit counter of its group. */
  function Bump(cls: int, inst: int, f: FieldInfo): (int, int) {
    if f.isStatic then ((cls + Size(f)) % 0x1_0000, inst) else (cls, (inst + Size(f)) % 0x1_0000)
  }

  /** One iteration of the field loop keeps its invariants. */
  lemma SumStep(ujc: bool, data: seq<byte>, addr: word, n: nat, done: seq<FieldInfo>, f: FieldInfo, next: word,
                cls: int, inst: int, target: Option<FieldTotals>, left: nat)
    requires n == left + 1 && FieldAt(ujc, data, addr) == Some((f, next))
    requires target == Totals(Prepend(done, FieldList(ujc, data, addr, n)))
    requires cls == GroupTotal(done, true) % 0x1_0000 && inst == GroupTotal(done, false) % 0x1_0000
    ensures target == Totals(Prepend(done + [f], FieldList(ujc, data, next, left)))
    ensures Bump(cls, inst, f).0 == GroupTotal(done + [f], true) % 0x1_0000
    ensures Bump(cls, inst, f).1 == GroupTotal(done + [f], false) % 0x1_0000
  {
    FieldListStep(ujc, data, addr, n, done, f, next, left);
    TotalsStep(done, f, cls, inst);
  }

  lemma FieldListStops(ujc: bool, data: seq<byte>, addr: word, n: nat, done: seq<FieldInfo>)
    requires n > 0 && FieldAt(ujc, data, addr).None?
    ensures Totals(Prepend(done, FieldList(ujc, data, addr, n))) == None
  {
  }

  lemma FieldListEnds(ujc: bool, data: seq<byte>, addr: word, done: seq<FieldInfo>)
    ensures Totals(Prepend(done, FieldList(ujc, data, addr, 0))) ==
            Some(FieldTotals(GroupTotal(done, true) % 0x1_0000, GroupTotal(done, false) % 0x1_0000, addr))
  {
    assert done + [] == done;
  }

  /** One iteration of the field loop: flags, type character, and the step to the next record. */
  method ReadField(ujc: bool, data: seq<byte>, addr: word) returns (r: Option<(FieldInfo, word)>)
    ensures r == FieldAt(ujc, data, addr)
  {
    var isClassVar := FieldIsStatic(data, addr);
    var typ: byte;
    if ujc {
      typ := ReadByte(data, ReadU24(data, Addr(addr as int + 7)) + 3);
      return Some((FieldInfo(isClassVar, typ), Addr(addr as int + 10)));
    }
    var c := FindConstClass(data, ReadU16(data, Addr(addr as int + 4)));
    if c.None? {
      return None;
    }
    typ := ReadByte(data, Addr(c.value + 3));
    var attrs := ReadU16(data, Addr(addr as int + 6));
    var next := SkipAttributesLoop(data, Addr(addr as int + 8), attrs);
    return Some((FieldInfo(isClassVar, typ), next));
  }

  lemma Mod16Add(a: int, b: int)
    ensures (a % 0x1_0000 + b) % 0x1_0000 == (a + b) % 0x1_0000
  {
    var q := a / 0x1_0000;
    assert a == q * 0x1_0000 + a % 0x1_0000;
    assert a + b == (a % 0x1_0000 + b) + q * 0x1_0000;
  }

  /** The field loop of `ujLoadClass` (either format): sizes of static fields and of
      instance fields, each summed in 16 bits. */
  method SumFields(ujc: bool, data: seq<byte>, addr0: word, n0: nat) returns (r: Option<FieldTotals>)
    ensures r == Totals(FieldList(ujc, data, addr0, n0))
  {
    var addr := addr0;
    var n := n0;
    var clsDatSz := 0;
    var instDatSz := 0;
    ghost var done: seq<FieldInfo> := [];
    ghost var target := Totals(FieldList(ujc, data, addr0, n0));
    PrependNothing(FieldList(ujc, data, addr0, n0));
    while n != 0
      invariant target == Totals(Prepend(done, FieldList(ujc, data, addr, n)))
      invariant clsDatSz == GroupTotal(done, true) % 0x1_0000
      invariant instDatSz == GroupTotal(done, false) % 0x1_0000
      decreases n
    {
      var fr := ReadField(ujc, data, addr);
      if fr.None? {
        FieldListStops(ujc, data, addr, n, done);
        return None;
      }
      var f := fr.value.0;
      var next := fr.value.1;
      var left := n - 1;
      SumStep(ujc, data, addr, n, done, f, next, clsDatSz, instDatSz, target, left);
      var b := Bump(clsDatSz, instDatSz, f);
      clsDatSz, instDatSz := b.0, b.1;
      done := done + [f];
      addr := next;
      n := left;
    }
    FieldListEnds(ujc, data, addr, done);
    return Some(FieldTotals(clsDatSz, instDatSz, addr));
  }

}
