/** Java arrays and the array opcodes of the interpreter loop (`ujThreadPrvInstr`, uJ/uj.c).
    An array is a handle to a heap chunk holding a length and the element bytes; the element
    width is not stored with the array but implied by the opcode that touches it. Elements are
    copied to and from the chunk byte by byte in host order, which the model takes to be
    little-endian. */
module Arrays {
  import opened Bytes
  import opened Errors
  import opened Threads

  /** `UjArray`: a `UInt24` length (a 32-bit word) and the element bytes. */
  class JArray {
    const length: word
    const objArray: bool
    const data: array<byte>

    /** `ujArrayNew`: `len` elements of `size` bytes each, all bytes cleared. */
    constructor (len: word, size: nat, objArray: bool)
      ensures this.length == len && this.objArray == objArray && fresh(data)
      ensures data[..] == seq(len * size, _ => 0)
    {
      this.length := len;
      this.objArray := objArray;
      data := new byte[len * size](_ => 0);
    }
  }

  /** The handle table. The null handle names no array, two handles never share element
      bytes, element bytes are never a thread's stack, and a chunk fits the positive range
      of an `int32_t` offset on the 32-bit target. */
  ghost predicate HeapOk(heap: map<word, JArray>, t: Thread) {
    0 !in heap &&
    (forall h | h in heap :: heap[h].data.Length < 0x8000_0000) &&
    (forall h | h in heap :: heap[h].data as object != t.stack as object && heap[h].data as object != t.tags as object) &&
    (forall h1, h2 | h1 in heap && h2 in heap && h1 != h2 :: heap[h1].data != heap[h2].data)
  }

  /** The element kinds the opcodes distinguish (`float` shares the `int` path). */
  datatype Kind = IntElem | RefElem | ByteElem | CharElem | ShortElem

  function Width(k: Kind): (w: nat)
    ensures w == 1 || w == 2 || w == 4
  {
    match k
    case IntElem => 4
    case RefElem => 4
    case ByteElem => 1
    case CharElem => 2
    case ShortElem => 2
  }

  /** A popped arrayref the opcode may use: null, or an array whose bytes cover `length`
      elements of the opcode's width. */
  ghost predicate ArrayRefOk(heap: map<word, JArray>, h: word, width: nat) {
    h == 0 || (h in heap && heap[h].length * width <= heap[h].data.Length)
  }

  // ---------------------------------------------------------------------------
  // The bounds check
  // ---------------------------------------------------------------------------

  /** `ujThreadPrvArrayBoundsCheck`; the length is read back as an `int32_t`. */
  function BoundsCheck(heap: map<word, JArray>, h: word, idx: int): (ret: int)
    requires h == 0 || h in heap
  {
    if h == 0 then ErrNullPointer
    else if idx < 0 || idx >= S32(heap[h].length) then ErrArrayIndexOob
    else ErrNone
  }

  /** The check passes exactly for a non-null array and an index inside it; null is reported
      before the index is looked at. */
  lemma BoundsCheckIff(heap: map<word, JArray>, h: word, idx: int)
    requires h == 0 || h in heap
    requires h != 0 ==> heap[h].length < 0x8000_0000
    ensures BoundsCheck(heap, h, idx) == ErrNone <==> h != 0 && 0 <= idx < heap[h].length
    ensures BoundsCheck(heap, h, idx) == ErrNullPointer <==> h == 0
    ensures BoundsCheck(heap, h, idx) == ErrArrayIndexOob <==> h != 0 && !(0 <= idx < heap[h].length)
  {
  }

  // ---------------------------------------------------------------------------
  // Element bytes
  // ---------------------------------------------------------------------------

  /** Two bytes in host order (`ujThreadPrvGet16`). */
  function HostHalf(data: seq<byte>, off: int): (r: int)
    ensures 0 <= r < 0x1_0000
  {
    ReadByte(data, off) + 0x100 * ReadByte(data, off + 1)
  }

  function HalfBytes(v: int): (s: seq<byte>)
    requires 0 <= v < 0x1_0000
    ensures |s| == 2
  {
    [v % 0x100, v / 0x100]
  }

  function S8(b: byte): (r: int)
    ensures -0x80 <= r < 0x80
  {
    if b < 0x80 then b else b - 0x100
  }

  /** The bytes a store of the popped word `v` writes: the low `Width(k)` bytes. */
  function StoreBytes(k: Kind, v: word): (s: seq<byte>)
    ensures |s| == Width(k)
  {
    match k
    case IntElem => HostBytes(v)
    case RefElem => HostBytes(v)
    case ByteElem => [v % 0x100]
    case CharElem => HalfBytes(v % 0x1_0000)
    case ShortElem => HalfBytes(v % 0x1_0000)
  }

  /** The word a load pushes for element `idx`: bytes and shorts are sign-extended, chars
      zero-extended. */
  function ElemWord(k: Kind, data: seq<byte>, idx: int): word
  {
    match k
    case IntElem => HostWord(data, 4 * idx)
    case RefElem => HostWord(data, 4 * idx)
    case ByteElem => U32(S8(ReadByte(data, idx)))
    case CharElem => HostHalf(data, 2 * idx)
    case ShortElem => U32(S16(HostHalf(data, 2 * idx)))
  }

  /** The Java narrowing of a stored word to the element type, as read back. */
  function Narrowed(k: Kind, v: word): word
  {
    match k
    case IntElem => v
    case RefElem => v
    case ByteElem => U32(S8(v % 0x100))
    case CharElem => v % 0x1_0000
    case ShortElem => U32(S16(v % 0x1_0000))
  }

  lemma HalfBytesRead(data: seq<byte>, off: int, v: int)
    requires 0 <= v < 0x1_0000
    requires 0 <= off && off + 2 <= |data| && data[off..off + 2] == HalfBytes(v)
    ensures HostHalf(data, off) == v
  {
    assert data[off] == data[off..off + 2][0];
    assert data[off + 1] == data[off..off + 2][1];
  }

  /** Loading an element just stored gives the stored word narrowed to the element type. */
  lemma StoreThenLoad(k: Kind, data: seq<byte>, idx: nat, v: word)
    requires Width(k) * (idx + 1) <= |data|
    ensures ElemWord(k, Splice(data, Width(k) * idx, StoreBytes(k, v)), idx) == Narrowed(k, v)
  {
    var off := Width(k) * idx;
    var d2 := Splice(data, off, StoreBytes(k, v));
    match k
    case IntElem => HostWordBytes(d2, off, v);
    case RefElem => HostWordBytes(d2, off, v);
    case ByteElem => assert d2[idx] == d2[off..off + 1][0];
    case CharElem => HalfBytesRead(d2, off, v % 0x1_0000);
    case ShortElem => HalfBytesRead(d2, off, v % 0x1_0000);
  }

  /** A store leaves every other element as it was. */
  lemma StoreKeepsOthers(k: Kind, data: seq<byte>, idx: nat, j: nat, v: word)
    requires Width(k) * (idx + 1) <= |data| && Width(k) * (j + 1) <= |data| && j != idx
    ensures ElemWord(k, Splice(data, Width(k) * idx, StoreBytes(k, v)), j) == ElemWord(k, data, j)
  {
    var w := Width(k);
    var d2 := Splice(data, w * idx, StoreBytes(k, v));
    assert w * j + w <= w * idx || w * idx + w <= w * j by {
      if j < idx {
        assert w * (idx - j) >= w;
      } else {
        assert w * (j - idx) >= w;
      }
    }
    forall p | w * j <= p < w * j + w ensures d2[p] == data[p] {
    }
  }

  /** A `long` element: the high word at `8 * idx`, the low word after it, each in host
      order (`ujThreadPrvArraySetLong`/`GetLong`). */
  function LongBytes(hi: word, lo: word): (s: seq<byte>)
    ensures |s| == 8
  {
    HostBytes(hi) + HostBytes(lo)
  }

  function LongElem(data: seq<byte>, idx: int): (word, word)
  {
    (HostWord(data, 8 * idx), HostWord(data, 8 * idx + 4))
  }

  /** Loading a `long` element just stored gives back both halves. */
  lemma LongStoreThenLoad(data: seq<byte>, idx: nat, hi: word, lo: word)
    requires 8 * (idx + 1) <= |data|
    ensures LongElem(Splice(data, 8 * idx, LongBytes(hi, lo)), idx) == (hi, lo)
  {
    var d2 := Splice(data, 8 * idx, LongBytes(hi, lo));
    assert d2[8 * idx..8 * idx + 4] == d2[8 * idx..8 * idx + 8][..4];
    assert d2[8 * idx + 4..8 * idx + 8] == d2[8 * idx..8 * idx + 8][4..];
    HostWordBytes(d2, 8 * idx, hi);
    HostWordBytes(d2, 8 * idx + 4, lo);
  }

  /** A `long` store leaves every other element as it was. */
  lemma LongStoreKeepsOthers(data: seq<byte>, idx: nat, j: nat, hi: word, lo: word)
    requires 8 * (idx + 1) <= |data| && 8 * (j + 1) <= |data| && j != idx
    ensures LongElem(Splice(data, 8 * idx, LongBytes(hi, lo)), j) == LongElem(data, j)
  {
    var d2 := Splice(data, 8 * idx, LongBytes(hi, lo));
    assert 8 * j + 8 <= 8 * idx || 8 * idx + 8 <= 8 * j;
    forall p | 8 * j <= p < 8 * j + 8 ensures d2[p] == data[p] {
    }
  }

  /** Two adjacent splices are one splice of the joined bytes. */
  lemma SpliceTwice(data: seq<byte>, off: nat, a: seq<byte>, b: seq<byte>)
    requires off + |a| + |b| <= |data|
    ensures Splice(Splice(data, off, a), off + |a|, b) == Splice(data, off, a + b)
  {
    var l := Splice(Splice(data, off, a), off + |a|, b);
    var r := Splice(data, off, a + b);
    forall p | 0 <= p < |data| ensures l[p] == r[p] {
      if off <= p < off + |a| {
        assert r[p] == r[off..off + |a| + |b|][p - off];
        assert l[p] == Splice(data, off, a)[off..off + |a|][p - off];
      } else if off + |a| <= p < off + |a| + |b| {
        assert r[p] == r[off..off + |a| + |b|][p - off];
        assert l[p] == l[off + |a|..off + |a| + |b|][p - off - |a|];
      }
    }
  }

  // ---------------------------------------------------------------------------
  // Raw element access (`ujThreadPrvPut*`)
  // ---------------------------------------------------------------------------

  /** `ujThreadPrvPut32`. */
  method Put32(d: array<byte>, off: nat, v: word)
    requires off + 4 <= d.Length
    modifies d
    ensures d[..] == Splice(old(d[..]), off, HostBytes(v))
  {
    var b := HostBytes(v);
    d[off] := b[0];
    d[off + 1] := b[1];
    d[off + 2] := b[2];
    d[off + 3] := b[3];
    assert d[..] == Splice(old(d[..]), off, b) by {
      var s := Splice(old(d[..]), off, b);
      forall p | 0 <= p < d.Length ensures d[p] == s[p] {
        if off <= p < off + 4 {
          assert s[p] == s[off..off + 4][p - off];
        }
      }
    }
  }

  /** `ujThreadPrvPut16`. */
  method Put16(d: array<byte>, off: nat, v: int)
    requires off + 2 <= d.Length && 0 <= v < 0x1_0000
    modifies d
    ensures d[..] == Splice(old(d[..]), off, HalfBytes(v))
  {
    var b := HalfBytes(v);
    d[off] := b[0];
    d[off + 1] := b[1];
    assert d[..] == Splice(old(d[..]), off, b) by {
      var s := Splice(old(d[..]), off, b);
      forall p | 0 <= p < d.Length ensures d[p] == s[p] {
        if off <= p < off + 2 {
          assert s[p] == s[off..off + 2][p - off];
        }
      }
    }
  }

  /** The store of one element of kind `k` (`ujThreadPrvArraySet4B/2B/1B`). */
  method SetElem(a: JArray, k: Kind, idx: nat, v: word)
    requires Width(k) * (idx + 1) <= a.data.Length
    modifies a.data
    ensures a.data[..] == Splice(old(a.data[..]), Width(k) * idx, StoreBytes(k, v))
  {
    match k
    case IntElem => Put32(a.data, 4 * idx, v);
    case RefElem => Put32(a.data, 4 * idx, v);
    case ByteElem =>
      a.data[idx] := v % 0x100;
      assert a.data[..] == Splice(old(a.data[..]), idx, [v % 0x100]);
    case CharElem => Put16(a.data, 2 * idx, v % 0x1_0000);
    case ShortElem => Put16(a.data, 2 * idx, v % 0x1_0000);
  }

  /** `ujThreadPrvArraySetLong`: the high word first, then the low word. */
  method SetLong(a: JArray, idx: nat, hi: word, lo: word)
    requires 8 * (idx + 1) <= a.data.Length
    modifies a.data
    ensures a.data[..] == Splice(old(a.data[..]), 8 * idx, LongBytes(hi, lo))
  {
    Put32(a.data, 8 * idx, hi);
    Put32(a.data, 8 * idx + 4, lo);
    SpliceTwice(old(a.data[..]), 8 * idx, HostBytes(hi), HostBytes(lo));
  }

  // ---------------------------------------------------------------------------
  // The opcodes
  // ---------------------------------------------------------------------------

  /** What the three pops of a store take off the stack: value, index, arrayref. */
  ghost function Pop3(s: StackState): (r: (word, word, word, StackState))
    requires WellFormed(s) && s.sp >= 3
  {
    var (v, s1) := PopSpec(s);
    var (i, s2) := PopSpec(s1);
    var (h, s3) := PopSpec(s2);
    (v, i, h, s3)
  }

  /** What the two pops of a load take off the stack: index, arrayref. */
  ghost function Pop2(s: StackState): (r: (word, word, StackState))
    requires WellFormed(s) && s.sp >= 2
  {
    var (i, s1) := PopSpec(s);
    var (h, s2) := PopSpec(s1);
    (i, h, s2)
  }

  method PopThree(t: Thread) returns (v: word, i: word, h: word)
    requires t.Valid() && t.spBase >= 3
    modifies t, t.tags
    ensures t.Valid() && t.Frame() == old(t.Frame())
    ensures (v, i, h, t.State()) == Pop3(old(t.State()))
  {
    v := t.Pop();
    i := t.Pop();
    h := t.Pop();
  }

  method PopTwo(t: Thread) returns (i: word, h: word)
    requires t.Valid() && t.spBase >= 2
    modifies t, t.tags
    ensures t.Valid() && t.Frame() == old(t.Frame())
    ensures (i, h, t.State()) == Pop2(old(t.State()))
  {
    i := t.Pop();
    h := t.Pop();
  }

  /** `iastore`, `fastore`, `aastore`, `bastore`, `castore`, `sastore` (0x4F, 0x51, 0x53-0x56):
      pop value, index and arrayref; write only when the bounds check passes. */
  method ArrayStore(t: Thread, heap: map<word, JArray>, k: Kind) returns (ret: int)
    requires t.Valid() && t.spBase >= 3 && HeapOk(heap, t)
    requires ArrayRefOk(heap, PeekSpec(t.State(), 2), Width(k))
    modifies t, t.tags, set h | h in heap :: heap[h].data
    ensures t.Valid() && t.Frame() == old(t.Frame())
    ensures var (v, i, h, s3) := Pop3(old(t.State()));
            t.State() == s3 && ret == BoundsCheck(heap, h, S32(i)) &&
            forall g | g in heap :: heap[g].data[..] ==
              if ret == ErrNone && g == h then Splice(old(heap[g].data[..]), Width(k) * S32(i), StoreBytes(k, v))
              else old(heap[g].data[..])
  {
    var v, i, h := PopThree(t);
    ret := BoundsCheck(heap, h, S32(i));
    if ret != ErrNone {
      return;
    }
    var a := heap[h];
    assert a.data as object != t.stack as object && a.data as object != t.tags as object;
    ghost var st := t.State();
    SetElem(a, k, S32(i), v);
    assert t.State() == st;
  }

  /** `iaload`, `faload`, `aaload`, `baload`, `caload`, `saload` (0x2E, 0x30, 0x32-0x35): pop
      index and arrayref; when the check passes push the element (tagged for `aaload`). */
  method ArrayLoad(t: Thread, heap: map<word, JArray>, k: Kind) returns (ret: int)
    requires t.Valid() && t.spBase >= 2 && HeapOk(heap, t)
    requires ArrayRefOk(heap, PeekSpec(t.State(), 1), Width(k))
    modifies t, t.stack, t.tags
    ensures t.Valid() && t.Frame() == old(t.Frame())
    ensures var (i, h, s2) := Pop2(old(t.State()));
            ret == BoundsCheck(heap, h, S32(i)) &&
            t.State() == if ret == ErrNone then PushSpec(s2, ElemWord(k, heap[h].data[..], S32(i)), k == RefElem).1
                         else s2
  {
    var i, h := PopTwo(t);
    ret := BoundsCheck(heap, h, S32(i));
    if ret != ErrNone {
      return;
    }
    var a := heap[h];
    ghost var s2 := t.State();
    var w := ElemWord(k, a.data[..], S32(i));
    assert s2.sp < |s2.slots|;
    var ok := t.Push(w, k == RefElem);
    if !ok {
      ret := ErrStackSpace;
    }
  }

  /** The four pops of `lastore`: low word, high word, index, arrayref. */
  ghost function Pop4(s: StackState): (r: (word, word, word, word, StackState))
    requires WellFormed(s) && s.sp >= 4
  {
    var (lo, s1) := PopSpec(s);
    var (v, i, h, s4) := Pop3(s1);
    (v, lo, i, h, s4)
  }

  method PopFour(t: Thread) returns (hi: word, lo: word, i: word, h: word)
    requires t.Valid() && t.spBase >= 4
    modifies t, t.tags
    ensures t.Valid() && t.Frame() == old(t.Frame())
    ensures (hi, lo, i, h, t.State()) == Pop4(old(t.State()))
  {
    lo := t.Pop();
    hi, i, h := PopThree(t);
  }

  /** `lastore`, `dastore` (0x50, 0x52). */
  method LongStore(t: Thread, heap: map<word, JArray>) returns (ret: int)
    requires t.Valid() && t.spBase >= 4 && HeapOk(heap, t)
    requires ArrayRefOk(heap, PeekSpec(t.State(), 3), 8)
    modifies t, t.tags, set h | h in heap :: heap[h].data
    ensures t.Valid() && t.Frame() == old(t.Frame())
    ensures var (hi, lo, i, h, s4) := Pop4(old(t.State()));
            t.State() == s4 && ret == BoundsCheck(heap, h, S32(i)) &&
            forall g | g in heap :: heap[g].data[..] ==
              if ret == ErrNone && g == h then Splice(old(heap[g].data[..]), 8 * S32(i), LongBytes(hi, lo))
              else old(heap[g].data[..])
  {
    var hi, lo, i, h := PopFour(t);
    ret := BoundsCheck(heap, h, S32(i));
    if ret != ErrNone {
      return;
    }
    var a := heap[h];
    assert a.data as object != t.stack as object && a.data as object != t.tags as object;
    ghost var st := t.State();
    SetLong(a, S32(i), hi, lo);
    assert t.State() == st;
  }

  /** `laload`, `daload` (0x2F, 0x31): push the high word, then the low word. */
  method LongLoad(t: Thread, heap: map<word, JArray>) returns (ret: int)
    requires t.Valid() && t.spBase >= 2 && HeapOk(heap, t)
    requires ArrayRefOk(heap, PeekSpec(t.State(), 1), 8)
    modifies t, t.stack, t.tags
    ensures t.Valid() && t.Frame() == old(t.Frame())
    ensures var (i, h, s2) := Pop2(old(t.State()));
            ret == BoundsCheck(heap, h, S32(i)) &&
            t.State() == if ret == ErrNone then
                           var (hi, lo) := LongElem(heap[h].data[..], S32(i));
                           PushSpec(PushSpec(s2, hi, false).1, lo, false).1
                         else s2
  {
    var i, h := PopTwo(t);
    ret := BoundsCheck(heap, h, S32(i));
    if ret != ErrNone {
      return;
    }
    var a := heap[h];
    var (hi, lo) := LongElem(a.data[..], S32(i));
    ghost var s2 := t.State();
    assert s2.sp + 2 <= |s2.slots|;
    var ok := t.Push(hi, false);
    if ok {
      ok := t.Push(lo, false);
    }
    if !ok {
      ret := ErrStackSpace;
    }
  }
}
