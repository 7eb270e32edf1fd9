/** The size of a field from the first character of its type descriptor, and the
    placement of a class's own fields: static fields and instance fields are laid out in
    two separate groups, each field at the running total of the sizes of the earlier fields
    of its group. The virtual machine (sizes at load time, offsets while marking for the
    collector) and the offline compactor (explicit offsets) follow this same rule. */
module FieldLayout {
  import opened Bytes

  /** `ujPrvJavaTypeToSize` and the size switch of `classOptimize`. */
  function TypeToSize(c: byte): (n: int)
    ensures n == 1 || n == 2 || n == 4 || n == 8
    ensures n == 1 <==> (c == 'B' as int || c == 'Z' as int)
    ensures n == 2 <==> (c == 'C' as int || c == 'S' as int)
    ensures n == 8 <==> (c == 'D' as int || c == 'J' as int)
  {
    if c == 'B' as int || c == 'Z' as int then 1
    else if c == 'C' as int || c == 'S' as int then 2
    else if c == 'D' as int || c == 'J' as int then 8
    else 4
  }

  /** Whether a field's value is a handle the collector follows (`[` or `L`). */
  predicate IsRefType(c: byte) {
    c == '[' as int || c == 'L' as int
  }

  /** One declared field: whether it is static, and the first character of its descriptor. */
  datatype FieldInfo = FieldInfo(isStatic: bool, typ: byte)

  function Size(f: FieldInfo): int {
    TypeToSize(f.typ)
  }

  /** Total size of the fields of one group (static when `st`). */
  function GroupTotal(fs: seq<FieldInfo>, st: bool): (t: nat)
  {
    if |fs| == 0 then 0
    else GroupTotal(fs[..|fs| - 1], st) + (if fs[|fs| - 1].isStatic == st then Size(fs[|fs| - 1]) else 0)
  }

  /** Offset of field `j` inside its group. */
  function GroupOffset(fs: seq<FieldInfo>, j: int): nat
    requires 0 <= j < |fs|
  {
    GroupTotal(fs[..j], fs[j].isStatic)
  }

  lemma {:induction false} GroupTotalAppend(a: seq<FieldInfo>, b: seq<FieldInfo>, st: bool)
    ensures GroupTotal(a + b, st) == GroupTotal(a, st) + GroupTotal(b, st)
    decreases |b|
  {
    if |b| == 0 {
      assert a + b == a;
    } else {
      var b' := b[..|b| - 1];
      assert (a + b)[..|a + b| - 1] == a + b';
      assert (a + b)[|a + b| - 1] == b[|b| - 1];
      GroupTotalAppend(a, b', st);
    }
  }

  /** Totals never shrink as fields are added. */
  lemma {:induction false} GroupTotalMonotone(fs: seq<FieldInfo>, i: int, st: bool)
    requires 0 <= i <= |fs|
    ensures GroupTotal(fs[..i], st) <= GroupTotal(fs, st)
  {
    assert fs == fs[..i] + fs[i..];
    GroupTotalAppend(fs[..i], fs[i..], st);
  }

  /** A field lies wholly inside its group's area. */
  lemma FieldWithinGroup(fs: seq<FieldInfo>, j: int)
    requires 0 <= j < |fs|
    ensures GroupOffset(fs, j) + Size(fs[j]) <= GroupTotal(fs, fs[j].isStatic)
  {
    assert fs[..j + 1][..j] == fs[..j];
    GroupTotalMonotone(fs, j + 1, fs[j].isStatic);
  }

  /** Two different fields of the same group never overlap: the earlier one ends at or
      before the start of the later one. */
  lemma FieldsDisjoint(fs: seq<FieldInfo>, i: int, j: int)
    requires 0 <= i < j < |fs| && fs[i].isStatic == fs[j].isStatic
    ensures GroupOffset(fs, i) + Size(fs[i]) <= GroupOffset(fs, j)
  {
    var pre := fs[..j];
    assert pre[i] == fs[i];
    assert pre[..i] == fs[..i];
    FieldWithinGroup(pre, i);
  }

  /** Each field's type belongs to it alone: fields of the other group do not move it. */
  lemma OtherGroupDoesNotMove(fs: seq<FieldInfo>, f: FieldInfo)
    ensures GroupTotal(fs + [f], !f.isStatic) == GroupTotal(fs, !f.isStatic)
    ensures GroupTotal(fs + [f], f.isStatic) == GroupTotal(fs, f.isStatic) + Size(f)
  {
    assert (fs + [f])[..|fs|] == fs;
  }
}
