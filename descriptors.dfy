/** Counting the stack slots a method's parameters take, from its descriptor string such as
    `(I[JLjava/lang/String;)V`. Two walkers do this: the interpreter's invoke path
    (`ujThreadPrvInvoke`, uJ/uj.c) and the offline converter when it specialises calls to
    the class's own methods (`classOptimizerPrvHandleLocals`, classCvt/classOptimizer.c).
    Both are stated against one reference: the JVM rule that `long` and `double` take two
    slots and every other parameter, arrays included, one. */
module Descriptors {
  import opened Bytes
  import opened Errors

  const TagByte: byte := 0x42    // 'B'
  const TagChar: byte := 0x43    // 'C'
  const TagDouble: byte := 0x44  // 'D'
  const TagFloat: byte := 0x46   // 'F'
  const TagInt: byte := 0x49     // 'I'
  const TagLong: byte := 0x4A    // 'J'
  const TagObj: byte := 0x4C     // 'L'
  const TagShort: byte := 0x53   // 'S'
  const TagBool: byte := 0x5A    // 'Z'
  const TagArray: byte := 0x5B   // '['
  const TagObjEnd: byte := 0x3B  // ';'
  const OpenParen: byte := 0x28  // '('
  const CloseParen: byte := 0x29 // ')'

  // ---------------------------------------------------------------------------
  // The reference: field types and their slot counts
  // ---------------------------------------------------------------------------

  function IsWide(c: byte): bool {
    c == TagDouble || c == TagLong
  }

  function IsNarrow(c: byte): bool {
    c == TagByte || c == TagChar || c == TagFloat || c == TagInt || c == TagShort || c == TagBool
  }

  /** A parameter type as a descriptor spells it. */
  datatype FieldType = Base(tag: byte) | Object(name: seq<byte>) | Array(elem: FieldType)

  ghost predicate TypeOk(ty: FieldType) {
    match ty
    case Base(c) => IsWide(c) || IsNarrow(c)
    case Object(name) => forall k | 0 <= k < |name| :: name[k] != TagObjEnd
    case Array(e) => TypeOk(e)
  }

  ghost predicate TypesOk(ts: seq<FieldType>) {
    forall k | 0 <= k < |ts| :: TypeOk(ts[k])
  }

  function Encode(ty: FieldType): (s: seq<byte>)
    ensures |s| > 0
  {
    match ty
    case Base(c) => [c]
    case Object(name) => [TagObj] + name + [TagObjEnd]
    case Array(e) => [TagArray] + Encode(e)
  }

  function EncodeAll(ts: seq<FieldType>): seq<byte> {
    if |ts| == 0 then [] else Encode(ts[0]) + EncodeAll(ts[1..])
  }

  /** Two slots for `long` and `double`, one for everything else. */
  function TypeSlots(ty: FieldType): (n: nat)
    ensures n == 1 || n == 2
  {
    if ty.Base? && IsWide(ty.tag) then 2 else 1
  }

  function ParamSlots(ts: seq<FieldType>): nat {
    if |ts| == 0 then 0 else TypeSlots(ts[0]) + ParamSlots(ts[1..])
  }

  /** An array whose innermost element type is a class. */
  predicate IsObjectArray(ty: FieldType) {
    ty.Array? && (ty.elem.Object? || IsObjectArray(ty.elem))
  }

  /** An array of arrays. */
  predicate IsNestedArray(ty: FieldType) {
    ty.Array? && ty.elem.Array?
  }

  /** The bytes after the first `;` (none when there is no `;`). */
  function SkipName(d: seq<byte>): (r: seq<byte>)
    ensures |r| <= |d|
    decreases |d|
  {
    if |d| == 0 then [] else if d[0] == TagObjEnd then d[1..] else SkipName(d[1..])
  }

  lemma {:induction false} SkipNameOf(name: seq<byte>, rest: seq<byte>)
    requires forall k | 0 <= k < |name| :: name[k] != TagObjEnd
    ensures SkipName(name + [TagObjEnd] + rest) == rest
    decreases |name|
  {
    if |name| == 0 {
      assert name + [TagObjEnd] + rest == [TagObjEnd] + rest;
    } else {
      assert (name + [TagObjEnd] + rest)[1..] == name[1..] + [TagObjEnd] + rest;
      SkipNameOf(name[1..], rest);
    }
  }

  lemma EncodeAllCons(ts: seq<FieldType>, tail: seq<byte>)
    requires |ts| > 0
    ensures EncodeAll(ts) + tail == Encode(ts[0]) + (EncodeAll(ts[1..]) + tail)
  {
  }

  // ---------------------------------------------------------------------------
  // The interpreter's walk
  // ---------------------------------------------------------------------------

  /** The slots counted over descriptor bytes `d` (the bytes after `(`) by the invoke path.
      `counting` is the flag the code keeps in `ret`: cleared after `[` so that the element
      type is not counted again, set again after a primitive. As written, a class name
      leaves the flag as it found it (`resetAfterObject` false); the corrected walk sets it. */
  function UjWalk(d: seq<byte>, counting: bool, resetAfterObject: bool): nat
    decreases |d|
  {
    if |d| == 0 then 0
    else
      var c := d[0];
      var k := if counting then 1 else 0;
      if IsWide(c) then 2 * k + UjWalk(d[1..], true, resetAfterObject)
      else if IsNarrow(c) then k + UjWalk(d[1..], true, resetAfterObject)
      else if c == TagArray then k + UjWalk(d[1..], false, resetAfterObject)
      else if c == TagObj then k + UjWalk(SkipName(d[1..]), counting || resetAfterObject, resetAfterObject)
      else if c == CloseParen then 0
      else UjWalk(d[1..], counting, resetAfterObject)
  }

  /** One parameter's bytes: its slots when the flag is set, none when it is an array's
      element type; either way the flag is set afterwards. With the code as written this
      holds for every type except arrays of objects. */
  lemma {:induction false} UjWalkType(ty: FieldType, rest: seq<byte>, counting: bool, reset: bool)
    requires TypeOk(ty) && (reset || !IsObjectArray(ty))
    requires reset || counting || !ty.Object?
    ensures UjWalk(Encode(ty) + rest, counting, reset) ==
            (if counting then TypeSlots(ty) else 0) + UjWalk(rest, true, reset)
    decreases ty
  {
    var d := Encode(ty) + rest;
    match ty
    case Base(c) =>
      assert d[0] == c && d[1..] == rest;
    case Object(name) =>
      assert d[0] == TagObj && d[1..] == name + [TagObjEnd] + rest;
      SkipNameOf(name, rest);
    case Array(e) =>
      assert d[0] == TagArray && d[1..] == Encode(e) + rest;
      UjWalkType(e, rest, false, reset);
  }

  /** The corrected walk over a whole parameter list counts exactly the reference slots. */
  lemma {:induction false} UjWalkParams(ts: seq<FieldType>, tail: seq<byte>)
    requires TypesOk(ts)
    ensures UjWalk(EncodeAll(ts) + [CloseParen] + tail, true, true) == ParamSlots(ts)
    decreases |ts|
  {
    if |ts| == 0 {
      assert EncodeAll(ts) + [CloseParen] + tail == [CloseParen] + tail;
    } else {
      EncodeAllCons(ts, [CloseParen] + tail);
      assert EncodeAll(ts) + [CloseParen] + tail == Encode(ts[0]) + (EncodeAll(ts[1..]) + [CloseParen] + tail);
      UjWalkType(ts[0], EncodeAll(ts[1..]) + [CloseParen] + tail, true, true);
      assert TypesOk(ts[1..]) by {
        forall k | 0 <= k < |ts[1..]| ensures TypeOk(ts[1..][k]) {
          assert ts[1..][k] == ts[k + 1];
        }
      }
      UjWalkParams(ts[1..], tail);
    }
  }

  /** The walk as written agrees with the reference as long as no parameter is an array of
      objects. */
  lemma {:induction false} UjWalkAsWrittenParams(ts: seq<FieldType>, tail: seq<byte>)
    requires TypesOk(ts) && forall k | 0 <= k < |ts| :: !IsObjectArray(ts[k])
    ensures UjWalk(EncodeAll(ts) + [CloseParen] + tail, true, false) == ParamSlots(ts)
    decreases |ts|
  {
    if |ts| == 0 {
      assert EncodeAll(ts) + [CloseParen] + tail == [CloseParen] + tail;
    } else {
      EncodeAllCons(ts, [CloseParen] + tail);
      assert EncodeAll(ts) + [CloseParen] + tail == Encode(ts[0]) + (EncodeAll(ts[1..]) + [CloseParen] + tail);
      UjWalkType(ts[0], EncodeAll(ts[1..]) + [CloseParen] + tail, true, false);
      assert TypesOk(ts[1..]) && forall k | 0 <= k < |ts[1..]| :: !IsObjectArray(ts[1..][k]) by {
        forall k | 0 <= k < |ts[1..]| ensures TypeOk(ts[1..][k]) && !IsObjectArray(ts[1..][k]) {
          assert ts[1..][k] == ts[k + 1];
        }
      }
      UjWalkAsWrittenParams(ts[1..], tail);
    }
  }

  /** `([LA;I)V`: as written the `int` after the object array goes uncounted. */
  lemma UjWalkObjectArrayMiss()
    ensures UjWalk([TagArray, TagObj, 0x41, TagObjEnd, TagInt, CloseParen], true, false) == 1
    ensures UjWalk([TagArray, TagObj, 0x41, TagObjEnd, TagInt, CloseParen], true, true) == 2
    ensures ParamSlots([Array(Object([0x41])), Base(TagInt)]) == 2
  {
    var d := [TagArray, TagObj, 0x41, TagObjEnd, TagInt, CloseParen];
    var tl: seq<byte> := [TagInt, CloseParen];
    assert UjWalk(tl[1..], true, false) == 0 && UjWalk(tl[1..], true, true) == 0;
    assert UjWalk(tl, false, false) == 0 && UjWalk(tl, true, true) == 1;
    assert SkipName(d[2..]) == tl by {
      assert d[2..][1..] == [TagObjEnd] + tl;
    }
    assert d[1..][1..] == d[2..];
    assert UjWalk(d[1..], false, false) == 0 && UjWalk(d[1..], false, true) == 1;
    var ts := [Array(Object([0x41])), Base(TagInt)];
    assert ts[1..] == [Base(TagInt)] && ts[1..][1..] == [];
    assert ParamSlots(ts[1..]) == 1;
  }

  /** The `len` descriptor bytes starting at `a`, as the fetches read them. */
  function Window(code: seq<byte>, a: int, len: nat): (w: seq<byte>)
    ensures |w| == len
  {
    seq<byte>(len, k => ReadByte(code, a + k))
  }

  lemma WindowStep(code: seq<byte>, a: int, len: nat)
    requires len > 0
    ensures Window(code, a, len)[0] == ReadByte(code, a)
    ensures Window(code, a, len)[1..] == Window(code, a + 1, len - 1)
  {
  }

  /** The class-name skip over the window: stop after `;`; `found` tells whether the
      window held one (when it did not, the model stops at the end of the string). */
  method SkipClassName(code: seq<byte>, a0: nat, len0: nat) returns (a: nat, len: nat, found: bool)
    ensures Window(code, a, len) == SkipName(Window(code, a0, len0))
    ensures found <==> TagObjEnd in Window(code, a0, len0)
    ensures !found ==> len == 0 && a == a0 + len0
  {
    a, len := a0, len0;
    found := false;
    while len > 0
      invariant a + len == a0 + len0
      invariant SkipName(Window(code, a, len)) == SkipName(Window(code, a0, len0))
      invariant (TagObjEnd in Window(code, a0, len0)) <==> (TagObjEnd in Window(code, a, len))
      decreases len
    {
      WindowStep(code, a, len);
      assert Window(code, a, len) == [ReadByte(code, a)] + Window(code, a + 1, len - 1);
      len := len - 1;
      var c := ReadByte(code, a);
      a := a + 1;
      if c == TagObjEnd {
        found := true;
        return;
      }
    }
  }

  /** One pass of the counting loop: fetch a byte, count it, and for a class name skip
      past its `;`. */
  method UjCountByte(code: seq<byte>, a0: nat, len0: nat, n0: int, counting0: bool)
    returns (a: nat, len: nat, n: int, counting: bool)
    requires len0 > 0 && 0 <= n0 < 0x1_0000
    ensures 0 <= n < 0x1_0000 && len < len0
    ensures (n + UjWalk(Window(code, a, len), counting, false)) % 0x1_0000 ==
            (n0 + UjWalk(Window(code, a0, len0), counting0, false)) % 0x1_0000
  {
    WindowStep(code, a0, len0);
    ghost var w := Window(code, a0, len0);
    len := len0 - 1;
    var c := ReadByte(code, a0);
    a := a0 + 1;
    var k := 0;
    counting := counting0;
    if IsWide(c) || IsNarrow(c) {
      if counting {
        k := if IsWide(c) then 2 else 1;
      }
      counting := true;
    } else if c == TagArray {
      if counting {
        k := 1;
      }
      counting := false;
    } else if c == TagObj {
      if counting {
        k := 1;
      }
      var found;
      a, len, found := SkipClassName(code, a, len);
    } else if c == CloseParen {
      len := 0;
    }
    assert UjWalk(w, counting0, false) == k + UjWalk(Window(code, a, len), counting, false);
    n := (n0 + k) % 0x1_0000;
    ModAdd(n0 + k, UjWalk(Window(code, a, len), counting, false));
  }

  lemma ModAdd(x: int, y: int)
    ensures (x % 0x1_0000 + y) % 0x1_0000 == (x + y) % 0x1_0000
  {
  }

  /** The parameter-slot count of `ujThreadPrvInvoke` for the descriptor string at `addr`
      (a 16-bit length, then the bytes): `(` must come first; the implicit `this` is counted
      and taken back off for a static call; the count is a `uint16_t`. */
  method UjParamSlots(code: seq<byte>, addr: nat, isStatic: bool) returns (ret: int, n: int)
    ensures ret == ErrNone || ret == ErrMethodNonexistent
    ensures ret == ErrMethodNonexistent <==> ReadByte(code, addr + 2) != OpenParen
    ensures ret == ErrNone ==>
      n == (1 + UjWalk(Window(code, addr + 3, ReadU16(code, addr)), true, false) - (if isStatic then 1 else 0)) % 0x1_0000
  {
    var len: nat := ReadU16(code, addr);
    var a: nat := addr + 2;
    if ReadByte(code, a) != OpenParen {
      return ErrMethodNonexistent, 0;
    }
    a := a + 1;
    ghost var total := UjWalk(Window(code, a, len), true, false);
    n := 1;
    var counting := true;
    while len > 0
      invariant 0 <= n < 0x1_0000
      invariant (n + UjWalk(Window(code, a, len), counting, false)) % 0x1_0000 == (1 + total) % 0x1_0000
      decreases len
    {
      a, len, n, counting := UjCountByte(code, a, len, n, counting);
    }
    assert UjWalk(Window(code, a, len), counting, false) == 0;
    assert n == (1 + total) % 0x1_0000;
    if isStatic {
      ModAdd(1 + total, -1);
      n := (n - 1) % 0x1_0000;
    }
    ret := ErrNone;
  }

  /** The corrected walk, as the fix would run it. */
  function UjParamSlotsFixed(d: seq<byte>, isStatic: bool): (n: int)
    ensures forall ts: seq<FieldType>, tail: seq<byte> | TypesOk(ts) && d == EncodeAll(ts) + [CloseParen] + tail ::
              n == (1 + ParamSlots(ts) - (if isStatic then 1 else 0)) % 0x1_0000
  {
    assert forall ts: seq<FieldType>, tail: seq<byte> | TypesOk(ts) && d == EncodeAll(ts) + [CloseParen] + tail ::
             UjWalk(d, true, true) == ParamSlots(ts) by {
      forall ts: seq<FieldType>, tail: seq<byte> | TypesOk(ts) && d == EncodeAll(ts) + [CloseParen] + tail
        ensures UjWalk(d, true, true) == ParamSlots(ts)
      {
        UjWalkParams(ts, tail);
      }
    }
    (1 + UjWalk(d, true, true) - (if isStatic then 1 else 0)) % 0x1_0000
  }

  // ---------------------------------------------------------------------------
  // The converter's walk
  // ---------------------------------------------------------------------------

  /** The slots counted by `classOptimizerPrvHandleLocals` over the bytes after `(`, with
      its `inArray` flag: a primitive or class name right after `[` is not counted again.
      As written every `[` adds a slot, so `[[I` counts two; the corrected walk adds one
      only for the outermost `[` (`countNested` false). */
  function OptWalk(d: seq<byte>, inArray: bool, countNested: bool): nat
    decreases |d|
  {
    if |d| == 0 then 0
    else
      var c := d[0];
      var k := if inArray then 0 else 1;
      if c == CloseParen then 0
      else if IsWide(c) then 2 * k + OptWalk(d[1..], false, countNested)
      else if c == TagArray then (if countNested then 1 else k) + OptWalk(d[1..], true, countNested)
      else if c == TagObj then k + OptWalk(SkipName(d[1..]), false, countNested)
      else k + OptWalk(d[1..], false, countNested)
  }

  lemma {:induction false} OptWalkType(ty: FieldType, rest: seq<byte>, inArray: bool, countNested: bool)
    requires TypeOk(ty) && (!countNested || !IsNestedArray(ty))
    ensures OptWalk(Encode(ty) + rest, inArray, countNested) ==
            (if inArray && !(countNested && ty.Array?) then 0 else TypeSlots(ty)) + OptWalk(rest, false, countNested)
    decreases ty
  {
    var d := Encode(ty) + rest;
    match ty
    case Base(c) =>
      assert d[0] == c && d[1..] == rest;
    case Object(name) =>
      assert d[0] == TagObj && d[1..] == name + [TagObjEnd] + rest;
      SkipNameOf(name, rest);
    case Array(e) =>
      assert d[0] == TagArray && d[1..] == Encode(e) + rest;
      OptWalkType(e, rest, true, countNested);
  }

  /** The corrected converter walk counts exactly the reference slots. */
  lemma {:induction false} OptWalkParams(ts: seq<FieldType>, tail: seq<byte>)
    requires TypesOk(ts)
    ensures OptWalk(EncodeAll(ts) + [CloseParen] + tail, false, false) == ParamSlots(ts)
    decreases |ts|
  {
    if |ts| == 0 {
      assert EncodeAll(ts) + [CloseParen] + tail == [CloseParen] + tail;
    } else {
      EncodeAllCons(ts, [CloseParen] + tail);
      assert EncodeAll(ts) + [CloseParen] + tail == Encode(ts[0]) + (EncodeAll(ts[1..]) + [CloseParen] + tail);
      OptWalkType(ts[0], EncodeAll(ts[1..]) + [CloseParen] + tail, false, false);
      assert TypesOk(ts[1..]) by {
        forall k | 0 <= k < |ts[1..]| ensures TypeOk(ts[1..][k]) {
          assert ts[1..][k] == ts[k + 1];
        }
      }
      OptWalkParams(ts[1..], tail);
    }
  }

  /** The converter walk as written agrees with the reference when no parameter is an array
      of arrays. */
  lemma {:induction false} OptWalkAsWrittenParams(ts: seq<FieldType>, tail: seq<byte>)
    requires TypesOk(ts) && forall k | 0 <= k < |ts| :: !IsNestedArray(ts[k])
    ensures OptWalk(EncodeAll(ts) + [CloseParen] + tail, false, true) == ParamSlots(ts)
    decreases |ts|
  {
    if |ts| == 0 {
      assert EncodeAll(ts) + [CloseParen] + tail == [CloseParen] + tail;
    } else {
      EncodeAllCons(ts, [CloseParen] + tail);
      assert EncodeAll(ts) + [CloseParen] + tail == Encode(ts[0]) + (EncodeAll(ts[1..]) + [CloseParen] + tail);
      OptWalkType(ts[0], EncodeAll(ts[1..]) + [CloseParen] + tail, false, true);
      assert TypesOk(ts[1..]) && forall k | 0 <= k < |ts[1..]| :: !IsNestedArray(ts[1..][k]) by {
        forall k | 0 <= k < |ts[1..]| ensures TypeOk(ts[1..][k]) && !IsNestedArray(ts[1..][k]) {
          assert ts[1..][k] == ts[k + 1];
        }
      }
      OptWalkAsWrittenParams(ts[1..], tail);
    }
  }

  /** `([[I)V`: as written two slots, one by the JVM rule. */
  lemma OptWalkNestedArray()
    ensures OptWalk([TagArray, TagArray, TagInt, CloseParen], false, true) == 2
    ensures OptWalk([TagArray, TagArray, TagInt, CloseParen], false, false) == 1
    ensures ParamSlots([Array(Array(Base(TagInt)))]) == 1
  {
    var d := [TagArray, TagArray, TagInt, CloseParen];
    assert d[3..] == [CloseParen] && d[2..][1..] == d[3..] && d[1..][1..] == d[2..];
    assert OptWalk(d[3..], false, true) == 0 && OptWalk(d[3..], false, false) == 0;
    assert OptWalk(d[2..], true, true) == 0 && OptWalk(d[2..], true, false) == 0;
    assert OptWalk(d[1..], true, true) == 1 && OptWalk(d[1..], true, false) == 0;
    var ts := [Array(Array(Base(TagInt)))];
    assert ts[1..] == [];
  }

  /** The corrected converter count. */
  function OptParamSlotsFixed(d: seq<byte>): (n: nat)
    ensures forall ts: seq<FieldType>, tail: seq<byte> | TypesOk(ts) && d == EncodeAll(ts) + [CloseParen] + tail ::
              n == ParamSlots(ts)
  {
    assert forall ts: seq<FieldType>, tail: seq<byte> | TypesOk(ts) && d == EncodeAll(ts) + [CloseParen] + tail ::
             OptWalk(d, false, false) == ParamSlots(ts) by {
      forall ts: seq<FieldType>, tail: seq<byte> | TypesOk(ts) && d == EncodeAll(ts) + [CloseParen] + tail
        ensures OptWalk(d, false, false) == ParamSlots(ts)
      {
        OptWalkParams(ts, tail);
      }
    }
    OptWalk(d, false, false)
  }

  /** The converter's class-name skip: past the first `;`. */
  method OptSkipClassName(d: seq<byte>, i0: nat) returns (i: nat)
    requires i0 <= |d|
    ensures i <= |d| && d[i..] == SkipName(d[i0..])
  {
    i := i0;
    while i < |d|
      invariant i0 <= i <= |d| && SkipName(d[i..]) == SkipName(d[i0..])
      decreases |d| - i
    {
      assert d[i..][1..] == d[i + 1..];
      var c := d[i];
      i := i + 1;
      if c == TagObjEnd {
        return;
      }
    }
  }

  /** The counting loop of `classOptimizerPrvHandleLocals` over descriptor `js` (its bytes,
      `(` included): `None` where the converter stops with a fatal message (shorter than
      three bytes, or not starting with `(`), else the parameter slots plus one for `this`
      when the method is not static. */
  method OptParamSlots(js: seq<byte>, isStatic: bool) returns (r: Option<int>)
    ensures r.None? <==> |js| < 3 || js[0] != OpenParen
    ensures r.Some? ==> r.value == OptWalk(js[1..], false, true) + (if isStatic then 0 else 1)
  {
    if |js| < 3 || js[0] != OpenParen {
      return None;
    }
    var i := 1;
    var nParams := 0;
    var inArray := false;
    while i < |js| && js[i] != CloseParen
      invariant 1 <= i <= |js|
      invariant nParams + OptWalk(js[i..], inArray, true) == OptWalk(js[1..], false, true)
      decreases |js| - i
    {
      assert js[i..][1..] == js[i + 1..];
      var c := js[i];
      i := i + 1;
      if IsWide(c) {
        if inArray {
          inArray := false;
        } else {
          nParams := nParams + 2;
        }
      } else if c == TagArray {
        nParams := nParams + 1;
        inArray := true;
      } else {
        if c == TagObj {
          i := OptSkipClassName(js, i);
        }
        if inArray {
          inArray := false;
        } else {
          nParams := nParams + 1;
        }
      }
    }
    if !isStatic {
      nParams := nParams + 1;
    }
    return Some(nParams);
  }
}
