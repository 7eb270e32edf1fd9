/** The three per-instruction passes the compactor runs over a method's code
    (classCvt/classOptimizer.c): the rewriting pass (`ldc` of a number becomes an
    immediate push; field accesses and calls to the class's own members become
    "specialised" instructions that carry an offset or an index instead of a constant),
    the marking pass (every constant an instruction still names is directly used) and the
    fixing pass (every constant index is renumbered through the forward map). */
module CodePasses {
  import opened Bytes
  import opened ConvClass
  import opened Descriptors

  const OpLdc: byte := 0x12
  const OpLdcW: byte := 0x13
  const OpLdc2W: byte := 0x14
  const OpGetStatic: byte := 0xB2
  const OpPutField: byte := 0xB5
  const OpInvokeVirtual: byte := 0xB6
  const OpInvokeSpecial: byte := 0xB7
  const OpInvokeStatic: byte := 0xB8
  const OpInvokeInterface: byte := 0xB9
  const OpInvokeDynamic: byte := 0xBA
  const OpNew: byte := 0xBB
  const OpANewArray: byte := 0xBD
  const OpCheckCast: byte := 0xC0
  const OpInstanceOf: byte := 0xC1
  const OpMultiANewArray: byte := 0xC5
  /** The converter's own opcode: push the four operand bytes as one big-endian word. */
  const OpPushRaw: byte := 0xFE

  // ---------------------------------------------------------------------------
  // Which instructions name a constant
  // ---------------------------------------------------------------------------

  /** `getstatic`, `putstatic`, `getfield`, `putfield`. */
  predicate IsFieldOp(op: byte) {
    OpGetStatic <= op <= OpPutField
  }

  /** `invokespecial`, `invokestatic`: the calls that can be bound to the class's own methods. */
  predicate IsLocalCall(op: byte) {
    op == OpInvokeSpecial || op == OpInvokeStatic
  }

  predicate Specialisable(op: byte) {
    IsFieldOp(op) || IsLocalCall(op)
  }

  /** The other instructions with a 16-bit constant index first in their operand. */
  predicate IsIndexOp(op: byte) {
    op == OpLdcW || op == OpLdc2W || op == OpInvokeVirtual || op == OpInvokeInterface ||
    op == OpInvokeDynamic || op == OpNew || op == OpANewArray || op == OpCheckCast ||
    op == OpInstanceOf || op == OpMultiANewArray
  }

  ghost predicate AllOk(s: seq<Instr>) {
    forall i | 0 <= i < |s| :: InstrOk(s[i])
  }

  /** The big-endian 16-bit index in the first two operand bytes. */
  function Index16(ins: Instr): (idx: int)
    requires InstrOk(ins)
    ensures 0 <= idx < 0x1_0000
  {
    ins.bytes[0] as int * 0x100 + ins.bytes[1] as int
  }

  /** The constant an instruction names, 0 for none. A specialised instruction names none:
      its operand is an offset or a member index. */
  function Operand(ins: Instr): (idx: int)
    requires InstrOk(ins)
    ensures 0 <= idx < 0x1_0000
  {
    if ins.op == OpLdc then ins.bytes[0]
    else if Specialisable(ins.op) && ins.wide then 0
    else if Specialisable(ins.op) || IsIndexOp(ins.op) then Index16(ins)
    else 0
  }

  /** Some instruction of `s` names constant `idx`. */
  ghost predicate Mentioned(s: seq<Instr>, idx: int)
    requires AllOk(s)
    decreases |s|
  {
    |s| > 0 && (Operand(s[|s| - 1]) == idx || Mentioned(s[..|s| - 1], idx))
  }

  lemma MentionedStep(s: seq<Instr>, i: int)
    requires AllOk(s) && 0 <= i < |s|
    ensures forall idx :: Mentioned(s[..i + 1], idx) <==> Operand(s[i]) == idx || Mentioned(s[..i], idx)
  {
    var s' := s[..i + 1];
    assert s'[..i] == s[..i] && s'[|s'| - 1] == s[i];
    forall idx ensures Mentioned(s', idx) <==> Operand(s[i]) == idx || Mentioned(s[..i], idx) {
    }
  }

  /** `Mentioned` means what it says. */
  lemma {:induction false} MentionedIff(s: seq<Instr>, idx: int)
    requires AllOk(s)
    ensures Mentioned(s, idx) <==> exists i | 0 <= i < |s| :: Operand(s[i]) == idx
    decreases |s|
  {
    if |s| > 0 {
      var s' := s[..|s| - 1];
      MentionedIff(s', idx);
      if Mentioned(s', idx) {
        var i :| 0 <= i < |s'| && Operand(s'[i]) == idx;
        assert s[i] == s'[i];
      }
      if exists i | 0 <= i < |s| :: Operand(s[i]) == idx {
        var i :| 0 <= i < |s| && Operand(s[i]) == idx;
        if i < |s'| {
          assert s'[i] == s[i];
        }
      }
    }
  }

  // ---------------------------------------------------------------------------
  // The marking pass
  // ---------------------------------------------------------------------------

  /** `bbMarkConstantsPassF`: every constant an instruction names becomes used and
      directly used; no other mark changes. */
  method MarkConstantsPass(instrs: array<Instr>, used: array<bool>, direct: array<bool>)
    requires used != direct && used.Length == direct.Length && AllOk(instrs[..])
    requires forall i | 0 <= i < instrs.Length :: Operand(instrs[i]) <= used.Length
    modifies used, direct
    ensures forall k | 0 <= k < used.Length :: used[k] == (old(used[k]) || Mentioned(instrs[..], k + 1))
    ensures forall k | 0 <= k < used.Length :: direct[k] == (old(direct[k]) || Mentioned(instrs[..], k + 1))
  {
    ghost var s, u0, d0 := instrs[..], used[..], direct[..];
    var i := 0;
    while i < instrs.Length
      invariant 0 <= i <= instrs.Length
      invariant forall k | 0 <= k < used.Length :: used[k] == (u0[k] || Mentioned(s[..i], k + 1))
      invariant forall k | 0 <= k < used.Length :: direct[k] == (d0[k] || Mentioned(s[..i], k + 1))
    {
      var idx := Operand(instrs[i]);
      MentionedStep(s, i);
      if idx != 0 {
        used[idx - 1] := true;
        direct[idx - 1] := true;
      }
      i := i + 1;
    }
    assert s[..i] == s;
  }

  // ---------------------------------------------------------------------------
  // The fixing pass
  // ---------------------------------------------------------------------------

  /** The entries of a `uint16_t` map. */
  ghost predicate Map16(fm: seq<int>) {
    forall j | 0 <= j < |fm| :: 0 <= fm[j] < 0x1_0000
  }

  /** `bbFixConstantsPassF` on one instruction: the named constant's index is sent
      through the map (an `ldc` keeps the low byte only); specialised instructions and
      those that name no constant are left alone. */
  function FixInstr(ins: Instr, fm: seq<int>): (r: Instr)
    requires InstrOk(ins) && Operand(ins) < |fm| && Map16(fm)
    ensures InstrOk(r) && r.op == ins.op && r.wide == ins.wide && r.numBytes == ins.numBytes
    ensures r.bytes[2..] == ins.bytes[2..]
  {
    if ins.op == OpLdc then
      ins.(bytes := ins.bytes[0 := fm[ins.bytes[0]] % 0x100])
    else if (Specialisable(ins.op) && !ins.wide) || IsIndexOp(ins.op) then
      var v := fm[Index16(ins)];
      ins.(bytes := ins.bytes[0 := v / 0x100][1 := v % 0x100])
    else ins
  }

  /** After fixing, an instruction names the constant the map sends its old constant to,
      as long as the new index of an `ldc` constant fits in a byte. */
  lemma FixOperand(ins: Instr, fm: seq<int>)
    requires InstrOk(ins) && Operand(ins) < |fm| && Map16(fm) && fm[0] == 0
    requires ins.op == OpLdc ==> fm[Operand(ins)] < 0x100
    ensures Operand(FixInstr(ins, fm)) == fm[Operand(ins)]
  {
  }

  /** `bbFixConstantsPassF` over one block of instructions. */
  method FixConstantsPass(instrs: array<Instr>, fmap: array<int>)
    requires AllOk(instrs[..]) && Map16(fmap[..])
    requires forall i | 0 <= i < instrs.Length :: Operand(instrs[i]) < fmap.Length
    modifies instrs
    ensures forall i | 0 <= i < instrs.Length :: instrs[i] == FixInstr(old(instrs[i]), fmap[..])
  {
    var i := 0;
    while i < instrs.Length
      invariant 0 <= i <= instrs.Length
      invariant forall j | 0 <= j < i :: instrs[j] == FixInstr(old(instrs[j]), fmap[..])
      invariant forall j | i <= j < instrs.Length :: instrs[j] == old(instrs[j])
    {
      var ins := instrs[i];
      if ins.op == OpLdc {
        ins := ins.(bytes := ins.bytes[0 := fmap[ins.bytes[0]] % 0x100]);
      } else if (Specialisable(ins.op) && !ins.wide) || IsIndexOp(ins.op) {
        var idx := ins.bytes[0] as int * 0x100 + ins.bytes[1] as int;
        idx := fmap[idx];
        ins := ins.(bytes := ins.bytes[0 := idx / 0x100][1 := idx % 0x100]);
      }
      instrs[i] := ins;
      i := i + 1;
    }
  }

  // ---------------------------------------------------------------------------
  // Binding field accesses and calls to the class's own members
  // ---------------------------------------------------------------------------

  predicate Matches(m: Member, name: int, descr: int) {
    m.nameIdx == name && m.descrIdx == descr
  }

  /** The first member from `from` on with this name and descriptor; `|ms|` when none. */
  function FindMember(ms: seq<Member>, name: int, descr: int, from: nat): (i: nat)
    requires from <= |ms|
    ensures from <= i <= |ms|
    ensures i < |ms| ==> Matches(ms[i], name, descr)
    ensures forall j | from <= j < i :: !Matches(ms[j], name, descr)
    decreases |ms| - from
  {
    if from == |ms| || Matches(ms[from], name, descr) then from
    else FindMember(ms, name, descr, from + 1)
  }

  /** What `classOptimizerPrvHandleLocals` decides: leave the instruction (`false`), stop
      the converter with a fatal message, or rewrite the first three operand bytes. */
  datatype Local = Keep | Fatal | Rewrite(b0: byte, b1: byte, b2: byte)

  /** The member reference at `idx` and its name-and-type can be read. */
  ghost predicate RefReadable(pool: seq<Const>, idx: int) {
    1 <= idx <= |pool| && 1 <= pool[idx - 1].second <= |pool|
  }

  /** The member reference can be read, and so can the descriptor string when a call to
      one of the class's own methods is bound. */
  ghost predicate LocalReadable(pool: seq<Const>, thisClass: int, ms: seq<Member>, isField: bool, idx: int) {
    RefReadable(pool, idx) &&
    (!isField && pool[idx - 1].first == thisClass &&
     FindMember(ms, pool[pool[idx - 1].second - 1].first, pool[pool[idx - 1].second - 1].second, 0) < |ms|
     ==> 1 <= pool[pool[idx - 1].second - 1].second <= |pool|)
  }

  /** A field access to this class becomes its type character and its 16-bit offset; a
      call to one of its own methods becomes the parameter-slot count plus one and the
      16-bit index of the method, unless the count does not fit below 255. */
  function LocalRef(pool: seq<Const>, thisClass: int, ms: seq<Member>, isField: bool, idx: int): Local
    requires LocalReadable(pool, thisClass, ms, isField, idx)
  {
    var cls := pool[idx - 1].first;
    var nt := pool[idx - 1].second;
    var name := pool[nt - 1].first;
    var typ := pool[nt - 1].second;
    if cls != thisClass then Keep
    else
      var i := FindMember(ms, name, typ, 0);
      if i == |ms| then Fatal
      else if isField then Rewrite(ms[i].typ, (ms[i].offset / 0x100) % 0x100, ms[i].offset % 0x100)
      else
        var js := pool[typ - 1].text;
        if |js| < 3 || js[0] != OpenParen then Fatal
        else
          var n := (OptWalk(js[1..], false, true) + (if IsStatic(ms[i].access) then 0 else 1)) % 0x1_0000;
          if n >= 255 then Keep else Rewrite(n + 1, (i / 0x100) % 0x100, i % 0x100)
  }

  /** `classOptimizerPrvHandleLocals`. `ms` is the class's fields when `isField`, else
      its methods. */
  method HandleLocals(c: JClass, ghost pool: seq<Const>, ghost ms: seq<Member>, isField: bool, idx: int)
    returns (r: Local)
    requires c.Valid() && c.pool[..] == pool && SameHeads((if isField then c.fields else c.methods)[..], ms)
    requires LocalReadable(pool, c.thisClass, ms, isField, idx)
    ensures r == LocalRef(pool, c.thisClass, ms, isField, idx)
  {
    var t := c.pool[idx - 1];
    var clsIdx, nameTypeIdx := t.first, t.second;
    var nt := c.pool[nameTypeIdx - 1];
    var nameIdx, typeIdx := nt.first, nt.second;
    if clsIdx != c.thisClass {
      return Keep;
    }
    var pp := if isField then c.fields else c.methods;
    var i := 0;
    while i < pp.Length && !Matches(pp[i], nameIdx, typeIdx)
      invariant 0 <= i <= pp.Length
      invariant FindMember(ms, nameIdx, typeIdx, i) == FindMember(ms, nameIdx, typeIdx, 0)
      decreases pp.Length - i
    {
      i := i + 1;
    }
    if i == pp.Length {
      return Fatal;
    }
    if isField {
      return Rewrite(pp[i].typ, (pp[i].offset / 0x100) % 0x100, pp[i].offset % 0x100);
    }
    var js := c.pool[typeIdx - 1].text;
    var slots := OptParamSlots(js, IsStatic(pp[i].access));
    if slots.None? {
      return Fatal;
    }
    var nParams := slots.value % 0x1_0000;
    if nParams >= 255 {
      return Keep;
    }
    return Rewrite(nParams + 1, i / 0x100, i % 0x100);
  }

  /** A bound field access names, by its type character and offset, the first field of
      this class with the referenced name and descriptor. */
  lemma LocalFieldBound(pool: seq<Const>, thisClass: int, fs: seq<Member>, idx: int)
    requires LocalReadable(pool, thisClass, fs, true, idx)
    requires LocalRef(pool, thisClass, fs, true, idx).Rewrite?
    ensures var r := LocalRef(pool, thisClass, fs, true, idx);
      var nt := pool[pool[idx - 1].second - 1];
      var i := FindMember(fs, nt.first, nt.second, 0);
      pool[idx - 1].first == thisClass && i < |fs| && Matches(fs[i], nt.first, nt.second) &&
      (forall j | 0 <= j < i :: !Matches(fs[j], nt.first, nt.second)) &&
      r.b0 == fs[i].typ && r.b1 as int * 0x100 + r.b2 as int == fs[i].offset % 0x1_0000
  {
    var nt := pool[pool[idx - 1].second - 1];
    var i := FindMember(fs, nt.first, nt.second, 0);
    Digits16(fs[i].offset);
  }

  lemma Digits16(v: int)
    ensures ((v / 0x100) % 0x100) * 0x100 + v % 0x100 == v % 0x1_0000
  {
    var q := v / 0x100;
    assert v == q * 0x100 + v % 0x100;
    assert q == (q / 0x100) * 0x100 + q % 0x100;
    assert v == (q / 0x100) * 0x1_0000 + (q % 0x100) * 0x100 + v % 0x100;
  }

  /** A bound call names, by its 16-bit index, the first method of this class with the
      referenced name and descriptor, and carries one more than its parameter slots. */
  lemma LocalCallBound(pool: seq<Const>, thisClass: int, ms: seq<Member>, idx: int)
    requires |ms| < 0x1_0000 && LocalReadable(pool, thisClass, ms, false, idx)
    requires LocalRef(pool, thisClass, ms, false, idx).Rewrite?
    ensures var r := LocalRef(pool, thisClass, ms, false, idx);
      var nt := pool[pool[idx - 1].second - 1];
      var i := r.b1 as int * 0x100 + r.b2 as int;
      pool[idx - 1].first == thisClass && i < |ms| && Matches(ms[i], nt.first, nt.second) &&
      (forall j | 0 <= j < i :: !Matches(ms[j], nt.first, nt.second)) &&
      r.b0 as int - 1 == (OptWalk(pool[nt.second - 1].text[1..], false, true) + (if IsStatic(ms[i].access) then 0 else 1)) % 0x1_0000 &&
      1 <= r.b0 <= 255
  {
    var nt := pool[pool[idx - 1].second - 1];
    var i := FindMember(ms, nt.first, nt.second, 0);
    assert i < 0x1_0000;
    Digits16(i);
  }

  /** For a well-formed descriptor without arrays of arrays the slots a bound call
      counts are the JVM's. */
  lemma LocalCallSlots(js: seq<byte>, ts: seq<FieldType>, tail: seq<byte>)
    requires TypesOk(ts) && forall k | 0 <= k < |ts| :: !IsNestedArray(ts[k])
    requires js == [OpenParen] + (EncodeAll(ts) + [CloseParen] + tail)
    ensures OptWalk(js[1..], false, true) == ParamSlots(ts)
  {
    OptWalkAsWrittenParams(ts, tail);
    TailOfOpen(js, EncodeAll(ts) + [CloseParen] + tail);
  }

  lemma TailOfOpen(js: seq<byte>, rest: seq<byte>)
    requires js == [OpenParen] + rest
    ensures js[1..] == rest
  {
  }

  // ---------------------------------------------------------------------------
  // The rewriting pass
  // ---------------------------------------------------------------------------

  /** The rewriting pass can read what each instruction names. */
  ghost predicate InstrReadable(pool: seq<Const>, thisClass: int, ms: seq<Member>, ins: Instr) {
    InstrOk(ins) &&
    (ins.op == OpLdc ==> 1 <= ins.bytes[0] <= |pool|) &&
    (ins.op == OpLdcW ==> 1 <= Index16(ins) <= |pool|) &&
    (IsFieldOp(ins.op) ==> RefReadable(pool, Index16(ins))) &&
    (IsLocalCall(ins.op) ==> LocalReadable(pool, thisClass, ms, false, Index16(ins)))
  }

  /** The immediate push of a 32-bit value. */
  function PushRaw(ins: Instr, d: word): (r: Instr)
    requires InstrOk(ins)
    ensures InstrOk(r)
  {
    ins.(op := OpPushRaw, numBytes := 4, bytes := EncodeU32(d) + ins.bytes[4..])
  }

  /** The immediate push carries the value it replaces. */
  lemma PushRawValue(ins: Instr, d: word)
    requires InstrOk(ins)
    ensures ReadU32(PushRaw(ins, d).bytes, 0) == d
  {
    var b := PushRaw(ins, d).bytes;
    assert b[0..4] == EncodeU32(d);
    ReadU32Encode(b, 0, d);
  }

  function Specialise(ins: Instr, l: Local): (r: Option<Instr>)
    requires InstrOk(ins)
    ensures r.Some? ==> InstrOk(r.value)
  {
    match l
    case Keep => Some(ins)
    case Fatal => None
    case Rewrite(a, b, c) => Some(ins.(wide := true, numBytes := 3, bytes := ins.bytes[0 := a][1 := b][2 := c]))
  }

  /** `bbOptimizationPassF` on one instruction; `None` where the converter stops. */
  function OptInstr(pool: seq<Const>, thisClass: int, fs: seq<Member>, ms: seq<Member>, ins: Instr): (r: Option<Instr>)
    requires InstrReadable(pool, thisClass, ms, ins)
    ensures r.Some? ==> InstrOk(r.value)
  {
    if ins.op == OpLdc || ins.op == OpLdcW then
      var idx := if ins.op == OpLdc then ins.bytes[0] else Index16(ins);
      if pool[idx - 1].tag != CStrRef then Some(PushRaw(ins, pool[idx - 1].raw)) else Some(ins)
    else if IsFieldOp(ins.op) then Specialise(ins, LocalRef(pool, thisClass, fs, true, Index16(ins)))
    else if IsLocalCall(ins.op) then Specialise(ins, LocalRef(pool, thisClass, ms, false, Index16(ins)))
    else Some(ins)
  }

  /** Every instruction the pass rewrites names no constant any more, so the marking
      pass that follows does not keep the constants it used to name; an `ldc` of a
      number becomes a push of that number. */
  lemma OptInstrDropsReferences(pool: seq<Const>, thisClass: int, fs: seq<Member>, ms: seq<Member>, ins: Instr)
    requires InstrReadable(pool, thisClass, ms, ins)
    requires OptInstr(pool, thisClass, fs, ms, ins).Some?
    ensures var r := OptInstr(pool, thisClass, fs, ms, ins).value;
      r != ins ==> Operand(r) == 0
    ensures var r := OptInstr(pool, thisClass, fs, ms, ins).value;
      (ins.op == OpLdc || ins.op == OpLdcW) && r != ins ==>
        (r.op == OpPushRaw && ReadU32(r.bytes, 0) == pool[(if ins.op == OpLdc then ins.bytes[0] else Index16(ins)) - 1].raw)
  {
    if ins.op == OpLdc || ins.op == OpLdcW {
      var idx := if ins.op == OpLdc then ins.bytes[0] else Index16(ins);
      PushRawValue(ins, pool[idx - 1].raw);
    }
  }

  method OptimizeOne(c: JClass, ghost pool: seq<Const>, ghost fs: seq<Member>, ghost ms: seq<Member>, ins: Instr)
    returns (r: Option<Instr>)
    requires c.Valid() && c.pool[..] == pool && SameHeads(c.fields[..], fs) && SameHeads(c.methods[..], ms)
    requires InstrReadable(pool, c.thisClass, ms, ins)
    ensures r == OptInstr(pool, c.thisClass, fs, ms, ins)
  {
    if ins.op == OpLdc || ins.op == OpLdcW {
      var idx: int := if ins.op == OpLdc then ins.bytes[0] else ins.bytes[0] as int * 0x100 + ins.bytes[1] as int;
      if c.pool[idx - 1].tag != CStrRef {
        var d := c.pool[idx - 1].raw;
        return Some(ins.(op := OpPushRaw, numBytes := 4,
                         bytes := [d / 0x100_0000, (d / 0x1_0000) % 0x100, (d / 0x100) % 0x100, d % 0x100] + ins.bytes[4..]));
      }
      return Some(ins);
    }
    if IsFieldOp(ins.op) || IsLocalCall(ins.op) {
      var idx := ins.bytes[0] as int * 0x100 + ins.bytes[1] as int;
      var l := HandleLocals(c, pool, if IsFieldOp(ins.op) then fs else ms, IsFieldOp(ins.op), idx);
      match l {
        case Keep => return Some(ins);
        case Fatal => return None;
        case Rewrite(a, b, d) =>
          return Some(ins.(wide := true, numBytes := 3, bytes := ins.bytes[0 := a][1 := b][2 := d]));
      }
    }
    return Some(ins);
  }

  /** `bbOptimizationPassF` over one block: every instruction rewritten in place, or
      `false` at the first one on which the converter stops. */
  method OptimizationPass(c: JClass, ghost pool: seq<Const>, ghost fs: seq<Member>, ghost ms: seq<Member>,
                          instrs: array<Instr>) returns (ok: bool)
    requires c.Valid() && c.pool[..] == pool && SameHeads(c.fields[..], fs) && SameHeads(c.methods[..], ms)
    requires forall i | 0 <= i < instrs.Length :: InstrReadable(pool, c.thisClass, ms, instrs[i])
    modifies instrs
    ensures ok ==> forall i | 0 <= i < instrs.Length :: OptInstr(pool, c.thisClass, fs, ms, old(instrs[i])) == Some(instrs[i])
    ensures !ok ==> exists i | 0 <= i < instrs.Length :: OptInstr(pool, c.thisClass, fs, ms, old(instrs[i])).None?
  {
    var i := 0;
    while i < instrs.Length
      invariant 0 <= i <= instrs.Length
      invariant forall j | 0 <= j < i :: OptInstr(pool, c.thisClass, fs, ms, old(instrs[j])) == Some(instrs[j])
      invariant forall j | i <= j < instrs.Length :: instrs[j] == old(instrs[j])
    {
      var r := OptimizeOne(c, pool, fs, ms, instrs[i]);
      if r.None? {
        return false;
      }
      instrs[i] := r.value;
      i := i + 1;
    }
    return true;
  }
}
