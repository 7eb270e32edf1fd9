/** The `lcmp`, `monitorenter` and `monitorexit` bodies of the interpreter loop
    (`ujThreadPrvInstr`, uJ/uj.c). A `long` occupies two stack slots, the high word
    below the low word. */
module Opcodes {
  import opened Bytes
  import opened Errors
  import opened Threads
  import opened Monitors

  // ---------------------------------------------------------------------------
  // lcmp
  // ---------------------------------------------------------------------------

  const Two32 := 0x1_0000_0000
  const Two63 := 0x8000_0000_0000_0000
  const Two64 := 0x1_0000_0000_0000_0000

  /** The two's-complement reading of a 64-bit pattern. */
  function S64(x: int): (r: int)
    requires 0 <= x < Two64
    ensures -Two63 <= r < Two63 && (r - x) % Two64 == 0
  {
    if x < Two63 then x else x - Two64
  }

  /** `ujThreadPrvPopLong`: the low word comes off first, then the high word. */
  ghost function PopLongSpec(s: StackState): (r: (int, StackState))
    requires WellFormed(s) && s.sp >= 2
    ensures 0 <= r.0 < Two64
  {
    var (lo, s1) := PopSpec(s);
    var (hi, s2) := PopSpec(s1);
    (hi * Two32 + lo, s2)
  }

  method PopLong(t: Thread) returns (x: int)
    requires t.Valid() && t.spBase >= 2
    modifies t, t.tags
    ensures t.Valid() && t.Frame() == old(t.Frame())
    ensures (x, t.State()) == PopLongSpec(old(t.State()))
  {
    var lo := t.Pop();
    var hi := t.Pop();
    x := hi * Two32 + lo;
  }

  /** The comparison as the code computes it on the 64-bit patterns `x1` (value1, pushed
      first) and `x2` (value2): the wrapped difference `value2 - value1` is classified by
      its sign bit. */
  function LcmpAsWritten(x1: int, x2: int): int
    requires 0 <= x1 < Two64 && 0 <= x2 < Two64
  {
    var d := (x2 - x1) % Two64;
    if d >= Two63 then 1 else if d == 0 then 0 else -1
  }

  /** The comparison the Java `lcmp` bytecode defines on the signed values. */
  function LcmpFixed(v1: int, v2: int): (r: int)
  {
    if v1 > v2 then 1 else if v1 == v2 then 0 else -1
  }

  /** The reference comparison is a three-way order: antisymmetric, zero exactly on equal
      values, and transitive in its positive outcome. */
  lemma LcmpFixedOrder(a: int, b: int, c: int)
    ensures LcmpFixed(a, b) == -LcmpFixed(b, a)
    ensures LcmpFixed(a, b) == 0 <==> a == b
    ensures LcmpFixed(a, b) == 1 && LcmpFixed(b, c) == 1 ==> LcmpFixed(a, c) == 1
  {
  }

  /** Whenever the true difference fits in 64 signed bits the code's answer is right. */
  lemma LcmpAgrees(x1: int, x2: int)
    requires 0 <= x1 < Two64 && 0 <= x2 < Two64
    requires -Two63 <= S64(x2) - S64(x1) < Two63
    ensures LcmpAsWritten(x1, x2) == LcmpFixed(S64(x1), S64(x2))
  {
    var e := S64(x2) - S64(x1);
    var d := (x2 - x1) % Two64;
    assert (e - (x2 - x1)) % Two64 == 0;
    assert d == e % Two64;
    if e >= 0 {
      assert d == e;
    } else {
      assert d == e + Two64;
    }
  }

  /** The overflow case: value1 = -2^63 and value2 = 1 compare as "greater". */
  lemma LcmpOverflow()
    ensures LcmpAsWritten(Two63, 1) == 1
    ensures LcmpFixed(S64(Two63), S64(1)) == -1
  {
  }

  /** `lcmp` (0x94) as written: pop value2 then value1, push the code's result as an
      `int32_t`. */
  method Lcmp(t: Thread) returns (ret: int)
    requires t.Valid() && t.spBase >= 4
    modifies t, t.stack, t.tags
    ensures t.Valid() && t.Frame() == old(t.Frame()) && ret == ErrNone
    ensures var (x2, s2) := PopLongSpec(old(t.State()));
            var (x1, s4) := PopLongSpec(s2);
            t.State() == PushSpec(s4, U32(LcmpAsWritten(x1, x2)), false).1
  {
    var x2 := PopLong(t);
    var x1 := PopLong(t);
    var d := (x2 - x1) % Two64;
    var r: int;
    if d >= Two63 {
      r := 1;
    } else if d == 0 {
      r := 0;
    } else {
      r := -1;
    }
    var ok := t.Push(U32(r), false);
    ret := if ok then ErrNone else ErrStackSpace;
  }

  // ---------------------------------------------------------------------------
  // monitorenter / monitorexit
  // ---------------------------------------------------------------------------

  /** The headers of live objects: null names none, and two handles never share a header. */
  ghost predicate MonitorsOk(mons: map<word, Monitor>)
    reads set g | g in mons :: mons[g]
  {
    0 !in mons &&
    (forall g | g in mons :: MonValid(mons[g].State())) &&
    (forall g1, g2 | g1 in mons && g2 in mons && g1 != g2 :: mons[g1] != mons[g2])
  }

  ghost function MonStates(mons: map<word, Monitor>): map<word, MonState>
    reads set g | g in mons :: mons[g]
  {
    map g | g in mons :: mons[g].State()
  }

  /** The enter helper on the header of object `h`; no other header changes. */
  method EnterHeader(mons: map<word, Monitor>, h: word, threadH: word) returns (ok: bool)
    requires MonitorsOk(mons) && h in mons
    modifies mons[h]
    ensures MonitorsOk(mons)
    ensures var (ok', m2) := EnterSpec(old(mons[h].State()), threadH);
            ok == ok' && MonStates(mons) == old(MonStates(mons))[h := m2]
  {
    ok := mons[h].Enter(threadH);
  }

  /** The exit helper on the header of object `h`, returning the `bool`-converted code. */
  method ExitHeader(mons: map<word, Monitor>, h: word, threadH: word) returns (r: int)
    requires MonitorsOk(mons) && h in mons
    modifies mons[h]
    ensures MonitorsOk(mons)
    ensures var (code, m2) := ExitSpec(old(mons[h].State()), threadH);
            r == AsCBool(code) && MonStates(mons) == old(MonStates(mons))[h := m2]
  {
    r := mons[h].Exit(threadH);
  }

  /** A refused enter: the reference goes back on the stack and `pc` back onto the opcode. */
  method Requeue(t: Thread, h: word) returns (ret: int)
    requires t.Valid() && t.spBase < t.spLimit
    modifies t, t.stack, t.tags
    ensures t.Valid() && ret == ErrNone
    ensures t.localsBase == old(t.localsBase) && t.methodStartPc == old(t.methodStartPc)
    ensures t.State() == PushSpec(old(t.State()), h, true).1 && t.pc == old(t.pc) - 1
  {
    var pushed := t.Push(h, true);
    if !pushed {
      return ErrStackSpace;
    }
    t.pc := t.pc - 1;
    ret := ErrNone;
  }

  /** `monitorenter` (0xC2) for thread `threadH`: a null reference is an error; a refused
      enter pushes the reference back and steps `pc` back onto the opcode, so the thread
      retries it on its next turn. */
  method MonitorEnter(t: Thread, threadH: word, mons: map<word, Monitor>) returns (ret: int)
    requires t.Valid() && t.spBase >= 1 && MonitorsOk(mons)
    requires var h := PeekSpec(t.State(), 0); h == 0 || h in mons
    modifies t, t.stack, t.tags, set g | g in mons :: mons[g]
    ensures t.Valid() && MonitorsOk(mons)
    ensures t.localsBase == old(t.localsBase) && t.methodStartPc == old(t.methodStartPc)
    ensures var (h, s1) := PopSpec(old(t.State()));
            if h == 0 then
              ret == ErrNullPointer && t.State() == s1 && t.pc == old(t.pc) &&
              MonStates(mons) == old(MonStates(mons))
            else
              var (ok, m2) := EnterSpec(old(mons[h].State()), threadH);
              ret == ErrNone &&
              MonStates(mons) == old(MonStates(mons))[h := m2] &&
              if ok then t.State() == s1 && t.pc == old(t.pc)
              else t.State() == PushSpec(s1, h, true).1 && t.pc == old(t.pc) - 1
  {
    var h := t.Pop();
    if h == 0 {
      return ErrNullPointer;
    }
    var ok := EnterHeader(mons, h, threadH);
    ret := ErrNone;
    if !ok {
      ret := Requeue(t, h);
    }
  }

  /** Popping a tagged reference and pushing it back restores the stack exactly, so a
      refused `monitorenter` leaves the thread as it was before the opcode. */
  lemma RetryRestores(s: StackState)
    requires WellFormed(s) && s.sp > 0 && s.refs[s.sp - 1]
    ensures var (h, s1) := PopSpec(s); PushSpec(s1, h, true) == (true, s)
  {
    var (h, s1) := PopSpec(s);
    assert s1.slots[s1.sp := h] == s.slots;
    assert s1.refs[s1.sp := true] == s.refs;
  }

  /** `monitorexit` (0xC3) as written. The exit helper is declared `bool`, so its error code
      arrives as 1 and its success as 0; a 0 jumps to the exit with that 0, and a 1 falls
      out of the switch, which also returns success. */
  method MonitorExitAsWritten(t: Thread, threadH: word, mons: map<word, Monitor>) returns (ret: int)
    requires t.Valid() && t.spBase >= 1 && MonitorsOk(mons)
    requires var h := PeekSpec(t.State(), 0); h == 0 || h in mons
    modifies t, t.tags, set g | g in mons :: mons[g]
    ensures t.Valid() && t.Frame() == old(t.Frame()) && MonitorsOk(mons)
    ensures var (h, s1) := PopSpec(old(t.State()));
            t.State() == s1 &&
            if h == 0 then ret == ErrNullPointer && MonStates(mons) == old(MonStates(mons))
            else ret == ErrNone && MonStates(mons) == old(MonStates(mons))[h := ExitSpec(old(mons[h].State()), threadH).1]
  {
    var h := t.Pop();
    if h == 0 {
      return ErrNullPointer;
    }
    ret := ExitHeader(mons, h, threadH);
    if ret == 0 {
      return;
    }
    ret := ErrNone;
  }

  /** `monitorexit` with the helper's code passed through: releasing a monitor the thread
      does not hold reports the monitor-state error. */
  method MonitorExit(t: Thread, threadH: word, mons: map<word, Monitor>) returns (ret: int)
    requires t.Valid() && t.spBase >= 1 && MonitorsOk(mons)
    requires var h := PeekSpec(t.State(), 0); h == 0 || h in mons
    modifies t, t.tags, set g | g in mons :: mons[g]
    ensures t.Valid() && t.Frame() == old(t.Frame()) && MonitorsOk(mons)
    ensures var (h, s1) := PopSpec(old(t.State()));
            t.State() == s1 &&
            if h == 0 then ret == ErrNullPointer && MonStates(mons) == old(MonStates(mons))
            else
              var (code, m2) := ExitSpec(old(mons[h].State()), threadH);
              ret == code && MonStates(mons) == old(MonStates(mons))[h := m2]
  {
    var h := t.Pop();
    if h == 0 {
      return ErrNullPointer;
    }
    var r := ExitHeader(mons, h, threadH);
    ret := if r == 0 then ErrNone else ErrMonStateErr;
  }

  /** The result code `monitorexit` should give: an error exactly when the thread does not
      hold the monitor. */
  function ExitResultFixed(m: MonState, h: word): (r: int)
    ensures r == ErrNone <==> m.numHolds != 0 && m.holder == h
  {
    ExitSpec(m, h).0
  }

  /** As written, a thread releasing a monitor held by another thread is told it succeeded,
      while the intended result is the monitor-state error. */
  lemma MonitorExitSilent()
    ensures ExitSpec(MonState(1, 1), 2).0 == ErrMonStateErr
    ensures AsCBool(ExitSpec(MonState(1, 1), 2).0) == 1
    ensures ExitResultFixed(MonState(1, 1), 2) == ErrMonStateErr
  {
  }
}
