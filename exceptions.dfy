/** Exception dispatch (`ujThreadPrvThrow`, uJ/uj.c): frame by frame, cut the operand stack
    back to the frame's locals, push the exception, and scan the method's exception table
    for the first entry whose range covers the pc and whose type the exception is an
    instance of; when none does, return from the frame and try the caller. */
module Exceptions {
  import opened Bytes
  import opened Errors
  import opened ClassFiles
  import opened Threads
  import opened Monitors

  // ---------------------------------------------------------------------------
  // The exception table
  // ---------------------------------------------------------------------------

  /** One 8-byte entry: start, end and handler offsets and the catch type's constant index
      (0 catches everything), each a big-endian `uint16_t`. */
  datatype Entry = Entry(start: int, end: int, handler: int, typ: int)

  function EntryAt(code: seq<byte>, addr: int): Entry {
    Entry(ReadU16(code, Addr(addr)), ReadU16(code, Addr(addr + 2)),
          ReadU16(code, Addr(addr + 4)), ReadU16(code, Addr(addr + 6)))
  }

  /** Where a method's table starts, how many entries it has and how many local slots the
      method uses, from the method start `ms`. A `.ujc` method keeps the count at `ms - 6`
      with the entries just below it and the locals count at `ms - 4`; a `.class` method
      keeps the code length at `ms - 4`, the table after the code, and the locals count at
      `ms - 6`. */
  datatype TableInfo = TableInfo(addr: word, count: int, locals: int)

  function FrameTable(code: seq<byte>, ujc: bool, ms: int): (ti: TableInfo)
    ensures 0 <= ti.count < 0x1_0000 && 0 <= ti.locals < 0x1_0000
  {
    if ujc then
      var countAt := Addr(ms - 6);
      var n := ReadU16(code, countAt);
      TableInfo(Addr(countAt - n * 8), n, ReadU16(code, Addr(ms - 4)))
    else
      var countAt := Addr(ms + ReadU32(code, Addr(ms - 4)));
      TableInfo(Addr(countAt + 2), ReadU16(code, countAt), ReadU16(code, Addr(ms - 6)))
  }

  /** The range test as written: `start < pcOfst <= end`, where `pcOfst` is already past
      the throwing opcode. */
  predicate Covers(e: Entry, pcOfst: int) {
    e.start < pcOfst && e.end >= pcOfst
  }

  /** For a one-byte throwing opcode at offset `op`, the test is the JVM's half-open range
      `start <= op < end`. */
  lemma CoversAfterOpcode(e: Entry, op: int)
    ensures Covers(e, op + 1) <==> e.start <= op < e.end
  {
  }

  /** What an entry does with the exception: pass over it, catch it, or stop with the error
      the type test reported. `inst` is the type test for a constant index of the frame's
      class (`ujThreadPrvInstanceof`): `ErrNone` for an instance, `ErrFalse` for none. */
  datatype Verdict = Skip | Catch(handler: int) | Fail(code: int)

  function EntryVerdict(e: Entry, pcOfst: int, inst: int -> int): (v: Verdict)
    ensures v.Fail? ==> v.code != ErrNone && v.code != ErrFalse
  {
    if !Covers(e, pcOfst) then Skip
    else if e.typ == 0 then Catch(e.handler)
    else
      var r := inst(e.typ);
      if r == ErrFalse then Skip
      else if r != ErrNone then Fail(r)
      else Catch(e.handler)
  }

  /** The verdict of entry `k` of the table at `addr`. */
  function VerdictAt(code: seq<byte>, addr: int, pcOfst: int, inst: int -> int, k: int): Verdict {
    EntryVerdict(EntryAt(code, addr + 8 * k), pcOfst, inst)
  }

  /** The scan from entry `i` on: the first verdict that is not `Skip` (`Skip` when every
      entry passes). */
  function ScanFrom(code: seq<byte>, addr: int, n: int, pcOfst: int, inst: int -> int, i: nat): Verdict
    decreases n - i
  {
    if i >= n then Skip
    else
      var v := VerdictAt(code, addr, pcOfst, inst, i);
      if v.Skip? then ScanFrom(code, addr, n, pcOfst, inst, i + 1) else v
  }

  /** Every entry from `i` up to `j` passes. */
  ghost predicate PassAll(code: seq<byte>, addr: int, pcOfst: int, inst: int -> int, i: int, j: int) {
    forall k | i <= k < j :: VerdictAt(code, addr, pcOfst, inst, k).Skip?
  }

  /** The scan passes exactly when every entry does. */
  lemma {:induction false} ScanFromSkip(code: seq<byte>, addr: int, n: int, pcOfst: int, inst: int -> int, i: nat)
    ensures ScanFrom(code, addr, n, pcOfst, inst, i).Skip? <==> PassAll(code, addr, pcOfst, inst, i, n)
    decreases n - i
  {
    if i < n {
      ScanFromSkip(code, addr, n, pcOfst, inst, i + 1);
      if VerdictAt(code, addr, pcOfst, inst, i).Skip? && PassAll(code, addr, pcOfst, inst, i + 1, n) {
        assert PassAll(code, addr, pcOfst, inst, i, n) by {
          forall k | i <= k < n ensures VerdictAt(code, addr, pcOfst, inst, k).Skip? {
            if k > i {
              assert i + 1 <= k < n;
            }
          }
        }
      }
    }
  }

  /** When the scan stops, it stops at the first entry that does not pass. */
  lemma {:induction false} ScanFromFirst(code: seq<byte>, addr: int, n: int, pcOfst: int, inst: int -> int, i: nat)
    returns (j: int)
    requires !ScanFrom(code, addr, n, pcOfst, inst, i).Skip?
    ensures i <= j < n && ScanFrom(code, addr, n, pcOfst, inst, i) == VerdictAt(code, addr, pcOfst, inst, j)
    ensures PassAll(code, addr, pcOfst, inst, i, j)
    decreases n - i
  {
    if VerdictAt(code, addr, pcOfst, inst, i).Skip? {
      j := ScanFromFirst(code, addr, n, pcOfst, inst, i + 1);
      assert PassAll(code, addr, pcOfst, inst, i, j) by {
        forall k | i <= k < j ensures VerdictAt(code, addr, pcOfst, inst, k).Skip? {
          if k > i {
            assert i + 1 <= k < j;
          }
        }
      }
    } else {
      j := i;
    }
  }

  /** Step 3 of a frame: the table scan. */
  method ScanTable(code: seq<byte>, addr: word, n: int, pcOfst: int, inst: int -> int) returns (v: Verdict)
    requires 0 <= n
    ensures v == ScanFrom(code, addr, n, pcOfst, inst, 0)
  {
    var i := 0;
    while i < n
      invariant 0 <= i <= n
      invariant ScanFrom(code, addr, n, pcOfst, inst, 0) == ScanFrom(code, addr, n, pcOfst, inst, i)
      decreases n - i
    {
      var w := VerdictAt(code, addr, pcOfst, inst, i);
      if !w.Skip? {
        return w;
      }
      i := i + 1;
    }
    return Skip;
  }

  // ---------------------------------------------------------------------------
  // One frame
  // ---------------------------------------------------------------------------

  /** Popping one more slot from a partly cut stack cuts it one lower. */
  lemma PopToStep(s: StackState, x: int)
    requires WellFormed(s) && 0 < x <= s.sp
    ensures WellFormed(PopTo(s, x)) && PopTo(s, x).sp == x
    ensures PopSpec(PopTo(s, x)).1 == PopTo(s, x - 1)
  {
    var a := PopTo(s, x);
    var b := PopTo(s, x - 1);
    assert a.refs[x - 1 := false] == b.refs by {
      forall p | 0 <= p < |b.refs| ensures a.refs[x - 1 := false][p] == b.refs[p] {
        if p < x - 1 {
          assert a.refs[p] == s.refs[..x][p];
          assert b.refs[p] == s.refs[..x - 1][p];
        } else if p < s.sp {
          assert b.refs[p] == Falses(s.sp - (x - 1))[p - (x - 1)];
          if p >= x {
            assert a.refs[p] == Falses(s.sp - x)[p - x];
          }
        } else {
          assert a.refs[p] == s.refs[s.sp..][p - s.sp];
          assert b.refs[p] == s.refs[s.sp..][p - s.sp];
        }
      }
    }
  }

  lemma PopToNone(s: StackState)
    requires WellFormed(s)
    ensures PopTo(s, s.sp) == s
  {
    assert s.refs[..s.sp] + Falses(0) + s.refs[s.sp..] == s.refs;
  }

  /** Step 1: `while (spBase != target) pop`, for a target at or below the stack pointer. */
  method CutTo(t: Thread, target: nat)
    requires t.Valid() && target <= t.spBase
    modifies t, t.tags
    ensures t.Valid() && t.Frame() == old(t.Frame())
    ensures t.State() == PopTo(old(t.State()), target)
  {
    ghost var s0 := t.State();
    PopToNone(s0);
    while t.spBase != target
      invariant t.Valid() && t.Frame() == old(t.Frame())
      invariant target <= t.spBase <= s0.sp && t.State() == PopTo(s0, t.spBase)
      decreases t.spBase
    {
      PopToStep(s0, t.spBase);
      var _ := t.Pop();
    }
  }

  /** Steps 1 and 2: cut the stack back to `target` and push the exception, tagged. */
  method CutAndPush(t: Thread, target: nat, excH: word) returns (ok: bool)
    requires t.Valid() && target <= t.spBase
    modifies t, t.stack, t.tags
    ensures t.Valid() && t.Frame() == old(t.Frame())
    ensures (ok, t.State()) == PushSpec(PopTo(old(t.State()), target), excH, true)
  {
    CutTo(t, target);
    ok := t.Push(excH, true);
  }

  /** What one frame of the dispatch does before it would return to the caller. */
  datatype FrameOutcome = Caught(pc: word) | Failed(code: int) | Uncaught

  /** Steps 0 to 3 for a frame with registers `r` over stack `s`, whose class has bytes `code`
      and format `ujc`: the outcome, the new stack and the new pc. The model stops with
      `ErrInternal` where the code would pop below the frame's locals. */
  ghost function FrameSpec(s: StackState, r: Regs, code: seq<byte>, ujc: bool, excH: word, inst: int -> int)
    : (res: (FrameOutcome, StackState, int))
    requires WellFormed(s) && 0 <= r.localsBase
  {
    var ti := FrameTable(code, ujc, r.methodStartPc);
    var target := r.localsBase + ti.locals;
    if s.sp < target then (Failed(ErrInternal), s, r.pc)
    else
      var (ok, s2) := PushSpec(PopTo(s, target), excH, true);
      if !ok then (Failed(ErrStackSpace), s2, r.pc)
      else
        match ScanFrom(code, ti.addr, ti.count, (r.pc - r.methodStartPc) % 0x1_0000, inst, 0)
        case Skip => (Uncaught, s2, r.pc)
        case Fail(c) => (Failed(c), s2, r.pc)
        case Catch(h) => (Caught(Addr(h + r.methodStartPc)), s2, Addr(h + r.methodStartPc))
  }

  /** A frame that catches or passes the exception on leaves it on top of its locals. */
  lemma FrameSpecTop(s: StackState, r: Regs, code: seq<byte>, ujc: bool, excH: word, inst: int -> int)
    requires WellFormed(s) && 0 <= r.localsBase
    ensures var f := FrameSpec(s, r, code, ujc, excH, inst);
            var target := r.localsBase + FrameTable(code, ujc, r.methodStartPc).locals;
            (f.0.Caught? || f.0.Uncaught?) ==>
              target <= s.sp && f.1.sp == target + 1 && f.1.slots[target] == excH && f.1.refs[target]
  {
  }

  /** Step 3 and its outcome: the handler's offset is relative to the method start. */
  method ScanOutcome(code: seq<byte>, ti: TableInfo, pcOfst: int, inst: int -> int, ms: int) returns (out: FrameOutcome)
    requires 0 <= ti.count
    ensures out == match ScanFrom(code, ti.addr, ti.count, pcOfst, inst, 0)
                   case Skip => Uncaught
                   case Fail(c) => Failed(c)
                   case Catch(h) => Caught(Addr(h + ms))
  {
    var v := ScanTable(code, ti.addr, ti.count, pcOfst, inst);
    match v
    case Skip =>
      out := Uncaught;
    case Fail(c) =>
      out := Failed(c);
    case Catch(h) =>
      out := Caught(Addr(h + ms));
  }

  /** Entering the handler moves `pc` and nothing else. */
  method SetPc(t: Thread, pc: int)
    requires t.Valid()
    modifies t
    ensures t.Valid() && t.State() == old(t.State()) && t.pc == pc
    ensures t.localsBase == old(t.localsBase) && t.methodStartPc == old(t.methodStartPc) && t.flags == old(t.flags)
    ensures t.cls == old(t.cls) && t.instH == old(t.instH)
  {
    t.pc := pc;
  }

  /** The outcome of a frame whose exception push succeeded is the scan's. */
  lemma FrameSpecPushed(s: StackState, r: Regs, code: seq<byte>, ujc: bool, excH: word, inst: int -> int,
                        s2: StackState, out: FrameOutcome)
    requires WellFormed(s) && 0 <= r.localsBase
    requires var ti := FrameTable(code, ujc, r.methodStartPc);
             r.localsBase + ti.locals <= s.sp &&
             PushSpec(PopTo(s, r.localsBase + ti.locals), excH, true) == (true, s2) &&
             out == match ScanFrom(code, ti.addr, ti.count, (r.pc - r.methodStartPc) % 0x1_0000, inst, 0)
                    case Skip => Uncaught
                    case Fail(c) => Failed(c)
                    case Catch(h) => Caught(Addr(h + r.methodStartPc))
    ensures FrameSpec(s, r, code, ujc, excH, inst) == (out, s2, if out.Caught? then out.pc else r.pc)
  {
  }

  method CatchInFrame(t: Thread, code: seq<byte>, ujc: bool, excH: word, inst: int -> int) returns (out: FrameOutcome)
    requires t.Valid()
    modifies t, t.stack, t.tags
    ensures t.Valid()
    ensures t.localsBase == old(t.localsBase) && t.methodStartPc == old(t.methodStartPc) && t.flags == old(t.flags)
    ensures t.cls == old(t.cls) && t.instH == old(t.instH)
    ensures (out, t.State(), t.pc) == FrameSpec(old(t.State()), old(t.Frame()), code, ujc, excH, inst)
  {
    ghost var s0 := t.State();
    ghost var r0 := t.Frame();
    var ms := t.methodStartPc;
    var pcOfst := (t.pc - ms) % 0x1_0000;
    var ti := FrameTable(code, ujc, ms);
    var target := t.localsBase + ti.locals;
    if t.spBase < target {
      return Failed(ErrInternal);
    }
    var ok := CutAndPush(t, target, excH);
    ghost var s2 := t.State();
    assert (ok, s2) == PushSpec(PopTo(s0, target), excH, true);
    if !ok {
      return Failed(ErrStackSpace);
    }
    out := ScanOutcome(code, ti, pcOfst, inst, ms);
    FrameSpecPushed(s0, r0, code, ujc, excH, inst, s2, out);
    if out.Caught? {
      SetPc(t, out.pc);
    }
    assert t.State() == s2;
  }

  /** A type test that never reports the user-exception code leaves a scan that never
      reports it either. */
  lemma {:induction false} ScanFromCodes(code: seq<byte>, addr: int, n: int, pcOfst: int, inst: int -> int, i: nat)
    requires forall k: int :: inst(k) != ErrUserException
    ensures var v := ScanFrom(code, addr, n, pcOfst, inst, i);
            v.Fail? ==> v.code != ErrUserException && v.code != ErrNone
    decreases n - i
  {
    if i < n {
      ScanFromCodes(code, addr, n, pcOfst, inst, i + 1);
    }
  }

  /** A frame as the unwinding loop sees it: a catch or a pass leaves the exception on top of
      the frame's locals, and a failure is never the user-exception code. */
  /** A frame never fails with success or, when the type test never reports it, with the
      user-exception code. */
  lemma FrameSpecCodes(s: StackState, r: Regs, code: seq<byte>, ujc: bool, excH: word, inst: int -> int)
    requires WellFormed(s) && 0 <= r.localsBase
    requires forall k: int :: inst(k) != ErrUserException
    ensures var out := FrameSpec(s, r, code, ujc, excH, inst).0;
            out.Failed? ==> out.code != ErrUserException && out.code != ErrNone
  {
    var ti := FrameTable(code, ujc, r.methodStartPc);
    ScanFromCodes(code, ti.addr, ti.count, (r.pc - r.methodStartPc) % 0x1_0000, inst, 0);
  }

  /** The table scan of frame `r`, whose class has bytes `code` and format `ujc`. */
  function FrameScan(code: seq<byte>, ujc: bool, r: Regs, inst: int -> int): Verdict {
    var ti := FrameTable(code, ujc, r.methodStartPc);
    ScanFrom(code, ti.addr, ti.count, (r.pc - r.methodStartPc) % 0x1_0000, inst, 0)
  }

  /** A frame that is caught entered the handler its scan found; a frame that is passed
      over found no entry that catches. */
  lemma FrameSpecScan(s: StackState, r: Regs, code: seq<byte>, ujc: bool, excH: word, inst: int -> int)
    requires WellFormed(s) && 0 <= r.localsBase
    ensures var f := FrameSpec(s, r, code, ujc, excH, inst);
            var v := FrameScan(code, ujc, r, inst);
            (f.0.Uncaught? ==> v.Skip?) &&
            (f.0.Caught? ==> v.Catch? && f.0.pc == f.2 == Addr(v.handler + r.methodStartPc))
  {
  }

  method TryFrame(t: Thread, code: seq<byte>, ujc: bool, excH: word, inst: int -> int) returns (out: FrameOutcome)
    requires t.Valid() && forall k: int :: inst(k) != ErrUserException
    modifies t, t.stack, t.tags
    ensures t.Valid()
    ensures t.localsBase == old(t.localsBase) && t.methodStartPc == old(t.methodStartPc) && t.flags == old(t.flags)
    ensures t.cls == old(t.cls) && t.instH == old(t.instH)
    ensures (out, t.State(), t.pc) == FrameSpec(old(t.State()), old(t.Frame()), code, ujc, excH, inst)
    ensures out.Caught? || out.Uncaught? ==>
      t.localsBase + FrameTable(code, ujc, t.methodStartPc).locals <= old(t.spBase) &&
      t.spBase == t.localsBase + FrameTable(code, ujc, t.methodStartPc).locals + 1 &&
      t.State().slots[t.spBase - 1] == excH && t.State().refs[t.spBase - 1]
    ensures out.Uncaught? ==> FrameScan(code, ujc, old(t.Frame()), inst).Skip? && t.pc == old(t.pc)
    ensures out.Caught? ==>
      FrameScan(code, ujc, old(t.Frame()), inst).Catch? &&
      t.pc == Addr(FrameScan(code, ujc, old(t.Frame()), inst).handler + t.methodStartPc)
    ensures out.Failed? ==> out.code != ErrUserException && out.code != ErrNone
  {
    ghost var s0 := t.State();
    ghost var r0 := t.Frame();
    out := CatchInFrame(t, code, ujc, excH, inst);
    FrameSpecTop(s0, r0, code, ujc, excH, inst);
    FrameSpecCodes(s0, r0, code, ujc, excH, inst);
    FrameSpecScan(s0, r0, code, ujc, excH, inst);
  }

  // ---------------------------------------------------------------------------
  // The unwinding loop
  // ---------------------------------------------------------------------------

  /** The monitor a synchronized frame releases on return: its instance's or its class's. */
  function MonitorKey(r: Regs): word {
    if HasInst(r) then r.instH else r.cls
  }

  /** Returning from a frame with nothing caught: the stack drops below the frame's locals
      base, or the thread is done. */
  method ReturnFromFrame(t: Thread, threadH: int, mon: Monitor, classOf: word -> word) returns (r: int)
    requires t.Valid() && t.spBase > t.localsBase && (t.localsBase == 0 || 3 <= t.localsBase)
    requires MonValid(mon.State())
    modifies t, t.tags, mon
    ensures t.Valid() && MonValid(mon.State())
    ensures r == ErrNone ==> t.pc == PcDone || t.spBase + 3 == old(t.localsBase)
  {
    ghost var s0 := t.State();
    ghost var r0 := t.Frame();
    assert RetArgs(s0, r0);
    r := t.Ret(threadH, mon, classOf);
    ghost var s1 := PopTo(s0, r0.localsBase);
    assert s1.sp == r0.localsBase;
  }

  /** Step 4, for a frame that did not catch: return to the caller, which is one frame
      further down the stack, or finish the thread with the user-exception code. */
  method LeaveFrame(t: Thread, threadH: int, mon: Monitor, classOf: word -> word) returns (done: bool, ret: int)
    requires t.Valid() && t.spBase > t.localsBase && MonValid(mon.State())
    modifies t, t.tags, mon
    ensures t.Valid() && MonValid(mon.State())
    ensures done ==> ret != ErrNone
    ensures done && ret == ErrUserException ==> t.pc == PcDone
    ensures !done ==> t.spBase < old(t.localsBase)
  {
    if !(t.localsBase == 0 || 3 <= t.localsBase) {
      return true, ErrInternal;
    }
    var r := ReturnFromFrame(t, threadH, mon, classOf);
    if r != ErrNone {
      return true, ErrInternal;
    }
    if t.pc == PcDone {
      return true, ErrUserException;
    }
    return false, ErrNone;
  }

  /** Frame `r` passes the exception over: its scan finds no entry that catches it. */
  predicate Passes(r: Regs, bytesOf: word -> seq<byte>, ujcOf: word -> bool, instOf: word -> (int -> int)) {
    FrameScan(bytesOf(r.cls), ujcOf(r.cls), r, instOf(r.cls)).Skip?
  }

  /** Frame `r` catches the exception, and `pc` is the handler of the first entry that does. */
  predicate CatchesAt(r: Regs, bytesOf: word -> seq<byte>, ujcOf: word -> bool, instOf: word -> (int -> int), pc: int) {
    var v := FrameScan(bytesOf(r.cls), ujcOf(r.cls), r, instOf(r.cls));
    v.Catch? && pc == Addr(v.handler + r.methodStartPc)
  }

  /** One pass of the `do ... while` loop. */
  method UnwindOnce(t: Thread, threadH: int, excH: word, bytesOf: word -> seq<byte>, ujcOf: word -> bool,
                    instOf: word -> (int -> int), mons: set<Monitor>, monOf: word -> Monitor, classOf: word -> word)
    returns (done: bool, ret: int)
    requires t.Valid() && forall w: word :: monOf(w) in mons
    requires forall m | m in mons :: MonValid(m.State())
    requires forall c: word, k: int :: instOf(c)(k) != ErrUserException
    modifies t, t.stack, t.tags, mons
    ensures t.Valid() && forall m | m in mons :: MonValid(m.State())
    ensures done && ret == ErrNone ==>
      var ti := FrameTable(bytesOf(t.cls), ujcOf(t.cls), t.methodStartPc);
      t.spBase == t.localsBase + ti.locals + 1 && t.spBase > 0 &&
      t.State().slots[t.spBase - 1] == excH && t.State().refs[t.spBase - 1]
    ensures done && ret == ErrNone ==>
      t.Frame() == old(t.Frame()).(pc := t.pc) && CatchesAt(old(t.Frame()), bytesOf, ujcOf, instOf, t.pc)
    ensures !done || ret == ErrUserException ==> Passes(old(t.Frame()), bytesOf, ujcOf, instOf)
    ensures done && ret == ErrUserException ==> t.pc == PcDone
    ensures !done ==> t.spBase < old(t.spBase)
  {
    var code := bytesOf(t.cls);
    var ujc := ujcOf(t.cls);
    var out := TryFrame(t, code, ujc, excH, instOf(t.cls));
    match out
    case Caught(_) =>
      return true, ErrNone;
    case Failed(c) =>
      return true, c;
    case Uncaught =>
      var key := if t.flags % 2 == 1 then t.instH else t.cls;
      done, ret := LeaveFrame(t, threadH, monOf(key), classOf);
  }

  /** `ujThreadPrvThrow` of exception `excH` in thread `threadH`. Class `c` has bytes
      `bytesOf(c)` and is a `.ujc` class when `ujcOf(c)`; `instOf(c)` is the type test for
      `c`'s constants; `monOf` gives each object's monitor and `classOf` each instance's
      class. `frames` lists the frames the dispatch visits, innermost first: every frame but
      the last passes the exception over. A handler found in the last one sets `pc` to it
      and returns success, with the exception on top of the handler frame's locals;
      unwinding past the outermost frame, which passed it over too, returns the
      user-exception code with `pc` done. Where the code would pop past the bottom of the
      stack or retry a frame forever (a failed monitor release leaves the frame in place),
      the model stops with `ErrInternal`. */
  method Throw(t: Thread, threadH: int, excH: word, bytesOf: word -> seq<byte>, ujcOf: word -> bool,
               instOf: word -> (int -> int), mons: set<Monitor>, monOf: word -> Monitor, classOf: word -> word)
    returns (ret: int, ghost frames: seq<Regs>)
    requires t.Valid() && forall w: word :: monOf(w) in mons
    requires forall m | m in mons :: MonValid(m.State())
    requires forall c: word, k: int :: instOf(c)(k) != ErrUserException
    modifies t, t.stack, t.tags, mons
    ensures t.Valid() && forall m | m in mons :: MonValid(m.State())
    ensures |frames| > 0 && frames[0] == old(t.Frame())
    ensures forall i | 0 <= i < |frames| - 1 :: Passes(frames[i], bytesOf, ujcOf, instOf)
    ensures ret == ErrNone ==>
      var ti := FrameTable(bytesOf(t.cls), ujcOf(t.cls), t.methodStartPc);
      t.spBase == t.localsBase + ti.locals + 1 && t.spBase > 0 &&
      t.State().slots[t.spBase - 1] == excH && t.State().refs[t.spBase - 1]
    ensures ret == ErrNone ==>
      t.Frame() == frames[|frames| - 1].(pc := t.pc) && CatchesAt(frames[|frames| - 1], bytesOf, ujcOf, instOf, t.pc)
    ensures ret == ErrUserException ==> t.pc == PcDone && Passes(frames[|frames| - 1], bytesOf, ujcOf, instOf)
  {
    var done := false;
    ret := ErrNone;
    frames := [t.Frame()];
    while !done
      invariant t.Valid() && forall m | m in mons :: MonValid(m.State())
      invariant |frames| > 0 && frames[0] == old(t.Frame())
      invariant forall i | 0 <= i < |frames| - 1 :: Passes(frames[i], bytesOf, ujcOf, instOf)
      invariant !done ==> frames[|frames| - 1] == t.Frame()
      invariant done && ret == ErrNone ==>
        var ti := FrameTable(bytesOf(t.cls), ujcOf(t.cls), t.methodStartPc);
        t.spBase == t.localsBase + ti.locals + 1 && t.spBase > 0 &&
        t.State().slots[t.spBase - 1] == excH && t.State().refs[t.spBase - 1]
      invariant done && ret == ErrNone ==>
        t.Frame() == frames[|frames| - 1].(pc := t.pc) && CatchesAt(frames[|frames| - 1], bytesOf, ujcOf, instOf, t.pc)
      invariant done && ret == ErrUserException ==> t.pc == PcDone && Passes(frames[|frames| - 1], bytesOf, ujcOf, instOf)
      decreases !done, t.spBase
    {
      done, ret := UnwindOnce(t, threadH, excH, bytesOf, ujcOf, instOf, mons, monOf, classOf);
      if !done {
        frames := frames + [t.Frame()];
      }
    }
  }
}
