/** A thread's operand/locals stack, its reference-tag bitmap, the packed
    return-information frame and the return that undoes it (uJ/uj.c). */
module Threads {
  import opened Bytes
  import opened Errors
  import opened Monitors

  /** Slots taken by the return information of one call. */
  const RetInfoSize := 3
  /** The pc of a thread that returned from its outermost method. */
  const PcDone: word := 0xFFFF_FFFF
  /** `DUP_FLAG_DONT_COPY`, or-ed into the first argument of the dup primitive. */
  const DupFlagDontCopy := 0x40

  /** `UJ_DEFAULT_STACK_SIZE`: the stack bytes of a thread created with size 0. */
  const DefaultStackSize := 256

  /** The mask table of the tag bitmap. */
  const Shifts: seq<bv8> := [1, 2, 4, 8, 16, 32, 64, 128]

  // ---------------------------------------------------------------------------
  // The tag bitmap
  // ---------------------------------------------------------------------------

  /** The tag of slot `p`: bit `p % 8` of byte `p / 8`. */
  function Bit(tags: seq<bv8>, p: nat): bool {
    if p / 8 < |tags| then tags[p / 8] & Shifts[p % 8] != 0 else false
  }

  /** The tags of the first `n` slots as booleans. */
  function TagView(tags: seq<bv8>, n: nat): (r: seq<bool>)
    ensures |r| == n
    ensures forall p | 0 <= p < n :: r[p] == Bit(tags, p)
  {
    seq(n, p requires 0 <= p < n => Bit(tags, p))
  }

  lemma MaskOr(x: bv8, i: nat, j: nat)
    requires i < 8 && j < 8
    ensures ((x | Shifts[i]) & Shifts[j] != 0) == (i == j || x & Shifts[j] != 0)
  {
  }

  lemma MaskAndNot(x: bv8, i: nat, j: nat)
    requires i < 8 && j < 8
    ensures ((x & !Shifts[i]) & Shifts[j] != 0) == (i != j && x & Shifts[j] != 0)
  {
  }

  function SetBitTags(tags: seq<bv8>, p: nat): seq<bv8>
    requires p / 8 < |tags|
  {
    tags[p / 8 := tags[p / 8] | Shifts[p % 8]]
  }

  function ClearBitTags(tags: seq<bv8>, p: nat): seq<bv8>
    requires p / 8 < |tags|
  {
    tags[p / 8 := tags[p / 8] & !Shifts[p % 8]]
  }

  /** Two slots share a byte and a bit position only when they are the same slot. */
  lemma SameBit(p: nat, q: nat)
    requires q / 8 == p / 8
    ensures q % 8 == p % 8 <==> q == p
  {
    assert p == 8 * (p / 8) + p % 8;
    assert q == 8 * (q / 8) + q % 8;
  }

  /** Setting the bit of slot `p` sets that slot's tag and no other. */
  lemma SetBitView(tags: seq<bv8>, p: nat, n: nat)
    requires p < n && n <= 8 * |tags|
    ensures TagView(SetBitTags(tags, p), n) == TagView(tags, n)[p := true]
  {
    var t2 := SetBitTags(tags, p);
    var v := TagView(tags, n);
    forall q | 0 <= q < n
      ensures Bit(t2, q) == v[p := true][q]
    {
      if q / 8 == p / 8 {
        MaskOr(tags[p / 8], p % 8, q % 8);
        SameBit(p, q);
      } else {
        assert t2[q / 8] == tags[q / 8];
      }
    }
  }

  lemma ClearBitView(tags: seq<bv8>, p: nat, n: nat)
    requires p < n && n <= 8 * |tags|
    ensures TagView(ClearBitTags(tags, p), n) == TagView(tags, n)[p := false]
  {
    var t2 := ClearBitTags(tags, p);
    var v := TagView(tags, n);
    forall q | 0 <= q < n
      ensures Bit(t2, q) == v[p := false][q]
    {
      if q / 8 == p / 8 {
        MaskAndNot(tags[p / 8], p % 8, q % 8);
        SameBit(p, q);
      } else {
        assert t2[q / 8] == tags[q / 8];
      }
    }
  }


  // ---------------------------------------------------------------------------
  // The stack as a value
  // ---------------------------------------------------------------------------

  /** All `spLimit` slots, their tags, and `spBase` (an empty ascending stack). */
  datatype StackState = StackState(slots: seq<word>, refs: seq<bool>, sp: int)

  ghost predicate WellFormed(s: StackState) {
    |s.refs| == |s.slots| < 0x1_0000 && 0 <= s.sp <= |s.slots|
  }

  /** No slot at or above the stack pointer carries a reference tag. */
  ghost predicate CleanAbove(s: StackState)
    requires WellFormed(s)
  {
    forall p | s.sp <= p < |s.refs| :: !s.refs[p]
  }

  function Falses(n: nat): (r: seq<bool>)
    ensures |r| == n && forall i | 0 <= i < n :: !r[i]
  {
    seq(n, _ => false)
  }

  /** `ujThreadPrvPush`: refused on a full stack; otherwise the slot gets the value and, for a
      reference, its tag bit is set (a non-reference leaves the bit as it was). */
  function PushSpec(s: StackState, v: word, isRef: bool): (bool, StackState)
    requires WellFormed(s)
  {
    if s.sp < |s.slots| then
      (true, StackState(s.slots[s.sp := v], s.refs[s.sp := isRef || s.refs[s.sp]], s.sp + 1))
    else (false, s)
  }

  /** `ujThreadPrvPop`: the value of the vacated slot; that slot's tag is cleared. */
  function PopSpec(s: StackState): (word, StackState)
    requires WellFormed(s) && s.sp > 0
  {
    (s.slots[s.sp - 1], StackState(s.slots, s.refs[s.sp - 1 := false], s.sp - 1))
  }

  /** `ujThreadPrvPeek`: slot 0 is the top of the stack. */
  function PeekSpec(s: StackState, k: nat): word
    requires WellFormed(s) && k < s.sp
  {
    s.slots[s.sp - 1 - k]
  }

  /** The number of slots the dup primitive moves: `(uint8_t)(howMany + howFarBelow)`. */
  function Moved(howMany: nat, howFarBelow: int): (m: nat)
    ensures m < 0x100
  {
    (howMany + howFarBelow) % 0x100
  }

  /** What the callers of the dup primitive guarantee when it has room: the moved slots exist,
      and a copying dup moves at least the slots it copies. A copying dup also has a
      non-negative `howMany + howFarBelow`: its copy destination `spBase - (howMany +
      howFarBelow)` is computed without the 8-bit cast of the move count. */
  ghost predicate DupArgs(s: StackState, howMany: nat, howFarBelow: int, dontCopy: bool) {
    WellFormed(s) && howMany < DupFlagDontCopy && -0x80 <= howFarBelow < 0x80 &&
    (!dontCopy ==> howMany + howFarBelow >= 0) &&
    (s.sp + howMany <= |s.slots| ==>
      Moved(howMany, howFarBelow) <= s.sp && (!dontCopy ==> Moved(howMany, howFarBelow) >= howMany))
  }

  /** `ujThreadPrvDup(howMany, howFarBelow)`, described by its outcome.
      With n = howMany and m the moved count, the top m slots move up by n,
      each tag with its value. A copying dup then writes the old top n slots
      into the gap and grows the stack by n: the window [sp-m, sp+n) becomes
      top_n ++ (the m slots) . A non-copying dup leaves the stack pointer
      alone; then the gap keeps stale values with cleared tags. */
  function DupSpec(s: StackState, howMany: nat, howFarBelow: int, dontCopy: bool): (bool, StackState)
    requires DupArgs(s, howMany, howFarBelow, dontCopy)
  {
    var n := howMany;
    var m := Moved(howMany, howFarBelow);
    var sp := s.sp;
    var o := s.slots;
    var ob := s.refs;
    if sp + n > |o| then (false, s)
    else if dontCopy then
      var refs :=
        if n == 0 then ob[..sp - m] + Falses(m) + ob[sp..]
        else if m >= n then ob[..sp - m] + Falses(n) + ob[sp - m..sp] + ob[sp + n..]
        else ob[..sp - m] + Falses(m) + ob[sp..sp + n - m] + ob[sp - m..sp] + ob[sp + n..];
      (true, StackState(o[..sp + n - m] + o[sp - m..sp] + o[sp + n..], refs, sp))
    else
      var refs :=
        if n == 0 then ob[..sp - m] + Falses(m) + ob[sp..]
        else ob[..sp - m] + ob[sp - n..sp] + ob[sp - m..sp] + ob[sp + n..];
      (true, StackState(o[..sp - m] + o[sp - n..sp] + o[sp - m..sp] + o[sp + n..], refs, sp + n))
  }

  // ---------------------------------------------------------------------------
  // Properties of the stack operations
  // ---------------------------------------------------------------------------

  /** A push onto a full stack is refused and changes nothing; otherwise the new top is the
      pushed value, tagged exactly when it is a reference (on a stack with no stale tags),
      and everything below is unchanged. */
  lemma PushProperties(s: StackState, v: word, isRef: bool)
    requires WellFormed(s) && CleanAbove(s)
    ensures var (ok, s2) := PushSpec(s, v, isRef);
      (ok <==> s.sp < |s.slots|) &&
      (!ok ==> s2 == s) &&
      (ok ==> WellFormed(s2) && CleanAbove(s2) && s2.sp == s.sp + 1 && PeekSpec(s2, 0) == v &&
              s2.refs[s.sp] == isRef && s2.slots[..s.sp] == s.slots[..s.sp] &&
              s2.refs[..s.sp] == s.refs[..s.sp])
  {
    var (ok, s2) := PushSpec(s, v, isRef);
    if ok {
      assert s2.refs[s.sp] == isRef;
      forall p | s2.sp <= p < |s2.refs| ensures !s2.refs[p] {
        assert s2.refs[p] == s.refs[p];
      }
    }
  }

  /** Push then pop gives back the pushed value and the original stack pointer and tags. */
  lemma PushPopRoundTrip(s: StackState, v: word, isRef: bool)
    requires WellFormed(s) && CleanAbove(s) && s.sp < |s.slots|
    ensures var s2 := PushSpec(s, v, isRef).1;
      WellFormed(s2) && s2.sp > 0 &&
      var (w, s3) := PopSpec(s2);
      w == v && s3.sp == s.sp && s3.refs == s.refs && s3.slots == s.slots[s.sp := v]
  {
    var s2 := PushSpec(s, v, isRef).1;
    var s3 := PopSpec(s2).1;
    assert s3.refs == s.refs[s.sp := isRef || s.refs[s.sp]][s.sp := false];
    assert !s.refs[s.sp];
    assert s3.refs == s.refs;
  }

  /** Pop keeps the "no stale tags" invariant and leaves every other slot as it was. */
  lemma PopKeepsClean(s: StackState)
    requires WellFormed(s) && CleanAbove(s) && s.sp > 0
    ensures var (v, s2) := PopSpec(s);
      WellFormed(s2) && CleanAbove(s2) && v == PeekSpec(s, 0) && s2.slots == s.slots &&
      s2.refs[..s2.sp] == s.refs[..s2.sp]
  {
    var s2 := PopSpec(s).1;
    forall p | s2.sp <= p < |s2.refs| ensures !s2.refs[p] {
      if p != s2.sp {
        assert s2.refs[p] == s.refs[p];
      }
    }
  }

  /** `dup` (one slot, nothing below): the top two slots are both the old top, with its tag. */
  lemma DupTop(s: StackState)
    requires WellFormed(s) && 0 < s.sp < |s.slots|
    ensures DupArgs(s, 1, 0, false)
    ensures var (ok, s2) := DupSpec(s, 1, 0, false);
      ok && WellFormed(s2) && s2.sp == s.sp + 1 &&
      PeekSpec(s2, 0) == PeekSpec(s, 0) && PeekSpec(s2, 1) == PeekSpec(s, 0) &&
      s2.refs[s.sp] == s.refs[s.sp - 1] && s2.refs[s.sp - 1] == s.refs[s.sp - 1] &&
      s2.slots[..s.sp - 1] == s.slots[..s.sp - 1] && s2.refs[..s.sp - 1] == s.refs[..s.sp - 1] &&
      s2.slots[s.sp + 1..] == s.slots[s.sp + 1..] && s2.refs[s.sp + 1..] == s.refs[s.sp + 1..]
  {
    var sp := s.sp;
    DupOne(s);
    var s2 := DupSpec(s, 1, 0, false).1;
    TopTwice(s.slots, sp, s2.slots);
    TopTwice(s.refs, sp, s2.refs);
  }

  /** The dup of one slot with nothing below, unfolded. */
  lemma DupOne(s: StackState)
    requires WellFormed(s) && 0 < s.sp < |s.slots|
    ensures DupArgs(s, 1, 0, false)
    ensures var sp := s.sp;
      DupSpec(s, 1, 0, false) ==
        (true, StackState(s.slots[..sp - 1] + s.slots[sp - 1..sp] + s.slots[sp - 1..sp] + s.slots[sp + 1..],
                          s.refs[..sp - 1] + s.refs[sp - 1..sp] + s.refs[sp - 1..sp] + s.refs[sp + 1..], sp + 1))
  {
  }

  /** The top slot written twice: positions `sp-1` and `sp` hold the old top; everything else
      is unchanged. */
  lemma TopTwice<T>(o: seq<T>, sp: int, v: seq<T>)
    requires 0 < sp < |o| && v == o[..sp - 1] + o[sp - 1..sp] + o[sp - 1..sp] + o[sp + 1..]
    ensures |v| == |o| && v[sp - 1] == o[sp - 1] && v[sp] == o[sp - 1]
    ensures v[..sp - 1] == o[..sp - 1] && v[sp + 1..] == o[sp + 1..]
  {
    assert v[sp - 1] == o[sp - 1..sp][0];
    assert v[sp] == o[sp - 1..sp][0];
    assert v[..sp - 1] == o[..sp - 1];
    assert v[sp + 1..] == o[sp + 1..];
  }

  /** `swap` is a dup of one slot over one, then a pop: the top two slots trade places,
      each with its tag, and nothing else changes. */
  lemma SwapExchanges(s: StackState)
    requires WellFormed(s) && 2 <= s.sp < |s.slots|
    ensures DupArgs(s, 1, 1, false)
    ensures var (ok, s2) := DupSpec(s, 1, 1, false);
      ok && WellFormed(s2) && s2.sp > 0 &&
      var s3 := PopSpec(s2).1;
      s3.sp == s.sp &&
      s3.slots[s.sp - 1] == s.slots[s.sp - 2] && s3.slots[s.sp - 2] == s.slots[s.sp - 1] &&
      s3.refs[s.sp - 1] == s.refs[s.sp - 2] && s3.refs[s.sp - 2] == s.refs[s.sp - 1] &&
      s3.slots[..s.sp - 2] == s.slots[..s.sp - 2] && s3.refs[..s.sp - 2] == s.refs[..s.sp - 2] &&
      !s3.refs[s.sp]
  {
    var sp := s.sp;
    SwapDup(s);
    var s2 := DupSpec(s, 1, 1, false).1;
    OverTop(s.slots, sp, s2.slots);
    OverTop(s.refs, sp, s2.refs);
    var s3 := PopSpec(s2).1;
    assert s3.refs[..sp - 2] == s2.refs[..sp - 2];
  }

  /** The dup of one slot over one, unfolded. */
  lemma SwapDup(s: StackState)
    requires WellFormed(s) && 2 <= s.sp < |s.slots|
    ensures DupArgs(s, 1, 1, false)
    ensures var sp := s.sp;
      DupSpec(s, 1, 1, false) ==
        (true, StackState(s.slots[..sp - 2] + s.slots[sp - 1..sp] + s.slots[sp - 2..sp] + s.slots[sp + 1..],
                          s.refs[..sp - 2] + s.refs[sp - 1..sp] + s.refs[sp - 2..sp] + s.refs[sp + 1..], sp + 1))
  {
  }

  /** The top slot copied under the second: positions `sp-2`, `sp-1`, `sp` hold the old top,
      the old second and the old top; everything below is unchanged. */
  lemma OverTop<T>(o: seq<T>, sp: int, v: seq<T>)
    requires 2 <= sp < |o| && v == o[..sp - 2] + o[sp - 1..sp] + o[sp - 2..sp] + o[sp + 1..]
    ensures |v| == |o| && v[sp - 2] == o[sp - 1] && v[sp - 1] == o[sp - 2] && v[sp] == o[sp - 1]
    ensures v[..sp - 2] == o[..sp - 2]
  {
    assert v[sp - 2] == o[sp - 1..sp][0];
    assert v[sp - 1] == o[sp - 2..sp][0];
    assert v[sp] == o[sp - 2..sp][1];
    assert v[..sp - 2] == o[..sp - 2];
  }

  /** A copying dup keeps the "no stale tags" invariant. */
  lemma DupKeepsClean(s: StackState, howMany: nat, howFarBelow: int)
    requires DupArgs(s, howMany, howFarBelow, false) && CleanAbove(s)
    ensures var (ok, s2) := DupSpec(s, howMany, howFarBelow, false);
      WellFormed(s2) && CleanAbove(s2) && (ok <==> s.sp + howMany <= |s.slots|)
  {
    var n := howMany;
    var m := Moved(howMany, howFarBelow);
    var sp := s.sp;
    var s2 := DupSpec(s, howMany, howFarBelow, false).1;
    if sp + n <= |s.slots| {
      forall p | s2.sp <= p < |s2.refs| ensures !s2.refs[p] {
        if n == 0 {
          assert s2.refs[p] == s.refs[p];
        } else {
          assert s2.refs[p] == s.refs[sp + n..][p - sp - n];
        }
      }
    }
  }

  // ---------------------------------------------------------------------------
  // Frames: the return information and the return
  // ---------------------------------------------------------------------------

  /** The per-frame registers of a thread. `flags` is the raw byte: bit 0 says the frame has
      an instance (`instH`), bit 1 that the method is synchronized. */
  datatype Regs = Regs(localsBase: int, pc: int, methodStartPc: int, flags: int, cls: word, instH: word)

  predicate HasInst(r: Regs) { r.flags % 2 == 1 }
  predicate Synchronized(r: Regs) { (r.flags / 2) % 2 == 1 }

  /** What the packing of the return information relies on, as its own comment states:
      a 16-bit locals base, a 24-bit method start, a pc less than 64 KiB past it, an 8-bit flags byte. */
  ghost predicate RegsOk(r: Regs) {
    0 <= r.localsBase < 0x1_0000 && 0 <= r.methodStartPc < 0x100_0000 &&
    r.methodStartPc <= r.pc < r.methodStartPc + 0x1_0000 && 0 <= r.flags < 0x100
  }

  /** Word B: the locals base in the upper half, the pc relative to the method start in the lower. */
  function PackLocalsPc(localsBase: int, pcOfst: int): word
    requires 0 <= localsBase < 0x1_0000 && 0 <= pcOfst < 0x1_0000
  {
    localsBase * 0x1_0000 + pcOfst
  }

  /** Word C: the flags byte in the top 8 bits, the 24-bit method start below. */
  function PackFlagsStart(flags: int, methodStartPc: int): word
    requires 0 <= flags < 0x100 && 0 <= methodStartPc < 0x100_0000
  {
    flags * 0x100_0000 + methodStartPc
  }

  /** `ujThreadPushRetInfo`: the instance (as a reference) or the class (as an integer), then
      B, then C. Any push that does not fit stops it with the stack-space error, the
      earlier pushes staying in place. */
  function PushRetInfoSpec(s: StackState, r: Regs): (res: (int, StackState))
    requires WellFormed(s) && RegsOk(r)
    ensures WellFormed(res.1) && |res.1.slots| == |s.slots|
  {
    var (ok1, s1) := PushSpec(s, if HasInst(r) then r.instH else r.cls, HasInst(r));
    if !ok1 then (ErrStackSpace, s1)
    else
      var (ok2, s2) := PushSpec(s1, PackLocalsPc(r.localsBase, r.pc - r.methodStartPc), false);
      if !ok2 then (ErrStackSpace, s2)
      else
        var (ok3, s3) := PushSpec(s2, PackFlagsStart(r.flags, r.methodStartPc), false);
        if !ok3 then (ErrStackSpace, s3) else (ErrNone, s3)
  }

  function Min(a: int, b: int): int { if a < b then a else b }

  /** The first loop of `ujThreadPrvRet`: pop down to the locals base, clearing the tags of
      every vacated slot (a stack already at or below it stays where it is). */
  function PopTo(s: StackState, localsBase: int): (res: StackState)
    requires WellFormed(s) && 0 <= localsBase
    ensures WellFormed(res) && |res.slots| == |s.slots|
  {
    var low := Min(s.sp, localsBase);
    StackState(s.slots, s.refs[..low] + Falses(s.sp - low) + s.refs[s.sp..], low)
  }

  /** `r` with the tags of [lo, hi) cleared. */
  ghost function Cleared(r: seq<bool>, lo: int, hi: int): (res: seq<bool>)
    requires 0 <= lo <= hi <= |r|
    ensures |res| == |r|
  {
    seq(|r|, p requires 0 <= p < |r| => if lo <= p < hi then false else r[p])
  }

  lemma ClearedNone(r: seq<bool>, hi: int)
    requires 0 <= hi <= |r|
    ensures Cleared(r, hi, hi) == r
  {
  }

  lemma ClearedStep(r: seq<bool>, lo: int, hi: int)
    requires 0 <= lo < hi <= |r|
    ensures Cleared(r, lo + 1, hi)[lo := false] == Cleared(r, lo, hi)
  {
  }

  lemma ClearedIsPopTo(s: StackState, localsBase: int)
    requires WellFormed(s) && 0 <= localsBase
    ensures var low := Min(s.sp, localsBase);
      PopTo(s, localsBase) == StackState(s.slots, Cleared(s.refs, low, s.sp), low)
  {
  }

  /** Where a return may start: below the locals base there is nothing or a whole ret-info record. */
  ghost predicate RetArgs(s: StackState, r: Regs) {
    WellFormed(s) && 0 <= r.localsBase &&
    (Min(s.sp, r.localsBase) == 0 || Min(s.sp, r.localsBase) >= RetInfoSize)
  }

  /** `ujThreadPrvRet`. Returning from the outermost frame marks the thread done. Otherwise a
      synchronized frame first releases its monitor (`m`, owned by the returning thread `h`);
      if that fails, the declared-`bool` result 1 is returned with the frame half popped.
      Then C, B and the instance or class word are popped and unpacked; for an instance, its
      class is looked up by `classOf`. */
  function RetSpec(s: StackState, r: Regs, m: MonState, h: int, classOf: word -> word)
    : (res: (int, StackState, Regs, MonState))
    requires RetArgs(s, r)
    ensures WellFormed(res.1) && |res.1.slots| == |s.slots|
  {
    var s1 := PopTo(s, r.localsBase);
    if s1.sp == 0 then (ErrNone, s1, r.(pc := PcDone), m)
    else
      var (code, m1) := if Synchronized(r) then ExitSpec(m, h) else (ErrNone, m);
      if code != ErrNone then (AsCBool(code), s1, r, m1)
      else
        var (s4, r2) := PopRetInfo(s1, r, classOf);
        (ErrNone, s4, r2, m1)
  }

  /** The second half of `ujThreadPrvRet`: pop C, B and the instance or class word and unpack
      them into the registers. */
  function PopRetInfo(s: StackState, r: Regs, classOf: word -> word): (res: (StackState, Regs))
    requires WellFormed(s) && s.sp >= RetInfoSize
    ensures WellFormed(res.0) && |res.0.slots| == |s.slots|
  {
    var (c, s2) := PopSpec(s);
    var ms := c % 0x100_0000;
    var flags := c / 0x100_0000;
    var (b, s3) := PopSpec(s2);
    var pc := ms + b % 0x1_0000;
    var lb := b / 0x1_0000;
    var (a, s4) := PopSpec(s3);
    var r2 := if flags % 2 == 1 then Regs(lb, pc, ms, flags, classOf(a), a)
              else Regs(lb, pc, ms, flags, a, r.instH);
    (s4, r2)
  }

  /** The int8_t the slot count minus three becomes when passed as `howFarBelow`. */
  function Int8(x: int): (r: int)
    ensures -0x80 <= r < 0x80 && (r - x) % 0x100 == 0
  {
    (x + 0x80) % 0x100 - 0x80
  }

  /** The frame a call to a bytecode method builds (uJ/uj.c:2354-2364): the `nParams` argument
      slots are shifted up by three without copying, the stack pointer drops below them and
      the caller's return information is pushed into the gap. The arguments then sit, with
      their tags, right above the return information, where the callee's locals start. */
  lemma InvokeFrameLayout(s: StackState, r: Regs, nParams: nat)
    requires WellFormed(s) && CleanAbove(s) && RegsOk(r)
    requires nParams < 0x100 && nParams <= s.sp && s.sp + RetInfoSize <= |s.slots|
    ensures DupArgs(s, RetInfoSize, Int8(nParams - RetInfoSize), true)
    ensures var (ok, s1) := DupSpec(s, RetInfoSize, Int8(nParams - RetInfoSize), true);
      ok && s1.sp == s.sp && |s1.slots| == |s.slots| && |s1.refs| == |s.refs| &&
      var s2 := s1.(sp := s.sp - nParams);
      WellFormed(s2) &&
      var (code, s3) := PushRetInfoSpec(s2, r);
      var lb := s.sp - nParams + RetInfoSize;
      code == ErrNone && s3.sp == lb &&
      (forall p | lb <= p < lb + nParams ::
         s3.slots[p] == s.slots[p - RetInfoSize] && s3.refs[p] == s.refs[p - RetInfoSize]) &&
      s3.slots[..s.sp - nParams] == s.slots[..s.sp - nParams] &&
      s3.refs[..s.sp - nParams] == s.refs[..s.sp - nParams] &&
      s3.refs[lb - RetInfoSize] == HasInst(r) && !s3.refs[lb - 2] && !s3.refs[lb - 1]
  {
    ShiftForCall(s, nParams);
    var s1 := DupSpec(s, RetInfoSize, Int8(nParams - RetInfoSize), true).1;
    var s2 := s1.(sp := s.sp - nParams);
    PushedWords(s2, r);
  }

  /** The non-copying shift of a call: arguments three slots higher with their tags, the
      three-slot gap untagged, everything below untouched. */
  lemma ShiftForCall(s: StackState, nParams: nat)
    requires WellFormed(s) && CleanAbove(s) && nParams < 0x100 && nParams <= s.sp
    requires s.sp + RetInfoSize <= |s.slots|
    ensures DupArgs(s, RetInfoSize, Int8(nParams - RetInfoSize), true)
    ensures var (ok, s1) := DupSpec(s, RetInfoSize, Int8(nParams - RetInfoSize), true);
      var base := s.sp - nParams;
      ok && WellFormed(s1) && s1.sp == s.sp && |s1.slots| == |s.slots| &&
      (forall p | base + RetInfoSize <= p < base + RetInfoSize + nParams ::
         s1.slots[p] == s.slots[p - RetInfoSize] && s1.refs[p] == s.refs[p - RetInfoSize]) &&
      (forall p | base <= p < base + RetInfoSize :: !s1.refs[p]) &&
      s1.slots[..base] == s.slots[..base] && s1.refs[..base] == s.refs[..base]
  {
    MovedForCall(nParams);
    ShiftBy(s, nParams, Int8(nParams - RetInfoSize));
  }

  /** The same shift, for any `howFarBelow` that moves `nParams` slots. */
  lemma ShiftBy(s: StackState, nParams: nat, k: int)
    requires WellFormed(s) && CleanAbove(s) && nParams <= s.sp
    requires s.sp + RetInfoSize <= |s.slots|
    requires -0x80 <= k < 0x80 && Moved(RetInfoSize, k) == nParams
    ensures DupArgs(s, RetInfoSize, k, true)
    ensures var (ok, s1) := DupSpec(s, RetInfoSize, k, true);
      var base := s.sp - nParams;
      ok && WellFormed(s1) && s1.sp == s.sp && |s1.slots| == |s.slots| &&
      (forall p | base + RetInfoSize <= p < base + RetInfoSize + nParams ::
         s1.slots[p] == s.slots[p - RetInfoSize] && s1.refs[p] == s.refs[p - RetInfoSize]) &&
      (forall p | base <= p < base + RetInfoSize :: !s1.refs[p]) &&
      s1.slots[..base] == s.slots[..base] && s1.refs[..base] == s.refs[..base]
  {
    ShiftSlotsOf(s, k);
    ShiftRefsOf(s, k);
  }

  lemma ShiftSlotsOf(s: StackState, k: int)
    requires DupArgs(s, RetInfoSize, k, true) && s.sp + RetInfoSize <= |s.slots|
    ensures var m := Moved(RetInfoSize, k);
      var (ok, s1) := DupSpec(s, RetInfoSize, k, true);
      ok && s1.sp == s.sp && |s1.slots| == |s.slots| && s1.slots[..s.sp - m] == s.slots[..s.sp - m] &&
      forall p | s.sp - m + 3 <= p < s.sp + 3 :: s1.slots[p] == s.slots[p - 3]
  {
    NoCopyThree(s, k);
    ShiftedSlots(s.slots, DupSpec(s, RetInfoSize, k, true).1.slots, s.sp, Moved(RetInfoSize, k));
  }

  lemma ShiftRefsOf(s: StackState, k: int)
    requires DupArgs(s, RetInfoSize, k, true) && s.sp + RetInfoSize <= |s.slots| && CleanAbove(s)
    ensures var m := Moved(RetInfoSize, k);
      var s1 := DupSpec(s, RetInfoSize, k, true).1;
      |s1.refs| == |s.refs| && s1.refs[..s.sp - m] == s.refs[..s.sp - m] &&
      (forall p | s.sp - m + 3 <= p < s.sp + 3 :: s1.refs[p] == s.refs[p - 3]) &&
      (forall p | s.sp - m <= p < s.sp - m + 3 :: !s1.refs[p])
  {
    var m := Moved(RetInfoSize, k);
    var b := DupSpec(s, RetInfoSize, k, true).1.refs;
    if m >= 3 {
      NoCopyThreeWide(s, k, m, b);
    } else {
      NoCopyThreeNarrow(s, k, m, b);
    }
  }

  /** The tag shape of a non-copying three-slot dup that moves at least three slots. */
  lemma NoCopyThreeWide(s: StackState, k: int, m: nat, b: seq<bool>)
    requires DupArgs(s, RetInfoSize, k, true) && s.sp + RetInfoSize <= |s.slots|
    requires m == Moved(RetInfoSize, k) && m >= 3 && b == DupSpec(s, RetInfoSize, k, true).1.refs
    ensures |b| == |s.refs| && b[..s.sp - m] == s.refs[..s.sp - m] &&
      (forall p | s.sp - m + 3 <= p < s.sp + 3 :: b[p] == s.refs[p - 3]) &&
      (forall p | s.sp - m <= p < s.sp - m + 3 :: !b[p])
  {
    NoCopyThree(s, k);
    ShiftedRefsWide(s.refs, b, s.sp, m);
  }

  /** The same when fewer than three slots move: the clean slots above the old top fill in. */
  lemma NoCopyThreeNarrow(s: StackState, k: int, m: nat, b: seq<bool>)
    requires DupArgs(s, RetInfoSize, k, true) && s.sp + RetInfoSize <= |s.slots| && CleanAbove(s)
    requires m == Moved(RetInfoSize, k) && m < 3 && b == DupSpec(s, RetInfoSize, k, true).1.refs
    ensures |b| == |s.refs| && b[..s.sp - m] == s.refs[..s.sp - m] &&
      (forall p | s.sp - m + 3 <= p < s.sp + 3 :: b[p] == s.refs[p - 3]) &&
      (forall p | s.sp - m <= p < s.sp - m + 3 :: !b[p])
  {
    NoCopyThree(s, k);
    ShiftedRefsNarrow(s.refs, b, s.sp, m);
  }

  /** The slot count passed through `int8_t` comes back as the count of moved slots. */
  lemma MovedForCall(nParams: nat)
    requires nParams < 0x100
    ensures Moved(RetInfoSize, Int8(nParams - RetInfoSize)) == nParams
  {
    var x := nParams - RetInfoSize;
    if x < 0x80 {
      assert Int8(x) == x;
    } else {
      assert Int8(x) == x - 0x100;
    }
  }

  /** A non-copying dup of three slots, unfolded. */
  lemma NoCopyThree(s: StackState, k: int)
    requires DupArgs(s, RetInfoSize, k, true) && s.sp + RetInfoSize <= |s.slots|
    ensures var m := Moved(RetInfoSize, k);
      var sp := s.sp;
      DupSpec(s, RetInfoSize, k, true) ==
        (true, StackState(s.slots[..sp + 3 - m] + s.slots[sp - m..sp] + s.slots[sp + 3..],
          if m >= 3 then s.refs[..sp - m] + Falses(3) + s.refs[sp - m..sp] + s.refs[sp + 3..]
          else s.refs[..sp - m] + Falses(m) + s.refs[sp..sp + 3 - m] + s.refs[sp - m..sp] + s.refs[sp + 3..],
          sp))
  {
  }

  lemma ShiftedSlots(o: seq<word>, v: seq<word>, sp: int, m: nat)
    requires m <= sp && sp + 3 <= |o|
    requires v == o[..sp + 3 - m] + o[sp - m..sp] + o[sp + 3..]
    ensures |v| == |o| && v[..sp - m] == o[..sp - m] &&
      forall p | sp - m + 3 <= p < sp + 3 :: v[p] == o[p - 3]
  {
    forall p | sp - m + 3 <= p < sp + 3
      ensures v[p] == o[p - 3]
    {
      assert v[p] == o[sp - m..sp][p - (sp + 3 - m)];
    }
    assert v[..sp - m] == o[..sp - m];
  }

  lemma ShiftedRefsWide(ob: seq<bool>, b: seq<bool>, sp: int, m: nat)
    requires 3 <= m <= sp && sp + 3 <= |ob|
    requires b == ob[..sp - m] + Falses(3) + ob[sp - m..sp] + ob[sp + 3..]
    ensures |b| == |ob| && b[..sp - m] == ob[..sp - m] &&
      (forall p | sp - m + 3 <= p < sp + 3 :: b[p] == ob[p - 3]) &&
      (forall p | sp - m <= p < sp - m + 3 :: !b[p])
  {
    var f := Falses(3);
    forall p | sp - m + 3 <= p < sp + 3 ensures b[p] == ob[p - 3] {
      assert b[p] == ob[sp - m..sp][p - (sp - m + 3)];
    }
    forall p | sp - m <= p < sp - m + 3 ensures !b[p] {
      assert b[p] == f[p - (sp - m)];
    }
    assert b[..sp - m] == ob[..sp - m];
  }

  lemma ShiftedRefsNarrow(ob: seq<bool>, b: seq<bool>, sp: int, m: nat)
    requires m < 3 && m <= sp && sp + 3 <= |ob|
    requires forall p | sp <= p < |ob| :: !ob[p]
    requires b == ob[..sp - m] + Falses(m) + ob[sp..sp + 3 - m] + ob[sp - m..sp] + ob[sp + 3..]
    ensures |b| == |ob| && b[..sp - m] == ob[..sp - m] &&
      (forall p | sp - m + 3 <= p < sp + 3 :: b[p] == ob[p - 3]) &&
      (forall p | sp - m <= p < sp - m + 3 :: !b[p])
  {
    var f := Falses(m);
    forall p | sp - m + 3 <= p < sp + 3 ensures b[p] == ob[p - 3] {
      assert b[p] == ob[sp - m..sp][p - (sp + 3 - m)];
    }
    forall p | sp - m <= p < sp - m + 3 ensures !b[p] {
      if p < sp {
        assert b[p] == f[p - (sp - m)];
      } else {
        assert b[p] == ob[sp..sp + 3 - m][p - sp];
      }
    }
    assert b[..sp - m] == ob[..sp - m];
  }

  /** Unpacking B and C gives back the packed fields. */
  lemma UnpackPacked(r: Regs)
    requires RegsOk(r)
    ensures var b := PackLocalsPc(r.localsBase, r.pc - r.methodStartPc);
            var c := PackFlagsStart(r.flags, r.methodStartPc);
            c % 0x100_0000 == r.methodStartPc && c / 0x100_0000 == r.flags &&
            b / 0x1_0000 == r.localsBase && c % 0x100_0000 + b % 0x1_0000 == r.pc
  {
  }

  /** Where the three words of the return information land. */
  lemma PushedWords(s0: StackState, r0: Regs)
    requires WellFormed(s0) && RegsOk(r0) && s0.sp + RetInfoSize <= |s0.slots|
    ensures var (code, s1) := PushRetInfoSpec(s0, r0);
      code == ErrNone && s1.sp == s0.sp + RetInfoSize &&
      s1.slots[s0.sp] == (if HasInst(r0) then r0.instH else r0.cls) &&
      s1.slots[s0.sp + 1] == PackLocalsPc(r0.localsBase, r0.pc - r0.methodStartPc) &&
      s1.slots[s0.sp + 2] == PackFlagsStart(r0.flags, r0.methodStartPc) &&
      s1.slots[..s0.sp] == s0.slots[..s0.sp] && s1.refs[..s0.sp] == s0.refs[..s0.sp] &&
      s1.refs[s0.sp] == (HasInst(r0) || s0.refs[s0.sp]) &&
      s1.refs[s0.sp + 1] == s0.refs[s0.sp + 1] && s1.refs[s0.sp + 2] == s0.refs[s0.sp + 2] &&
      (forall p | s0.sp + RetInfoSize <= p < |s0.slots| :: s1.slots[p] == s0.slots[p] && s1.refs[p] == s0.refs[p])
  {
  }

  /** The call/return round trip. The caller's registers `r0` are pushed on the stack `s0`;
      the callee's locals start right above them. Whatever the callee does at and above its
      locals base, as long as the three words stay in place and its monitor (if any) is held
      by the returning thread, the return restores the caller's locals base, pc, method start
      and flags, and its instance or class, and leaves the stack pointer where it was before
      the push, every slot below it untouched and every slot from there up to the callee's
      stack pointer untagged. */
  lemma CallReturnRoundTrip(s0: StackState, r0: Regs, s: StackState, r: Regs, m: MonState, h: int,
                            classOf: word -> word)
    requires WellFormed(s0) && RegsOk(r0) && s0.sp + RetInfoSize <= |s0.slots|
    requires WellFormed(s) && |s.slots| == |s0.slots|
    requires r.localsBase == s0.sp + RetInfoSize <= s.sp
    requires s.slots[s0.sp..s0.sp + RetInfoSize] == PushRetInfoSpec(s0, r0).1.slots[s0.sp..s0.sp + RetInfoSize]
    requires Synchronized(r) ==> ExitSpec(m, h).0 == ErrNone
    ensures RetArgs(s, r)
    ensures var (code, s2, r2, m2) := RetSpec(s, r, m, h, classOf);
      code == ErrNone && s2.sp == s0.sp &&
      r2.localsBase == r0.localsBase && r2.pc == r0.pc && r2.methodStartPc == r0.methodStartPc &&
      r2.flags == r0.flags &&
      (HasInst(r0) ==> r2.instH == r0.instH && r2.cls == classOf(r0.instH)) &&
      (!HasInst(r0) ==> r2.cls == r0.cls) &&
      s2.slots == s.slots && s2.refs[..s0.sp] == s.refs[..s0.sp] &&
      (forall p | s0.sp <= p < s.sp :: !s2.refs[p]) &&
      m2 == (if Synchronized(r) then ExitSpec(m, h).1 else m)
  {
    var sp0 := s0.sp;
    var a := if HasInst(r0) then r0.instH else r0.cls;
    var b := PackLocalsPc(r0.localsBase, r0.pc - r0.methodStartPc);
    var c := PackFlagsStart(r0.flags, r0.methodStartPc);
    PushedWords(s0, r0);
    assert s.slots[sp0] == a && s.slots[sp0 + 1] == b && s.slots[sp0 + 2] == c by {
      assert s.slots[sp0..sp0 + 3][0] == s.slots[sp0];
      assert s.slots[sp0..sp0 + 3][1] == s.slots[sp0 + 1];
      assert s.slots[sp0..sp0 + 3][2] == s.slots[sp0 + 2];
    }
    UnpackPacked(r0);
    var s1 := PopTo(s, r.localsBase);
    assert s1.sp == sp0 + 3;
    RetTail(s, r, m, h, classOf);
    PopRetInfoOf(s1, r, classOf, a, b, c);
    var s4 := PopRetInfo(s1, r, classOf).0;
    ClearedBelow(s.refs, sp0, s.sp, s4.refs);
  }

  /** The return information written as three pushes, one after the other. */
  lemma RetInfoChain(s0: StackState, r: Regs, a: word, b: word, c: word)
    requires WellFormed(s0) && RegsOk(r)
    requires a == (if HasInst(r) then r.instH else r.cls)
    requires b == PackLocalsPc(r.localsBase, r.pc - r.methodStartPc)
    requires c == PackFlagsStart(r.flags, r.methodStartPc)
    ensures var (ok1, s1) := PushSpec(s0, a, HasInst(r));
      WellFormed(s1) &&
      var (ok2, s2) := PushSpec(s1, b, false);
      WellFormed(s2) &&
      var (ok3, s3) := PushSpec(s2, c, false);
      PushRetInfoSpec(s0, r) ==
        if !ok1 then (ErrStackSpace, s1) else if !ok2 then (ErrStackSpace, s2)
        else if !ok3 then (ErrStackSpace, s3) else (ErrNone, s3)
  {
  }

  /** The tags after popping to the callee's locals and then the return information. */
  lemma ClearedBelow(ob: seq<bool>, sp0: int, sp: int, r4: seq<bool>)
    requires 0 <= sp0 && sp0 + 3 <= sp <= |ob|
    requires r4 == (ob[..sp0 + 3] + Falses(sp - (sp0 + 3)) + ob[sp..])[sp0 + 2 := false][sp0 + 1 := false][sp0 := false]
    ensures |r4| == |ob| && r4[..sp0] == ob[..sp0] && forall p | sp0 <= p < sp :: !r4[p]
  {
    var f := Falses(sp - (sp0 + 3));
    var r1 := ob[..sp0 + 3] + f + ob[sp..];
    forall p | 0 <= p < sp0 ensures r4[p] == ob[p] {
      assert r1[p] == ob[p];
    }
    forall p | sp0 + 3 <= p < sp ensures !r4[p] {
      assert r1[p] == f[p - (sp0 + 3)];
    }
    assert r4[..sp0] == ob[..sp0];
  }

  /** A return from a frame that is not the outermost one, whose monitor exit (if any)
      succeeds, is the pop of the return information from the popped stack. */
  lemma RetTail(s: StackState, r: Regs, m: MonState, h: int, classOf: word -> word)
    requires RetArgs(s, r) && PopTo(s, r.localsBase).sp != 0
    requires Synchronized(r) ==> ExitSpec(m, h).0 == ErrNone
    ensures var s1 := PopTo(s, r.localsBase);
      s1.sp >= RetInfoSize &&
      RetSpec(s, r, m, h, classOf) ==
        (ErrNone, PopRetInfo(s1, r, classOf).0, PopRetInfo(s1, r, classOf).1,
         if Synchronized(r) then ExitSpec(m, h).1 else m)
  {
  }

  /** Popping the three words of return information: the registers are rebuilt from them,
      their tags are cleared and the stack pointer drops by three. */
  lemma PopRetInfoOf(s1: StackState, r: Regs, classOf: word -> word, a: word, b: word, c: word)
    requires WellFormed(s1) && s1.sp >= RetInfoSize
    requires s1.slots[s1.sp - 3] == a && s1.slots[s1.sp - 2] == b && s1.slots[s1.sp - 1] == c
    ensures var (s4, r2) := PopRetInfo(s1, r, classOf);
      var sp := s1.sp;
      s4 == StackState(s1.slots, s1.refs[sp - 1 := false][sp - 2 := false][sp - 3 := false], sp - 3) &&
      r2.localsBase == b / 0x1_0000 && r2.methodStartPc == c % 0x100_0000 &&
      r2.pc == c % 0x100_0000 + b % 0x1_0000 && r2.flags == c / 0x100_0000 &&
      ((c / 0x100_0000) % 2 == 1 ==> r2.cls == classOf(a) && r2.instH == a) &&
      ((c / 0x100_0000) % 2 != 1 ==> r2.cls == a && r2.instH == r.instH)
  {
  }

  /** Returning from the outermost frame: once the stack is popped to empty, the pc becomes
      the "done" marker and nothing is unpacked. */
  lemma RetFromTopLevel(s: StackState, r: Regs, m: MonState, h: int, classOf: word -> word)
    requires RetArgs(s, r) && Min(s.sp, r.localsBase) == 0
    ensures var (code, s2, r2, m2) := RetSpec(s, r, m, h, classOf);
      code == ErrNone && s2.sp == 0 && r2 == r.(pc := PcDone) && m2 == m &&
      forall p | 0 <= p < s.sp :: !s2.refs[p]
  {
  }

  /** A synchronized return whose monitor is not held by the returning thread reports 1 and
      unpacks nothing: the registers and the monitor stay as they were. */
  lemma RetMonitorFailure(s: StackState, r: Regs, m: MonState, h: int, classOf: word -> word)
    requires RetArgs(s, r) && Min(s.sp, r.localsBase) > 0 && Synchronized(r)
    requires m.numHolds == 0 || m.holder != h
    ensures var (code, s2, r2, m2) := RetSpec(s, r, m, h, classOf);
      code == ErrFalse && r2 == r && m2 == m && s2.sp == Min(s.sp, r.localsBase)
  {
  }

  // ---------------------------------------------------------------------------
  // Intermediate states of the dup primitive's loops
  // ---------------------------------------------------------------------------

  /** Values after `i` steps of the first loop: the top `i` moved slots sit `n` higher. */
  ghost function MovedVals(o: seq<word>, sp: int, n: nat, i: nat): (r: seq<word>)
    requires 0 <= i <= sp && sp + n <= |o|
    ensures |r| == |o|
  {
    seq(|o|, p requires 0 <= p < |o| => if sp + n - i <= p < sp + n then o[p - n] else o[p])
  }

  /** Tags after `i` steps of the first loop: each moved tag travels with its value; a source
      slot not yet refilled is cleared. */
  ghost function MovedRefs(ob: seq<bool>, sp: int, n: nat, i: nat): (r: seq<bool>)
    requires 0 <= i <= sp && sp + n <= |ob|
    ensures |r| == |ob|
  {
    seq(|ob|, p requires 0 <= p < |ob| =>
      if sp - i <= p < sp && (n == 0 || p < sp + n - i) then false
      else if sp + n - i <= p < sp + n then ob[p - n]
      else ob[p])
  }

  /** After `i` steps of the second loop: slots from `sp - m` on receive the slots from `sp` on. */
  ghost function CopiedDown<T>(v: seq<T>, sp: int, m: nat, i: nat): (r: seq<T>)
    requires m <= sp && sp + i <= |v|
    ensures |r| == |v|
  {
    seq(|v|, p requires 0 <= p < |v| => if sp - m <= p < sp - m + i then v[p + m] else v[p])
  }

  lemma MovedStep(o: seq<word>, ob: seq<bool>, sp: int, n: nat, i: nat)
    requires 0 <= i < sp && sp + n <= |o| && |ob| == |o|
    ensures MovedVals(o, sp, n, i)[sp + n - 1 - i := MovedVals(o, sp, n, i)[sp - 1 - i]]
            == MovedVals(o, sp, n, i + 1)
    ensures MovedRefs(ob, sp, n, i)[sp + n - 1 - i := MovedRefs(ob, sp, n, i)[sp - 1 - i]][sp - 1 - i := false]
            == MovedRefs(ob, sp, n, i + 1)
  {
  }

  lemma MovedZero(o: seq<word>, ob: seq<bool>, sp: int, n: nat)
    requires 0 <= sp && sp + n <= |o| && |ob| == |o|
    ensures MovedVals(o, sp, n, 0) == o && MovedRefs(ob, sp, n, 0) == ob
  {
  }

  lemma CopiedZero<T>(v: seq<T>, sp: int, m: nat)
    requires m <= sp <= |v|
    ensures CopiedDown(v, sp, m, 0) == v
  {
  }

  lemma CopiedStep<T>(v: seq<T>, sp: int, m: nat, i: nat)
    requires m <= sp && sp + i < |v|
    ensures CopiedDown(v, sp, m, i)[sp - m + i := CopiedDown(v, sp, m, i)[sp + i]] == CopiedDown(v, sp, m, i + 1)
  {
  }

  /** The values after the whole first loop: the top m slots sit n higher. */
  lemma ShiftVals(o: seq<word>, sp: int, n: nat, m: nat)
    requires m <= sp && sp + n <= |o|
    ensures MovedVals(o, sp, n, m) == o[..sp + n - m] + o[sp - m..sp] + o[sp + n..]
  {
    var r := MovedVals(o, sp, n, m);
    var t := o[..sp + n - m] + o[sp - m..sp] + o[sp + n..];
    forall p | 0 <= p < |o| ensures r[p] == t[p] {
      if p < sp + n - m {
        assert t[p] == o[p];
      } else if p < sp + n {
        assert t[p] == o[sp - m..sp][p - (sp + n - m)];
      } else {
        assert t[p] == o[sp + n..][p - (sp + n)];
      }
    }
    assert r == t;
  }

  /** Tags after the first loop when nothing is inserted: the moved window is cleared. */
  lemma ShiftRefsNone(ob: seq<bool>, sp: int, m: nat)
    requires m <= sp <= |ob|
    ensures MovedRefs(ob, sp, 0, m) == ob[..sp - m] + Falses(m) + ob[sp..]
  {
    var r := MovedRefs(ob, sp, 0, m);
    var f := Falses(m);
    var t := ob[..sp - m] + f + ob[sp..];
    forall p | 0 <= p < |ob| ensures r[p] == t[p] {
      if p < sp - m {
        assert t[p] == ob[p];
      } else if p < sp {
        assert t[p] == f[p - (sp - m)];
      } else {
        assert t[p] == ob[sp..][p - sp];
      }
    }
    assert r == t;
  }

  /** Tags after the first loop when at least n slots move: n cleared tags below the moved ones. */
  lemma ShiftRefsWide(ob: seq<bool>, sp: int, n: nat, m: nat)
    requires 0 < n <= m <= sp && sp + n <= |ob|
    ensures MovedRefs(ob, sp, n, m) == ob[..sp - m] + Falses(n) + ob[sp - m..sp] + ob[sp + n..]
  {
    var r := MovedRefs(ob, sp, n, m);
    var f := Falses(n);
    var t := ob[..sp - m] + f + ob[sp - m..sp] + ob[sp + n..];
    forall p | 0 <= p < |ob| ensures r[p] == t[p] {
      if p < sp - m {
        assert t[p] == ob[p];
      } else if p < sp - m + n {
        assert t[p] == f[p - (sp - m)];
      } else if p < sp + n {
        assert t[p] == ob[sp - m..sp][p - (sp - m + n)];
      } else {
        assert t[p] == ob[sp + n..][p - (sp + n)];
      }
    }
    assert r == t;
  }

  /** Tags after the first loop when fewer than n slots move: the m vacated tags are cleared and
      the slots between the old top and the moved ones keep theirs. */
  lemma ShiftRefsNarrow(ob: seq<bool>, sp: int, n: nat, m: nat)
    requires m < n && m <= sp && sp + n <= |ob|
    ensures MovedRefs(ob, sp, n, m)
            == ob[..sp - m] + Falses(m) + ob[sp..sp + n - m] + ob[sp - m..sp] + ob[sp + n..]
  {
    var r := MovedRefs(ob, sp, n, m);
    var f := Falses(m);
    var t := ob[..sp - m] + f + ob[sp..sp + n - m] + ob[sp - m..sp] + ob[sp + n..];
    forall p | 0 <= p < |ob| ensures r[p] == t[p] {
      if p < sp - m {
        assert t[p] == ob[p];
      } else if p < sp {
        assert t[p] == f[p - (sp - m)];
      } else if p < sp + n - m {
        assert t[p] == ob[sp..sp + n - m][p - sp];
      } else if p < sp + n {
        assert t[p] == ob[sp - m..sp][p - (sp + n - m)];
      } else {
        assert t[p] == ob[sp + n..][p - (sp + n)];
      }
    }
    assert r == t;
  }

  /** The window of a copying dup, slot by slot: below `sp - m` unchanged, then the old top
      n slots, then the m moved slots, then unchanged. */
  ghost function CopyWindow<T>(o: seq<T>, sp: int, n: nat, m: nat): (r: seq<T>)
    requires n <= m <= sp && sp + n <= |o|
    ensures |r| == |o|
  {
    seq(|o|, p requires 0 <= p < |o| =>
      if p < sp - m then o[p] else if p < sp - m + n then o[p + m - n]
      else if p < sp + n then o[p - n] else o[p])
  }

  lemma CopyWindowPieces<T>(o: seq<T>, sp: int, n: nat, m: nat)
    requires n <= m <= sp && sp + n <= |o|
    ensures CopyWindow(o, sp, n, m) == o[..sp - m] + o[sp - n..sp] + o[sp - m..sp] + o[sp + n..]
  {
    var r := CopyWindow(o, sp, n, m);
    var t := o[..sp - m] + o[sp - n..sp] + o[sp - m..sp] + o[sp + n..];
    forall p | 0 <= p < |o| ensures r[p] == t[p] {
      if p < sp - m {
        assert t[p] == o[p];
      } else if p < sp - m + n {
        assert t[p] == o[sp - n..sp][p - (sp - m)];
      } else if p < sp + n {
        assert t[p] == o[sp - m..sp][p - (sp - m + n)];
      } else {
        assert t[p] == o[sp + n..][p - (sp + n)];
      }
    }
    assert r == t;
  }

  /** The second loop after the first: the old top n slots fill the gap below the moved ones. */
  lemma CopyVals(o: seq<word>, sp: int, n: nat, m: nat)
    requires n <= m <= sp && sp + n <= |o|
    ensures CopiedDown(MovedVals(o, sp, n, m), sp, m, n) == o[..sp - m] + o[sp - n..sp] + o[sp - m..sp] + o[sp + n..]
  {
    var v := MovedVals(o, sp, n, m);
    var r := CopiedDown(v, sp, m, n);
    var w := CopyWindow(o, sp, n, m);
    forall p | 0 <= p < |o| ensures r[p] == w[p] {
      if sp - m <= p < sp - m + n {
        assert r[p] == v[p + m];
      }
    }
    assert r == w;
    CopyWindowPieces(o, sp, n, m);
  }

  /** The same for the tags of a copying dup of at least one slot. */
  lemma CopyRefs(ob: seq<bool>, sp: int, n: nat, m: nat)
    requires 0 < n <= m <= sp && sp + n <= |ob|
    ensures CopiedDown(MovedRefs(ob, sp, n, m), sp, m, n) == ob[..sp - m] + ob[sp - n..sp] + ob[sp - m..sp] + ob[sp + n..]
  {
    var v := MovedRefs(ob, sp, n, m);
    var r := CopiedDown(v, sp, m, n);
    var w := CopyWindow(ob, sp, n, m);
    forall p | 0 <= p < |ob| ensures r[p] == w[p] {
      if sp - m <= p < sp - m + n {
        assert r[p] == v[p + m];
      }
    }
    assert r == w;
    CopyWindowPieces(ob, sp, n, m);
  }

  /** The outcome of the first loop alone is the outcome `DupSpec` describes for a
      non-copying dup. */
  lemma ShiftByLoop(s: StackState, howMany: nat, howFarBelow: int)
    requires DupArgs(s, howMany, howFarBelow, true) && s.sp + howMany <= |s.slots|
    ensures var n := howMany;
      var m := Moved(howMany, howFarBelow);
      DupSpec(s, howMany, howFarBelow, true) ==
        (true, StackState(MovedVals(s.slots, s.sp, n, m), MovedRefs(s.refs, s.sp, n, m), s.sp))
  {
    var n := howMany;
    var m := Moved(howMany, howFarBelow);
    var sp := s.sp;
    ShiftVals(s.slots, sp, n, m);
    if n == 0 {
      ShiftRefsNone(s.refs, sp, m);
    } else if m >= n {
      ShiftRefsWide(s.refs, sp, n, m);
    } else {
      ShiftRefsNarrow(s.refs, sp, n, m);
    }
  }

  /** The outcome of the two loops is the outcome `DupSpec` describes for a copying dup. */
  lemma CopyByLoops(s: StackState, howMany: nat, howFarBelow: int)
    requires DupArgs(s, howMany, howFarBelow, false) && s.sp + howMany <= |s.slots|
    ensures var n := howMany;
      var m := Moved(howMany, howFarBelow);
      var v1 := MovedVals(s.slots, s.sp, n, m);
      var b1 := MovedRefs(s.refs, s.sp, n, m);
      DupSpec(s, howMany, howFarBelow, false) ==
        (true, StackState(CopiedDown(v1, s.sp, m, n), CopiedDown(b1, s.sp, m, n), s.sp + n))
  {
    var n := howMany;
    var m := Moved(howMany, howFarBelow);
    var sp := s.sp;
    CopyVals(s.slots, sp, n, m);
    if n == 0 {
      assert CopiedDown(MovedRefs(s.refs, sp, n, m), sp, m, n) == MovedRefs(s.refs, sp, n, m);
      ShiftRefsNone(s.refs, sp, m);
    } else {
      CopyRefs(s.refs, sp, n, m);
    }
  }

  /** The outcome of the two loops is the outcome `DupSpec` describes. */
  lemma DupByLoops(s: StackState, howMany: nat, howFarBelow: int, dontCopy: bool)
    requires DupArgs(s, howMany, howFarBelow, dontCopy) && s.sp + howMany <= |s.slots|
    ensures var n := howMany;
      var m := Moved(howMany, howFarBelow);
      var v1 := MovedVals(s.slots, s.sp, n, m);
      var b1 := MovedRefs(s.refs, s.sp, n, m);
      DupSpec(s, howMany, howFarBelow, dontCopy) ==
        if dontCopy then (true, StackState(v1, b1, s.sp))
        else (true, StackState(CopiedDown(v1, s.sp, m, n), CopiedDown(b1, s.sp, m, n), s.sp + n))
  {
    if dontCopy {
      ShiftByLoop(s, howMany, howFarBelow);
    } else {
      CopyByLoops(s, howMany, howFarBelow);
    }
  }

  // ---------------------------------------------------------------------------
  // The thread
  // ---------------------------------------------------------------------------

  /** `UjThread`: the stack slots and, stored after them in the C layout, one tag bit per slot. */
  class Thread {
    const spLimit: nat
    const stack: array<word>
    const tags: array<bv8>
    var spBase: nat
    var localsBase: nat
    var pc: int
    var methodStartPc: int
    var flags: int
    var cls: word
    var instH: word

    ghost predicate Valid()
      reads this
    {
      stack as object != tags as object &&
      stack.Length == spLimit < 0x1_0000 && tags.Length == (spLimit + 7) / 8 &&
      spBase <= spLimit && localsBase < 0x1_0000 && 0 <= flags < 0x100
    }

    ghost function Refs(): seq<bool>
      reads tags
    {
      TagView(tags[..], spLimit)
    }

    ghost function State(): StackState
      reads this, stack, tags
    {
      StackState(stack[..], Refs(), spBase)
    }

    ghost function Frame(): Regs
      reads this
    {
      Regs(localsBase, pc, methodStartPc, flags, cls, instH)
    }

    /** `ujThreadCreate` for a stack of `stackSz` bytes (4-byte slots), `DefaultStackSize`
        bytes when `stackSz` is 0: empty, pc invalid. The heap is taken to hand out cleared
        memory. */
    constructor (stackSz: nat)
      requires stackSz < 0x1_0000
      ensures Valid() && fresh(stack) && fresh(tags)
      ensures spLimit == (if stackSz == 0 then DefaultStackSize else stackSz) / 4
      ensures State() == StackState(seq(spLimit, _ => 0), Falses(spLimit), 0)
      ensures localsBase == 0 && pc == 0xFFFF_FFFE
    {
      var sz := if stackSz == 0 then DefaultStackSize else stackSz;
      spLimit := sz / 4;
      stack := new word[sz / 4](_ => 0);
      tags := new bv8[(sz / 4 + 7) / 8](_ => 0);
      spBase := 0;
      localsBase := 0;
      pc := 0xFFFF_FFFE;
      flags := 0;
      cls := 0;
      instH := 0;
      new;
      forall p | 0 <= p < spLimit ensures !Bit(tags[..], p) {
        assert tags[p / 8] == 0;
      }
    }

    method BitSet(p: nat)
      requires Valid() && p < spLimit
      modifies tags
      ensures Refs() == old(Refs())[p := true]
    {
      ghost var t0 := tags[..];
      tags[p / 8] := tags[p / 8] | Shifts[p % 8];
      assert tags[..] == SetBitTags(t0, p);
      SetBitView(t0, p, spLimit);
    }

    method BitClear(p: nat)
      requires Valid() && p < spLimit
      modifies tags
      ensures Refs() == old(Refs())[p := false]
    {
      ghost var t0 := tags[..];
      tags[p / 8] := tags[p / 8] & !Shifts[p % 8];
      assert tags[..] == ClearBitTags(t0, p);
      ClearBitView(t0, p, spLimit);
    }

    method BitGet(p: nat) returns (b: bool)
      requires Valid() && p < spLimit
      ensures b == Refs()[p]
    {
      b := tags[p / 8] & Shifts[p % 8] != 0;
    }

    method Push(v: word, isRef: bool) returns (ok: bool)
      requires Valid()
      modifies this, stack, tags
      ensures Valid() && Frame() == old(Frame())
      ensures (ok, State()) == PushSpec(old(State()), v, isRef)
    {
      if spBase < spLimit {
        ghost var b0 := Refs();
        stack[spBase] := v;
        if isRef {
          BitSet(spBase);
        }
        assert Refs() == b0[spBase := isRef || b0[spBase]];
        spBase := spBase + 1;
        return true;
      }
      return false;
    }

    method Pop() returns (v: word)
      requires Valid() && spBase > 0
      modifies this, tags
      ensures Valid() && Frame() == old(Frame())
      ensures v == PopSpec(old(State())).0 && State() == PopSpec(old(State())).1
    {
      ghost var s0 := State();
      spBase := spBase - 1;
      BitClear(spBase);
      v := stack[spBase];
      assert stack[..] == s0.slots;
      assert Refs() == s0.refs[spBase := false];
      assert spBase == s0.sp - 1;
    }

    method Peek(k: nat) returns (v: word)
      requires Valid() && k < spBase
      ensures v == PeekSpec(State(), k)
    {
      v := stack[spBase - (k + 1)];
    }

    /** Give slot `dst` the tag of slot `src`. */
    method CopyTag(src: nat, dst: nat)
      requires Valid() && src < spLimit && dst < spLimit
      modifies tags
      ensures Refs() == old(Refs())[dst := old(Refs())[src]]
    {
      var b := BitGet(src);
      if b {
        BitSet(dst);
      } else {
        BitClear(dst);
      }
    }

    /** One step of the first dup loop: slot `dst` takes the value and tag of slot `src`,
        whose tag is then cleared. */
    method MoveSlot(src: nat, dst: nat)
      requires Valid() && src < spLimit && dst < spLimit
      modifies stack, tags
      ensures stack[..] == old(stack[..])[dst := old(stack[..])[src]]
      ensures Refs() == old(Refs())[dst := old(Refs())[src]][src := false]
    {
      CopyTag(src, dst);
      BitClear(src);
      stack[dst] := stack[src];
    }

    /** One step of the second dup loop: slot `dst` takes the value and tag of slot `src`. */
    method CopySlot(src: nat, dst: nat)
      requires Valid() && src < spLimit && dst < spLimit
      modifies stack, tags
      ensures stack[..] == old(stack[..])[dst := old(stack[..])[src]]
      ensures Refs() == old(Refs())[dst := old(Refs())[src]]
    {
      CopyTag(src, dst);
      stack[dst] := stack[src];
    }

    /** Step 1 of the dup primitive: the top `m` slots move up by `n`, back to front. */
    method MoveUp(n: nat, m: nat)
      requires Valid() && m <= spBase && spBase + n <= spLimit
      modifies stack, tags
      ensures stack[..] == MovedVals(old(stack[..]), spBase, n, m)
      ensures Refs() == MovedRefs(old(Refs()), spBase, n, m)
    {
      ghost var o := stack[..];
      ghost var ob := Refs();
      var sp := spBase;
      var src := sp;
      var dst := sp + n;
      var i := 0;
      ghost var cv := o;
      ghost var cr := ob;
      MovedZero(o, ob, sp, n);
      while i < m
        modifies stack, tags
        invariant 0 <= i <= m && src == sp - i && dst == sp + n - i
        invariant stack[..] == cv && Refs() == cr
        invariant cv == MovedVals(o, sp, n, i) && cr == MovedRefs(ob, sp, n, i)
      {
        dst := dst - 1;
        src := src - 1;
        MovedStep(o, ob, sp, n, i);
        MoveSlot(src, dst);
        cv := cv[dst := cv[src]];
        cr := cr[dst := cr[src]][src := false];
        i := i + 1;
      }
    }

    /** Step 2 of the dup primitive: the `n` slots from `spBase` on are copied to `spBase - m`. */
    method CopyInto(n: nat, m: nat)
      requires Valid() && n <= m <= spBase && spBase + n <= spLimit
      modifies stack, tags
      ensures stack[..] == CopiedDown(old(stack[..]), spBase, m, n)
      ensures Refs() == CopiedDown(old(Refs()), spBase, m, n)
    {
      ghost var v1 := stack[..];
      ghost var b1 := Refs();
      var sp := spBase;
      var dst := sp - m;
      var src := sp;
      var i := 0;
      ghost var cv := v1;
      ghost var cr := b1;
      CopiedZero(v1, sp, m);
      CopiedZero(b1, sp, m);
      while i < n
        modifies stack, tags
        invariant 0 <= i <= n && dst == sp - m + i && src == sp + i
        invariant stack[..] == cv && Refs() == cr
        invariant cv == CopiedDown(v1, sp, m, i) && cr == CopiedDown(b1, sp, m, i)
      {
        CopiedStep(v1, sp, m, i);
        CopiedStep(b1, sp, m, i);
        CopySlot(src, dst);
        cv := cv[dst := cv[src]];
        cr := cr[dst := cr[src]];
        dst := dst + 1;
        src := src + 1;
        i := i + 1;
      }
    }

    /** `ujThreadPrvDup`: step 1 moves the top m slots up by n; step 2 (unless `dontCopy`)
        copies the n slots above the old top into the gap and step 3 bumps the stack pointer. */
    method Dup(howMany: nat, howFarBelow: int, dontCopy: bool) returns (ok: bool)
      requires Valid() && DupArgs(State(), howMany, howFarBelow, dontCopy)
      modifies this, stack, tags
      ensures Valid() && Frame() == old(Frame())
      ensures (ok, State()) == DupSpec(old(State()), howMany, howFarBelow, dontCopy)
    {
      var n := howMany;
      if spBase + n > spLimit {
        return false;
      }
      var m := Moved(howMany, howFarBelow);
      ghost var o := stack[..];
      ghost var ob := Refs();
      ghost var s0 := State();
      DupByLoops(s0, howMany, howFarBelow, dontCopy);
      MoveUp(n, m);
      if !dontCopy {
        CopyInto(n, m);
        spBase := spBase + n;
      }
      ok := true;
      assert State() == DupSpec(s0, howMany, howFarBelow, dontCopy).1;
    }

    method LocalLoad(idx: nat) returns (v: word)
      requires Valid() && localsBase + idx < spLimit
      ensures v == State().slots[localsBase + idx]
    {
      v := stack[localsBase + idx];
    }

    /** `ujThreadPrvLocalStore`: the slot gets the value and its tag says whether it is a reference. */
    method LocalStore(idx: nat, v: word, isRef: bool)
      requires Valid() && localsBase + idx < spLimit
      modifies stack, tags
      ensures State() == old(State()).(slots := old(State()).slots[localsBase + idx := v],
                                       refs := old(State()).refs[localsBase + idx := isRef])
    {
      stack[localsBase + idx] := v;
      if isRef {
        BitSet(localsBase + idx);
      } else {
        BitClear(localsBase + idx);
      }
    }

    method PushRetInfo() returns (code: int)
      requires Valid() && RegsOk(Frame())
      modifies this, stack, tags
      ensures Valid() && Frame() == old(Frame())
      ensures (code, State()) == PushRetInfoSpec(old(State()), old(Frame()))
    {
      ghost var s0 := State();
      ghost var r0 := Frame();
      var hasInst := flags % 2 == 1;
      var wordA := if hasInst then instH else cls;
      var wordB := PackLocalsPc(localsBase, pc - methodStartPc);
      var wordC := PackFlagsStart(flags, methodStartPc);
      RetInfoChain(s0, r0, wordA, wordB, wordC);
      var ok := Push(wordA, hasInst);
      if !ok {
        return ErrStackSpace;
      }
      ok := Push(wordB, false);
      if !ok {
        return ErrStackSpace;
      }
      ok := Push(wordC, false);
      if !ok {
        return ErrStackSpace;
      }
      return ErrNone;
    }

    /** The first loop of `ujThreadPrvRet`. */
    method PopToLocals()
      requires Valid()
      modifies this`spBase, tags
      ensures Valid() && Frame() == old(Frame())
      ensures State() == PopTo(old(State()), localsBase)
    {
      ghost var s0 := State();
      ghost var cr := s0.refs;
      ClearedNone(s0.refs, s0.sp);
      while spBase > localsBase
        modifies this`spBase, tags
        invariant Valid() && Frame() == old(Frame())
        invariant Min(s0.sp, localsBase) <= spBase <= s0.sp
        invariant stack[..] == s0.slots && Refs() == cr && cr == Cleared(s0.refs, spBase, s0.sp)
      {
        spBase := spBase - 1;
        BitClear(spBase);
        ClearedStep(s0.refs, spBase, s0.sp);
        cr := cr[spBase := false];
      }
      ClearedIsPopTo(s0, localsBase);
    }

    method UnpackRetInfo(classOf: word -> word)
      requires Valid() && spBase >= RetInfoSize
      modifies this, tags
      ensures Valid()
      ensures State() == PopRetInfo(old(State()), old(Frame()), classOf).0
      ensures Frame() == PopRetInfo(old(State()), old(Frame()), classOf).1
    {
      ghost var s0 := State();
      ghost var r0 := Frame();
      var c := Pop();
      var b := Pop();
      var a := Pop();
      PopRetInfoOf(s0, r0, classOf, a, b, c);
      var ms := c % 0x100_0000;
      var fl := c / 0x100_0000;
      var lb := b / 0x1_0000;
      if fl % 2 == 1 {
        instH := a;
        cls := classOf(a);
      } else {
        cls := a;
      }
      methodStartPc := ms;
      flags := fl;
      pc := ms + b % 0x1_0000;
      localsBase := lb;
    }

    /** `ujThreadPrvRet` of thread `threadH`. `mon` is the monitor a synchronized frame
        releases (the instance's or the class's); `classOf` is the heap's instance-to-class
        lookup. */
    method Ret(threadH: int, mon: Monitor, classOf: word -> word) returns (code: int)
      requires Valid() && RetArgs(State(), Frame()) && MonValid(mon.State())
      modifies this, tags, mon
      ensures Valid() && MonValid(mon.State())
      ensures (code, State(), Frame(), mon.State())
              == RetSpec(old(State()), old(Frame()), old(mon.State()), threadH, classOf)
    {
      PopToLocals();
      if spBase == 0 {
        pc := PcDone;
        return ErrNone;
      }
      if (flags / 2) % 2 == 1 {
        var r := mon.Exit(threadH);
        if r != ErrNone {
          return r;
        }
      }
      UnpackRetInfo(classOf);
      return ErrNone;
    }
  }
}
