/** Branch and switch decoding of the interpreter loop (`ujThreadPrvInstr`). When an
    instruction body runs, `pc` is already one past its opcode byte, so every offset the
    class file gives relative to the opcode is applied as `pc + offset - 1`. Addresses are
    `UInt24`, a `uint32_t`, so the sums wrap at 2^32. */
module Branches {
  import opened Bytes
  import opened ClassFiles
  import opened Threads

  // ---------------------------------------------------------------------------
  // Conditional and unconditional branches
  // ---------------------------------------------------------------------------

  /** `ujThreadPrvJumpIfNeeded`: a taken branch adds the signed 16-bit offset stored at `pc`
      and steps back over the opcode; an untaken one skips the offset. */
  function JumpTarget(code: seq<byte>, pc: int, needed: bool): (target: word)
  {
    if needed then Addr(pc + ReadI16(code, pc) - 1) else Addr(pc + 2)
  }

  /** Measured from the opcode at `op`: a taken branch lands at `op + offset`, an untaken
      one at the next instruction, three bytes on. */
  lemma JumpFromOpcode(code: seq<byte>, op: word, needed: bool)
    ensures JumpTarget(code, op + 1, needed) ==
            if needed then Addr(op + S16(ReadU16(code, op + 1))) else Addr(op + 3)
  {
  }

  method JumpIfNeeded(t: Thread, code: seq<byte>, needed: bool)
    modifies t
    ensures t.pc == JumpTarget(code, old(t.pc), needed)
    ensures t.spBase == old(t.spBase) && t.localsBase == old(t.localsBase)
    ensures t.methodStartPc == old(t.methodStartPc) && t.flags == old(t.flags)
    ensures t.cls == old(t.cls) && t.instH == old(t.instH)
  {
    if needed {
      t.pc := Addr(t.pc + ReadI16(code, t.pc));
      t.pc := Addr(t.pc - 1);
      AddrAdd(old(t.pc) + ReadI16(code, old(t.pc)), -1);
    } else {
      t.pc := Addr(t.pc + 2);
    }
  }

  /** `if_acmpeq` and `if_acmpne` as written: both branch when the two references are equal. */
  function AcmpTakenAsWritten(ne: bool, a: word, b: word): bool {
    a == b
  }

  /** The branch condition the two opcodes are meant to have: `if_acmpne` branches when the
      references differ. */
  function AcmpTaken(ne: bool, a: word, b: word): bool {
    if ne then a != b else a == b
  }

  /** As written the two opcodes cannot be told apart: `if_acmpne` on two different
      references falls through. */
  lemma AcmpneAsWrittenFallsThrough()
    ensures forall ne: bool, a: word, b: word :: AcmpTakenAsWritten(ne, a, b) == AcmpTakenAsWritten(!ne, a, b)
    ensures !AcmpTakenAsWritten(true, 1, 2) && AcmpTaken(true, 1, 2)
  {
  }

  /** With the intended condition the two opcodes are exact complements, and `if_acmpeq`
      is unchanged. */
  lemma AcmpComplements(a: word, b: word)
    ensures AcmpTaken(true, a, b) == !AcmpTaken(false, a, b)
    ensures AcmpTaken(true, a, b) <==> a != b
    ensures AcmpTaken(false, a, b) == AcmpTakenAsWritten(false, a, b)
  {
  }

  /** `if_acmpeq` / `if_acmpne` (opcode 0xA5 / 0xA6, `ne` for the latter): pop two references
      and branch as the code is written. */
  method IfAcmp(t: Thread, code: seq<byte>, ne: bool)
    requires t.Valid() && t.spBase >= 2
    modifies t, t.tags
    ensures t.Valid()
    ensures var s1 := PopSpec(old(t.State()));
            var s2 := PopSpec(s1.1);
            t.State() == s2.1 && t.pc == JumpTarget(code, old(t.pc), AcmpTakenAsWritten(ne, s1.0, s2.0))
  {
    var a := t.Pop();
    var b := t.Pop();
    JumpIfNeeded(t, code, AcmpTakenAsWritten(ne, a, b));
  }

  // ---------------------------------------------------------------------------
  // Signed 32-bit words in the code
  // ---------------------------------------------------------------------------

  predicate Int32(x: int) {
    -0x8000_0000 <= x < 0x8000_0000
  }

  lemma S32OfU32(x: int)
    requires Int32(x)
    ensures S32(U32(x)) == x
  {
  }

  lemma U32OfS32(w: word)
    ensures U32(S32(w)) == w
  {
  }

  lemma U32Injective(x: int, y: int)
    requires Int32(x) && Int32(y)
    ensures U32(x) == U32(y) <==> x == y
  {
    S32OfU32(x);
    S32OfU32(y);
  }

  /** Big-endian 32-bit words laid out one after another from `base`. */
  ghost predicate WordsAt(code: seq<byte>, base: nat, xs: seq<int>)
    decreases |xs|
  {
    |xs| == 0 ||
    (Int32(xs[0]) && base + 4 <= |code| && code[base..base + 4] == EncodeU32(U32(xs[0])) &&
     WordsAt(code, base + 4, xs[1..]))
  }

  /** Word `i` of a run of words laid out at `base` reads back as itself, inside the code. */
  lemma {:induction false} WordAt(code: seq<byte>, base: nat, xs: seq<int>, i: nat)
    requires WordsAt(code, base, xs) && i < |xs|
    ensures base + 4 * i + 4 <= |code| && S32(ReadU32(code, base + 4 * i)) == xs[i]
    decreases i
  {
    if i == 0 {
      ReadU32Encode(code, base, U32(xs[0]));
      S32OfU32(xs[0]);
    } else {
      WordAt(code, base + 4, xs[1..], i - 1);
    }
  }

  // ---------------------------------------------------------------------------
  // tableswitch
  // ---------------------------------------------------------------------------

  /** The padding after a switch opcode, from the distance to the method start. */
  function Pad(pc: int, ms: int): (p: int)
    ensures 0 <= p < 4
    ensures (pc + p - ms) % 4 == 0
  {
    var r := (pc - ms) % 4;
    if r == 0 then 0 else 4 - r
  }

  /** The jump both switch opcodes end with: the signed word `off` bytes past the aligned
      base, applied relative to the opcode. */
  function JumpVia(code: seq<byte>, pc: int, base: int, off: int): (target: word)
  {
    Addr(pc + S32(ReadU32(code, Addr(base + off))) - 1)
  }

  /** `tableswitch` as written: the default offset is read at the aligned base, the bounds
      at base + 4 and base + 8, and an in-range key selects the word at
      base + 8 + 4 * (key - low). */
  function TableWordAsWritten(low: int, high: int, key: int): (off: int)
  {
    if low <= key <= high then 8 + 4 * (key - low) else 0
  }

  /** The layout the class-file format gives the table: the jump offsets start at base + 12. */
  function TableWordFixed(low: int, high: int, key: int): (off: int)
  {
    if low <= key <= high then 12 + 4 * (key - low) else 0
  }

  function TableSwitchAsWritten(code: seq<byte>, pc: int, ms: int, key: int): (target: word)
  {
    var base := pc + Pad(pc, ms);
    var low := S32(ReadU32(code, Addr(base + 4)));
    var high := S32(ReadU32(code, Addr(base + 8)));
    JumpVia(code, pc, base, TableWordAsWritten(low, high, key))
  }

  function TableSwitchFixed(code: seq<byte>, pc: int, ms: int, key: int): (target: word)
  {
    var base := pc + Pad(pc, ms);
    var low := S32(ReadU32(code, Addr(base + 4)));
    var high := S32(ReadU32(code, Addr(base + 8)));
    JumpVia(code, pc, base, TableWordFixed(low, high, key))
  }

  /** A `tableswitch` operand: default offset, bounds, one offset per key in [low, high]. */
  datatype Table = Table(default: int, low: int, high: int, offsets: seq<int>)

  predicate TableOk(tb: Table) {
    Int32(tb.default) && Int32(tb.low) && Int32(tb.high) && tb.low <= tb.high &&
    |tb.offsets| == tb.high - tb.low + 1 &&
    forall i | 0 <= i < |tb.offsets| :: Int32(tb.offsets[i])
  }

  function TableWords(tb: Table): seq<int> {
    [tb.default, tb.low, tb.high] + tb.offsets
  }

  /** The table laid out at the aligned position after the opcode, inside code that fits
      the 32-bit address space. */
  ghost predicate TableAt(code: seq<byte>, pc: nat, ms: int, tb: Table) {
    TableOk(tb) && |code| < 0x1_0000_0000 &&
    var base := pc + Pad(pc, ms);
    WordsAt(code, base, TableWords(tb))
  }

  /** The three header words of a laid-out table read back as the default offset and the
      bounds. */
  lemma TableHeader(code: seq<byte>, pc: nat, ms: int, tb: Table)
    requires TableAt(code, pc, ms, tb)
    ensures var base := pc + Pad(pc, ms);
            S32(ReadU32(code, Addr(base))) == tb.default &&
            S32(ReadU32(code, Addr(base + 4))) == tb.low &&
            S32(ReadU32(code, Addr(base + 8))) == tb.high
  {
    var base := pc + Pad(pc, ms);
    var xs := TableWords(tb);
    WordAt(code, base, xs, 0);
    WordAt(code, base, xs, 1);
    WordAt(code, base, xs, 2);
  }

  /** Jumping via word `i` of a laid-out table moves by that word. */
  lemma TableJump(code: seq<byte>, pc: nat, ms: int, tb: Table, i: nat, off: int)
    requires TableAt(code, pc, ms, tb) && i < |TableWords(tb)| && off == 4 * i
    ensures JumpVia(code, pc, pc + Pad(pc, ms), off) == Addr(pc - 1 + TableWords(tb)[i])
  {
    var base := pc + Pad(pc, ms);
    WordAt(code, base, TableWords(tb), i);
    assert Addr(base + off) == base + 4 * i;
  }

  /** With the class-file layout, a key in range jumps by its own offset and any other key
      by the default offset, both measured from the opcode. */
  lemma TableSwitchSelects(code: seq<byte>, pc: nat, ms: int, key: int, tb: Table)
    requires TableAt(code, pc, ms, tb)
    ensures TableSwitchFixed(code, pc, ms, key) ==
            Addr(pc - 1 + if tb.low <= key <= tb.high then tb.offsets[key - tb.low] else tb.default)
  {
    TableHeader(code, pc, ms, tb);
    if tb.low <= key <= tb.high {
      var j := key - tb.low;
      assert TableWords(tb)[3 + j] == tb.offsets[j];
      TableJump(code, pc, ms, tb, 3 + j, TableWordFixed(tb.low, tb.high, key));
    } else {
      TableJump(code, pc, ms, tb, 0, TableWordFixed(tb.low, tb.high, key));
    }
  }

  /** As written, the selected word is one slot early: the smallest key jumps by the value
      of `high`, and every other key in range by the offset of the key before it. */
  lemma TableSwitchAsWrittenIsOneEarly(code: seq<byte>, pc: nat, ms: int, key: int, tb: Table)
    requires TableAt(code, pc, ms, tb) && tb.low <= key <= tb.high
    ensures TableSwitchAsWritten(code, pc, ms, key) ==
            Addr(pc - 1 + if key == tb.low then tb.high else tb.offsets[key - tb.low - 1])
  {
    TableHeader(code, pc, ms, tb);
    var i := 2 + (key - tb.low);
    assert TableWords(tb)[i] == if key == tb.low then tb.high else tb.offsets[key - tb.low - 1];
    TableJump(code, pc, ms, tb, i, TableWordAsWritten(tb.low, tb.high, key));
  }

  /** The padding computation both switch opcodes start with. */
  method SwitchPad(pc: int, ms: int) returns (instr: int)
    ensures instr == Pad(pc, ms)
  {
    instr := (pc - ms) % 4;
    if instr != 0 {
      instr := 4 - instr;
    }
  }

  /** The range check of `tableswitch`: the byte offset from the aligned base of the jump
      offset to take, as the code is written. */
  method TableIndex(code: seq<byte>, base: int, key: int) returns (v32: int)
    ensures v32 == TableWordAsWritten(S32(ReadU32(code, Addr(base + 4))), S32(ReadU32(code, Addr(base + 8))), key)
  {
    v32 := key;
    var low := S32(ReadU32(code, Addr(base + 4)));
    if low <= v32 && v32 <= S32(ReadU32(code, Addr(base + 8))) {
      v32 := v32 - low;
      v32 := v32 * 4;
      v32 := v32 + 8;
    } else {
      v32 := 0;
    }
  }

  /** The jump both switch opcodes end with. */
  method SwitchJump(t: Thread, code: seq<byte>, base: int, off: int)
    modifies t
    ensures t.pc == JumpVia(code, old(t.pc), base, off)
    ensures t.spBase == old(t.spBase) && t.localsBase == old(t.localsBase)
    ensures t.methodStartPc == old(t.methodStartPc) && t.flags == old(t.flags)
    ensures t.cls == old(t.cls) && t.instH == old(t.instH)
  {
    var jump := S32(ReadU32(code, Addr(base + off)));
    t.pc := Addr(t.pc + jump - 1);
  }

  /** `tableswitch` (opcode 0xAA): pop the key and jump, as the code is written. */
  method TableSwitch(t: Thread, code: seq<byte>)
    requires t.Valid() && t.spBase >= 1
    modifies t, t.tags
    ensures t.Valid()
    ensures var (v, s1) := PopSpec(old(t.State()));
            t.State() == s1 && t.pc == TableSwitchAsWritten(code, old(t.pc), old(t.methodStartPc), S32(v))
    ensures t.Frame().(pc := 0) == old(t.Frame()).(pc := 0)
  {
    var instr := SwitchPad(t.pc, t.methodStartPc);
    var key := t.Pop();
    var off := TableIndex(code, t.pc + instr, S32(key));
    SwitchJump(t, code, t.pc + instr, off);
  }

  // ---------------------------------------------------------------------------
  // lookupswitch
  // ---------------------------------------------------------------------------

  /** The pair count as the search loop sees it: shifted left by three in a 32-bit value,
      so only its low 29 bits survive. */
  function PairCount(code: seq<byte>, base: int): (n: nat)
    ensures n < 0x2000_0000
  {
    ReadU32(code, Addr(base + 4)) % 0x2000_0000
  }

  /** `i32 <<= 3` on the count, read as an unsigned word. */
  lemma ShiftedCount(x: word)
    ensures (x * 8) % 0x1_0000_0000 == 8 * (x % 0x2000_0000)
  {
    var q := x / 0x2000_0000;
    assert x == q * 0x2000_0000 + x % 0x2000_0000;
    assert x * 8 == q * 0x1_0000_0000 + 8 * (x % 0x2000_0000);
  }

  /** The first pair, from pair `j` on and below pair `n`, whose key word is `key`. */
  function MatchFrom(code: seq<byte>, base: int, key: word, j: nat, n: nat): (r: Option<nat>)
    requires j <= n
    ensures r.Some? ==> j <= r.value < n
    decreases n - j
  {
    if j == n then None
    else if ReadU32(code, Addr(base + 8 + 8 * j)) == key then Some(j)
    else MatchFrom(code, base, key, j + 1, n)
  }

  /** The byte offset from the aligned base of the jump offset `lookupswitch` takes: that of
      the first matching pair, or the default offset when none matches. */
  function LookupWordAt(code: seq<byte>, base: int, key: word): (off: nat)
  {
    match MatchFrom(code, base, key, 0, PairCount(code, base))
    case None => 0
    case Some(j) => 12 + 8 * j
  }

  function LookupSwitchTarget(code: seq<byte>, pc: int, ms: int, key: word): (target: word)
  {
    var base := pc + Pad(pc, ms);
    JumpVia(code, pc, base, LookupWordAt(code, base, key))
  }

  /** The search loop of `lookupswitch`. */
  method PairSearch(code: seq<byte>, base: int, key: word) returns (off: nat)
    ensures off == LookupWordAt(code, base, key)
  {
    var count: int := ReadU32(code, Addr(base + 4));
    var limit: int := (count * 8) % 0x1_0000_0000;
    ghost var n := PairCount(code, base);
    ShiftedCount(count);
    assert limit == 8 * n;
    var t32 := 0;
    ghost var j := 0;
    while t32 != limit
      invariant t32 == 8 * j && j <= n
      invariant MatchFrom(code, base, key, 0, n) == MatchFrom(code, base, key, j, n)
      decreases n - j
    {
      if ReadU32(code, Addr(base + 8 + t32)) == key {
        assert MatchFrom(code, base, key, j, n) == Some(j);
        return t32 + 12;
      }
      t32 := t32 + 8;
      j := j + 1;
    }
    return 0;
  }

  /** `lookupswitch` (opcode 0xAB): pop the key, search the pairs in order, jump. */
  method LookupSwitch(t: Thread, code: seq<byte>)
    requires t.Valid() && t.spBase >= 1
    modifies t, t.tags
    ensures t.Valid()
    ensures var (v, s1) := PopSpec(old(t.State()));
            t.State() == s1 && t.pc == LookupSwitchTarget(code, old(t.pc), old(t.methodStartPc), v)
    ensures t.Frame().(pc := 0) == old(t.Frame()).(pc := 0)
  {
    var instr := SwitchPad(t.pc, t.methodStartPc);
    var key := t.Pop();
    var off := PairSearch(code, t.pc + instr, key);
    SwitchJump(t, code, t.pc + instr, off);
  }

  /** A `lookupswitch` operand: default offset and (key, offset) pairs. */
  datatype Lookup = Lookup(default: int, pairs: seq<(int, int)>)

  function PairWords(ps: seq<(int, int)>): (xs: seq<int>)
    ensures |xs| == 2 * |ps|
  {
    if |ps| == 0 then [] else [ps[0].0, ps[0].1] + PairWords(ps[1..])
  }

  lemma {:induction false} PairWordsAt(ps: seq<(int, int)>, j: nat)
    requires j < |ps|
    ensures PairWords(ps)[2 * j] == ps[j].0 && PairWords(ps)[2 * j + 1] == ps[j].1
    decreases j
  {
    if j > 0 {
      PairWordsAt(ps[1..], j - 1);
    }
  }

  function LookupWords(lk: Lookup): seq<int> {
    [lk.default, |lk.pairs|] + PairWords(lk.pairs)
  }

  predicate LookupOk(lk: Lookup) {
    var xs := LookupWords(lk);
    forall i | 0 <= i < |xs| :: Int32(xs[i])
  }

  ghost predicate LookupAt(code: seq<byte>, pc: nat, ms: int, lk: Lookup) {
    LookupOk(lk) && |code| < 0x1_0000_0000 && WordsAt(code, pc + Pad(pc, ms), LookupWords(lk))
  }

  /** The first pair, from pair `j` on, whose key is `key`. */
  function FirstMatch(ps: seq<(int, int)>, key: int, j: nat): (r: Option<nat>)
    requires j <= |ps|
    ensures r.Some? ==> j <= r.value < |ps| && ps[r.value].0 == key
    ensures r.None? ==> forall i | j <= i < |ps| :: ps[i].0 != key
    decreases |ps| - j
  {
    if j == |ps| then None else if ps[j].0 == key then Some(j) else FirstMatch(ps, key, j + 1)
  }

  /** Word `i` of a laid-out `lookupswitch` operand, `off` bytes past the aligned base. */
  lemma LookupWord(code: seq<byte>, pc: nat, ms: int, lk: Lookup, i: nat, off: int)
    requires LookupAt(code, pc, ms, lk) && i < |LookupWords(lk)| && off == 4 * i
    ensures S32(ReadU32(code, Addr(pc + Pad(pc, ms) + off))) == LookupWords(lk)[i]
  {
    var base := pc + Pad(pc, ms);
    WordAt(code, base, LookupWords(lk), i);
    assert Addr(base + off) == base + 4 * i;
  }

  /** The key word of pair `j` equals `U32(key)` exactly when the pair's key is `key`. */
  lemma PairKey(code: seq<byte>, pc: nat, ms: int, lk: Lookup, key: int, j: nat)
    requires LookupAt(code, pc, ms, lk) && Int32(key) && j < |lk.pairs|
    ensures ReadU32(code, Addr(pc + Pad(pc, ms) + 8 + 8 * j)) == U32(key) <==> lk.pairs[j].0 == key
  {
    var xs := LookupWords(lk);
    PairWordsAt(lk.pairs, j);
    assert xs[2 + 2 * j] == lk.pairs[j].0;
    LookupWord(code, pc, ms, lk, 2 + 2 * j, 8 + 8 * j);
    var w := ReadU32(code, Addr(pc + Pad(pc, ms) + 8 + 8 * j));
    S32OfU32(key);
    U32OfS32(w);
  }

  /** Jumping via the offset word of pair `j` moves by the pair's offset. */
  lemma PairJump(code: seq<byte>, pc: nat, ms: int, lk: Lookup, j: nat)
    requires LookupAt(code, pc, ms, lk) && j < |lk.pairs|
    ensures JumpVia(code, pc, pc + Pad(pc, ms), 12 + 8 * j) == Addr(pc - 1 + lk.pairs[j].1)
  {
    var xs := LookupWords(lk);
    PairWordsAt(lk.pairs, j);
    assert xs[3 + 2 * j] == lk.pairs[j].1;
    LookupWord(code, pc, ms, lk, 3 + 2 * j, 12 + 8 * j);
  }

  /** Searching the laid-out pairs from pair `j` finds what searching the operand does. */
  lemma {:induction false} MatchFromPairs(code: seq<byte>, pc: nat, ms: int, lk: Lookup, key: int, j: nat)
    requires LookupAt(code, pc, ms, lk) && Int32(key) && j <= |lk.pairs|
    ensures MatchFrom(code, pc + Pad(pc, ms), U32(key), j, |lk.pairs|) == FirstMatch(lk.pairs, key, j)
    decreases |lk.pairs| - j
  {
    if j < |lk.pairs| {
      var base := pc + Pad(pc, ms);
      PairKey(code, pc, ms, lk, key, j);
      MatchFromPairs(code, pc, ms, lk, key, j + 1);
      var hit := ReadU32(code, Addr(base + 8 + 8 * j)) == U32(key);
      assert MatchFrom(code, base, U32(key), j, |lk.pairs|) ==
             if hit then Some(j) else MatchFrom(code, base, U32(key), j + 1, |lk.pairs|);
    }
  }

  /** A laid-out `lookupswitch` jumps by the offset of the first pair whose key is the
      popped key, and by the default offset when no pair has it. */
  lemma LookupSwitchSelects(code: seq<byte>, pc: nat, ms: int, key: int, lk: Lookup)
    requires LookupAt(code, pc, ms, lk) && Int32(key)
    ensures var r := FirstMatch(lk.pairs, key, 0);
            LookupSwitchTarget(code, pc, ms, U32(key)) ==
              Addr(pc - 1 + if r.Some? then lk.pairs[r.value].1 else lk.default)
  {
    var base := pc + Pad(pc, ms);
    LookupWordSelects(code, pc, ms, key, lk);
    var r := FirstMatch(lk.pairs, key, 0);
    if r.Some? {
      var j := r.value;
      assert LookupSwitchTarget(code, pc, ms, U32(key)) == JumpVia(code, pc, base, 12 + 8 * j);
      PairJump(code, pc, ms, lk, j);
    } else {
      assert LookupSwitchTarget(code, pc, ms, U32(key)) == JumpVia(code, pc, base, 0);
      DefaultJump(code, pc, ms, lk);
    }
  }

  /** Jumping via the first word moves by the default offset. */
  lemma DefaultJump(code: seq<byte>, pc: nat, ms: int, lk: Lookup)
    requires LookupAt(code, pc, ms, lk)
    ensures JumpVia(code, pc, pc + Pad(pc, ms), 0) == Addr(pc - 1 + lk.default)
  {
    LookupWord(code, pc, ms, lk, 0, 0);
    assert LookupWords(lk)[0] == lk.default;
  }

  /** The search over a laid-out operand settles on the first pair with the key. */
  lemma LookupWordSelects(code: seq<byte>, pc: nat, ms: int, key: int, lk: Lookup)
    requires LookupAt(code, pc, ms, lk) && Int32(key)
    ensures var r := FirstMatch(lk.pairs, key, 0);
            LookupWordAt(code, pc + Pad(pc, ms), U32(key)) == if r.Some? then 12 + 8 * r.value else 0
  {
    LookupCount(code, pc, ms, lk);
    MatchFromPairs(code, pc, ms, lk, key, 0);
  }

  /** The count word of a laid-out operand survives the shift: the operand fits below 2^32
      bytes, so it has fewer than 2^29 pairs. */
  lemma LookupCount(code: seq<byte>, pc: nat, ms: int, lk: Lookup)
    requires LookupAt(code, pc, ms, lk)
    ensures PairCount(code, pc + Pad(pc, ms)) == |lk.pairs|
  {
    var n := |lk.pairs|;
    LookupWord(code, pc, ms, lk, 1, 4);
    assert LookupWords(lk)[1] == n;
    WordAt(code, pc + Pad(pc, ms), LookupWords(lk), 1 + 2 * n);
  }
}
