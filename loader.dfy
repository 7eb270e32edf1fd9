/** The packed class loader of the RIOT port (`loadPackedUjcClasses`, riot/class_loader.c).
    A packed image is a run of records, each a 3-byte big-endian length followed by that
    many bytes of one compact class file, ended by a zero length. The loader counts the
    records, then passes over them again and again, handing each class not yet loaded to
    `ujLoadClass`, until a pass loads nothing new. */
module Loader {
  import opened Bytes
  import opened Errors

  // ---------------------------------------------------------------------------
  // The packed image
  // ---------------------------------------------------------------------------

  /** From `off` on, `data` holds whole records up to and including a zero length. */
  ghost predicate Packed(data: seq<byte>, off: int)
    decreases |data| - off
  {
    0 <= off && off + 3 <= |data| &&
    var n := ReadU24(data, off);
    n != 0 ==> off + 3 + n <= |data| && Packed(data, off + 3 + n)
  }

  /** The class bodies of the records from `off` on. */
  ghost function Records(data: seq<byte>, off: int): seq<seq<byte>>
    requires Packed(data, off)
    decreases |data| - off
  {
    var n := ReadU24(data, off);
    if n == 0 then [] else [data[off + 3..off + 3 + n]] + Records(data, off + 3 + n)
  }

  /** The image a packing tool writes for a list of class bodies. */
  function Pack(bodies: seq<seq<byte>>): (r: seq<byte>)
    requires forall k | 0 <= k < |bodies| :: 0 < |bodies[k]| < 0x100_0000
    ensures |r| >= 3
  {
    if bodies == [] then [0, 0, 0] else EncodeU24(|bodies[0]|) + bodies[0] + Pack(bodies[1..])
  }

  /** Reading a packed image back gives the bodies it was made from, wherever it sits. */
  lemma {:induction false} PackRecords(data: seq<byte>, off: int, bodies: seq<seq<byte>>)
    requires forall k | 0 <= k < |bodies| :: 0 < |bodies[k]| < 0x100_0000
    requires 0 <= off && off + |Pack(bodies)| <= |data| && data[off..off + |Pack(bodies)|] == Pack(bodies)
    ensures Packed(data, off) && Records(data, off) == bodies
    decreases |bodies|
  {
    if bodies == [] {
      PackEmpty(data, off);
    } else {
      var b := bodies[0];
      var next := off + 3 + |b|;
      PackHead(data, off, bodies);
      PackRecords(data, next, bodies[1..]);
      PackedCons(data, off, |b|, next);
      var head := data[off + 3..next];
      assert head == b;
      assert Records(data, off) == [head] + bodies[1..];
      assert [head] + bodies[1..] == bodies;
    }
  }

  /** The first record of a packed image and where the rest begins. */
  lemma PackHead(data: seq<byte>, off: int, bodies: seq<seq<byte>>)
    requires bodies != [] && forall k | 0 <= k < |bodies| :: 0 < |bodies[k]| < 0x100_0000
    requires 0 <= off && off + |Pack(bodies)| <= |data| && data[off..off + |Pack(bodies)|] == Pack(bodies)
    ensures var b := bodies[0]; var next := off + 3 + |b|;
      ReadU24(data, off) == |b| && next <= |data| && data[off + 3..next] == b &&
      next + |Pack(bodies[1..])| <= |data| && data[next..next + |Pack(bodies[1..])|] == Pack(bodies[1..])
  {
    var p := Pack(bodies);
    var b := bodies[0];
    var rest := Pack(bodies[1..]);
    var e := EncodeU24(|b|);
    assert p == e + b + rest;
    assert p[..3] == e && p[3..3 + |b|] == b && p[3 + |b|..] == rest;
    SubSlice(data, off, p, 0, 3);
    ReadU24Encode(data, off, |b|);
    SubSlice(data, off, p, 3, 3 + |b|);
    SubSlice(data, off, p, 3 + |b|, |p|);
  }

  lemma PackEmpty(data: seq<byte>, off: int)
    requires 0 <= off && off + 3 <= |data| && data[off..off + 3] == [0, 0, 0]
    ensures Packed(data, off) && Records(data, off) == []
  {
    ReadU24Encode(data, off, 0);
  }

  /** A non-zero length followed by its body and a packed rest is packed. */
  lemma PackedCons(data: seq<byte>, off: int, n: int, next: int)
    requires 0 <= off && ReadU24(data, off) == n && n != 0 && next == off + 3 + n && Packed(data, next)
    ensures Packed(data, off) && Records(data, off) == [data[off + 3..next]] + Records(data, next)
  {
  }


  lemma SubSlice(data: seq<byte>, off: int, p: seq<byte>, a: int, b: int)
    requires 0 <= off && off + |p| <= |data| && data[off..off + |p|] == p && 0 <= a <= b <= |p|
    ensures data[off + a..off + b] == p[a..b]
  {
    forall k | 0 <= k < b - a ensures data[off + a..off + b][k] == p[a..b][k] {
      assert data[off + a + k] == data[off..off + |p|][a + k];
    }
  }


  /** The record at `off`, the `i`-th of `recs`, is followed by the rest of them. */
  lemma RecordNext(data: seq<byte>, off: int, recs: seq<seq<byte>>, i: int)
    requires Packed(data, off) && 0 <= i < |recs| && Records(data, off) == recs[i..]
    ensures var n := ReadU24(data, off);
      n != 0 && off + 3 + n <= |data| && recs[i] == data[off + 3..off + 3 + n] &&
      Packed(data, off + 3 + n) && Records(data, off + 3 + n) == recs[i + 1..]
  {
    var n := ReadU24(data, off);
    assert Records(data, off) == [data[off + 3..off + 3 + n]] + Records(data, off + 3 + n);
    assert recs[i] == recs[i..][0];
    assert recs[i + 1..] == recs[i..][1..];
  }

  /** The length field at `off`, read as the code reads it. */
  method ReadLength(data: seq<byte>, off: int) returns (sz: int)
    requires 0 <= off && off + 3 <= |data|
    ensures sz == ReadU24(data, off)
  {
    sz := (data[off] as int) * 0x1_0000 + (data[off + 1] as int) * 0x100 + data[off + 2];
  }

  /** The counting pass: step over the records until the zero length. */
  method CountRecords(data: seq<byte>) returns (count: nat)
    requires Packed(data, 0)
    ensures count == |Records(data, 0)|
  {
    var offset := 0;
    count := 0;
    while true
      invariant Packed(data, offset) && count + |Records(data, offset)| == |Records(data, 0)|
      decreases |data| - offset
    {
      var sz := ReadLength(data, offset);
      if sz == 0 {
        break;
      }
      offset := offset + 3 + sz;
      count := count + 1;
    }
  }

  // ---------------------------------------------------------------------------
  // The loading passes
  // ---------------------------------------------------------------------------

  /** One call of `ujLoadClass`: the record it was given, whether it was handed the
      main-class out-pointer, and what it answered. */
  datatype Call = Call(index: nat, withMain: bool, result: int)

  /** The answers that do not stop the loader. */
  predicate Benign(r: int) {
    r == ErrNone || r == ErrDependencyMissing
  }

  /** How many calls in `trace` loaded record `j`. */
  function Successes(trace: seq<Call>, j: nat): (n: nat)
    ensures n <= |trace|
  {
    if trace == [] then 0
    else Successes(trace[..|trace| - 1], j) +
         (if trace[|trace| - 1].index == j && trace[|trace| - 1].result == ErrNone then 1 else 0)
  }

  lemma SuccessesAppend(trace: seq<Call>, c: Call, j: nat)
    ensures Successes(trace + [c], j) == Successes(trace, j) + (if c.index == j && c.result == ErrNone then 1 else 0)
  {
    assert (trace + [c])[..|trace|] == trace;
  }

  function NumTrue(s: seq<bool>): (n: nat)
    ensures n <= |s|
  {
    if s == [] then 0 else NumTrue(s[..|s| - 1]) + (if s[|s| - 1] then 1 else 0)
  }

  lemma {:induction false} NumTrueSet(s: seq<bool>, i: int)
    requires 0 <= i < |s| && !s[i]
    ensures NumTrue(s[i := true]) == NumTrue(s) + 1
    decreases |s|
  {
    var t := s[i := true];
    if i < |s| - 1 {
      assert t[..|t| - 1] == s[..|s| - 1][i := true];
      NumTrueSet(s[..|s| - 1], i);
    } else {
      assert t[..|t| - 1] == s[..|s| - 1];
    }
  }

  /** What the calls of a run have in common: each names a record, only record 0 gets the
      main-class pointer, and a record counts as loaded exactly when one call loaded it. */
  ghost predicate TraceOk(trace: seq<Call>, flags: seq<bool>) {
    (forall k | 0 <= k < |trace| :: trace[k].index < |flags| && (trace[k].withMain <==> trace[k].index == 0)) &&
    (forall j | 0 <= j < |flags| :: Successes(trace, j) == if flags[j] then 1 else 0)
  }

  /** One record of a pass that is not loaded yet: it goes to `ujLoadClass`, with the
      main-class pointer only for record 0, and the answer is appended to the trace. */
  method TryRecord(flags: array<bool>, i: nat, body: seq<byte>, load: (seq<byte>, bool, seq<bool>) -> int, trace: seq<Call>)
    returns (res: int, trace': seq<Call>)
    requires i < flags.Length && !flags[i] && TraceOk(trace, flags[..])
    modifies flags
    ensures TraceOk(trace', flags[..])
    ensures res == load(body, i == 0, old(flags[..])) && trace' == trace + [Call(i, i == 0, res)]
    ensures flags[..] == if res == ErrNone then old(flags[..])[i := true] else old(flags[..])
  {
    res := load(body, i == 0, flags[..]);
    trace' := trace + [Call(i, i == 0, res)];
    forall j | 0 <= j < flags.Length {
      SuccessesAppend(trace, Call(i, i == 0, res), j);
    }
    if res == ErrNone {
      flags[i] := true;
    }
  }

  /** The state of a pass before record `i`, which starts at `offset`: the trace is in
      order and free of fatal answers; if nothing was loaded yet in this pass the flags
      are those the pass began with and every unloaded record before `i` reported a missing
      dependency against them, otherwise more records are loaded than at its start. */
  ghost predicate PassInv(data: seq<byte>, load: (seq<byte>, bool, seq<bool>) -> int, before: seq<bool>, flags: seq<bool>,
                          trace: seq<Call>, i: int, offset: int, done: bool)
  {
    Packed(data, 0) && |before| == |flags| == |Records(data, 0)| &&
    0 <= i <= |flags| && Packed(data, offset) && Records(data, offset) == Records(data, 0)[i..] &&
    TraceOk(trace, flags) && (forall k | 0 <= k < |trace| :: Benign(trace[k].result)) &&
    (if done then NumTrue(flags) > NumTrue(before) else flags == before) &&
    (!done ==> forall j | 0 <= j < i && !before[j] :: load(Records(data, 0)[j], j == 0, before) == ErrDependencyMissing)
  }

  /** Record `i` of a pass: skipped when loaded, otherwise handed to `ujLoadClass`; the
      cursor moves past the record. A fatal answer is returned with the trace ending in it. */
  method Visit(data: seq<byte>, load: (seq<byte>, bool, seq<bool>) -> int, flags: array<bool>, trace: seq<Call>,
               i: int, offset: int, done: bool, ghost before: seq<bool>)
    returns (res: int, done': bool, trace': seq<Call>, offset': int)
    requires PassInv(data, load, before, flags[..], trace, i, offset, done) && i < flags.Length
    modifies flags
    ensures TraceOk(trace', flags[..]) && |trace'| >= |trace|
    ensures Benign(res) ==> PassInv(data, load, before, flags[..], trace', i + 1, offset', done')
    ensures !Benign(res) ==>
      trace' != [] && trace'[|trace'| - 1].result == res && (forall k | 0 <= k < |trace'| - 1 :: Benign(trace'[k].result)) &&
      done' == done && (if done then NumTrue(flags[..]) > NumTrue(before) else flags[..] == before)
  {
    var sz := ReadLength(data, offset);
    RecordNext(data, offset, Records(data, 0), i);
    var body := data[offset + 3..offset + 3 + sz];
    offset' := offset + 3 + sz;
    ghost var prev := flags[..];
    if flags[i] {
      done', trace', res := done, trace, ErrNone;
      SkipStep(data, load, before, prev, trace, i, offset, done);
    } else {
      res, trace' := TryRecord(flags, i, body, load, trace);
      done' := done || res == ErrNone;
      TryStep(data, load, before, prev, flags[..], trace, trace', i, offset, sz, done, res);
    }
  }

  /** Skipping a loaded record keeps the state of the pass. */
  lemma SkipStep(data: seq<byte>, load: (seq<byte>, bool, seq<bool>) -> int, before: seq<bool>, flags: seq<bool>,
                 trace: seq<Call>, i: int, offset: int, done: bool)
    requires PassInv(data, load, before, flags, trace, i, offset, done) && i < |flags| && flags[i]
    ensures var n := ReadU24(data, offset); PassInv(data, load, before, flags, trace, i + 1, offset + 3 + n, done)
  {
    RecordNext(data, offset, Records(data, 0), i);
  }

  /** Trying an unloaded record: a success loads it and marks progress, a missing
      dependency is remembered against the flags of the pass. */
  lemma TryStep(data: seq<byte>, load: (seq<byte>, bool, seq<bool>) -> int, before: seq<bool>, flags: seq<bool>,
                flags': seq<bool>, trace: seq<Call>, trace': seq<Call>, i: int, offset: int, n: int, done: bool, res: int)
    requires PassInv(data, load, before, flags, trace, i, offset, done) && i < |flags| && !flags[i]
    requires n == ReadU24(data, offset) && 0 < n && offset + 3 + n <= |data|
    requires res == load(data[offset + 3..offset + 3 + n], i == 0, flags) && trace' == trace + [Call(i, i == 0, res)]
    requires flags' == (if res == ErrNone then flags[i := true] else flags) && TraceOk(trace', flags')
    ensures Benign(res) ==> PassInv(data, load, before, flags', trace', i + 1, offset + 3 + n, done || res == ErrNone)
    ensures !Benign(res) ==>
      trace'[|trace'| - 1].result == res && (forall k | 0 <= k < |trace'| - 1 :: Benign(trace'[k].result)) &&
      flags' == flags && (if done then NumTrue(flags') > NumTrue(before) else flags' == before)
  {
    RecordNext(data, offset, Records(data, 0), i);
    if res == ErrNone {
      NumTrueSet(flags, i);
    }
  }


  /** One pass over the records, skipping those already loaded. It stops at the first
      answer other than success or a missing dependency and returns it; otherwise it
      returns success, with `done` set exactly when it loaded something. A pass that loads
      nothing leaves every unloaded record reporting a missing dependency. */
  method Pass(data: seq<byte>, load: (seq<byte>, bool, seq<bool>) -> int, flags: array<bool>, trace: seq<Call>)
    returns (res: int, done: bool, trace': seq<Call>)
    requires Packed(data, 0) && flags.Length == |Records(data, 0)| && TraceOk(trace, flags[..])
    requires forall k | 0 <= k < |trace| :: Benign(trace[k].result)
    modifies flags
    ensures TraceOk(trace', flags[..]) && |trace'| >= |trace|
    ensures forall k | 0 <= k < |trace'| - 1 :: Benign(trace'[k].result)
    ensures !Benign(res) ==> trace' != [] && trace'[|trace'| - 1].result == res
    ensures Benign(res) ==> res == ErrNone && forall k | 0 <= k < |trace'| :: Benign(trace'[k].result)
    ensures if done then NumTrue(flags[..]) > NumTrue(old(flags[..])) else flags[..] == old(flags[..])
    ensures Benign(res) && !done ==>
      forall j | 0 <= j < flags.Length && !flags[j] :: load(Records(data, 0)[j], j == 0, flags[..]) == ErrDependencyMissing
  {
    ghost var before := flags[..];
    done := false;
    trace' := trace;
    var i := 0;
    var offset := 0;
    while i < flags.Length
      invariant PassInv(data, load, before, flags[..], trace', i, offset, done) && |trace'| >= |trace|
      decreases flags.Length - i
    {
      res, done, trace', offset := Visit(data, load, flags, trace', i, offset, done, before);
      if !Benign(res) {
        return;
      }
      i := i + 1;
    }
    res := ErrNone;
  }

  /** The final check: is every record loaded? */
  method AllLoaded(flags: array<bool>) returns (all: bool)
    ensures all <==> forall j | 0 <= j < flags.Length :: flags[j]
  {
    var i := 0;
    while i < flags.Length
      invariant 0 <= i <= flags.Length && forall j | 0 <= j < i :: flags[j]
      decreases flags.Length - i
    {
      if !flags[i] {
        return false;
      }
      i := i + 1;
    }
    return true;
  }

  /** `loadPackedUjcClasses`. `load` stands for `ujLoadClass`: its answer depends on the
      class body, on whether it is handed the main-class pointer (record 0 only) and on
      which records are already loaded. The result is the first answer
      other than success or a missing dependency, if `ujLoadClass` ever gives one; otherwise
      success exactly when every record got loaded, and a missing dependency when some did
      not, in which case every record still unloaded reports a missing dependency against
      the final state. At most one pass more than there are records runs. */
  method LoadPacked(data: seq<byte>, load: (seq<byte>, bool, seq<bool>) -> int)
    returns (ret: int, loaded: seq<bool>, trace: seq<Call>, passes: nat)
    requires Packed(data, 0)
    ensures |loaded| == |Records(data, 0)| && TraceOk(trace, loaded)
    ensures passes <= |loaded| + 1
    ensures forall k | 0 <= k < |trace| - 1 :: Benign(trace[k].result)
    ensures !Benign(ret) ==> trace != [] && trace[|trace| - 1].result == ret
    ensures Benign(ret) ==>
      (forall k | 0 <= k < |trace| :: Benign(trace[k].result)) &&
      (ret == ErrNone <==> forall j | 0 <= j < |loaded| :: loaded[j]) &&
      (forall j | 0 <= j < |loaded| && !loaded[j] :: load(Records(data, 0)[j], j == 0, loaded) == ErrDependencyMissing)
  {
    var count := CountRecords(data);
    var flags := new bool[count](_ => false);
    assert flags[..] == seq(count, _ => false);
    NumTrueNone(count);
    trace := [];
    passes := 0;
    var done := true;
    while done
      invariant flags.Length == count == |Records(data, 0)| && TraceOk(trace, flags[..])
      invariant forall k | 0 <= k < |trace| :: Benign(trace[k].result)
      invariant passes <= NumTrue(flags[..]) + (if done then 0 else 1)
      invariant !done ==>
        forall j | 0 <= j < count && !flags[j] :: load(Records(data, 0)[j], j == 0, flags[..]) == ErrDependencyMissing
      decreases count - NumTrue(flags[..]) + (if done then 1 else 0)
    {
      passes := passes + 1;
      var res;
      res, done, trace := Pass(data, load, flags, trace);
      if res != ErrNone {
        return res, flags[..], trace, passes;
      }
    }
    loaded := flags[..];
    var all := AllLoaded(flags);
    assert forall j | 0 <= j < |loaded| :: loaded[j] == flags[j];
    ret := if all then ErrNone else ErrDependencyMissing;
  }

  lemma NumTrueNone(n: nat)
    ensures NumTrue(seq(n, _ => false)) == 0
  {
    if n > 0 {
      assert seq(n, _ => false)[..n - 1] == seq(n - 1, _ => false);
      NumTrueNone(n - 1);
    }
  }
}
