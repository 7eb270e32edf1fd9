/** Re-entrant monitors embedded in every class and instance header
    (`ujThreadPrvMonEnter` / `ujThreadPrvMonExit`). */
module Monitors {
  import opened Errors

  /** `numHolds` is a uint16_t. */
  const HoldsRange := 0x1_0000

  datatype MonState = MonState(holder: int, numHolds: int)

  ghost predicate MonValid(m: MonState) {
    0 <= m.numHolds < HoldsRange
  }

  /** Enter by thread `h`: refused while another thread holds it, otherwise one more hold. */
  function EnterSpec(m: MonState, h: int): (bool, MonState) {
    if m.numHolds != 0 && m.holder != h then (false, m)
    else (true, MonState(h, (m.numHolds + 1) % HoldsRange))
  }

  /** Exit by thread `h`: the result code the function computes (before its `bool` return type
      turns it into 0 or 1) and the new state. */
  function ExitSpec(m: MonState, h: int): (int, MonState) {
    if m.numHolds != 0 && m.holder == h then (ErrNone, MonState(m.holder, m.numHolds - 1))
    else (ErrMonStateErr, m)
  }

  class Monitor {
    var holder: int
    var numHolds: int

    ghost function State(): MonState
      reads this
    {
      MonState(holder, numHolds)
    }

    /** A fresh header: no holder, no holds (the allocators hand out cleared memory). */
    constructor ()
      ensures State() == MonState(0, 0)
    {
      holder := 0;
      numHolds := 0;
    }

    method Enter(h: int) returns (ok: bool)
      requires MonValid(State())
      modifies this
      ensures (ok, State()) == EnterSpec(old(State()), h)
      ensures MonValid(State())
    {
      if numHolds != 0 && holder != h {
        return false;
      }
      numHolds := (numHolds + 1) % HoldsRange;
      holder := h;
      return true;
    }

    /** Returns what the declared `bool` return type makes of the code: 0 on success, 1 on failure. */
    method Exit(h: int) returns (r: int)
      requires MonValid(State())
      modifies this
      ensures r == AsCBool(ExitSpec(old(State()), h).0)
      ensures State() == ExitSpec(old(State()), h).1
      ensures MonValid(State())
    {
      if numHolds != 0 && holder == h {
        numHolds := numHolds - 1;
        return AsCBool(ErrNone);
      }
      return AsCBool(ErrMonStateErr);
    }
  }

  /** Enter succeeds exactly when the monitor is free or already held by the caller, and
      then the caller holds it once more; a refused enter changes nothing. */
  lemma EnterIff(m: MonState, h: int)
    requires MonValid(m) && m.numHolds < HoldsRange - 1
    ensures EnterSpec(m, h).0 <==> (m.numHolds == 0 || m.holder == h)
    ensures EnterSpec(m, h).0 ==> EnterSpec(m, h).1 == MonState(h, m.numHolds + 1)
    ensures !EnterSpec(m, h).0 ==> EnterSpec(m, h).1 == m
  {
  }

  /** Exit by a non-holder, or of a free monitor, reports the monitor-state error and leaves
      the count unchanged; otherwise the count drops by one. */
  lemma ExitIff(m: MonState, h: int)
    ensures ExitSpec(m, h).0 == ErrNone <==> (m.numHolds != 0 && m.holder == h)
    ensures ExitSpec(m, h).0 != ErrNone ==> ExitSpec(m, h).0 == ErrMonStateErr && ExitSpec(m, h).1 == m
    ensures ExitSpec(m, h).0 == ErrNone ==> ExitSpec(m, h).1.numHolds == m.numHolds - 1
  {
  }

  /** `k` successive enters by `h`. */
  function EnterTimes(m: MonState, h: int, k: nat): (r: (bool, MonState))
    decreases k
  {
    if k == 0 then (true, m)
    else
      var (ok, m1) := EnterSpec(m, h);
      if !ok then (false, m1) else EnterTimes(m1, h, k - 1)
  }

  /** `k` successive exits by `h`: false as soon as one of them reports an error. */
  function ExitTimes(m: MonState, h: int, k: nat): (r: (bool, MonState))
    decreases k
  {
    if k == 0 then (true, m)
    else
      var (code, m1) := ExitSpec(m, h);
      if code != ErrNone then (false, m1) else ExitTimes(m1, h, k - 1)
  }

  /** From a state where `h` holds the monitor `n` times, `k` more enters succeed and leave
      it held `n + k` times (as long as the 16-bit counter does not wrap). */
  lemma {:induction false} EnterTimesHolds(m: MonState, h: int, k: nat)
    requires MonValid(m) && (m.numHolds == 0 || m.holder == h)
    requires m.numHolds + k < HoldsRange
    ensures EnterTimes(m, h, k) == (true, if k == 0 then m else MonState(h, m.numHolds + k))
    decreases k
  {
    if k > 0 {
      var m1 := MonState(h, m.numHolds + 1);
      assert EnterSpec(m, h) == (true, m1);
      EnterTimesHolds(m1, h, k - 1);
    }
  }

  /** While `h` holds the monitor `n > 0` times, `n` exits succeed and free it; one exit fewer
      leaves it held. */
  lemma {:induction false} ExitTimesFrees(m: MonState, h: int, k: nat)
    requires MonValid(m) && m.holder == h && k <= m.numHolds
    ensures ExitTimes(m, h, k) == (true, MonState(h, m.numHolds - k))
    decreases k
  {
    if k > 0 {
      var m1 := MonState(h, m.numHolds - 1);
      assert ExitSpec(m, h) == (ErrNone, m1);
      ExitTimesFrees(m1, h, k - 1);
    }
  }

  /** Re-entrancy: a thread that enters a free monitor `k` times must exit it exactly `k` times
      before another thread's enter is accepted; until then the other thread is refused and
      the holder's count is untouched. */
  lemma Reentrancy(h: int, other: int, k: nat, j: nat)
    requires h != other && 0 < k < HoldsRange && j <= k
    ensures var held := EnterTimes(MonState(h, 0), h, k).1;
            var after := ExitTimes(held, h, j).1;
            (j < k ==> EnterSpec(after, other) == (false, after)) &&
            (j == k ==> EnterSpec(after, other).0)
  {
    EnterTimesHolds(MonState(h, 0), h, k);
    var held := MonState(h, k);
    ExitTimesFrees(held, h, j);
  }
}
