/**
 The arithmetic core shared by every token bucket of the gateway.

 A meter watches a chronological list of calls. Each call may spend one token,
 and at some calls the bucket is recreated full. `Runs` is the constant-time
 update rule; `FitsEveryWindow` is the quadratic definition it implements:
 a call may spend iff no window ending at it would overflow.
 */
module AdmissionWindows {
  import opened Support

  ghost predicate Chronological(times: seq<real>) {
    forall i, j :: 0 <= i <= j < |times| ==> times[i] <= times[j]
  }

  /** Number of `true` entries among positions `lo .. hi - 1`. */
  function Count(flags: seq<bool>, lo: nat, hi: nat): (n: nat)
    requires lo <= hi <= |flags|
    ensures n <= hi - lo
    decreases hi
  {
    if lo == hi then 0 else Count(flags, lo, hi - 1) + if flags[hi - 1] then 1 else 0
  }

  /** Tokens regained over the time from `a` to `b`. */
  function Refill(rate: real, a: real, b: real): real {
    (b - a) * rate
  }

  lemma RefillAdds(rate: real, a: real, b: real, c: real)
    ensures Refill(rate, a, c) == Refill(rate, a, b) + Refill(rate, b, c)
  {}

  lemma RefillGrows(rate: real, a: real, b: real)
    requires rate >= 0.0 && a <= b
    ensures Refill(rate, a, b) >= 0.0
  {}

  /** What `cap + rate * elapsed` leaves for call `n` of the window opened by call `k`. */
  ghost function Room(cap: real, rate: real, times: seq<real>, spent: seq<bool>, k: nat, n: nat): real
    requires k <= n < |times| && |spent| == |times|
  {
    cap + Refill(rate, times[k], times[n]) - Count(spent, k, n) as real
  }

  /** The last call at or before `n` that started from a recreated bucket (call 0 always does). */
  ghost function Epoch(renewed: seq<bool>, n: nat): (e: nat)
    requires n < |renewed|
    ensures e <= n
    ensures forall k :: e < k <= n ==> !renewed[k]
    ensures e == 0 || renewed[e]
  {
    if n == 0 || renewed[n] then n else Epoch(renewed, n - 1)
  }

  ghost predicate FitsEveryWindow(cap: real, rate: real, times: seq<real>, spent: seq<bool>, since: nat, n: nat)
    requires since <= n < |times| && |spent| == |times|
  {
    forall k {:trigger Room(cap, rate, times, spent, k, n)} ::
      since <= k <= n ==> Room(cap, rate, times, spent, k, n) >= 1.0
  }

  /** The constant-time rule: `level[n]` is what the bucket holds when call `n` asks. */
  ghost predicate Runs(cap: real, rate: real, times: seq<real>, renewed: seq<bool>, spent: seq<bool>, level: seq<real>) {
    && |times| == |renewed| == |spent| == |level|
    && Chronological(times)
    && (forall n :: 0 <= n < |times| && (n == 0 || renewed[n]) ==> level[n] == cap)
    && (forall n :: 0 < n < |times| && !renewed[n] ==>
          level[n] == Min(cap, level[n - 1] - (if spent[n - 1] then 1.0 else 0.0) + Refill(rate, times[n - 1], times[n])))
  }

  lemma RoomStep(cap: real, rate: real, times: seq<real>, spent: seq<bool>, k: nat, n: nat)
    requires 0 < n < |times| && k < n && |spent| == |times|
    ensures Room(cap, rate, times, spent, k, n) ==
            Room(cap, rate, times, spent, k, n - 1)
            - (if spent[n - 1] then 1.0 else 0.0) + Refill(rate, times[n - 1], times[n])
  {
    RefillAdds(rate, times[k], times[n - 1], times[n]);
  }

  /** The window that opens with the call itself has room for a whole bucket. */
  lemma RoomAtOnce(cap: real, rate: real, times: seq<real>, spent: seq<bool>, n: nat)
    requires n < |times| == |spent|
    ensures Room(cap, rate, times, spent, n, n) == cap
  {
    assert times[n] - times[n] == 0.0;
  }

  /** The level is exactly the tightest window since the bucket was last created. */
  lemma {:induction false} LevelIsTightestWindow(cap: real, rate: real, times: seq<real>, renewed: seq<bool>,
                                                 spent: seq<bool>, level: seq<real>, n: nat)
    returns (k: nat)
    requires Runs(cap, rate, times, renewed, spent, level) && n < |times|
    ensures Epoch(renewed, n) <= k <= n && level[n] == Room(cap, rate, times, spent, k, n)
    ensures forall j {:trigger Room(cap, rate, times, spent, j, n)} ::
              Epoch(renewed, n) <= j <= n ==> level[n] <= Room(cap, rate, times, spent, j, n)
  {
    RoomAtOnce(cap, rate, times, spent, n);
    if n == 0 || renewed[n] {
      k := n;
    } else {
      var tight := LevelIsTightestWindow(cap, rate, times, renewed, spent, level, n - 1);
      forall j | Epoch(renewed, n) <= j < n
        ensures level[n] <= Room(cap, rate, times, spent, j, n)
      {
        RoomStep(cap, rate, times, spent, j, n);
      }
      RoomStep(cap, rate, times, spent, tight, n);
      k := if level[n] == cap then n else tight;
    }
  }

  /** Holding at least one token is the same as fitting every window. */
  lemma HoldsTokenIffFits(cap: real, rate: real, times: seq<real>, renewed: seq<bool>,
                          spent: seq<bool>, level: seq<real>, n: nat)
    requires Runs(cap, rate, times, renewed, spent, level) && n < |times|
    ensures level[n] >= 1.0 <==> FitsEveryWindow(cap, rate, times, spent, Epoch(renewed, n), n)
  {
    var k := LevelIsTightestWindow(cap, rate, times, renewed, spent, level, n);
  }

  /** Spending only when a token is held never overdraws the bucket. */
  lemma {:induction false} NeverOverdrawn(cap: real, rate: real, times: seq<real>, renewed: seq<bool>,
                                          spent: seq<bool>, level: seq<real>, n: nat)
    requires Runs(cap, rate, times, renewed, spent, level) && n < |times|
    requires cap >= 0.0 && rate >= 0.0
    requires forall m :: 0 <= m < |times| && spent[m] ==> level[m] >= 1.0
    ensures 0.0 <= level[n] <= cap
  {
    if n > 0 && !renewed[n] {
      NeverOverdrawn(cap, rate, times, renewed, spent, level, n - 1);
      RefillGrows(rate, times[n - 1], times[n]);
    }
  }

  /** One burst, one more for each recreation after call `i`, and the refill since then. */
  ghost function Allowance(cap: real, rate: real, times: seq<real>, renewed: seq<bool>, i: nat, n: nat): real
    requires i <= n < |times| && |renewed| == |times|
  {
    (Count(renewed, i + 1, n + 1) + 1) as real * cap + Refill(rate, times[i], times[n])
  }

  lemma AllowanceStep(cap: real, rate: real, times: seq<real>, renewed: seq<bool>, i: nat, n: nat)
    requires i < n < |times| && |renewed| == |times|
    ensures Allowance(cap, rate, times, renewed, i, n) ==
            Allowance(cap, rate, times, renewed, i, n - 1)
            + (if renewed[n] then cap else 0.0) + Refill(rate, times[n - 1], times[n])
  {
    var c := (Count(renewed, i + 1, n) + 1) as real;
    assert (c + 1.0) * cap == c * cap + cap;
    RefillAdds(rate, times[i], times[n - 1], times[n]);
  }

  /** One step of the rule: without a recreation, at most the refill is gained. */
  lemma LevelStep(cap: real, rate: real, times: seq<real>, renewed: seq<bool>,
                  spent: seq<bool>, level: seq<real>, n: nat)
    requires Runs(cap, rate, times, renewed, spent, level) && 0 < n < |times| && rate >= 0.0
    ensures Refill(rate, times[n - 1], times[n]) >= 0.0
    ensures if renewed[n] then level[n] == cap else
              level[n] <= level[n - 1] - (if spent[n - 1] then 1.0 else 0.0) + Refill(rate, times[n - 1], times[n])
  {
    RefillGrows(rate, times[n - 1], times[n]);
  }

  /** Tokens spent since call `i` plus those still held at call `n`. */
  lemma {:induction false} SpentPlusHeld(cap: real, rate: real, times: seq<real>, renewed: seq<bool>,
                                         spent: seq<bool>, level: seq<real>, i: nat, n: nat)
    requires Runs(cap, rate, times, renewed, spent, level) && i <= n < |times|
    requires cap >= 0.0 && rate >= 0.0
    requires forall m :: 0 <= m < |times| && spent[m] ==> level[m] >= 1.0
    ensures Count(spent, i, n) as real + level[n] <= Allowance(cap, rate, times, renewed, i, n)
    decreases n
  {
    NeverOverdrawn(cap, rate, times, renewed, spent, level, n);
    if i < n {
      SpentPlusHeld(cap, rate, times, renewed, spent, level, i, n - 1);
      NeverOverdrawn(cap, rate, times, renewed, spent, level, n - 1);
      LevelStep(cap, rate, times, renewed, spent, level, n);
      AllowanceStep(cap, rate, times, renewed, i, n);
    }
  }

  /** Over any window, each recreation of the bucket is worth at most one extra burst. */
  lemma WindowBound(cap: real, rate: real, times: seq<real>, renewed: seq<bool>,
                    spent: seq<bool>, level: seq<real>, i: nat, n: nat)
    requires Runs(cap, rate, times, renewed, spent, level) && i <= n < |times|
    requires cap >= 0.0 && rate >= 0.0
    requires forall m :: 0 <= m < |times| && spent[m] ==> level[m] >= 1.0
    ensures Count(spent, i, n + 1) as real <= Allowance(cap, rate, times, renewed, i, n)
  {
    SpentPlusHeld(cap, rate, times, renewed, spent, level, i, n);
    NeverOverdrawn(cap, rate, times, renewed, spent, level, n);
  }

  /** A window splits at any call inside it. */
  lemma {:induction false} CountSplits(flags: seq<bool>, i: nat, j: nat, n: nat)
    requires i <= j <= n <= |flags|
    ensures Count(flags, i, n) == Count(flags, i, j) + Count(flags, j, n)
    decreases n
  {
    if j < n { CountSplits(flags, i, j, n - 1); }
  }

  lemma {:induction false} CountMonotone(a: seq<bool>, b: seq<bool>, i: nat, n: nat)
    requires |a| == |b| && i <= n <= |a|
    requires forall m :: i <= m < n && a[m] ==> b[m]
    ensures Count(a, i, n) <= Count(b, i, n)
    decreases n
  {
    if i < n { CountMonotone(a, b, i, n - 1); }
  }

  /**
   Greedy spending is prefix-optimal: no other spending plan that fits every window
   admits more calls in any prefix.
   */
  lemma {:induction false} GreedyIsPrefixOptimal(cap: real, rate: real, times: seq<real>, greedy: seq<bool>,
                                                 other: seq<bool>, n: nat)
    requires |greedy| == |other| == |times| && n <= |times|
    requires forall m :: 0 <= m < |times| ==>
               (greedy[m] <==> FitsEveryWindow(cap, rate, times, greedy, 0, m))
    requires forall m :: 0 <= m < |times| && other[m] ==> FitsEveryWindow(cap, rate, times, other, 0, m)
    ensures Count(other, 0, n) <= Count(greedy, 0, n)
    decreases n
  {
    if n > 0 {
      var m := n - 1;
      GreedyIsPrefixOptimal(cap, rate, times, greedy, other, m);
      if other[m] && !greedy[m] && Count(other, 0, m) == Count(greedy, 0, m) {
        // The window that stopped the greedy plan was less used by the other one,
        // so the other one was ahead when that window opened.
        var k: nat :| k <= m && Room(cap, rate, times, greedy, k, m) < 1.0;
        assert Room(cap, rate, times, other, k, m) >= 1.0;
        CountSplits(greedy, 0, k, m);
        CountSplits(other, 0, k, m);
        GreedyIsPrefixOptimal(cap, rate, times, greedy, other, k);
        assert false;
      }
    }
  }
}
