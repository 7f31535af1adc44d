/**
 The reload throttle: which ranges of pulses were requested recently.

 Expired entries are removed by swapping in the last entry while a range loop
 runs over the original length, so one pass can leave expired entries behind.
 */
module MissedData {
  import opened Common

  datatype Missed = Missed(ts: int, from: int, to: int)

  predicate Contains(m: Missed, from: int, to: int) {
    m.from <= from && m.to >= to
  }

  predicate Known(pool: seq<Missed>, from: int, to: int) {
    exists i :: 0 <= i < |pool| && Contains(pool[i], from, to)
  }

  /** Some entry's range holds the whole range asked for. */
  ghost predicate Covered(pool: seq<Missed>, from: int, to: int) {
    exists i :: 0 <= i < |pool| && pool[i].from <= from && to <= pool[i].to
  }

  lemma KnownIsCovered(pool: seq<Missed>, from: int, to: int)
    ensures Known(pool, from, to) <==> Covered(pool, from, to)
  {
    if Covered(pool, from, to) {
      var i :| 0 <= i < |pool| && pool[i].from <= from && to <= pool[i].to;
      assert Contains(pool[i], from, to);
    }
  }

  predicate Expired(ttl: int, now: int, m: Missed) {
    now - m.ts > ttl
  }

  /** The i-th iteration reads the clock as `clock(i)`. */
  type Clock = nat -> int

  function SwapRemove(pool: seq<Missed>, i: nat): (rest: seq<Missed>)
    requires i < |pool|
    ensures |rest| == |pool| - 1
  {
    pool[i := pool[|pool| - 1]][..|pool| - 1]
  }

  /** The pool after iterations i, i + 1, ... of the removal loop. */
  function Sweep(pool: seq<Missed>, i: nat, ttl: int, clock: Clock): seq<Missed>
    decreases |pool| - i
  {
    if i >= |pool| then pool
    else if Expired(ttl, clock(i), pool[i]) then Sweep(SwapRemove(pool, i), i + 1, ttl, clock)
    else Sweep(pool, i + 1, ttl, clock)
  }

  class MissedDataManager {
    const ttl: int
    var data: array<Missed>
    var len: nat

    ghost predicate Valid()
      reads this
    {
      len <= data.Length
    }

    ghost function Pool(): seq<Missed>
      requires Valid()
      reads this, data
    {
      data[..len]
    }

    constructor (ttl: int)
      ensures Valid() && Pool() == [] && this.ttl == ttl && fresh(data)
    {
      this.ttl := ttl;
      data := new Missed[0];
      len := 0;
    }

    method Add(now: int, from: int, to: int) returns (added: bool)
      requires Valid()
      modifies this, data
      ensures Valid() && (data == old(data) || fresh(data))
      ensures added <==> !Known(old(Pool()), from, to)
      ensures added <==> !Covered(old(Pool()), from, to)
      ensures Pool() == if added then old(Pool()) + [Missed(now, from, to)] else old(Pool())
      ensures forall s: State :: s.pool == old(Pool()) ==>
        Step(s, ttl, Request(now, from, to)) ==
          State(Pool(), if added then s.accepted + [Missed(now, from, to)] else s.accepted, now)
    {
      KnownIsCovered(Pool(), from, to);
      for i := 0 to len
        invariant forall k :: 0 <= k < i ==> !Contains(data[k], from, to)
      {
        if Contains(data[i], from, to) {
          assert Contains(Pool()[i], from, to);
          return false;
        }
      }
      assert !Known(Pool(), from, to);
      ghost var before := Pool();
      if len == data.Length {
        var full := data;
        var more := new Missed[2 * len + 1];
        forall k | 0 <= k < len {
          more[k] := full[k];
        }
        data := more;
      }
      assert data[..len] == before;
      data[len] := Missed(now, from, to);
      len := len + 1;
      assert data[..len] == data[..len - 1] + [data[len - 1]];
      return true;
    }

    method DeleteExpired(clock: Clock)
      requires Valid()
      modifies this`len, data
      ensures Valid() && Pool() == Sweep(old(Pool()), 0, ttl, clock)
      ensures forall s: State, end: int :: s.pool == old(Pool()) ==>
        Step(s, ttl, Clean(clock, end)) == State(Pool(), s.accepted, end)
    {
      var n := len;
      ghost var start := Pool();
      for i := 0 to n
        invariant len <= n <= data.Length
        invariant Sweep(start, 0, ttl, clock) == Sweep(Pool(), i, ttl, clock)
      {
        var missed := data[i];
        if i < len && Expired(ttl, clock(i), missed) {
          ghost var before := Pool();
          data[i] := data[len - 1];
          data[len - 1] := Missed(0, 0, 0);
          len := len - 1;
          assert Pool() == SwapRemove(before, i);
        }
      }
    }
  }

  // ---------------------------------------------------------------------
  // What one pass does
  // ---------------------------------------------------------------------

  lemma SwapRemoveMultiset(pool: seq<Missed>, i: nat)
    requires i < |pool|
    ensures multiset(SwapRemove(pool, i)) == multiset(pool) - multiset{pool[i]}
  {
    var n := |pool| - 1;
    var swapped := pool[i := pool[n]];
    assert pool == pool[..n] + [pool[n]];
    if i == n {
      assert SwapRemove(pool, i) == pool[..n];
    } else {
      assert SwapRemove(pool, i) == pool[..n][i := pool[n]];
      assert multiset(pool[..n][i := pool[n]]) == multiset(pool[..n]) - multiset{pool[i]} + multiset{pool[n]};
    }
  }

  /** A pass invents nothing. */
  lemma {:induction false} SweepShrinks(pool: seq<Missed>, i: nat, ttl: int, clock: Clock)
    ensures multiset(Sweep(pool, i, ttl, clock)) <= multiset(pool)
    decreases |pool| - i
  {
    if i < |pool| {
      if Expired(ttl, clock(i), pool[i]) {
        SwapRemoveMultiset(pool, i);
        SweepShrinks(SwapRemove(pool, i), i + 1, ttl, clock);
      } else {
        SweepShrinks(pool, i + 1, ttl, clock);
      }
    }
  }

  /** A pass loses only entries that were expired when it ended. */
  lemma {:induction false} SweepLosesExpired(pool: seq<Missed>, i: nat, ttl: int, clock: Clock, end: int, m: Missed)
    requires (forall k :: clock(k) <= end) && !Expired(ttl, end, m)
    ensures multiset(Sweep(pool, i, ttl, clock))[m] == multiset(pool)[m]
    decreases |pool| - i
  {
    if i < |pool| {
      if Expired(ttl, clock(i), pool[i]) {
        SwapRemoveMultiset(pool, i);
        SweepLosesExpired(SwapRemove(pool, i), i + 1, ttl, clock, end, m);
      } else {
        SweepLosesExpired(pool, i + 1, ttl, clock, end, m);
      }
    }
  }

  // ---------------------------------------------------------------------
  // How many passes are needed
  // ---------------------------------------------------------------------

  function Pass(pool: seq<Missed>, ttl: int, now: int): seq<Missed> {
    Sweep(pool, 0, ttl, _ => now)
  }

  function Count(pool: seq<Missed>, ttl: int, now: int): nat {
    if pool == [] then 0 else
      Count(pool[..|pool| - 1], ttl, now) + if Expired(ttl, now, pool[|pool| - 1]) then 1 else 0
  }

  lemma CountSnoc(pool: seq<Missed>, m: Missed, ttl: int, now: int)
    ensures Count(pool + [m], ttl, now) == Count(pool, ttl, now) + if Expired(ttl, now, m) then 1 else 0
  {
    assert (pool + [m])[..|pool|] == pool;
  }

  lemma {:induction false} CountUpdate(pool: seq<Missed>, i: nat, m: Missed, ttl: int, now: int)
    requires i < |pool| && Expired(ttl, now, pool[i])
    ensures Count(pool[i := m], ttl, now) == Count(pool, ttl, now) - 1 + if Expired(ttl, now, m) then 1 else 0
  {
    var n := |pool| - 1;
    if i == n {
      assert pool[i := m][..n] == pool[..n];
    } else {
      assert pool[i := m][..n] == pool[..n][i := m];
      CountUpdate(pool[..n], i, m, ttl, now);
    }
  }

  lemma SwapRemoveCount(pool: seq<Missed>, i: nat, ttl: int, now: int)
    requires i < |pool| && Expired(ttl, now, pool[i])
    ensures Count(SwapRemove(pool, i), ttl, now) == Count(pool, ttl, now) - 1
  {
    var n := |pool| - 1;
    if i == n {
      assert SwapRemove(pool, i) == pool[..n];
    } else {
      assert SwapRemove(pool, i) == pool[..n][i := pool[n]];
      CountUpdate(pool[..n], i, pool[n], ttl, now);
    }
  }

  lemma SwapRemovePrefix(pool: seq<Missed>, i: nat, ttl: int, now: int)
    requires i < |pool| - 1
    ensures Count(SwapRemove(pool, i)[..i + 1], ttl, now) <= Count(pool[..i], ttl, now) + 1
  {
    assert SwapRemove(pool, i)[..i + 1] == pool[..i] + [pool[|pool| - 1]];
    CountSnoc(pool[..i], pool[|pool| - 1], ttl, now);
  }

  /** Each removal takes one expired entry and may leave one behind. */
  lemma {:induction false} SweepCount(pool: seq<Missed>, i: nat, ttl: int, now: int)
    requires i <= |pool|
    ensures var after := Sweep(pool, i, ttl, _ => now);
      && |after| <= |pool|
      && Count(after, ttl, now) + (|pool| - |after|) == Count(pool, ttl, now)
      && Count(after, ttl, now) <= Count(pool[..i], ttl, now) + (|pool| - |after|)
    decreases |pool| - i
  {
    if i == |pool| {
      assert pool[..i] == pool;
    } else if Expired(ttl, now, pool[i]) {
      var rest := SwapRemove(pool, i);
      SwapRemoveCount(pool, i, ttl, now);
      if i < |rest| {
        SwapRemovePrefix(pool, i, ttl, now);
        SweepCount(rest, i + 1, ttl, now);
      } else {
        assert rest == pool[..i];
      }
    } else {
      assert pool[..i + 1] == pool[..i] + [pool[i]];
      CountSnoc(pool[..i], pool[i], ttl, now);
      SweepCount(pool, i + 1, ttl, now);
    }
  }

  /** One pass at a fixed time leaves at most half of the expired entries. */
  lemma PassHalves(pool: seq<Missed>, ttl: int, now: int)
    ensures 2 * Count(Pass(pool, ttl, now), ttl, now) <= Count(pool, ttl, now)
  {
    SweepCount(pool, 0, ttl, now);
  }

  function Passes(pool: seq<Missed>, ttl: int, now: int, p: nat): seq<Missed>
    decreases p
  {
    if p == 0 then pool else Passes(Pass(pool, ttl, now), ttl, now, p - 1)
  }

  lemma PassKeeps(pool: seq<Missed>, ttl: int, now: int, m: Missed)
    requires !Expired(ttl, now, m)
    ensures multiset(Pass(pool, ttl, now))[m] == multiset(pool)[m]
  {
    SweepLosesExpired(pool, 0, ttl, _ => now, now, m);
  }

  /**
   With fewer than 2^p expired entries, p passes at the same time leave
   exactly the entries that are at most ttl old.
   */
  lemma {:induction false} PassesClean(pool: seq<Missed>, ttl: int, now: int, p: nat, m: Missed)
    requires Count(pool, ttl, now) < Pow2(p)
    ensures Count(Passes(pool, ttl, now, p), ttl, now) == 0
    ensures multiset(Passes(pool, ttl, now, p))[m] == if now - m.ts > ttl then 0 else multiset(pool)[m]
    decreases p
  {
    if p > 0 {
      PassHalves(pool, ttl, now);
      PassesClean(Pass(pool, ttl, now), ttl, now, p - 1, m);
      if !Expired(ttl, now, m) {
        PassKeeps(pool, ttl, now, m);
      }
    } else {
      NoneExpired(pool, ttl, now, m);
    }
  }

  lemma {:induction false} NoneExpired(pool: seq<Missed>, ttl: int, now: int, m: Missed)
    requires Count(pool, ttl, now) == 0
    ensures m in multiset(pool) ==> now - m.ts <= ttl
  {
    if pool != [] {
      var n := |pool| - 1;
      NoneExpired(pool[..n], ttl, now, m);
      assert pool == pool[..n] + [pool[n]];
    }
  }

  /** Two expired entries: one pass is not enough. */
  lemma OnePassLeavesExpired(m: Missed, ttl: int, now: int)
    requires Expired(ttl, now, m)
    ensures Pass([m, m], ttl, now) == [m] && Count([m, m], ttl, now) == 2
  {
    CountSnoc([], m, ttl, now);
    CountSnoc([m], m, ttl, now);
    assert [] + [m] == [m] && [m] + [m] == [m, m];
    assert SwapRemove([m, m], 0) == [m];
    var clock: Clock := _ => now;
    assert Sweep([m], 1, ttl, clock) == [m];
    assert Sweep([m, m], 0, ttl, clock) == [m];
  }

  // ---------------------------------------------------------------------
  // When one pass is enough
  // ---------------------------------------------------------------------

  predicate FreshFrom(pool: seq<Missed>, from: int, ttl: int, now: int) {
    forall i :: 0 <= i < |pool| && from <= i ==> !Expired(ttl, now, pool[i])
  }

  lemma {:induction false} CountPrefix(pool: seq<Missed>, i: nat, ttl: int, now: int)
    requires i <= |pool|
    ensures Count(pool[..i], ttl, now) <= Count(pool, ttl, now) <= Count(pool[..i], ttl, now) + |pool| - i
  {
    if i == |pool| {
      assert pool[..i] == pool;
    } else {
      var n := |pool| - 1;
      CountPrefix(pool[..n], i, ttl, now);
      assert pool[..n][..i] == pool[..i];
    }
  }

  /** What the pass has gone over stays. */
  lemma {:induction false} SweepKeepsPrefix(pool: seq<Missed>, i: nat, ttl: int, now: int)
    requires i <= |pool|
    ensures Count(pool[..i], ttl, now) <= Count(Sweep(pool, i, ttl, _ => now), ttl, now)
    decreases |pool| - i
  {
    if i == |pool| {
      assert pool[..i] == pool;
    } else {
      var rest := if Expired(ttl, now, pool[i]) then SwapRemove(pool, i) else pool;
      if i < |rest| {
        SweepKeepsPrefix(rest, i + 1, ttl, now);
        CountPrefix(rest[..i + 1], i, ttl, now);
        assert rest[..i + 1][..i] == pool[..i];
      } else {
        assert rest == pool[..i];
      }
    }
  }

  /** An expired entry moved down from the end survives the pass. */
  lemma LastExpired(pool: seq<Missed>, i: nat, ttl: int, now: int)
    requires i < |pool| - 1 && Expired(ttl, now, pool[i]) && Expired(ttl, now, pool[|pool| - 1])
    ensures Count(Sweep(SwapRemove(pool, i), i + 1, ttl, _ => now), ttl, now) > 0
    ensures Count(pool, ttl, now) >= 2
  {
    var rest := SwapRemove(pool, i);
    SweepKeepsPrefix(rest, i + 1, ttl, now);
    CountSnoc(pool[..i], rest[i], ttl, now);
    assert rest[..i + 1] == pool[..i] + [rest[i]];
    CountPrefix(rest, i + 1, ttl, now);
    SwapRemoveCount(pool, i, ttl, now);
  }

  /** A fresh entry moved down takes part in no later check. */
  lemma LastFresh(pool: seq<Missed>, i: nat, from: int, ttl: int, now: int)
    requires i < |pool| - 1 && i < from && !Expired(ttl, now, pool[|pool| - 1])
    ensures FreshFrom(SwapRemove(pool, i), from, ttl, now) <==> FreshFrom(pool, from, ttl, now)
  {
    var rest := SwapRemove(pool, i);
    assert forall k :: 0 <= k < |rest| && k != i ==> rest[k] == pool[k];
    if FreshFrom(rest, from, ttl, now) {
      forall k | 0 <= k < |pool| && from <= k ensures !Expired(ttl, now, pool[k]) {
        assert k < |rest| ==> rest[k] == pool[k];
      }
    }
  }

  lemma {:induction false} SweepCleans(pool: seq<Missed>, i: nat, ttl: int, now: int)
    requires i <= |pool| && Count(pool[..i], ttl, now) == 0
    ensures Count(Sweep(pool, i, ttl, _ => now), ttl, now) == 0 <==>
      FreshFrom(pool, |pool| - Count(pool, ttl, now) + 1, ttl, now)
    decreases |pool| - i
  {
    CountPrefix(pool, i, ttl, now);
    if i == |pool| {
      assert pool[..i] == pool;
    } else if !Expired(ttl, now, pool[i]) {
      assert pool[..i + 1] == pool[..i] + [pool[i]];
      CountSnoc(pool[..i], pool[i], ttl, now);
      SweepCleans(pool, i + 1, ttl, now);
    } else {
      var rest := SwapRemove(pool, i);
      SwapRemoveCount(pool, i, ttl, now);
      if i == |rest| {
        assert rest == pool[..i];
      } else if Expired(ttl, now, pool[|rest|]) {
        LastExpired(pool, i, ttl, now);
      } else {
        CountSnoc(pool[..i], rest[i], ttl, now);
        assert rest[..i + 1] == pool[..i] + [rest[i]];
        SweepCleans(rest, i + 1, ttl, now);
        LastFresh(pool, i, |pool| - Count(pool, ttl, now) + 1, ttl, now);
      }
    }
  }

  /**
   One pass removes every expired entry exactly when, with e of them in the
   pool, none is among its last e - 1 entries.
   */
  lemma OnePassSuffices(pool: seq<Missed>, ttl: int, now: int)
    ensures Count(Pass(pool, ttl, now), ttl, now) == 0 <==>
      forall i :: 0 <= i < |pool| && |pool| - Count(pool, ttl, now) < i ==> !Expired(ttl, now, pool[i])
  {
    SweepCleans(pool, 0, ttl, now);
    assert FreshFrom(pool, |pool| - Count(pool, ttl, now) + 1, ttl, now) <==>
      forall i :: 0 <= i < |pool| && |pool| - Count(pool, ttl, now) < i ==> !Expired(ttl, now, pool[i]);
  }

  // ---------------------------------------------------------------------
  // The throttle over whole runs
  // ---------------------------------------------------------------------

  datatype Event = Request(now: int, from: int, to: int) | Clean(clock: Clock, end: int)

  /** `accepted` lists the accepted requests in order. */
  datatype State = State(pool: seq<Missed>, accepted: seq<Missed>, now: int)

  function Step(s: State, ttl: int, e: Event): State {
    match e
    case Request(now, from, to) =>
      if Known(s.pool, from, to) then s.(now := now)
      else State(s.pool + [Missed(now, from, to)], s.accepted + [Missed(now, from, to)], now)
    case Clean(clock, end) => s.(pool := Sweep(s.pool, 0, ttl, clock), now := end)
  }

  /** The clock never runs backwards. */
  ghost predicate Timely(s: State, e: Event) {
    match e
    case Request(now, _, _) => s.now <= now
    case Clean(clock, end) => s.now <= end && forall k :: clock(k) <= end
  }

  ghost predicate Run(states: seq<State>, events: seq<Event>, ttl: int) {
    && |states| == |events| + 1 && states[0].pool == [] && states[0].accepted == []
    && forall i :: 0 <= i < |events| ==>
         Timely(states[i], events[i]) && states[i + 1] == Step(states[i], ttl, events[i])
  }

  /** An accepted request is still in the pool, or already expired. */
  ghost predicate Remembered(s: State, ttl: int) {
    forall h :: h in s.accepted ==> h in s.pool || Expired(ttl, s.now, h)
  }

  ghost predicate Throttled(accepted: seq<Missed>, ttl: int) {
    forall i, j :: 0 <= i < j < |accepted| && Contains(accepted[i], accepted[j].from, accepted[j].to) ==>
      accepted[j].ts - accepted[i].ts > ttl
  }

  lemma StepThrottled(s: State, ttl: int, e: Event)
    requires Remembered(s, ttl) && Throttled(s.accepted, ttl) && Timely(s, e)
    ensures Remembered(Step(s, ttl, e), ttl) && Throttled(Step(s, ttl, e).accepted, ttl)
  {
    var after := Step(s, ttl, e);
    match e
    case Request(now, from, to) =>
      if !Known(s.pool, from, to) {
        forall i, j | 0 <= i < j < |after.accepted| &&
            Contains(after.accepted[i], after.accepted[j].from, after.accepted[j].to)
          ensures after.accepted[j].ts - after.accepted[i].ts > ttl
        {
          assert after.accepted[i] == s.accepted[i] && s.accepted[i] in s.accepted;
        }
      }
    case Clean(clock, end) =>
      forall h | h in after.accepted ensures h in after.pool || Expired(ttl, after.now, h) {
        if !Expired(ttl, end, h) {
          SweepLosesExpired(s.pool, 0, ttl, clock, end, h);
          assert h in multiset(s.pool);
          assert h in multiset(after.pool);
        }
      }
  }

  lemma {:induction false} RunRemembers(states: seq<State>, events: seq<Event>, ttl: int, i: nat)
    requires Run(states, events, ttl) && i < |states|
    ensures Remembered(states[i], ttl) && Throttled(states[i].accepted, ttl)
  {
    if i > 0 {
      RunRemembers(states, events, ttl, i - 1);
      StepThrottled(states[i - 1], ttl, events[i - 1]);
    }
  }

  /** A reload inside an already requested range is never issued within ttl. */
  lemma NeverWithinTtl(states: seq<State>, events: seq<Event>, ttl: int, i: nat, j: nat)
    requires Run(states, events, ttl)
    requires var h := states[|events|].accepted;
      i < j < |h| && Contains(h[i], h[j].from, h[j].to)
    ensures var h := states[|events|].accepted; h[j].ts - h[i].ts > ttl
  {
    RunRemembers(states, events, ttl, |events|);
  }

  // ---------------------------------------------------------------------
  // Forgotten ranges are requested again
  // ---------------------------------------------------------------------

  ghost predicate PassAt(e: Event, now: int) {
    e.Clean? && forall k :: e.clock(k) == now
  }

  lemma {:induction false} SweepAt(pool: seq<Missed>, i: nat, ttl: int, clock: Clock, now: int)
    requires forall k :: clock(k) == now
    ensures Sweep(pool, i, ttl, clock) == Sweep(pool, i, ttl, _ => now)
    decreases |pool| - i
  {
    if i < |pool| {
      SweepAt(if Expired(ttl, now, pool[i]) then SwapRemove(pool, i) else pool, i + 1, ttl, clock, now);
    }
  }

  lemma {:induction false} RunPasses(states: seq<State>, events: seq<Event>, ttl: int, now: int, k: nat, p: nat)
    requires Run(states, events, ttl) && k + p <= |events|
    requires forall i :: k <= i < k + p ==> PassAt(events[i], now)
    ensures states[k + p].pool == Passes(states[k].pool, ttl, now, p)
    ensures states[k + p].accepted == states[k].accepted
    decreases p
  {
    if p > 0 {
      SweepAt(states[k].pool, 0, ttl, events[k].clock, now);
      RunPasses(states, events, ttl, now, k + 1, p - 1);
    }
  }

  lemma {:induction false} PoolAccepted(states: seq<State>, events: seq<Event>, ttl: int, i: nat, m: Missed)
    requires Run(states, events, ttl) && i < |states| && m in multiset(states[i].pool)
    ensures m in states[i].accepted
  {
    if i > 0 {
      var before, e := states[i - 1], events[i - 1];
      if e.Clean? {
        SweepShrinks(before.pool, 0, ttl, e.clock);
      }
      if m in multiset(before.pool) {
        PoolAccepted(states, events, ttl, i - 1, m);
      }
    }
  }

  lemma {:induction false} CountBound(pool: seq<Missed>, ttl: int, now: int)
    ensures Count(pool, ttl, now) <= |pool|
  {
    if pool != [] {
      CountBound(pool[..|pool| - 1], ttl, now);
    }
  }

  /**
   In every run: after enough passes at a time when each accepted range that
   holds the range asked for is more than ttl old, the request is accepted.
   */
  lemma ForgottenIsAccepted(
    states: seq<State>, events: seq<Event>, ttl: int, now: int, k: nat, p: nat, later: int, from: int, to: int)
    requires Run(states, events, ttl) && k + p < |events| && |states[k].pool| < Pow2(p)
    requires forall i :: k <= i < k + p ==> PassAt(events[i], now)
    requires events[k + p] == Request(later, from, to)
    requires forall h :: h in states[k].accepted && h.from <= from && to <= h.to ==> now - h.ts > ttl
    ensures states[k + p + 1].accepted == states[k].accepted + [Missed(later, from, to)]
  {
    RunPasses(states, events, ttl, now, k, p);
    var pool := states[k + p].pool;
    KnownIsCovered(pool, from, to);
    if Covered(pool, from, to) {
      var i :| 0 <= i < |pool| && pool[i].from <= from && to <= pool[i].to;
      var m := pool[i];
      assert m in multiset(pool);
      CountBound(states[k].pool, ttl, now);
      PassesClean(states[k].pool, ttl, now, p, m);
      PoolAccepted(states, events, ttl, k, m);
    }
  }

  // ---------------------------------------------------------------------
  // The pool itself
  // ---------------------------------------------------------------------

  /** The accepted requests at the positions of `keep`. */
  ghost function Select(h: seq<Missed>, keep: set<nat>): multiset<Missed> {
    if h == [] then multiset{} else
      var n := |h| - 1;
      Select(h[..n], keep) + if n in keep then multiset{h[n]} else multiset{}
  }

  lemma {:induction false} SelectSame(h: seq<Missed>, a: set<nat>, b: set<nat>)
    requires forall i :: 0 <= i < |h| ==> (i in a <==> i in b)
    ensures Select(h, a) == Select(h, b)
  {
    if h != [] {
      SelectSame(h[..|h| - 1], a, b);
    }
  }

  lemma TakeLast(part: multiset<Missed>, rest: multiset<Missed>, x: Missed)
    requires part <= rest + multiset{x} && !(part <= rest)
    ensures x in part && part - multiset{x} <= rest && (part - multiset{x}) + multiset{x} == part
  {
    var y :| part[y] > rest[y];
    assert y == x;
  }

  lemma SelectAdd(h: seq<Missed>, sub: set<nat>, n: nat)
    requires |h| == n + 1 && forall i :: i in sub ==> i < n
    ensures Select(h, sub) == Select(h[..n], sub)
    ensures Select(h, sub + {n}) == Select(h[..n], sub) + multiset{h[n]}
  {
    SelectSame(h[..n], sub, sub + {n});
  }

  /** Any part of a selection is a selection of part of the positions. */
  lemma {:induction false} SubSelect(h: seq<Missed>, keep: set<nat>, part: multiset<Missed>) returns (sub: set<nat>)
    requires part <= Select(h, keep)
    ensures sub <= keep && Select(h, sub) == part && forall i :: i in sub ==> i < |h|
  {
    if h == [] {
      sub := {};
      assert part == multiset{};
    } else {
      var n := |h| - 1;
      var rest := Select(h[..n], keep);
      if part <= rest {
        sub := SubSelect(h[..n], keep, part);
        SelectAdd(h, sub, n);
      } else {
        TakeLast(part, rest, h[n]);
        sub := SubSelect(h[..n], keep, part - multiset{h[n]});
        SelectAdd(h, sub, n);
        sub := sub + {n};
      }
    }
  }

  /** No kept request lies inside an earlier kept one. */
  ghost predicate Independent(h: seq<Missed>, keep: set<nat>) {
    forall i, j :: i in keep && j in keep && i < j < |h| ==> !Contains(h[i], h[j].from, h[j].to)
  }

  ghost predicate PoolIs(pool: seq<Missed>, h: seq<Missed>, keep: set<nat>) {
    && (forall i :: i in keep ==> i < |h|)
    && multiset(pool) == Select(h, keep) && Independent(h, keep)
  }

  lemma {:induction false} SelectedMember(h: seq<Missed>, keep: set<nat>, i: nat)
    requires i in keep && i < |h|
    ensures h[i] in Select(h, keep)
  {
    if i < |h| - 1 {
      SelectedMember(h[..|h| - 1], keep, i);
    }
  }

  lemma CleanPool(pool: seq<Missed>, h: seq<Missed>, rest: seq<Missed>, keep: set<nat>) returns (keep': set<nat>)
    requires PoolIs(pool, h, keep) && multiset(rest) <= multiset(pool)
    ensures PoolIs(rest, h, keep')
  {
    keep' := SubSelect(h, keep, multiset(rest));
  }

  lemma AcceptPool(pool: seq<Missed>, h: seq<Missed>, m: Missed, keep: set<nat>)
    requires PoolIs(pool, h, keep) && !Known(pool, m.from, m.to)
    ensures PoolIs(pool + [m], h + [m], keep + {|h|})
  {
    assert (h + [m])[..|h|] == h;
    SelectSame(h, keep, keep + {|h|});
    forall i | i in keep ensures !Contains(h[i], m.from, m.to) {
      SelectedMember(h, keep, i);
      assert h[i] in multiset(pool);
      assert h[i] in pool;
    }
    IndependentSnoc(h, keep, m);
  }

  lemma StepPool(s: State, ttl: int, e: Event, keep: set<nat>) returns (keep': set<nat>)
    requires PoolIs(s.pool, s.accepted, keep)
    ensures PoolIs(Step(s, ttl, e).pool, Step(s, ttl, e).accepted, keep')
  {
    var after := Step(s, ttl, e);
    if e.Clean? {
      assert after.accepted == s.accepted && after.pool == Sweep(s.pool, 0, ttl, e.clock);
      keep' := StepClean(s.pool, s.accepted, ttl, e.clock, keep);
    } else if Known(s.pool, e.from, e.to) {
      assert after.accepted == s.accepted && after.pool == s.pool;
      keep' := keep;
    } else {
      var m := Missed(e.now, e.from, e.to);
      assert after.accepted == s.accepted + [m] && after.pool == s.pool + [m];
      AcceptPool(s.pool, s.accepted, m, keep);
      keep' := keep + {|s.accepted|};
    }
  }

  lemma StepClean(pool: seq<Missed>, h: seq<Missed>, ttl: int, clock: Clock, keep: set<nat>) returns (keep': set<nat>)
    requires PoolIs(pool, h, keep)
    ensures PoolIs(Sweep(pool, 0, ttl, clock), h, keep')
  {
    SweepShrinks(pool, 0, ttl, clock);
    keep' := CleanPool(pool, h, Sweep(pool, 0, ttl, clock), keep);
  }

  lemma IndependentSnoc(h: seq<Missed>, keep: set<nat>, m: Missed)
    requires Independent(h, keep) && forall i :: i in keep ==> i < |h| && !Contains(h[i], m.from, m.to)
    ensures Independent(h + [m], keep + {|h|})
  {
    var longer, keep' := h + [m], keep + {|h|};
    forall i, j | i in keep' && j in keep' && i < j < |longer|
      ensures !Contains(longer[i], longer[j].from, longer[j].to)
    {
      assert longer[i] == h[i];
    }
  }

  /** At any time the pool is a set of accepted requests, none inside an earlier one. */
  lemma {:induction false} PoolIndependent(states: seq<State>, events: seq<Event>, ttl: int, i: nat)
    returns (keep: set<nat>)
    requires Run(states, events, ttl) && i < |states|
    ensures PoolIs(states[i].pool, states[i].accepted, keep)
  {
    keep := {};
    if i > 0 {
      var before := PoolIndependent(states, events, ttl, i - 1);
      keep := StepPool(states[i - 1], ttl, events[i - 1], before);
    }
  }
}
