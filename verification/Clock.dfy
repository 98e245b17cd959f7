/** The hybrid logical clock (core/clock/clock.go): one attempt, the concurrent machine, and the uncontended object. */
module Clock {
  import opened Bytes

  const LOGICAL := 0x1_0000
  const LOGICAL_MASK := 0xFFFF
  const MAX_PHYSICAL := 0x7FFF_FFFF_FFFF
  const MAX_DRIFT := 5000

  /** A clamped wall-clock reading. */
  type Millis = x: int | 0 <= x <= MAX_PHYSICAL

  /** A non-negative int64 timestamp. */
  type Stamp = x: int | 0 <= x <= 0x7FFF_FFFF_FFFF_FFFF

  function Physical(state: Word): nat {
    state / LOGICAL
  }

  function Logical(state: Word): nat {
    state % LOGICAL
  }

  /** `(physical << 16) | (logical & mask)`; below the ceiling nothing is shifted out. */
  function Pack(physical: Millis, logical: nat): Stamp {
    physical * LOGICAL + logical % LOGICAL
  }

  function ClampPhysical(p: nat): Millis {
    if p > MAX_PHYSICAL then MAX_PHYSICAL else p
  }

  /** A wall-clock reading in milliseconds, as the clock uses it. */
  function Sample(unixMilli: Int64): Millis {
    ClampPhysical(if unixMilli < 0 then 0 else unixMilli)
  }

  function Max(a: nat, b: nat): (m: nat)
    ensures m == a || m == b
  {
    if a > b then a else b
  }

  /** What one pass through the retry loop wants, given the loaded word and the current sample. */
  datatype Attempt = Saturated | Retry | Propose(next: Stamp)

  function NowAttempt(old_: Stamp, now: Millis): Attempt {
    if Physical(old_) >= MAX_PHYSICAL then Saturated
    else if now <= Physical(old_) && Logical(old_) >= LOGICAL_MASK then Retry
    else if now > Physical(old_) then Propose(Pack(now, 0))
    else Propose(Pack(Physical(old_), Logical(old_) + 1))
  }

  function UpdateAttempt(old_: Stamp, remote: Stamp, now: Millis): Attempt {
    var op, ol, rp, rl := Physical(old_), Logical(old_), Physical(remote), Logical(remote);
    if op >= MAX_PHYSICAL then Saturated
    else
      var chosen := Max(op, Max(rp, now));
      if chosen == op then
        var logical := if chosen == rp then Max(ol, rl) + 1 else ol + 1;
        if logical > LOGICAL_MASK then Retry else Propose(Pack(op, logical))
      else if chosen == rp then
        if rl + 1 > LOGICAL_MASK then Retry else Propose(Pack(rp, rl + 1))
      else Propose(Pack(chosen, 0))
  }

  /** The drift guard, evaluated once on the first sample. */
  predicate Accepts(remote: Int64, now: nat) {
    remote >= 0 && Physical(remote) <= now + MAX_DRIFT
  }

  /** A reading is taken as it is from 0 to the ceiling, and clamped outside. */
  lemma SampleExact(unixMilli: Int64)
    ensures 0 <= unixMilli <= MAX_PHYSICAL ==> Sample(unixMilli) == unixMilli
    ensures unixMilli < 0 ==> Sample(unixMilli) == 0
    ensures unixMilli > MAX_PHYSICAL ==> Sample(unixMilli) == MAX_PHYSICAL
  {
  }

  /** In terms of the stamp itself: the guard lets in everything up to the end of the 5000th millisecond ahead. */
  lemma AcceptsIff(remote: Int64, now: nat)
    ensures Accepts(remote, now) <==> 0 <= remote < (now + 5001) * 0x1_0000
  {
  }

  lemma PackOrder(p: Millis, l: nat, s: Stamp)
    requires l <= LOGICAL_MASK
    ensures Physical(Pack(p, l)) == p && Logical(Pack(p, l)) == l
    ensures Pack(p, l) > s <==> p > Physical(s) || (p == Physical(s) && l > Logical(s))
  {
  }

  /** A proposed word is strictly above the old one and stays representable as a positive int64. */
  lemma NowAdvances(old_: Stamp, now: Millis)
    ensures var a := NowAttempt(old_, now);
            a.Propose? ==> old_ < a.next && Physical(a.next) == Max(Physical(old_), now)
  {
    if Physical(old_) < MAX_PHYSICAL {
      if now > Physical(old_) { PackOrder(now, 0, old_); }
      else if Logical(old_) < LOGICAL_MASK { PackOrder(Physical(old_), Logical(old_) + 1, old_); }
    }
  }

  /** An update proposal is strictly above both the local word and the remote stamp. */
  lemma UpdateAdvances(old_: Stamp, remote: Stamp, now: Millis)
    ensures var a := UpdateAttempt(old_, remote, now);
            a.Propose? ==>
              && old_ < a.next && remote < a.next
              && Physical(a.next) == Max(Physical(old_), Max(Physical(remote), now))
  {
    var a := UpdateAttempt(old_, remote, now);
    if a.Propose? {
      var p := Max(Physical(old_), Max(Physical(remote), now));
      var l := if p == Physical(old_) && p == Physical(remote) then Max(Logical(old_), Logical(remote)) + 1
               else if p == Physical(old_) then Logical(old_) + 1
               else if p == Physical(remote) then Logical(remote) + 1 else 0;
      assert a.next == Pack(p, l) && l <= LOGICAL_MASK;
      PackOrder(p, l, old_);
      PackOrder(p, l, remote);
    }
  }

  /** `s` is later than `old_`, at physical time `p`. */
  ghost predicate Follows(s: Stamp, old_: Stamp, p: nat) {
    old_ < s && Physical(s) == p
  }

  ghost predicate IsNext(s: Stamp, old_: Stamp, p: nat) {
    Follows(s, old_, p) && forall u: Stamp :: Follows(u, old_, p) ==> s <= u
  }

  /** The first word after `top` at the later of its own moment and `now`, if that moment has one left. */
  function Earliest(top: Stamp, now: Millis): Attempt {
    if now > Physical(top) then Propose(Pack(now, 0))
    else if Logical(top) == LOGICAL_MASK then Retry
    else Propose(top + 1)
  }

  lemma FirstAfter(top: Stamp, now: Millis)
    ensures var a, p := Earliest(top, now), Max(Physical(top), now);
            && (a.Propose? ==> IsNext(a.next, top, p))
            && (a.Retry? ==> forall s: Stamp :: !Follows(s, top, p))
  {
    if now > Physical(top) {
      forall u: Stamp | Follows(u, top, now) ensures Pack(now, 0) <= u {}
    }
  }

  /** Below the ceiling `Now` proposes the very next stamp of the present moment, and waits exactly when that moment
      has none left. */
  lemma NowProposesNext(old_: Stamp, now: Millis)
    requires Physical(old_) < MAX_PHYSICAL
    ensures var a, p := NowAttempt(old_, now), Max(Physical(old_), now);
            && !a.Saturated?
            && (a.Propose? ==> IsNext(a.next, old_, p))
            && (a.Retry? <==> forall s: Stamp :: !Follows(s, old_, p))
  {
    FirstAfter(old_, now);
    assert NowAttempt(old_, now) == Earliest(old_, now);
  }

  /** So does an update, with the larger of the local word and the remote stamp in place of the word. */
  lemma UpdateProposesNext(old_: Stamp, remote: Stamp, now: Millis)
    requires Physical(old_) < MAX_PHYSICAL
    ensures var a, top := UpdateAttempt(old_, remote, now), Max(old_, remote);
            var p := Max(Physical(top), now);
            && !a.Saturated?
            && (a.Propose? ==> IsNext(a.next, top, p))
            && (a.Retry? <==> forall s: Stamp :: !Follows(s, top, p))
  {
    LargerStamp(old_, remote);
    FirstAfter(Max(old_, remote), now);
    assert UpdateAttempt(old_, remote, now) == Earliest(Max(old_, remote), now);
  }

  /** Which is one above the larger word, or the start of a moment later than both. */
  lemma UpdateExact(old_: Stamp, remote: Stamp, now: Millis)
    requires UpdateAttempt(old_, remote, now).Propose?
    ensures UpdateAttempt(old_, remote, now) == Earliest(Max(old_, remote), now)
  {
    LargerStamp(old_, remote);
  }

  lemma LargerStamp(a: Stamp, b: Stamp)
    ensures Physical(Max(a, b)) == Max(Physical(a), Physical(b))
    ensures Physical(a) == Physical(b) ==> Logical(Max(a, b)) == Max(Logical(a), Logical(b))
    ensures Physical(a) > Physical(b) ==> Max(a, b) == a
    ensures Physical(b) > Physical(a) ==> Max(a, b) == b
  {
  }

  /** Once the wall clock passes both physical parts an update goes through. */
  lemma UpdateProceeds(old_: Stamp, remote: Stamp, now: Millis)
    requires now > Physical(old_) && now > Physical(remote)
    ensures UpdateAttempt(old_, remote, now).Propose?
  {
  }

  /** The one accepted stamp that no wall clock can ever get past: an unsaturated clock spins on it forever. */
  lemma UpdateStuckIff(old_: Stamp, remote: Stamp)
    ensures (forall now: Millis :: UpdateAttempt(old_, remote, now).Retry?)
            <==> Physical(old_) < MAX_PHYSICAL && remote == MAX_INT64
  {
    if Physical(old_) < MAX_PHYSICAL && remote != MAX_INT64 {
      if Physical(remote) < MAX_PHYSICAL {
        UpdateProceeds(old_, remote, MAX_PHYSICAL);
      } else {
        assert Logical(remote) < LOGICAL_MASK;
        assert UpdateAttempt(old_, remote, MAX_PHYSICAL).Propose?;
      }
    } else if Physical(old_) >= MAX_PHYSICAL {
      assert !UpdateAttempt(old_, remote, 0).Retry?;
    }
  }

  /** An update that no reading of the wall clock will ever let through. */
  predicate Spins(state: Stamp, remote: Int64, first: Millis) {
    Accepts(remote, first) && Physical(state) < MAX_PHYSICAL && remote == MAX_INT64
  }

  // ------------------------------------------------------------------ the concurrent machine

  datatype Op = NowOp | UpdateOp(remote: Stamp)

  /** A caller's program counter: outside, about to load, or holding a loaded word before its CAS. */
  datatype Caller = Outside | Sampled(op: Op, now: Millis) | Loaded(op: Op, now: Millis, old_: Stamp)

  /** `top` is the largest sample any caller has used; `issued` lists the stamps Now has returned, in CAS order. */
  datatype Machine = Machine(state: Stamp, callers: map<nat, Caller>, top: Millis, issued: seq<Stamp>)

  datatype Action =
    | CallNow(id: nat, wall: Int64)
    | CallUpdate(id: nat, remote: Int64, wall: Int64)
    | Load(id: nat)
    | Cas(id: nat, wall: Int64)

  function CallerOf(m: Machine, id: nat): Caller {
    if id in m.callers then m.callers[id] else Outside
  }

  function Goto(m: Machine, id: nat, c: Caller): Machine {
    m.(callers := m.callers[id := c])
  }

  function See(m: Machine, wall: Int64): Machine {
    m.(top := Max(m.top, Sample(wall)))
  }

  function AttemptOf(op: Op, old_: Stamp, now: Millis): Attempt {
    match op
    case NowOp => NowAttempt(old_, now)
    case UpdateOp(remote) => UpdateAttempt(old_, remote, now)
  }

  /** One atomic step of one caller; an action its caller is not ready for changes nothing. */
  function Step(m: Machine, a: Action): Machine {
    match (a, CallerOf(m, a.id))
    case (CallNow(id, wall), Outside) => Goto(See(m, wall), id, Sampled(NowOp, Sample(wall)))
    case (CallUpdate(id, remote, wall), Outside) =>
      if Accepts(remote, Sample(wall)) then Goto(See(m, wall), id, Sampled(UpdateOp(remote), Sample(wall))) else m
    case (Load(id), Sampled(op, now)) => Goto(m, id, Loaded(op, now, m.state))
    case (Cas(id, wall), Loaded(op, now, old_)) =>
      match AttemptOf(op, old_, now) {
        case Saturated =>
          var out := Goto(m, id, Outside);
          if op.NowOp? then out.(issued := m.issued + [MAX_INT64]) else out
        case Retry => Goto(See(m, wall), id, Sampled(op, Sample(wall)))
        case Propose(next) =>
          if m.state == old_ then
            var out := Goto(m, id, Outside).(state := next);
            if op.NowOp? then out.(issued := m.issued + [next]) else out
          else Goto(See(m, wall), id, Sampled(op, Sample(wall)))
      }
    case _ => m
  }

  ghost predicate CallerOk(m: Machine, c: Caller) {
    && (!c.Outside? ==> c.now <= m.top && (c.op.UpdateOp? ==> Physical(c.op.remote) <= m.top + MAX_DRIFT))
    && (c.Loaded? ==> c.old_ <= m.state)
  }

  /** Stamps never fall, and only the ceiling value repeats. */
  ghost predicate StampsOk(issued: seq<Stamp>, state: Stamp) {
    && (forall i, j :: 0 <= i < j < |issued| ==> issued[i] <= issued[j])
    && (forall i, j :: 0 <= i < j < |issued| ==> issued[i] == issued[j] ==> issued[i] == MAX_INT64)
    && (forall i :: 0 <= i < |issued| ==>
          issued[i] <= state || (issued[i] == MAX_INT64 && Physical(state) >= MAX_PHYSICAL))
  }

  lemma StampIssued(issued: seq<Stamp>, state: Stamp, next: Stamp)
    requires StampsOk(issued, state)
    ensures Physical(state) < MAX_PHYSICAL && state < next ==> StampsOk(issued + [next], next)
    ensures Physical(state) >= MAX_PHYSICAL ==> StampsOk(issued + [MAX_INT64], state)
  {
  }

  ghost predicate Inv(m: Machine) {
    && Physical(m.state) <= m.top + MAX_DRIFT
    && (forall id :: id in m.callers ==> CallerOk(m, m.callers[id]))
    && StampsOk(m.issued, m.state)
  }

  /** Nobody is calling a clock at this word. */
  function Started(state: Stamp): Machine {
    Machine(state, map[], 0, [])
  }

  function Init(): Machine {
    Started(0)
  }

  lemma PhysicalMonotone(a: Stamp, b: Stamp)
    requires a <= b
    ensures Physical(a) <= Physical(b)
  {
  }

  /** A proposal from a caller in good order is strictly above its word and within the drift bound. */
  lemma ProposalBounds(m: Machine, c: Caller)
    requires c.Loaded? && CallerOk(m, c) && Physical(c.old_) <= m.top + MAX_DRIFT
    ensures var a := AttemptOf(c.op, c.old_, c.now);
            && (a.Propose? ==> c.old_ < a.next && Physical(a.next) <= m.top + MAX_DRIFT)
            && (a.Saturated? <==> Physical(c.old_) >= MAX_PHYSICAL)
  {
    NowAdvances(c.old_, c.now);
    if c.op.UpdateOp? { UpdateAdvances(c.old_, c.op.remote, c.now); }
  }

  /** The compare-and-swap step: success strictly raises the word, failure and saturation leave it. */
  lemma CasInv(m: Machine, id: nat, wall: Int64)
    requires Inv(m) && CallerOf(m, id).Loaded?
    ensures var n := Step(m, Cas(id, wall)); Inv(n) && (n.state == m.state || n.state > m.state) && m.issued <= n.issued
  {
    var c, n := CallerOf(m, id), Step(m, Cas(id, wall));
    assert CallerOk(m, c);
    PhysicalMonotone(c.old_, m.state);
    ProposalBounds(m, c);
    assert n.state >= m.state && n.top >= m.top;
    assert StampsOk(n.issued, n.state) by {
      StampIssued(m.issued, m.state, n.state);
    }
    forall i | i in n.callers ensures CallerOk(n, n.callers[i]) {
      if i != id { assert CallerOk(m, m.callers[i]); }
    }
  }

  /** Each step keeps the bounds, and the word either stays or strictly grows. */
  lemma StepInv(m: Machine, a: Action)
    requires Inv(m)
    ensures var n := Step(m, a); Inv(n) && (n.state == m.state || n.state > m.state) && m.issued <= n.issued
  {
    var c, n := CallerOf(m, a.id), Step(m, a);
    if a.Cas? && c.Loaded? {
      CasInv(m, a.id, a.wall);
    } else {
      assert n.state == m.state && n.issued == m.issued && m.top <= n.top;
      forall i | i in n.callers ensures CallerOk(n, n.callers[i]) {
        if i != a.id { assert CallerOk(m, m.callers[i]); }
      }
    }
  }

  function Exec(m: Machine, actions: seq<Action>): Machine
    decreases actions
  {
    if actions == [] then m else Exec(Step(m, actions[0]), actions[1..])
  }

  /** Every run of any callers under any wall clock: the word never falls and all bounds hold throughout. */
  lemma {:induction false} RunBounds(m: Machine, actions: seq<Action>)
    requires Inv(m)
    ensures Inv(Exec(m, actions)) && m.state <= Exec(m, actions).state
    ensures m.issued <= Exec(m, actions).issued
    decreases actions
  {
    if actions != [] {
      StepInv(m, actions[0]);
      RunBounds(Step(m, actions[0]), actions[1..]);
    }
  }

  /** So from the fresh clock: the stamps handed out never fall, only the ceiling repeats, and none is past the word. */
  lemma StartedRunBounds(actions: seq<Action>)
    ensures var m := Exec(Init(), actions);
            && Physical(m.state) <= m.top + MAX_DRIFT && StampsOk(m.issued, m.state)
            && forall id :: id in m.callers ==> CallerOk(m, m.callers[id])
  {
    RunBounds(Init(), actions);
  }

  // ------------------------------------------------------------------ a call without competition

  /** Step 1, step 2, up to step `n`. */
  function Repeat<M>(step: (M, nat) -> M, m: M, n: nat): M {
    if n == 0 then m else step(Repeat(step, m, n - 1), n)
  }

  lemma {:induction false} RepeatKeeps<M(!new)>(step: (M, nat) -> M, m: M, n: nat, good: (M, nat) -> bool)
    requires good(m, 0) && forall x, i: nat :: i < n && good(x, i) ==> good(step(x, i + 1), i + 1)
    ensures good(Repeat(step, m, n), n)
  {
    if n > 0 { RepeatKeeps(step, m, n - 1, good); }
  }

  /** Caller `id` alone loads and tries its compare-and-swap; `wall(t + i)` is read after the i-th failure. */
  function Try(id: nat, wall: nat -> Int64, t: nat): (Machine, nat) -> Machine {
    (m: Machine, i: nat) => Step(Step(m, Load(id)), Cas(id, wall(t + i)))
  }

  /** From `m` to `n` caller `id` did what its attempt says: the word it proposes is left, and handed out by `Now`. */
  ghost predicate Obeys(m: Machine, n: Machine, id: nat, op: Op, a: Attempt) {
    match a
    case Propose(next) =>
      n.state == next && CallerOf(n, id).Outside? && n.issued == m.issued + if op.NowOp? then [next] else []
    case Saturated =>
      n.state == m.state && CallerOf(n, id).Outside? && n.issued == m.issued + if op.NowOp? then [MAX_INT64] else []
    case Retry => n.state == m.state && CallerOf(n, id).Sampled? && n.issued == m.issued
  }

  /** One undisturbed try. */
  lemma TryOnce(m: Machine, id: nat, wall: Int64)
    requires CallerOf(m, id).Sampled?
    ensures var c, n := CallerOf(m, id), Step(Step(m, Load(id)), Cas(id, wall));
            var a := AttemptOf(c.op, m.state, c.now);
            Obeys(m, n, id, c.op, a) && (a.Retry? ==> CallerOf(n, id) == Sampled(c.op, Sample(wall)))
  {
    assert m.issued + [] == m.issued;
  }

  lemma CallSamples(m: Machine, id: nat, op: Op, wall: Int64)
    requires CallerOf(m, id).Outside? && (op.UpdateOp? ==> Accepts(op.remote, Sample(wall)))
    ensures var n := Step(m, Called(op, id, wall));
            n.state == m.state && n.issued == m.issued && CallerOf(n, id) == Sampled(op, Sample(wall))
  {
  }

  /** Every reading from position `t` up to `last`, but not that one, asked for another try. */
  ghost predicate RetriedUntil(op: Op, state: Stamp, wall: nat -> Int64, t: nat, last: nat) {
    forall i :: t <= i < last ==> Retries(op, state, wall, i)
  }

  ghost predicate Retries(op: Op, state: Stamp, wall: nat -> Int64, i: int) {
    i >= 0 && AttemptOf(op, state, Sample(wall(i))).Retry?
  }

  lemma FailedTry(m: Machine, r: Machine, id: nat, op: Op, now: Millis, wall: Int64)
    requires r.state == m.state && r.issued == m.issued && CallerOf(r, id) == Sampled(op, now)
    requires AttemptOf(op, m.state, now).Retry?
    ensures var n := Step(Step(r, Load(id)), Cas(id, wall));
            n.state == m.state && n.issued == m.issued && CallerOf(n, id) == Sampled(op, Sample(wall))
  {
    TryOnce(r, id, wall);
  }

  /** Caller `id` has got nowhere yet and holds its `i`-th reading. */
  ghost predicate StillTrying(m: Machine, id: nat, op: Op, wall: nat -> Int64, t: nat, n: Machine, i: nat) {
    n.state == m.state && n.issued == m.issued && CallerOf(n, id) == Sampled(op, Sample(wall(t + i)))
  }

  lemma TriesAgain(m: Machine, id: nat, op: Op, wall: nat -> Int64, t: nat, n: Machine, i: nat)
    requires StillTrying(m, id, op, wall, t, n, i) && Retries(op, m.state, wall, t + i)
    ensures StillTrying(m, id, op, wall, t, Try(id, wall, t)(n, i + 1), i + 1)
  {
    FailedTry(m, n, id, op, Sample(wall(t + i)), wall(t + (i + 1)));
  }

  lemma KeepsTrying(m: Machine, c: Machine, id: nat, op: Op, wall: nat -> Int64, t: nat, n: nat)
    requires StillTrying(m, id, op, wall, t, c, 0) && RetriedUntil(op, m.state, wall, t, t + n)
    ensures StillTrying(m, id, op, wall, t, Repeat(Try(id, wall, t), c, n), n)
  {
    var good := (x: Machine, i: nat) => StillTrying(m, id, op, wall, t, x, i);
    forall x, i: nat | i < n && good(x, i) ensures good(Try(id, wall, t)(x, i + 1), i + 1) {
      assert Retries(op, m.state, wall, t + i);
      TriesAgain(m, id, op, wall, t, x, i);
    }
    RepeatKeeps(Try(id, wall, t), c, n, good);
  }

  function Called(op: Op, id: nat, wall: Int64): Action {
    match op
    case NowOp => CallNow(id, wall)
    case UpdateOp(remote) => CallUpdate(id, remote, wall)
  }

  /** Tries that changed nothing do not matter. */
  lemma ObeysAfter(m: Machine, r: Machine, n: Machine, id: nat, op: Op, a: Attempt)
    requires r.state == m.state && r.issued == m.issued && Obeys(r, n, id, op, a)
    ensures Obeys(m, n, id, op, a)
  {
  }

  lemma LastTry(m: Machine, r: Machine, id: nat, op: Op, now: Millis, wall: Int64)
    requires r.state == m.state && r.issued == m.issued && CallerOf(r, id) == Sampled(op, now)
    ensures Obeys(m, Step(Step(r, Load(id)), Cas(id, wall)), id, op, AttemptOf(op, m.state, now))
  {
    TryOnce(r, id, wall);
    ObeysAfter(m, r, Step(Step(r, Load(id)), Cas(id, wall)), id, op, AttemptOf(op, m.state, now));
  }

  /**
    * An undisturbed call of the machine whose first `n` readings ask for another try leaves the word that the attempt at the
    * next reading proposes, or the word it found at the ceiling, and a call of `Now` hands that out.
    */
  lemma SoloCall(m: Machine, id: nat, op: Op, wall: nat -> Int64, t: nat, n: nat)
    requires CallerOf(m, id).Outside? && (op.UpdateOp? ==> Accepts(op.remote, Sample(wall(t))))
    requires RetriedUntil(op, m.state, wall, t, t + n)
    ensures Obeys(m, Repeat(Try(id, wall, t), Step(m, Called(op, id, wall(t))), n + 1), id, op,
                  AttemptOf(op, m.state, Sample(wall(t + n))))
  {
    var c := Step(m, Called(op, id, wall(t)));
    CallSamples(m, id, op, wall(t));
    KeepsTrying(m, c, id, op, wall, t, n);
    LastTry(m, Repeat(Try(id, wall, t), c, n), id, op, Sample(wall(t + n)), wall(t + (n + 1)));
  }

  // ------------------------------------------------------------------ a call among others

  /**
    * Whatever the others do: a call ends in a step that acts on the word as it is at that moment, as if the whole call had
    * happened there; a compare-and-swap that fails or has to wait leaves everything and takes a new reading.
    */
  lemma CallsAreAtomic(m: Machine, id: nat, wall: Int64)
    requires Inv(m) && CallerOf(m, id).Loaded?
    ensures var c, n := CallerOf(m, id), Step(m, Cas(id, wall));
            if CallerOf(n, id).Outside? then Obeys(m, n, id, c.op, AttemptOf(c.op, m.state, c.now))
            else n.state == m.state && n.issued == m.issued && CallerOf(n, id) == Sampled(c.op, Sample(wall))
    ensures var c, n := CallerOf(m, id), Step(m, Cas(id, wall));
            CallerOf(n, id).Outside? <==>
              || AttemptOf(c.op, c.old_, c.now).Saturated?
              || (AttemptOf(c.op, c.old_, c.now).Propose? && c.old_ == m.state)
  {
    var c := CallerOf(m, id);
    assert CallerOk(m, c);
    PhysicalMonotone(c.old_, m.state);
    assert m.issued + [] == m.issued;
  }

  // ------------------------------------------------------------------ the uncontended object

  /** Some reading from position `t` on is above `p`. */
  ghost predicate Passes(wall: nat -> Int64, t: nat, p: nat) {
    exists u: nat :: u >= t && Sample(wall(u)) > p
  }

  /** The wall clock may step back and stall, but it gets past every moment below the ceiling. */
  ghost predicate Advances(wall: nat -> Int64) {
    forall t: nat, p: nat :: p < MAX_PHYSICAL ==> Passes(wall, t, p)
  }

  /** Clock with no competing caller; `wall(t)` is the t-th reading of the system clock. */
  class HybridClock {
    var state: Stamp
    const wall: nat -> Int64
    var t: nat

    constructor (wall: nat -> Int64)
      ensures state == 0 && this.wall == wall
    {
      state, t := 0, 0;
      this.wall := wall;
    }

    method Read() returns (now: Millis)
      modifies this`t
      ensures t == old(t) + 1 && now == Sample(wall(old(t)))
    {
      now := Sample(wall(t));
      t := t + 1;
    }

    /** Below the ceiling: a fresh stamp above everything seen. At the ceiling: MaxInt64, nothing moves. */
    method Now() returns (ts: Stamp)
      requires Advances(wall)
      modifies this
      ensures t > old(t)
      ensures Physical(old(state)) < MAX_PHYSICAL ==>
                ts == state && state > old(state) && NowAttempt(old(state), Sample(wall(t - 1))) == Propose(state)
      ensures Physical(old(state)) >= MAX_PHYSICAL ==> ts == MAX_INT64 && state == old(state)
      ensures RetriedUntil(NowOp, old(state), wall, old(t), t - 1)
    {
      ghost var before := state;
      ghost var u := if Physical(state) < MAX_PHYSICAL then DeadlineOf(wall, t, Physical(state)) else t;
      ghost var start := t;
      var now := Read();
      while true
        invariant state == before && t > start && now == Sample(wall(t - 1))
        invariant RetriedUntil(NowOp, before, wall, start, t - 1)
        invariant Physical(state) < MAX_PHYSICAL ==> t <= u + 1 && Sample(wall(u)) > Physical(state)
        decreases u + 1 - t
      {
        var old_ := state;
        if Physical(old_) >= MAX_PHYSICAL { return MAX_INT64; }
        if now <= Physical(old_) && Logical(old_) >= LOGICAL_MASK {
          assert Retries(NowOp, before, wall, t - 1);
          now := Read();
          continue;
        }
        var newPhysical, newLogical := now, 0;
        if now <= Physical(old_) {
          newPhysical, newLogical := Physical(old_), Logical(old_) + 1;
        }
        var newVal := Pack(newPhysical, newLogical);
        NowAdvances(old_, now);
        state := newVal;
        return newVal;
      }
    }

    /**
      * Drifted and negative stamps are ignored; otherwise the clock ends above both its past and the stamp.
      * `ended` is false for a call that retries for ever.
      */
    method Update(remote: Int64) returns (ended: bool)
      requires Advances(wall)
      modifies this
      ensures old(t) <= t && old(state) <= state
      ensures ended <==> !Spins(old(state), remote, Sample(wall(old(t))))
      ensures state != old(state) ==>
                t > 0 && remote >= 0 && UpdateAttempt(old(state), remote, Sample(wall(t - 1))) == Propose(state)
      ensures if ended && Accepts(remote, Sample(wall(old(t)))) && Physical(old(state)) < MAX_PHYSICAL
              then state > old(state) && state > remote else state == old(state)
      ensures ended && Accepts(remote, Sample(wall(old(t)))) ==>
                t > old(t) && RetriedUntil(UpdateOp(remote), old(state), wall, old(t), t - 1)
    {
      if remote < 0 { return true; }
      var remotePhysical := Physical(remote);
      var now := Read();
      if remotePhysical > now + MAX_DRIFT { return true; }
      if remote == MAX_INT64 && Physical(state) < MAX_PHYSICAL {
        UpdateStuckIff(state, remote);
        return false;
      }
      ghost var before := state;
      UpdateLoop(remote, now);
      UpdateAdvances(before, remote, Sample(wall(t - 1)));
      return true;
    }

    /** The passes of an update that some reading lets through. */
    method UpdateLoop(remote: Stamp, first: Millis)
      requires Advances(wall) && t > 0 && first == Sample(wall(t - 1))
      requires remote == MAX_INT64 ==> Physical(state) >= MAX_PHYSICAL
      modifies this
      ensures old(t) <= t && RetriedUntil(UpdateOp(remote), old(state), wall, old(t) - 1, t - 1)
      ensures match UpdateAttempt(old(state), remote, Sample(wall(t - 1)))
              case Propose(next) => state == next
              case Saturated => state == old(state)
              case Retry => false
    {
      ghost var before, start := state, t - 1;
      ghost var p := Max(Physical(state), Physical(remote));
      ghost var u := if p < MAX_PHYSICAL then DeadlineOf(wall, start, p) else t;
      var now := first;
      while true
        invariant state == before && t > start && now == Sample(wall(t - 1))
        invariant RetriedUntil(UpdateOp(remote), before, wall, start, t - 1)
        invariant p < MAX_PHYSICAL ==> t <= u + 1 && Sample(wall(u)) > p
        decreases u + 1 - t
      {
        var done := UpdatePass(remote, now);
        if done { return; }
        assert Retries(UpdateOp(remote), before, wall, t - 1);
        now := Read();
      }
    }

    /** One pass of the update loop; it wants another exactly when the attempt asks for it. */
    method UpdatePass(remote: Stamp, now: Millis) returns (done: bool)
      modifies this`state
      ensures match UpdateAttempt(old(state), remote, now)
              case Saturated => done && state == old(state)
              case Retry => !done && state == old(state)
              case Propose(next) => done && state == next
    {
      var remotePhysical, remoteLogical := Physical(remote), Logical(remote);
      var old_ := state;
      if Physical(old_) >= MAX_PHYSICAL { return true; }
      var chosen := Max(Physical(old_), Max(remotePhysical, now));
      if chosen == Physical(old_) {
        var expected := Logical(old_) + 1;
        if chosen == remotePhysical { expected := Max(Logical(old_), remoteLogical) + 1; }
        if expected > LOGICAL_MASK { return false; }
        state := Pack(Physical(old_), expected);
      } else if chosen == remotePhysical {
        if remoteLogical + 1 > LOGICAL_MASK { return false; }
        state := Pack(remotePhysical, remoteLogical + 1);
      } else {
        state := Pack(chosen, 0);
      }
      return true;
    }
  }

  ghost function DeadlineOf(wall: nat -> Int64, t: nat, p: nat): (u: nat)
    requires Advances(wall) && p < MAX_PHYSICAL
    ensures u >= t && Sample(wall(u)) > p
  {
    assert Passes(wall, t, p);
    var u: nat :| u >= t && Sample(wall(u)) > p;
    u
  }
}
