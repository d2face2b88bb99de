// The worker pool: a counting semaphore, a mutex-guarded record of what is in flight,
// and a drain signal, shared by any number of Acquire, release and Drain calls.
module WorkerPool {

  /** Everything the calls share. Each function below is one atomic section. */
  datatype Shared = Shared(size: nat, sem: nat, closed: bool, inflight: int, maxSeen: int, done: bool) {

    /** Second closed check and bookkeeping of Acquire, under the lock. */
    function Registered(): Shared {
      if closed then this
      else this.(inflight := inflight + 1, maxSeen := if inflight + 1 > maxSeen then inflight + 1 else maxSeen)
    }

    /** The locked part of release. */
    function Released(): Shared {
      this.(inflight := inflight - 1, done := done || (closed && inflight - 1 == 0))
    }

    /** The locked part of Drain. */
    function Draining(): Shared {
      if closed then this else this.(closed := true, done := done || inflight == 0)
    }

    function Sent(): Shared { this.(sem := sem + 1) }

    function Received(): Shared
      requires 0 < sem
    {
      this.(sem := sem - 1)
    }
  }

  function Fresh(size: int): Shared {
    Shared(if size < 1 then 1 else size, 0, false, 0, 0, false)
  }

  /** A new pool is open and idle, with as many slots as asked for and at least one. */
  lemma FreshExactly(size: int)
    ensures var p := Fresh(size);
            && (1 <= size ==> p.size == size) && (size < 1 ==> p.size == 1)
            && p.sem == 0 && p.inflight == 0 && p.maxSeen == 0 && !p.closed && !p.done
  {
  }

  // ---------- the object ----------

  /** The pool's fields, updated in place by the atomic sections of its calls. The done
      channel only ever carries the fact that it was closed. */
  class Pool {
    const size: nat
    var sem: nat
    var closed: bool
    var inflight: int
    var maxSeen: int
    var done: bool

    function View(): Shared
      reads this
    {
      Shared(size, sem, closed, inflight, maxSeen, done)
    }

    constructor (n: int)
      ensures View() == Fresh(n)
    {
      size := if n < 1 then 1 else n;
      sem, closed, inflight, maxSeen, done := 0, false, 0, 0, false;
    }

    /** The select of Acquire: a slot if one is free. */
    method TrySend() returns (ok: bool)
      modifies `sem
      ensures ok <==> old(sem) < size
      ensures View() == if ok then old(View()).Sent() else old(View())
    {
      ok := sem < size;
      if ok {
        sem := sem + 1;
      }
    }

    method Register() returns (granted: bool)
      modifies `inflight, `maxSeen
      ensures granted <==> !old(closed)
      ensures View() == old(View()).Registered()
    {
      if closed {
        return false;
      }
      inflight := inflight + 1;
      if inflight > maxSeen {
        maxSeen := inflight;
      }
      return true;
    }

    method Receive()
      requires 0 < sem
      modifies `sem
      ensures View() == old(View()).Received()
    {
      sem := sem - 1;
    }

    method ReleaseLocked()
      modifies `inflight, `done
      ensures View() == old(View()).Released()
    {
      inflight := inflight - 1;
      if closed && inflight == 0 {
        if !done {
          done := true;
        }
      }
    }

    method DrainLocked()
      modifies `closed, `done
      ensures View() == old(View()).Draining()
    {
      if !closed {
        closed := true;
        if inflight == 0 {
          if !done {
            done := true;
          }
        }
      }
    }
  }

  // ---------- calls in progress ----------

  datatype Outcome = Drained | Backpressure | Canceled | Finished

  /** Where a call to Acquire (and then its release function) or to Drain stands. */
  datatype Call =
    | Entering              // before the first closed check
    | Waiting               // at the select
    | Sent                  // slot taken, lock not yet
    | Refusing              // found closed, slot still to be given back
    | Granted               // caller holds the release function
    | Returning             // released, slot still to be given back
    | Ended(outcome: Outcome)
    | DrainEntering
    | DrainWaiting          // waiting for done
    | DrainReturned(ok: bool)

  datatype State = State(shared: Shared, calls: map<nat, Call>)

  /** A call that sent on the semaphore and has not received from it. */
  predicate HasSlot(c: Call) {
    c.Sent? || c.Refusing? || c.Granted? || c.Returning?
  }

  datatype Event =
    | CallAcquire | CallDrain
    | FirstCheck | Send | Expire | Cancel | Register | GiveBack
    | Release | ReleaseAgain | Return
    | BeginDrain | SeeDone | DrainCancel

  ghost predicate At(s: State, id: nat, c: Call) {
    id in s.calls && s.calls[id] == c
  }

  function Moved(s: State, shared: Shared, id: nat, c: Call): State {
    State(shared, s.calls[id := c])
  }

  /** One step of one call; any call may take any step it is ready for. */
  ghost predicate Step(s: State, e: Event, id: nat, t: State) {
    var p := s.shared;
    match e
    case CallAcquire => id !in s.calls && t == Moved(s, p, id, Entering)
    case CallDrain => id !in s.calls && t == Moved(s, p, id, DrainEntering)
    case FirstCheck => At(s, id, Entering) && t == Moved(s, p, id, if p.closed then Ended(Drained) else Waiting)
    case Send => At(s, id, Waiting) && p.sem < p.size && t == Moved(s, p.Sent(), id, Call.Sent)
    case Expire => At(s, id, Waiting) && t == Moved(s, p, id, Ended(Backpressure))
    case Cancel => At(s, id, Waiting) && t == Moved(s, p, id, Ended(Canceled))
    case Register => At(s, id, Call.Sent) && t == Moved(s, p.Registered(), id, if p.closed then Refusing else Granted)
    case GiveBack => At(s, id, Refusing) && 0 < p.sem && t == Moved(s, p.Received(), id, Ended(Drained))
    case Release => At(s, id, Granted) && t == Moved(s, p.Released(), id, Returning)
    case ReleaseAgain => (At(s, id, Returning) || At(s, id, Ended(Finished))) && t == s
    case Return => At(s, id, Returning) && 0 < p.sem && t == Moved(s, p.Received(), id, Ended(Finished))
    case BeginDrain => At(s, id, DrainEntering) && t == Moved(s, p.Draining(), id, DrainWaiting)
    case SeeDone => At(s, id, DrainWaiting) && p.done && t == Moved(s, p, id, DrainReturned(true))
    case DrainCancel => At(s, id, DrainWaiting) && t == Moved(s, p, id, DrainReturned(false))
  }

  ghost predicate Next(s: State, t: State) {
    exists e, id :: Step(s, e, id, t)
  }

  ghost predicate Run(run: seq<State>, size: int) {
    && run != [] && run[0] == State(Fresh(size), map[])
    && forall i, j {:trigger Next(run[i], run[j])} | 0 <= i < j < |run| && j == i + 1 :: Next(run[i], run[j])
  }

  // ---------- the invariant ----------

  ghost function Holding(s: State): set<nat> {
    set id | id in s.calls && HasSlot(s.calls[id])
  }

  ghost function Grants(s: State): set<nat> {
    set id | id in s.calls && s.calls[id].Granted?
  }

  /** The semaphore counts the calls between send and receive, inflight counts the
      unreleased grants, neither exceeds the size, and done is exactly "closed and idle". */
  ghost predicate Inv(s: State) {
    var p := s.shared;
    && p.sem == |Holding(s)| <= p.size
    && p.inflight == |Grants(s)| <= p.maxSeen <= p.size
    && (p.done <==> p.closed && p.inflight == 0)
    && (forall id | id in s.calls && (s.calls[id].DrainWaiting? || s.calls[id].DrainReturned?) :: p.closed)
    && (forall id | id in s.calls && s.calls[id] == DrainReturned(true) :: p.done)
  }

  lemma GrantsHold(s: State)
    ensures Grants(s) <= Holding(s) && |Grants(s)| <= |Holding(s)|
  {
    assert Holding(s) == Grants(s) + (Holding(s) - Grants(s));
  }

  function One(b: bool): int { if b then 1 else 0 }

  lemma OneMember(before: set<nat>, after: set<nat>, id: nat)
    requires forall i: nat | i != id :: i in before <==> i in after
    ensures |after| == |before| + One(id in after) - One(id in before)
  {
    var rest := before - {id};
    assert before == if id in before then rest + {id} else rest;
    assert after == if id in after then rest + {id} else rest;
  }

  /** When one call moves, the counts move by what that call gains and loses. */
  lemma CountsMove(s: State, t: State, id: nat, c: Call)
    requires t.calls == s.calls[id := c]
    ensures |Holding(t)| == |Holding(s)| + One(HasSlot(c)) - One(id in s.calls && HasSlot(s.calls[id]))
    ensures |Grants(t)| == |Grants(s)| + One(c.Granted?) - One(id in s.calls && s.calls[id].Granted?)
  {
    OneMember(Holding(s), Holding(t), id);
    OneMember(Grants(s), Grants(t), id);
  }

  ghost predicate Counted(s: State) {
    && s.shared.sem == |Holding(s)|
    && s.shared.inflight == |Grants(s)|
  }

  lemma StepCounts(s: State, e: Event, id: nat, t: State)
    requires Counted(s) && Step(s, e, id, t)
    ensures Counted(t)
  {
    if !e.ReleaseAgain? {
      CountsMove(s, t, id, t.calls[id]);
    }
  }

  /** What a step can do to the shared record: closing and the drain signal are final, and
      maxSeen follows the peak of inflight. */
  lemma StepShared(s: State, e: Event, id: nat, t: State)
    requires Inv(s) && Step(s, e, id, t)
    ensures var p, q := s.shared, t.shared;
            && q.size == p.size && q.sem <= p.size
            && (p.closed ==> q.closed) && (p.done ==> q.done)
            && (q.done <==> q.closed && q.inflight == 0)
            && q.maxSeen == if q.inflight > p.maxSeen then q.inflight else p.maxSeen
  {
    if e.Release? {
      assert id in Grants(s);
    }
  }

  /** Every step of every call keeps the invariant. */
  lemma StepKeepsInv(s: State, e: Event, id: nat, t: State)
    requires Inv(s) && Step(s, e, id, t)
    ensures Inv(t)
  {
    StepCounts(s, e, id, t);
    StepShared(s, e, id, t);
    GrantsHold(t);
  }

  // ---------- every run ----------

  lemma StepInto(run: seq<State>, size: int, k: nat) returns (e: Event, id: nat)
    requires Run(run, size) && 0 < k < |run|
    ensures Step(run[k - 1], e, id, run[k])
  {
    assert Next(run[k - 1], run[k]);
    e, id :| Step(run[k - 1], e, id, run[k]);
  }

  lemma {:induction false} RunInv(run: seq<State>, size: int, k: nat)
    requires Run(run, size) && k < |run|
    ensures Inv(run[k]) && run[k].shared.size == Fresh(size).size
  {
    if k == 0 {
    } else {
      RunInv(run, size, k - 1);
      var e, id := StepInto(run, size, k);
      StepKeepsInv(run[k - 1], e, id, run[k]);
      StepShared(run[k - 1], e, id, run[k]);
    }
  }

  /** In every interleaving, in every state: the semaphore counts the calls that sent and
      did not yet receive, inflight the grants not yet released, and at most size jobs run. */
  lemma ConcurrencyBounded(run: seq<State>, size: int, k: nat)
    requires Run(run, size) && 1 <= size && k < |run|
    ensures var s := run[k];
            && s.shared.sem == |Holding(s)| && s.shared.inflight == |Grants(s)|
            && 0 <= s.shared.inflight <= s.shared.sem <= size
            && s.shared.inflight <= s.shared.maxSeen <= size
  {
    RunInv(run, size, k);
    GrantsHold(run[k]);
  }

  /** maxSeen is the peak of inflight over the whole history, neither more nor less. */
  lemma {:induction false} MaxSeenIsPeak(run: seq<State>, size: int, k: nat)
    requires Run(run, size) && k < |run|
    ensures forall j | 0 <= j <= k :: run[j].shared.inflight <= run[k].shared.maxSeen
    ensures exists j :: 0 <= j <= k && run[j].shared.inflight == run[k].shared.maxSeen
  {
    if k == 0 {
      assert run[0].shared.inflight == run[0].shared.maxSeen;
    } else {
      MaxSeenIsPeak(run, size, k - 1);
      RunInv(run, size, k - 1);
      var e, id := StepInto(run, size, k);
      StepShared(run[k - 1], e, id, run[k]);
      if run[k].shared.maxSeen == run[k - 1].shared.maxSeen {
        var j :| 0 <= j <= k - 1 && run[j].shared.inflight == run[k - 1].shared.maxSeen;
        assert run[j].shared.inflight == run[k].shared.maxSeen;
      } else {
        assert run[k].shared.inflight == run[k].shared.maxSeen;
      }
    }
  }

  lemma {:induction false} DoneIsFinal(run: seq<State>, size: int, j: nat, k: nat)
    requires Run(run, size) && j <= k < |run| && run[j].shared.done
    ensures run[k].shared.done
  {
    if j < k {
      DoneIsFinal(run, size, j, k - 1);
      RunInv(run, size, k - 1);
      var e, id := StepInto(run, size, k);
      StepShared(run[k - 1], e, id, run[k]);
    }
  }

  /** Once some Drain has returned nil, no call holds a grant in that or any later state,
      whatever had already sent on the semaphore when the pool closed. */
  lemma DrainedStaysIdle(run: seq<State>, size: int, drain: nat, j: nat, k: nat, id: nat)
    requires Run(run, size) && j <= k < |run| && At(run[j], drain, DrainReturned(true))
    ensures !At(run[k], id, Granted)
  {
    RunInv(run, size, j);
    DoneIsFinal(run, size, j, k);
    RunInv(run, size, k);
    EmptyGrants(run[k]);
  }

  lemma EmptyGrants(s: State)
    requires |Grants(s)| == 0
    ensures forall id :: !At(s, id, Granted)
  {
    forall id: nat ensures !At(s, id, Granted) {
      assert id in Grants(s) ==> |Grants(s)| > 0;
    }
  }

  /** The drain signal is given exactly when the pool is closed and idle, and each of the
      two places that give it does so only if it was not given before: the channel is
      closed once, and the guards before the close never have to hold it back. */
  lemma ClosedOnce(run: seq<State>, size: int, k: nat, e: Event, id: nat)
    requires Run(run, size) && k + 1 < |run| && Step(run[k], e, id, run[k + 1])
    ensures run[k].shared.done <==> run[k].shared.closed && run[k].shared.inflight == 0
    ensures e.Release? && run[k].shared.closed ==> !run[k].shared.done
    ensures e.BeginDrain? && !run[k].shared.closed ==> !run[k].shared.done
  {
    RunInv(run, size, k);
    if e.Release? {
      assert id in Grants(run[k]);
    }
  }

  /** No call ever blocks on giving a slot back, and a drain that is waiting on an idle pool
      can return. */
  lemma NeverStuck(run: seq<State>, size: int, k: nat, id: nat)
    requires Run(run, size) && k < |run| && id in run[k].calls
    ensures run[k].calls[id].Refusing? ==> exists t :: Step(run[k], GiveBack, id, t)
    ensures run[k].calls[id].Returning? ==> exists t :: Step(run[k], Return, id, t)
    ensures run[k].calls[id].DrainWaiting? && |Grants(run[k])| == 0 ==> exists t :: Step(run[k], SeeDone, id, t)
  {
    RunInv(run, size, k);
    var s := run[k];
    if HasSlot(s.calls[id]) {
      assert id in Holding(s);
      assert |Holding(s)| > 0;
      assert Step(s, GiveBack, id, Moved(s, s.shared.Received(), id, Ended(Drained))) || !s.calls[id].Refusing?;
      assert Step(s, Return, id, Moved(s, s.shared.Received(), id, Ended(Finished))) || !s.calls[id].Returning?;
    }
    assert Step(s, SeeDone, id, Moved(s, s.shared, id, DrainReturned(true)))
           || !(s.calls[id].DrainWaiting? && |Grants(s)| == 0);
  }

  // ---------- what ends a call, and that calls can end ----------

  /** Only these steps let a call end the way it does. */
  lemma StepTells(s: State, e: Event, id: nat, t: State)
    requires Step(s, e, id, t) && t != s
    ensures At(t, id, Granted) ==> e.Register? && !s.shared.closed
    ensures At(t, id, Ended(Drained)) ==> (e.FirstCheck? && s.shared.closed) || (e.GiveBack? && At(s, id, Refusing))
    ensures At(t, id, Ended(Backpressure)) ==> e.Expire?
    ensures At(t, id, Ended(Canceled)) ==> e.Cancel?
    ensures At(t, id, Ended(Finished)) ==> e.Return?
    ensures At(t, id, DrainReturned(true)) ==> e.SeeDone? && s.shared.done
    ensures At(t, id, DrainReturned(false)) ==> e.DrainCancel?
    ensures forall i | i != id && i in s.calls :: i in t.calls && t.calls[i] == s.calls[i]
  {
  }

  /** No step leads from s to t but the cancellation of this Drain. */
  ghost predicate OnlyCanceled(s: State, t: State, id: nat) {
    forall e, i | Step(s, e, i, t) :: i == id && e.DrainCancel?
  }

  lemma CanceledOnly(s: State, t: State, id: nat)
    requires !At(s, id, DrainReturned(false)) && At(t, id, DrainReturned(false))
    ensures OnlyCanceled(s, t, id)
  {
    forall e, i | Step(s, e, i, t) ensures i == id && e.DrainCancel? {
      StepTells(s, e, i, t);
    }
  }

  /** In every run a Drain that returned an error was canceled: it was waiting, and whatever
      step took it from there was its cancellation. */
  lemma {:induction false} FalseMeansCanceled(run: seq<State>, size: int, k: nat, id: nat) returns (j: nat)
    requires Run(run, size) && k < |run| && At(run[k], id, DrainReturned(false))
    ensures 0 < j <= k && At(run[j - 1], id, DrainWaiting) && At(run[j], id, DrainReturned(false))
    ensures OnlyCanceled(run[j - 1], run[j], id)
  {
    var e, i := StepInto(run, size, k);
    if At(run[k - 1], id, DrainReturned(false)) {
      j := FalseMeansCanceled(run, size, k - 1, id);
    } else {
      j := k;
      CanceledOnly(run[k - 1], run[k], id);
      StepTells(run[k - 1], e, i, run[k]);
    }
  }

  /** A call was refused as draining only once the pool was closed. */
  lemma {:induction false} DrainedMeansClosed(run: seq<State>, size: int, k: nat, id: nat)
    requires Run(run, size) && k < |run|
    requires At(run[k], id, Ended(Drained)) || At(run[k], id, Refusing)
    ensures run[k].shared.closed
  {
    var e, i := StepInto(run, size, k);
    RunInv(run, size, k - 1);
    StepShared(run[k - 1], e, i, run[k]);
    if At(run[k - 1], id, Ended(Drained)) || At(run[k - 1], id, Refusing) {
      DrainedMeansClosed(run, size, k - 1, id);
    }
  }

  /** Once the pool is closed nothing new is granted, whatever had already sent. */
  lemma {:induction false} ClosedGrantsNothing(run: seq<State>, size: int, j: nat, k: nat, id: nat)
    requires Run(run, size) && j <= k < |run| && run[j].shared.closed && At(run[k], id, Granted)
    ensures At(run[j], id, Granted)
  {
    if j < k {
      ClosedStays(run, size, j, k - 1);
      var e, i := StepInto(run, size, k);
      ClosedGrantsNothing(run, size, j, k - 1, id);
    }
  }

  lemma {:induction false} ClosedStays(run: seq<State>, size: int, j: nat, k: nat)
    requires Run(run, size) && j <= k < |run| && run[j].shared.closed
    ensures run[k].shared.closed
  {
    if j < k {
      ClosedStays(run, size, j, k - 1);
      var e, i := StepInto(run, size, k);
      RunInv(run, size, k - 1);
      StepShared(run[k - 1], e, i, run[k]);
    }
  }

  /** The state a run has reached. */
  function Last(run: seq<State>): State
    requires run != []
  {
    run[|run| - 1]
  }

  lemma More(run: seq<State>, size: int, e: Event, id: nat, t: State) returns (more: seq<State>)
    requires Run(run, size) && Step(Last(run), e, id, t)
    ensures Run(more, size) && run <= more && Last(more) == t
  {
    more := run + [t];
    forall i, j | 0 <= i < j < |more| && j == i + 1 ensures Next(more[i], more[j]) {
      if j < |run| {
        assert Next(run[i], run[j]);
      } else {
        assert Step(more[i], e, id, more[j]);
      }
    }
  }

  /** From every state in which a Drain waits and nothing is granted, that Drain can return
      nil. */
  lemma DrainCanReturn(run: seq<State>, size: int, id: nat) returns (more: seq<State>)
    requires Run(run, size) && At(Last(run), id, DrainWaiting)
    requires forall i :: !At(Last(run), i, Granted)
    ensures Run(more, size) && run <= more && At(Last(more), id, DrainReturned(true))
  {
    var s := Last(run);
    RunInv(run, size, |run| - 1);
    assert Grants(s) == {} by {
      forall i | i in Grants(s) ensures false {
        assert At(s, i, Granted);
      }
    }
    more := More(run, size, SeeDone, id, Moved(s, s.shared, id, DrainReturned(true)));
  }

  /** A Drain can begin in every state, and closes the pool. */
  lemma DrainCanBegin(run: seq<State>, size: int, id: nat) returns (more: seq<State>)
    requires Run(run, size) && id !in Last(run).calls
    ensures Run(more, size) && run <= more && At(Last(more), id, DrainWaiting) && Last(more).shared.closed
    ensures Last(more).shared.inflight == Last(run).shared.inflight
  {
    var s := Last(run);
    var s1 := Moved(s, s.shared, id, DrainEntering);
    more := More(run, size, CallDrain, id, s1);
    more := More(more, size, BeginDrain, id, Moved(s1, s.shared.Draining(), id, DrainWaiting));
  }

  /** While the pool is open and a slot is free, a new call can be granted one, and then one
      more is in flight. */
  lemma AcquireCanSucceed(run: seq<State>, size: int, id: nat) returns (more: seq<State>)
    requires Run(run, size) && 1 <= size && id !in Last(run).calls
    requires !Last(run).shared.closed && Last(run).shared.sem < size
    ensures Run(more, size) && run <= more && At(Last(more), id, Granted)
    ensures Last(more).shared.inflight == Last(run).shared.inflight + 1
    ensures Last(more).shared.sem == Last(run).shared.sem + 1
  {
    var s := Last(run);
    var p := s.shared;
    RunInv(run, size, |run| - 1);
    var s1 := Moved(s, p, id, Entering);
    more := More(run, size, CallAcquire, id, s1);
    var s2 := Moved(s1, p, id, Waiting);
    more := More(more, size, FirstCheck, id, s2);
    var s3 := Moved(s2, p.Sent(), id, Call.Sent);
    more := More(more, size, Send, id, s3);
    more := More(more, size, Register, id, Moved(s3, p.Sent().Registered(), id, Granted));
  }

  /** A grant can always be released: one fewer is in flight and the slot is free again. */
  lemma ReleaseCanFinish(run: seq<State>, size: int, id: nat) returns (more: seq<State>)
    requires Run(run, size) && At(Last(run), id, Granted)
    ensures Run(more, size) && run <= more && At(Last(more), id, Ended(Finished))
    ensures Last(more).shared.inflight == Last(run).shared.inflight - 1
    ensures Last(more).shared.sem == Last(run).shared.sem - 1
  {
    var s := Last(run);
    RunInv(run, size, |run| - 1);
    assert id in Holding(s);
    var p := s.shared.Released();
    var s1 := Moved(s, p, id, Returning);
    more := More(run, size, Release, id, s1);
    more := More(more, size, Return, id, Moved(s1, p.Received(), id, Ended(Finished)));
  }

  /** Once the pool is closed, a new call can only end as draining. */
  lemma ClosedRefuses(run: seq<State>, size: int, id: nat) returns (more: seq<State>)
    requires Run(run, size) && Last(run).shared.closed && id !in Last(run).calls
    ensures Run(more, size) && run <= more && At(Last(more), id, Ended(Drained))
  {
    var s := Last(run);
    var s1 := Moved(s, s.shared, id, Entering);
    more := More(run, size, CallAcquire, id, s1);
    more := More(more, size, FirstCheck, id, Moved(s1, s.shared, id, Ended(Drained)));
  }

  // ---------- why release decrements first ----------

  /** The machine with the two halves of release exchanged: the slot goes back while the
      job still counts. Everything else is as it was. */
  ghost predicate SwappedStep(s: State, e: Event, id: nat, t: State) {
    var p := s.shared;
    match e
    case Return => At(s, id, Granted) && 0 < p.sem && t == Moved(s, p.Received(), id, Returning)
    case Release => At(s, id, Returning) && t == Moved(s, p.Released(), id, Ended(Finished))
    case _ => Step(s, e, id, t)
  }

  ghost predicate SwappedNext(s: State, t: State) {
    exists e, id :: SwappedStep(s, e, id, t)
  }

  ghost predicate SwappedRun(run: seq<State>, size: int) {
    && run != [] && run[0] == State(Fresh(size), map[])
    && forall i, j {:trigger SwappedNext(run[i], run[j])} | 0 <= i < j < |run| && j == i + 1 ::
         SwappedNext(run[i], run[j])
  }

  lemma SwappedMore(run: seq<State>, size: int, e: Event, id: nat, t: State) returns (more: seq<State>)
    requires SwappedRun(run, size) && SwappedStep(run[|run| - 1], e, id, t)
    ensures SwappedRun(more, size) && more != [] && more[|more| - 1] == t
  {
    more := run + [t];
    forall i, j | 0 <= i < j < |more| && j == i + 1 ensures SwappedNext(more[i], more[j]) {
      if j < |run| {
        assert SwappedNext(run[i], run[j]);
      } else {
        assert SwappedStep(more[i], e, id, more[j]);
      }
    }
  }

  /** The last state of a run in which calls 0..n-1 hold grants, with these counts. */
  ghost predicate Busy(s: State, size: nat, n: nat, sem: nat, inflight: nat) {
    && s.shared == Shared(size, sem, false, inflight, inflight, false)
    && forall id: nat {:trigger id in s.calls} :: id in s.calls <==> id < n
  }

  /** One more call enters, finds a slot and registers. */
  lemma AcquireOne(run: seq<State>, size: nat, n: nat, sem: nat, inflight: nat) returns (more: seq<State>)
    requires SwappedRun(run, size) && Busy(run[|run| - 1], size, n, sem, inflight) && sem < size
    ensures SwappedRun(more, size) && Busy(more[|more| - 1], size, n + 1, sem + 1, inflight + 1)
    ensures n == 0 || At(run[|run| - 1], 0, Granted) ==> At(more[|more| - 1], 0, Granted)
  {
    var s := run[|run| - 1];
    var p := s.shared;
    var s1 := Moved(s, p, n, Entering);
    more := SwappedMore(run, size, CallAcquire, n, s1);
    var s2 := Moved(s1, p, n, Waiting);
    more := SwappedMore(more, size, FirstCheck, n, s2);
    var s3 := Moved(s2, p.Sent(), n, Call.Sent);
    more := SwappedMore(more, size, Send, n, s3);
    more := SwappedMore(more, size, Register, n, Moved(s3, p.Sent().Registered(), n, Granted));
  }

  lemma {:induction false} FillPool(size: nat, n: nat) returns (run: seq<State>)
    requires 1 <= size && n <= size
    ensures SwappedRun(run, size) && Busy(run[|run| - 1], size, n, n, n)
    ensures n > 0 ==> At(run[|run| - 1], 0, Granted)
  {
    if n == 0 {
      run := [State(Fresh(size), map[])];
    } else {
      var before := FillPool(size, n - 1);
      run := AcquireOne(before, size, n - 1, n - 1, n - 1);
    }
  }

  /** Why release decrements before it gives the slot back: for every pool size, the
      machine that gives the slot back first has a run whose recorded peak exceeds the
      size. The full pool gives one slot back, and the next job registers while the old
      one still counts. */
  lemma SlotFirstOvershoots(size: nat) returns (run: seq<State>)
    requires 1 <= size
    ensures SwappedRun(run, size) && run[|run| - 1].shared.maxSeen == size + 1
  {
    run := FillPool(size, size);
    var s := run[|run| - 1];
    var t := Moved(s, s.shared.Received(), 0, Returning);
    run := SwappedMore(run, size, Return, 0, t);
    run := AcquireOne(run, size, size, size - 1, size);
  }
}
