// The gateway's counters, and what they add up to while calls are in progress.
module Metrics {

  datatype BlockReason =
    | Unset | Decode | UnsupportedFormat | TooLarge | DetectorError
    | Strip | Encode | Audit | Policy | Canceled
  {
    function Code(): (c: nat)
      ensures c < REASONS
    {
      match this
      case Unset => 0 case Decode => 1 case UnsupportedFormat => 2 case TooLarge => 3
      case DetectorError => 4 case Strip => 5 case Encode => 6 case Audit => 7
      case Policy => 8 case Canceled => 9
    }

    predicate Valid() { !Unset? }
  }

  const REASONS: nat := 10

  /** The counters; each function below is one atomic addition. */
  datatype Counters = Counters(processed: nat, blocked: nat, sanitized: nat, masked: nat, byReason: seq<nat>) {

    predicate Sized() { |byReason| == REASONS }

    function Processed(): Counters { this.(processed := processed + 1) }

    function Blocked(): Counters { this.(blocked := blocked + 1) }

    /** An invalid reason is not attributed. */
    function Attributed(r: BlockReason): Counters
      requires Sized()
    {
      if r.Valid() then this.(byReason := byReason[r.Code() := byReason[r.Code()] + 1]) else this
    }

    function Sanitized(): Counters { this.(sanitized := sanitized + 1) }

    function Masked(n: int): Counters { if n > 0 then this.(masked := masked + n) else this }
  }

  const ZERO := Counters(0, 0, 0, 0, [0, 0, 0, 0, 0, 0, 0, 0, 0, 0])

  /** Every reason has a place of its own, and 0 is that of none. */
  lemma CodesDiffer(r: BlockReason, s: BlockReason)
    ensures r.Code() == s.Code() ==> r == s
    ensures r.Code() == 0 <==> r == Unset
    ensures r.Valid() <==> r != Unset
  {
  }

  /** Attributing a block adds one at the place of its reason and nowhere else, and nothing if
      no reason is given. */
  lemma AttributedExactly(k: Counters, r: BlockReason, s: BlockReason)
    requires k.Sized()
    ensures var a := k.Attributed(r);
            && a.Sized() && a.(byReason := k.byReason) == k
            && a.byReason[s.Code()] == k.byReason[s.Code()] + if r == s && r != Unset then 1 else 0
  {
    CodesDiffer(r, s);
  }

  // ---------- the object ----------

  class Metrics {
    var uploadsProcessed: nat
    var uploadsBlocked: nat
    var imagesSanitized: nat
    var regionsMasked: nat
    const blockedByReason: array<nat>

    function View(): Counters
      reads this, blockedByReason
    {
      Counters(uploadsProcessed, uploadsBlocked, imagesSanitized, regionsMasked, blockedByReason[..])
    }

    constructor ()
      ensures View() == ZERO && fresh(blockedByReason)
    {
      uploadsProcessed, uploadsBlocked, imagesSanitized, regionsMasked := 0, 0, 0, 0;
      blockedByReason := new nat[REASONS](i => 0);
      new;
      assert blockedByReason[..] == ZERO.byReason;
    }

    method IncUploadsProcessed()
      modifies `uploadsProcessed
      ensures View() == old(View()).Processed()
    {
      uploadsProcessed := uploadsProcessed + 1;
    }

    /** Two additions, of which another call can see the first without the second. */
    method IncUploadsBlocked(reason: BlockReason)
      requires View().Sized()
      modifies `uploadsBlocked, blockedByReason
      ensures View().Sized() && View() == old(View()).Blocked().Attributed(reason)
    {
      uploadsBlocked := uploadsBlocked + 1;
      if reason.Valid() {
        blockedByReason[reason.Code()] := blockedByReason[reason.Code()] + 1;
      }
    }

    method IncImagesSanitized()
      modifies `imagesSanitized
      ensures View() == old(View()).Sanitized()
    {
      imagesSanitized := imagesSanitized + 1;
    }

    method AddRegionsMasked(n: int)
      modifies `regionsMasked
      ensures View() == old(View()).Masked(n)
    {
      if n > 0 {
        regionsMasked := regionsMasked + n;
      }
    }
  }

  // ---------- calls in progress ----------

  /** How a SanitizeImage call ended: the item goes on, with the regions masked in it if
      it was re-encoded, or it is refused. */
  datatype Outcome = Forwarded(reencoded: bool, boxes: nat) | Refused(reason: BlockReason)

  datatype Call =
    | Working                       // counted as processed
    | Counted(boxes: nat)           // counted as sanitized, its regions not yet
    | Blocking(reason: BlockReason) // counted as blocked, its reason not yet
    | Returned(outcome: Outcome)

  datatype State = State(counters: Counters, calls: seq<Call>)

  datatype Event =
    | Enter | Forward | CountImage(boxes: nat) | CountRegions | CountBlock(reason: BlockReason) | CountReason

  ghost predicate At(s: State, id: nat, c: Call) {
    id < |s.calls| && s.calls[id] == c
  }

  function Moved(s: State, k: Counters, id: nat, c: Call): State
    requires id < |s.calls|
  {
    State(k, s.calls[id := c])
  }

  /** One atomic addition of one call, or its return; calls interleave in any way. */
  ghost predicate Step(s: State, e: Event, id: nat, t: State)
    requires s.counters.Sized()
  {
    var k := s.counters;
    match e
    case Enter => id == |s.calls| && t == State(k.Processed(), s.calls + [Working])
    case Forward => At(s, id, Working) && t == Moved(s, k, id, Returned(Forwarded(false, 0)))
    case CountImage(n) => At(s, id, Working) && t == Moved(s, k.Sanitized(), id, Counted(n))
    case CountRegions =>
      id < |s.calls| && s.calls[id].Counted? &&
      t == Moved(s, k.Masked(s.calls[id].boxes), id, Returned(Forwarded(true, s.calls[id].boxes)))
    case CountBlock(r) => At(s, id, Working) && t == Moved(s, k.Blocked(), id, Blocking(r))
    case CountReason =>
      id < |s.calls| && s.calls[id].Blocking? &&
      t == Moved(s, k.Attributed(s.calls[id].reason), id, Returned(Refused(s.calls[id].reason)))
  }

  ghost predicate Next(s: State, t: State) {
    s.counters.Sized() && exists e, id :: Step(s, e, id, t)
  }

  ghost predicate Run(run: seq<State>) {
    && run != [] && run[0] == State(ZERO, [])
    && forall i, j {:trigger Next(run[i], run[j])} | 0 <= i < j < |run| && j == i + 1 :: Next(run[i], run[j])
  }

  // ---------- what the counters count ----------

  datatype Measure = Block | Reason(code: nat) | ReasonsBelow(code: nat) | Unattributed | Image | Regions | Passed {

    /** How much one call contributes. */
    function Of(c: Call): nat {
      match this
      case Block => One(c.Blocking? || (c.Returned? && c.outcome.Refused?))
      case Reason(code) => One(c.Returned? && c.outcome.Refused? && c.outcome.reason.Code() == code)
      case ReasonsBelow(code) =>
        One(c.Returned? && c.outcome.Refused? && c.outcome.reason.Valid() && c.outcome.reason.Code() < code)
      case Unattributed => One(c.Blocking? || (c.Returned? && c.outcome.Refused? && !c.outcome.reason.Valid()))
      case Image => One(c.Counted? || (c.Returned? && c.outcome.Forwarded? && c.outcome.reencoded))
      case Regions => if c.Returned? && c.outcome.Forwarded? then c.outcome.boxes else 0
      case Passed => One(c.Returned? && c.outcome.Forwarded?)
    }
  }

  function One(b: bool): nat { if b then 1 else 0 }

  function Sum(calls: seq<Call>, m: Measure): nat {
    if calls == [] then 0 else Sum(calls[..|calls| - 1], m) + m.Of(calls[|calls| - 1])
  }

  lemma {:induction false} SumUpdate(calls: seq<Call>, id: nat, c: Call, m: Measure)
    requires id < |calls|
    ensures Sum(calls[id := c], m) == Sum(calls, m) - m.Of(calls[id]) + m.Of(c)
  {
    var n := |calls| - 1;
    if id < n {
      assert calls[id := c][..n] == calls[..n][id := c];
      SumUpdate(calls[..n], id, c, m);
    } else {
      assert calls[id := c][..n] == calls[..n];
    }
  }

  ghost predicate CountsReason(s: State, code: nat)
    requires s.counters.Sized()
  {
    0 < code < REASONS ==> s.counters.byReason[code] == Sum(s.calls, Reason(code))
  }

  ghost predicate Inv(s: State) {
    var k := s.counters;
    && k.Sized()
    && k.processed == |s.calls|
    && k.blocked == Sum(s.calls, Block)
    && k.sanitized == Sum(s.calls, Image)
    && k.masked == Sum(s.calls, Regions)
    && forall code: nat {:trigger CountsReason(s, code)} :: CountsReason(s, code)
  }

  /** A step changes a sum by what the stepping call contributes before and after. */
  lemma StepSum(s: State, e: Event, id: nat, t: State, m: Measure)
    requires s.counters.Sized() && Step(s, e, id, t)
    ensures id < |t.calls|
    ensures Sum(t.calls, m) == Sum(s.calls, m) - (if e.Enter? then 0 else m.Of(s.calls[id])) + m.Of(t.calls[id])
  {
    if e.Enter? {
      assert t.calls[..|s.calls|] == s.calls;
    } else {
      SumUpdate(s.calls, id, t.calls[id], m);
    }
  }

  lemma StepCount(s: State, e: Event, id: nat, t: State, code: nat)
    requires s.counters.Sized() && Step(s, e, id, t) && 0 < code < REASONS
    ensures id < |t.calls| && t.counters.Sized()
    ensures t.counters.byReason[code]
            == s.counters.byReason[code] - (if e.Enter? then 0 else Reason(code).Of(s.calls[id]))
               + Reason(code).Of(t.calls[id])
  {
  }

  lemma StepReason(s: State, e: Event, id: nat, t: State, code: nat)
    requires s.counters.Sized() && t.counters.Sized() && Step(s, e, id, t) && CountsReason(s, code)
    ensures CountsReason(t, code)
  {
    StepSum(s, e, id, t, Reason(code));
    if 0 < code < REASONS {
      StepCount(s, e, id, t, code);
    }
  }

  /** Every addition of every call keeps every counter equal to what it is meant to count. */
  lemma StepKeepsInv(s: State, e: Event, id: nat, t: State)
    requires Inv(s) && Step(s, e, id, t)
    ensures Inv(t)
  {
    StepSum(s, e, id, t, Block);
    StepSum(s, e, id, t, Image);
    StepSum(s, e, id, t, Regions);
    forall code: nat ensures CountsReason(t, code) {
      assert CountsReason(s, code);
      StepReason(s, e, id, t, code);
    }
  }

  lemma {:induction false} RunInv(run: seq<State>, k: nat)
    requires Run(run) && k < |run|
    ensures Inv(run[k])
  {
    if k > 0 {
      RunInv(run, k - 1);
      assert Next(run[k - 1], run[k]);
      var e, id :| Step(run[k - 1], e, id, run[k]);
      StepKeepsInv(run[k - 1], e, id, run[k]);
    }
  }

  // ---------- the breakdown ----------

  /** The sum of the exported per-reason counters. */
  function Breakdown(byReason: seq<nat>, below: nat): nat
    requires below <= |byReason|
  {
    if below <= 1 then 0 else Breakdown(byReason, below - 1) + byReason[below - 1]
  }

  lemma {:induction false} SumAdds(calls: seq<Call>, code: nat)
    requires 0 < code
    ensures Sum(calls, ReasonsBelow(code + 1)) == Sum(calls, ReasonsBelow(code)) + Sum(calls, Reason(code))
    ensures Sum(calls, ReasonsBelow(1)) == 0
  {
    if calls != [] {
      SumAdds(calls[..|calls| - 1], code);
    }
  }

  lemma {:induction false} BreakdownIsSum(s: State, below: nat)
    requires Inv(s) && 1 <= below <= REASONS
    ensures Breakdown(s.counters.byReason, below) == Sum(s.calls, ReasonsBelow(below))
  {
    SumAdds(s.calls, 1);
    if below > 1 {
      BreakdownIsSum(s, below - 1);
      SumAdds(s.calls, below - 1);
      assert CountsReason(s, below - 1);
    }
  }

  lemma {:induction false} BlocksSplit(calls: seq<Call>)
    ensures Sum(calls, Block) == Sum(calls, ReasonsBelow(REASONS)) + Sum(calls, Unattributed)
  {
    if calls != [] {
      BlocksSplit(calls[..|calls| - 1]);
    }
  }

  /** In every state of every interleaving, the total exceeds the breakdown by the number of
      calls standing between the two additions (and of blocks that named no reason). */
  lemma BreakdownLags(run: seq<State>, k: nat)
    requires Run(run) && k < |run|
    ensures var s := run[k];
            s.counters.Sized() &&
            s.counters.blocked == Breakdown(s.counters.byReason, REASONS) + Sum(s.calls, Unattributed)
  {
    RunInv(run, k);
    BreakdownIsSum(run[k], REASONS);
    BlocksSplit(run[k].calls);
  }

  lemma {:induction false} NoneUnattributed(calls: seq<Call>)
    ensures Sum(calls, Unattributed) == 0 <==> forall c | c in calls :: Unattributed.Of(c) == 0
  {
    if calls != [] {
      var n := |calls| - 1;
      NoneUnattributed(calls[..n]);
      assert calls == calls[..n] + [calls[n]];
    }
  }

  /** The breakdown sums to the total exactly when no call stands between the two additions
      and no refused call named no reason. */
  lemma BreakdownSumsExactly(run: seq<State>, k: nat)
    requires Run(run) && k < |run|
    ensures var s := run[k];
            s.counters.Sized() &&
            (Breakdown(s.counters.byReason, REASONS) == s.counters.blocked
             <==> forall c | c in s.calls :: Unattributed.Of(c) == 0)
  {
    BreakdownLags(run, k);
    NoneUnattributed(run[k].calls);
  }

  /** A run that ends between the two additions of a call. */
  lemma BlockedOnce() returns (run: seq<State>)
    ensures Run(run) && |run| == 3 && run[2].calls == [Blocking(Policy)]
  {
    var s0 := State(ZERO, []);
    var s1 := State(ZERO.Processed(), [Working]);
    var s2 := State(ZERO.Processed().Blocked(), [Blocking(Policy)]);
    assert Step(s0, Enter, 0, s1) by {
      assert s0.calls + [Working] == s1.calls;
    }
    assert Step(s1, CountBlock(Policy), 0, s2) by {
      assert [Working][0 := Blocking(Policy)] == [Blocking(Policy)];
    }
    run := [s0, s1, s2];
    assert Next(run[0], run[1]) && Next(run[1], run[2]);
  }

  /** It is not so at every moment: a call seen between its two additions. */
  lemma BreakdownCanLag()
    ensures exists run: seq<State>, k: nat :: Run(run) && k < |run| && run[k].counters.Sized() &&
              Breakdown(run[k].counters.byReason, REASONS) < run[k].counters.blocked
  {
    var run := BlockedOnce();
    BreakdownLags(run, 2);
    assert Sum(run[2].calls, Unattributed) == Unattributed.Of(Blocking(Policy));
  }

  ghost predicate Quiet(s: State) {
    forall c | c in s.calls :: c.Returned? && (c.outcome.Refused? ==> c.outcome.reason.Valid())
  }

  lemma {:induction false} QuietSplit(calls: seq<Call>)
    requires forall c | c in calls :: c.Returned?
    ensures |calls| == Sum(calls, Block) + Sum(calls, Passed)
  {
    if calls != [] {
      var n := |calls| - 1;
      assert forall c | c in calls[..n] :: c in calls;
      QuietSplit(calls[..n]);
      assert calls[n] in calls;
    }
  }

  /** When no call is in progress the counters balance: the breakdown sums to the blocks,
      every processed item was blocked or went on, and the regions masked are the box
      counts of the items that went on. */
  lemma QuietBalances(run: seq<State>, k: nat)
    requires Run(run) && k < |run| && Quiet(run[k])
    ensures var s := run[k];
            && s.counters.Sized()
            && Breakdown(s.counters.byReason, REASONS) == s.counters.blocked
            && s.counters.processed == s.counters.blocked + Sum(s.calls, Passed)
            && s.counters.masked == Sum(s.calls, Regions)
            && s.counters.sanitized == Sum(s.calls, Image)
  {
    RunInv(run, k);
    BreakdownSumsExactly(run, k);
    QuietSplit(run[k].calls);
  }
}
