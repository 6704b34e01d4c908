/** The response-body budget: reservations, settlements, and retries that spend inside one reservation. */
module ResponseBudget {

  const MAX_SAFE := 9_007_199_254_740_991

  predicate IsSafe(n: int) { -MAX_SAFE <= n <= MAX_SAFE }

  // ---------------------------------------------------------------- sums of grants

  function SumOf(grants: seq<int>): int {
    if grants == [] then 0 else grants[0] + SumOf(grants[1..])
  }

  /** The grants without one occurrence of `g`. */
  function Without(grants: seq<int>, g: int): seq<int> {
    if grants == [] then [] else if grants[0] == g then grants[1..] else [grants[0]] + Without(grants[1..], g)
  }

  lemma {:induction false} SumTakes(grants: seq<int>, g: int)
    requires g in grants
    ensures SumOf(grants) == g + SumOf(Without(grants, g))
    ensures multiset(Without(grants, g)) == multiset(grants) - multiset{g}
  {
    assert grants == [grants[0]] + grants[1..];
    if grants[0] != g {
      SumTakes(grants[1..], g);
    }
  }

  lemma {:induction false} SumAdds(grants: seq<int>, g: int)
    ensures SumOf(grants + [g]) == SumOf(grants) + g
  {
    if grants != [] {
      SumAdds(grants[1..], g);
      assert (grants + [g])[1..] == grants[1..] + [g];
    }
  }

  // ---------------------------------------------------------------- calls and what they leave

  datatype Call = Reserve(want: int) | Settle(reserved: int, used: int)

  /** `grants` has every reservation not yet settled. */
  datatype Ledger = Ledger(spent: int, grants: seq<int>)

  const EMPTY := Ledger(0, [])

  function Min(a: int, b: int): int { if a < b then a else b }

  /** What a reservation is granted; a call that throws grants nothing. */
  function Granted(limit: int, ledger: Ledger, want: int): int {
    if !IsSafe(want) || want <= 0 || limit - ledger.spent <= 0 then 0 else Min(want, limit - ledger.spent)
  }

  /** A settlement is accepted only against an outstanding grant of exactly that size. */
  predicate Accepted(ledger: Ledger, reserved: int, used: int) {
    IsSafe(reserved) && reserved > 0 && IsSafe(used) && used >= 0 && reserved in ledger.grants
  }

  function After(limit: int, ledger: Ledger, call: Call): Ledger {
    match call
    case Reserve(want) =>
      var grant := Granted(limit, ledger, want);
      if grant == 0 then ledger else Ledger(ledger.spent + grant, ledger.grants + [grant])
    case Settle(reserved, used) =>
      if !Accepted(ledger, reserved, used) then ledger
      else Ledger(ledger.spent + used - reserved, Without(ledger.grants, reserved))
  }

  // ---------------------------------------------------------------- the class

  /** The map counts how often each grant is outstanding. */
  ghost predicate Counts(outstanding: map<int, int>, grants: seq<int>) {
    forall g :: (g in outstanding <==> g in grants) && (g in outstanding ==> outstanding[g] == multiset(grants)[g])
  }

  function CountOf(outstanding: map<int, int>, g: int): int { if g in outstanding then outstanding[g] else 0 }

  lemma CountsMore(outstanding: map<int, int>, grants: seq<int>, g: int)
    requires Counts(outstanding, grants)
    ensures Counts(outstanding[g := CountOf(outstanding, g) + 1], grants + [g])
  {
    assert multiset(grants + [g]) == multiset(grants) + multiset{g};
  }

  lemma CountsTaken(outstanding: map<int, int>, grants: seq<int>, g: int)
    requires Counts(outstanding, grants)
    ensures g in grants <==> CountOf(outstanding, g) > 0
    ensures g in grants ==>
              Counts(if CountOf(outstanding, g) == 1 then outstanding - {g} else outstanding[g := CountOf(outstanding, g) - 1], Without(grants, g))
  {
    if g in grants {
      var rest := Without(grants, g);
      SumTakes(grants, g);
      forall x ensures x in rest <==> multiset(rest)[x] > 0 {
      }
    }
  }

  class Budget {
    const limit: int
    var spent: int
    var outstanding: map<int, int>

    ghost predicate Keeps(ledger: Ledger)
      reads this
    {
      limit > 0 && spent == ledger.spent && Counts(outstanding, ledger.grants)
    }

    constructor (limit: int)
      requires IsSafe(limit) && limit > 0
      ensures this.limit == limit && Keeps(EMPTY)
    {
      this.limit, spent, outstanding := limit, 0, map[];
    }

    method Reserve(want: int, ghost ledger: Ledger) returns (threw: bool, grant: int)
      requires Keeps(ledger)
      modifies this
      ensures Keeps(After(limit, ledger, Call.Reserve(want)))
      ensures threw <==> !IsSafe(want) || want < 0
      ensures grant == Granted(limit, ledger, want)
    {
      threw, grant := false, 0;
      if !IsSafe(want) || want < 0 {
        return true, 0;
      }
      if want == 0 {
        return;
      }
      var remaining := limit - spent;
      if remaining <= 0 {
        return;
      }
      grant := if want < remaining then want else remaining;
      spent := spent + grant;
      CountsMore(outstanding, ledger.grants, grant);
      outstanding := outstanding[grant := CountOf(outstanding, grant) + 1];
    }

    method Settle(reserved: int, used: int, ghost ledger: Ledger) returns (threw: bool)
      requires Keeps(ledger)
      modifies this
      ensures Keeps(After(limit, ledger, Call.Settle(reserved, used)))
      ensures threw <==> !Accepted(ledger, reserved, used)
      ensures threw ==> spent == old(spent) && outstanding == old(outstanding)
    {
      if !IsSafe(reserved) || reserved <= 0 || !IsSafe(used) || used < 0 {
        return true;
      }
      var count := CountOf(outstanding, reserved);
      CountsTaken(outstanding, ledger.grants, reserved);
      if count == 0 {
        return true;
      }
      if count == 1 {
        outstanding := outstanding - {reserved};
      } else {
        outstanding := outstanding[reserved := count - 1];
      }
      spent := spent + used - reserved;
      return false;
    }
  }

  /** Opening a budget throws unless the limit is a positive safe integer. */
  method Open(limit: int) returns (threw: bool, budget: Budget?)
    ensures threw <==> !IsSafe(limit) || limit <= 0
    ensures !threw ==> budget != null && fresh(budget) && budget.limit == limit && budget.Keeps(EMPTY)
  {
    if !IsSafe(limit) || limit <= 0 {
      return true, null;
    }
    threw := false;
    budget := new Budget(limit);
  }

  // ---------------------------------------------------------------- every sequence of calls

  function Run(limit: int, calls: seq<Call>): Ledger {
    if calls == [] then EMPTY else After(limit, Run(limit, calls[..|calls| - 1]), calls[|calls| - 1])
  }

  /** What the accepted settlements used. */
  function Used(limit: int, calls: seq<Call>): int {
    if calls == [] then 0
    else
      var before, call := calls[..|calls| - 1], calls[|calls| - 1];
      Used(limit, before) + if call.Settle? && Accepted(Run(limit, before), call.reserved, call.used) then call.used else 0
  }

  /** By how much the accepted settlements went over their grants. */
  function Overage(limit: int, calls: seq<Call>): int {
    if calls == [] then 0
    else
      var before, call := calls[..|calls| - 1], calls[|calls| - 1];
      Overage(limit, before)
      + if call.Settle? && Accepted(Run(limit, before), call.reserved, call.used) && call.used > call.reserved then call.used - call.reserved else 0
  }

  ghost predicate AllPositive(grants: seq<int>) { forall i :: 0 <= i < |grants| ==> grants[i] > 0 }

  lemma {:induction false} SumNotNegative(grants: seq<int>)
    requires AllPositive(grants)
    ensures SumOf(grants) >= 0
  {
    if grants != [] {
      SumNotNegative(grants[1..]);
    }
  }

  lemma {:induction false} RestPositive(grants: seq<int>, g: int)
    requires AllPositive(grants)
    ensures AllPositive(Without(grants, g))
  {
    if grants != [] && grants[0] != g {
      RestPositive(grants[1..], g);
    }
  }

  /** What is spent is `used` and what is outstanding; it is past the limit by no more than `overage`. */
  ghost predicate Balance(limit: int, l: Ledger, used: int, overage: int) {
    l.spent == used + SumOf(l.grants) && 0 <= l.spent <= limit + overage && used >= 0 && overage >= 0 && AllPositive(l.grants)
  }

  lemma ReserveBalances(limit: int, l: Ledger, used: int, overage: int, want: int)
    requires Balance(limit, l, used, overage)
    ensures Balance(limit, After(limit, l, Reserve(want)), used, overage)
  {
    SumAdds(l.grants, Granted(limit, l, want));
  }

  lemma SettleBalances(limit: int, l: Ledger, used: int, overage: int, reserved: int, more: int)
    requires Balance(limit, l, used, overage) && Accepted(l, reserved, more)
    ensures Balance(limit, After(limit, l, Settle(reserved, more)), used + more, overage + if more > reserved then more - reserved else 0)
  {
    var rest := Without(l.grants, reserved);
    SumTakes(l.grants, reserved);
    RestPositive(l.grants, reserved);
    SumNotNegative(rest);
  }

  /** After any calls, what is spent is what settlements used and what is outstanding, never more than the limit and the overages. */
  lemma {:induction false} Balanced(limit: int, calls: seq<Call>)
    requires limit > 0
    ensures Balance(limit, Run(limit, calls), Used(limit, calls), Overage(limit, calls))
  {
    if calls != [] {
      var before, call := calls[..|calls| - 1], calls[|calls| - 1];
      var l, used, overage := Run(limit, before), Used(limit, before), Overage(limit, before);
      Balanced(limit, before);
      if call.Reserve? {
        ReserveBalances(limit, l, used, overage, call.want);
      } else if Accepted(l, call.reserved, call.used) {
        SettleBalances(limit, l, used, overage, call.reserved, call.used);
      }
    }
  }

  /** A reservation gets what it wants or all that is left, never takes the budget past its limit, and past it gets nothing. */
  lemma ReservationFits(limit: int, calls: seq<Call>, want: int)
    requires limit > 0
    ensures var before, after, grant := Run(limit, calls), Run(limit, calls + [Reserve(want)]), Granted(limit, Run(limit, calls), want);
            && 0 <= grant && (want >= 0 ==> grant <= want)
            && after.spent == before.spent + grant
            && (grant > 0 ==> after.spent <= limit && (grant == want || after.spent == limit))
            && (grant == 0 <==> !IsSafe(want) || want <= 0 || before.spent >= limit)
  {
    assert (calls + [Reserve(want)])[..|calls|] == calls;
  }

  lemma RunMore(limit: int, calls: seq<Call>, call: Call)
    ensures Run(limit, calls + [call]) == After(limit, Run(limit, calls), call)
  {
    assert (calls + [call])[..|calls|] == calls;
  }

  lemma GrantIsTaken(grants: seq<int>, grant: int)
    ensures multiset(Without(grants + [grant], grant)) == multiset(grants)
  {
    SumTakes(grants + [grant], grant);
    assert multiset(grants + [grant]) == multiset(grants) + multiset{grant};
  }

  lemma SettledAtOnce(limit: int, l: Ledger, want: int, used: int)
    requires IsSafe(limit) && l.spent >= 0 && IsSafe(used) && used >= 0 && Granted(limit, l, want) > 0
    ensures var after := After(limit, After(limit, l, Reserve(want)), Settle(Granted(limit, l, want), used));
            after.spent == l.spent + used && multiset(after.grants) == multiset(l.grants)
  {
    GrantIsTaken(l.grants, Granted(limit, l, want));
  }

  /** Reserving and settling costs exactly what was used, whatever was granted. */
  lemma SettlementChargesUse(limit: int, calls: seq<Call>, want: int, used: int)
    requires limit > 0 && IsSafe(limit) && IsSafe(used) && used >= 0 && Granted(limit, Run(limit, calls), want) > 0
    ensures var grant := Granted(limit, Run(limit, calls), want);
            var after := Run(limit, calls + [Reserve(want)] + [Settle(grant, used)]);
            after.spent == Run(limit, calls).spent + used && multiset(after.grants) == multiset(Run(limit, calls).grants)
  {
    var l, grant := Run(limit, calls), Granted(limit, Run(limit, calls), want);
    RunMore(limit, calls, Reserve(want));
    RunMore(limit, calls + [Reserve(want)], Settle(grant, used));
    Balanced(limit, calls);
    SettledAtOnce(limit, l, want, used);
  }

  /** Once everything is settled, what is spent is what was used. */
  lemma AllSettled(limit: int, calls: seq<Call>)
    requires limit > 0 && Run(limit, calls).grants == []
    ensures Run(limit, calls).spent == Used(limit, calls)
  {
    Balanced(limit, calls);
  }

  // ---------------------------------------------------------------- retries inside a grant

  /** What an attempt gave: how many bytes came, and whether the policy would try again. */
  datatype Answer = Answer(received: int, retryable: bool)

  /** What the first `n` attempts received together. */
  function Consumed(answers: seq<Answer>, n: nat): int
    requires n <= |answers|
  {
    if n == 0 then 0 else Consumed(answers, n - 1) + answers[n - 1].received
  }

  /** What is left of the grant, the cap of the attempt after the first `n`. */
  function Cap(answers: seq<Answer>, grant: int, n: nat): int
    requires n <= |answers|
  {
    grant - Consumed(answers, n)
  }

  /** None of the first `n` attempts received more than its cap. */
  ghost predicate RespectCaps(answers: seq<Answer>, grant: int, n: nat)
    requires n <= |answers|
  {
    forall i: nat :: i < n ==> answers[i].received <= Cap(answers, grant, i)
  }

  /** The first `n` attempts were due: there was something left for each, and only a retryable one was followed by another. */
  ghost predicate Due(answers: seq<Answer>, grant: int, n: nat)
    requires n <= |answers|
  {
    forall i: nat :: i < n ==> Cap(answers, grant, i) > 0 && answers[i].received >= 0 && (i + 1 < n ==> answers[i].retryable)
  }

  datatype Fetched = Fetched(answer: Answer, consumed: int) | Threw

  predicate BadRequest(grant: int, maxAttempts: int, delayMs: int) {
    !IsSafe(grant) || grant <= 0 || !IsSafe(maxAttempts) || maxAttempts <= 0 || !IsSafe(delayMs) || delayMs < 0
  }

  /** A request is refused unless grant and attempts are positive, the delay is not negative, and all are below 2^53. */
  lemma RequestExactly(grant: int, maxAttempts: int, delayMs: int)
    ensures !BadRequest(grant, maxAttempts, delayMs) <==>
            0 < grant < 0x20_0000_0000_0000 && 0 < maxAttempts < 0x20_0000_0000_0000 && 0 <= delayMs < 0x20_0000_0000_0000
  {
  }

  predicate BadCount(received: int) { !IsSafe(received) || received < 0 }

  /** The first `n` attempts had safe byte counts. */
  predicate SafeCounts(answers: seq<Answer>, n: nat)
    requires n <= |answers|
  {
    n == 0 || (SafeCounts(answers, n - 1) && !BadCount(answers[n - 1].received))
  }

  /**
   * `fetchWithinBudget`. It makes at most `maxAttempts` attempts, each capped by what is left of the grant, and stops early
   * only at an answer that is not retryable or when nothing is left. It throws exactly on an invalid request and at the first
   * attempt with an unsafe byte count. If attempts respect their caps it stays inside the grant, and in any case only the last
   * attempt can have gone over.
   */
  method FetchWithinBudget(answers: seq<Answer>, grant: int, maxAttempts: int, delayMs: int) returns (r: Fetched, ghost attempts: nat)
    requires maxAttempts <= |answers|
    ensures BadRequest(grant, maxAttempts, delayMs) ==> r.Threw?
    ensures r.Threw? && !BadRequest(grant, maxAttempts, delayMs) ==>
              attempts < maxAttempts && BadCount(answers[attempts].received) && Due(answers, grant, attempts)
              && (attempts > 0 ==> answers[attempts - 1].retryable && Cap(answers, grant, attempts) > 0)
    ensures r.Fetched? ==> !BadRequest(grant, maxAttempts, delayMs) && 1 <= attempts <= maxAttempts
    ensures r.Fetched? ==> SafeCounts(answers, attempts)
    ensures r.Fetched? ==>
              && Due(answers, grant, attempts)
              && r.answer == answers[attempts - 1] && r.consumed == Consumed(answers, attempts)
              && (!r.answer.retryable || attempts == maxAttempts || r.consumed >= grant)
              && (RespectCaps(answers, grant, attempts) ==> r.consumed <= grant)
              && Consumed(answers, attempts - 1) < grant
  {
    attempts := 0;
    if BadRequest(grant, maxAttempts, delayMs) {
      return Threw, attempts;
    }
    var result := answers[0];
    if BadCount(result.received) {
      return Threw, attempts;
    }
    var consumed, made := result.received, 1;
    attempts := 1;
    while result.retryable && made < maxAttempts && grant - consumed > 0
      invariant 1 <= made <= maxAttempts <= |answers| && made == attempts && result == answers[made - 1]
      invariant consumed == Consumed(answers, made) && Due(answers, grant, made)
      invariant SafeCounts(answers, made)
      decreases maxAttempts - made
    {
      result := answers[made];
      if BadCount(result.received) {
        return Threw, attempts;
      }
      DueNext(answers, grant, made);
      consumed := consumed + result.received;
      made := made + 1;
      attempts := made;
    }
    assert Cap(answers, grant, attempts - 1) > 0;
    return Fetched(result, consumed), attempts;
  }

  lemma DueNext(answers: seq<Answer>, grant: int, n: nat)
    requires 0 < n < |answers| && Due(answers, grant, n) && Cap(answers, grant, n) > 0 && answers[n - 1].retryable && answers[n].received >= 0
    ensures Due(answers, grant, n + 1) && Consumed(answers, n + 1) == Consumed(answers, n) + answers[n].received
  {
  }
}
