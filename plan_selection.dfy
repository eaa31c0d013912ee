/** Selection of the best plan for an intent from the records of the plans ledger:
    keep the records of the requested intent, fail when there are none, otherwise
    return the plan id of the first record whose Expected Value is maximal. */
module PlanSelection {
  import opened Wrappers

  /** One record of the plans ledger (one JSON object per line). The intent id is
      optional because the selector looks it up with a default of "missing". */
  datatype Plan = Plan(intentId: Option<string>, planId: string, pSuccess: real, entropy: real)

  /** The failure raised when the ledger holds no plan for the requested intent. */
  datatype SelectError = NoPlansFound(intentId: string)

  /** The Expected Value the selector ranks by: P(success) minus entropy. */
  function Score(p: Plan): real {
    p.pSuccess - p.entropy
  }

  /** A record belongs to the requested intent when its intent id is present and equal. */
  predicate Matches(p: Plan, intentId: string) {
    p.intentId == Some(intentId)
  }

  /** The records of the requested intent, in ledger order: every kept record belongs
      to the intent, and none is invented. CandidatesMembers states which records are
      kept, CandidatesAppend that ledger order and repetitions are preserved. */
  function Candidates(plans: seq<Plan>, intentId: string): (r: seq<Plan>)
    ensures |r| <= |plans|
    ensures forall k :: 0 <= k < |r| ==> Matches(r[k], intentId)
  {
    if plans == [] then []
    else
      var last := plans[|plans| - 1];
      Candidates(plans[..|plans| - 1], intentId) + (if Matches(last, intentId) then [last] else [])
  }

  /** The candidates are exactly the records of the input that belong to the intent. */
  lemma {:induction false} CandidatesMembers(plans: seq<Plan>, intentId: string)
    ensures forall p :: p in Candidates(plans, intentId) <==> p in plans && Matches(p, intentId)
  {
    if plans != [] {
      var init, last := plans[..|plans| - 1], plans[|plans| - 1];
      assert plans == init + [last];
      CandidatesMembers(init, intentId);
    }
  }

  /** The position of the first record of maximal score, scanning left to right and
      replacing the current best only by a strictly greater score. */
  function BestIndex(ps: seq<Plan>): (k: nat)
    requires |ps| > 0
    ensures k < |ps|
    ensures forall j :: 0 <= j < |ps| ==> Score(ps[j]) <= Score(ps[k])
    ensures forall j :: 0 <= j < k ==> Score(ps[j]) < Score(ps[k])
  {
    if |ps| == 1 then 0
    else
      var k := BestIndex(ps[..|ps| - 1]);
      if Score(ps[|ps| - 1]) > Score(ps[k]) then |ps| - 1 else k
  }

  /** Reference definition of the selected record: position i of the input holds a record
      of the requested intent, no record of that intent scores higher, and every record of
      that intent before it scores strictly lower. */
  ghost predicate IsFirstBest(plans: seq<Plan>, intentId: string, i: int) {
    && 0 <= i < |plans|
    && Matches(plans[i], intentId)
    && (forall j :: 0 <= j < |plans| && Matches(plans[j], intentId) ==> Score(plans[j]) <= Score(plans[i]))
    && (forall j :: 0 <= j < i && Matches(plans[j], intentId) ==> Score(plans[j]) < Score(plans[i]))
  }

  /** Appending a record of another intent keeps the first best position. */
  lemma AppendForeignKeepsFirstBest(init: seq<Plan>, p: Plan, intentId: string, i: int)
    requires !Matches(p, intentId) && IsFirstBest(init, intentId, i)
    ensures IsFirstBest(init + [p], intentId, i)
  {
  }

  /** Appending a record of the intent that scores strictly above the current best
      makes it the first best. */
  lemma AppendBetterBecomesFirstBest(init: seq<Plan>, p: Plan, intentId: string, i: int)
    requires Matches(p, intentId) && IsFirstBest(init, intentId, i) && Score(p) > Score(init[i])
    ensures IsFirstBest(init + [p], intentId, |init|)
  {
  }

  /** Appending a record of the intent that does not score above the current best
      keeps the first best: ties go to the earlier record. */
  lemma AppendTieKeepsFirstBest(init: seq<Plan>, p: Plan, intentId: string, i: int)
    requires Matches(p, intentId) && IsFirstBest(init, intentId, i) && Score(p) <= Score(init[i])
    ensures IsFirstBest(init + [p], intentId, i)
  {
  }

  /** Appending the first record of the intent makes it the first best. */
  lemma AppendOnlyBecomesFirstBest(init: seq<Plan>, p: Plan, intentId: string)
    requires Matches(p, intentId)
    requires forall j :: 0 <= j < |init| ==> !Matches(init[j], intentId)
    ensures IsFirstBest(init + [p], intentId, |init|)
  {
  }

  /** The record BestIndex picks among the candidates is the first best record of the
      input; the position is returned so that callers need not search for it. */
  lemma {:induction false} BestCandidatePosition(plans: seq<Plan>, intentId: string) returns (i: int)
    requires Candidates(plans, intentId) != []
    ensures IsFirstBest(plans, intentId, i)
    ensures plans[i] == Candidates(plans, intentId)[BestIndex(Candidates(plans, intentId))]
  {
    var n := |plans|;
    var init, last := plans[..n - 1], plans[n - 1];
    assert plans == init + [last];
    var c, c0 := Candidates(plans, intentId), Candidates(init, intentId);
    if !Matches(last, intentId) {
      assert c == c0;
      i := BestCandidatePosition(init, intentId);
      AppendForeignKeepsFirstBest(init, last, intentId, i);
    } else if c0 == [] {
      assert c == [last];
      CandidatesMembers(init, intentId);
      assert forall j :: 0 <= j < |init| ==> init[j] in init;
      AppendOnlyBecomesFirstBest(init, last, intentId);
      i := n - 1;
    } else {
      assert c == c0 + [last];
      assert c[..|c| - 1] == c0;
      var i0 := BestCandidatePosition(init, intentId);
      if Score(last) > Score(init[i0]) {
        AppendBetterBecomesFirstBest(init, last, intentId, i0);
        i := n - 1;
      } else {
        AppendTieKeepsFirstBest(init, last, intentId, i0);
        i := i0;
      }
    }
  }

  /** The record BestIndex picks among the candidates is the first best record of the input. */
  lemma BestCandidateIsFirstBest(plans: seq<Plan>, intentId: string)
    requires Candidates(plans, intentId) != []
    ensures exists i :: (IsFirstBest(plans, intentId, i)
      && plans[i].planId == Candidates(plans, intentId)[BestIndex(Candidates(plans, intentId))].planId)
  {
    var i := BestCandidatePosition(plans, intentId);
  }

  /** The plan id of the record to execute for the intent, or NoPlansFound when the
      ledger holds no record of that intent (including an empty ledger). */
  function SelectBestPlan(plans: seq<Plan>, intentId: string): (r: Result<string, SelectError>)
    ensures r.Err? <==> forall i :: 0 <= i < |plans| ==> !Matches(plans[i], intentId)
    ensures r.Err? ==> r.error == NoPlansFound(intentId)
    ensures r.Ok? ==> exists i :: IsFirstBest(plans, intentId, i) && plans[i].planId == r.value
  {
    var candidates := Candidates(plans, intentId);
    CandidatesMembers(plans, intentId);
    if candidates == [] then
      Err(NoPlansFound(intentId))
    else
      BestCandidateIsFirstBest(plans, intentId);
      Ok(candidates[BestIndex(candidates)].planId)
  }

  /** At most one position of the input is the first best record of an intent. */
  lemma FirstBestUnique(plans: seq<Plan>, intentId: string, i: int, j: int)
    requires IsFirstBest(plans, intentId, i) && IsFirstBest(plans, intentId, j)
    ensures i == j
  {
  }

  /** The converse of SelectBestPlan's contract: the plan id of the first best record
      is exactly what the selector returns, so the reference definition decides the result. */
  lemma SelectBestPlanOfFirstBest(plans: seq<Plan>, intentId: string, i: int)
    requires IsFirstBest(plans, intentId, i)
    ensures SelectBestPlan(plans, intentId) == Ok(plans[i].planId)
  {
    var r := SelectBestPlan(plans, intentId);
    assert r.Ok?;
    var k :| IsFirstBest(plans, intentId, k) && plans[k].planId == r.value;
    FirstBestUnique(plans, intentId, i, k);
  }

  /** With a single record of the intent in the ledger, its plan id is chosen, whatever its score. */
  lemma SingleCandidateSelected(plans: seq<Plan>, intentId: string, k: int)
    requires 0 <= k < |plans| && Matches(plans[k], intentId)
    requires forall j :: 0 <= j < |plans| && j != k ==> !Matches(plans[j], intentId)
    ensures SelectBestPlan(plans, intentId) == Ok(plans[k].planId)
  {
    assert IsFirstBest(plans, intentId, k);
    SelectBestPlanOfFirstBest(plans, intentId, k);
  }

  /** A ledger with no records, as read from a missing plans file, yields the error. */
  lemma EmptyLedgerFails(intentId: string)
    ensures SelectBestPlan([], intentId) == Err(NoPlansFound(intentId))
  {
  }

  /** Filtering distributes over concatenation of ledger segments. */
  lemma {:induction false} CandidatesAppend(a: seq<Plan>, b: seq<Plan>, intentId: string)
    ensures Candidates(a + b, intentId) == Candidates(a, intentId) + Candidates(b, intentId)
  {
    if b != [] {
      var n := |b|;
      assert (a + b)[..|a + b| - 1] == a + b[..n - 1];
      CandidatesAppend(a, b[..n - 1], intentId);
    } else {
      assert a + b == a;
    }
  }

  /** Filtering twice keeps the same records as filtering once. */
  lemma {:induction false} CandidatesIdempotent(plans: seq<Plan>, intentId: string)
    ensures Candidates(Candidates(plans, intentId), intentId) == Candidates(plans, intentId)
  {
    if plans != [] {
      var init, last := plans[..|plans| - 1], plans[|plans| - 1];
      var c0 := Candidates(init, intentId);
      var tail := if Matches(last, intentId) then [last] else [];
      CandidatesIdempotent(init, intentId);
      CandidatesAppend(c0, tail, intentId);
      if Matches(last, intentId) {
        assert Candidates(tail, intentId) == Candidates([], intentId) + [last];
      }
    }
  }

  /** A record of another intent, or one with no intent id, inserted anywhere in the
      ledger does not change the result. */
  lemma InsertForeignRecord(a: seq<Plan>, b: seq<Plan>, p: Plan, intentId: string)
    requires !Matches(p, intentId)
    ensures SelectBestPlan(a + [p] + b, intentId) == SelectBestPlan(a + b, intentId)
  {
    assert [p][..0] == [];
    assert Candidates([p], intentId) == [];
    CandidatesAppend(a, [p], intentId);
    assert Candidates(a + [p], intentId) == Candidates(a, intentId);
    CandidatesAppend(a + [p], b, intentId);
    CandidatesAppend(a, b, intentId);
  }

  /** Removing every record of other intents does not change the result; together with
      InsertForeignRecord, foreign records may be added, dropped or reordered freely. */
  lemma DropForeignRecords(plans: seq<Plan>, intentId: string)
    ensures SelectBestPlan(Candidates(plans, intentId), intentId) == SelectBestPlan(plans, intentId)
  {
    CandidatesIdempotent(plans, intentId);
  }
}
