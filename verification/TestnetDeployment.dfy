/** The deployment step machine of scripts/deploy/testnet-full.ts: twelve steps whose status table is
    changed in place, three flags, and any step may throw. */
module TestnetDeployment {

  datatype Status = Pending | Running | Success | Failed | Skipped

  const STEPS := 12

  datatype Flags = Flags(skipKeys: bool, skipL1: bool, contractsOnly: bool)

  /** Which steps the flags skip. */
  predicate SkippedBy(f: Flags, i: nat) {
    || (f.contractsOnly && (1 <= i <= 7 || i == 10))
    || (f.skipKeys && i == 1)
    || (f.skipL1 && i == 4)
  }

  /** fate(i) says whether the work of step i would succeed. */
  type Fates = nat -> bool

  predicate Fails(f: Flags, fate: Fates, i: nat) {
    !SkippedBy(f, i) && !fate(i)
  }

  /** The first step from k on that runs and fails, or STEPS. */
  function FirstFailure(f: Flags, fate: Fates, k: nat): (i: nat)
    requires k <= STEPS
    ensures k <= i <= STEPS
    ensures forall j :: k <= j < i ==> !Fails(f, fate, j)
    ensures i < STEPS ==> Fails(f, fate, i)
    decreases STEPS - k
  {
    if k == STEPS || Fails(f, fate, k) then k else FirstFailure(f, fate, k + 1)
  }

  predicate Finished(s: Status) {
    s == Success || s == Skipped
  }

  /** Finished steps, then at most one running or failed step at position k, then only pending ones. */
  predicate InOrder(table: seq<Status>, k: nat) {
    && k <= |table| == STEPS
    && (forall i :: 0 <= i < k ==> Finished(table[i]))
    && (forall i :: k < i < STEPS ==> table[i] == Pending)
    && (k < STEPS ==> !Finished(table[k]))
  }

  ghost predicate WellOrdered(table: seq<Status>) {
    exists k: nat :: InOrder(table, k)
  }

  /** One update of the table: one step moves on; leaving pending happens to the first pending step only. */
  ghost predicate LegalMove(before: seq<Status>, after: seq<Status>) {
    |after| == |before| && exists k: nat :: MovesAt(before, after, k)
  }

  predicate MovesAt(before: seq<Status>, after: seq<Status>, k: nat)
    requires |after| == |before|
  {
    && InOrder(before, k) && k < STEPS && after == before[k := after[k]]
    && (|| (before[k] == Pending && after[k] in {Running, Skipped})
        || (before[k] == Running && after[k] in {Success, Failed}))
  }

  /** Every table the run shows, from the initial one on. */
  ghost predicate LegalRun(log: seq<seq<Status>>) {
    && log != [] && log[0] == seq(STEPS, _ => Pending)
    && (forall n :: 0 <= n < |log| ==> WellOrdered(log[n]))
    && (forall n :: 0 <= n < |log| - 1 ==> LegalMove(log[n], log[n + 1]))
  }

  /** The final status of every step, from the flags and the fates alone. */
  function FinalStatus(f: Flags, fate: Fates, i: nat): Status {
    var bad := FirstFailure(f, fate, 0);
    if i > bad then Pending else if i == bad then Failed else if SkippedBy(f, i) then Skipped else Success
  }

  class Deployment {
    var steps: array<Status>
    ghost var log: seq<seq<Status>>

    ghost predicate Valid()
      reads this, steps
    {
      steps.Length == STEPS && LegalRun(log) && log[|log| - 1] == steps[..]
    }

    constructor ()
      ensures Valid() && fresh(steps)
      ensures InOrder(steps[..], 0) && steps[..] == seq(STEPS, _ => Pending)
    {
      steps := new Status[STEPS](_ => Pending);
      new;
      log := [steps[..]];
      assert steps[..] == seq(STEPS, _ => Pending);
      assert InOrder(log[0], 0);
    }

    /** updateStep: one status is set, and the table is shown. */
    method UpdateStep(index: nat, status: Status)
      requires index < steps.Length
      modifies this`log, steps
      ensures steps == old(steps)
      ensures steps[..] == old(steps[..])[index := status]
      ensures log == old(log) + [steps[..]]
    {
      steps[index] := status;
      log := log + [steps[..]];
    }

    /** runStep: false stands for the rethrown error. */
    method RunStep(index: nat, fate: bool) returns (ok: bool)
      requires index < steps.Length
      modifies this`log, steps
      ensures steps == old(steps) && ok == fate
      ensures steps[..] == old(steps[..])[index := if ok then Success else Failed]
      ensures log == old(log) + [old(steps[..])[index := Running]] + [steps[..]]
    {
      UpdateStep(index, Running);
      UpdateStep(index, if fate then Success else Failed);
      ok := fate;
    }

    /** One step of main, the first unfinished one: skipped or run. */
    method SkipOrRun(index: nat, skip: bool, fate: bool) returns (ok: bool)
      requires Valid() && index < STEPS && InOrder(steps[..], index) && steps[index] == Pending
      modifies this`log, steps
      ensures Valid() && steps == old(steps) && ok == (skip || fate)
      ensures steps[..] == old(steps[..])[index := if skip then Skipped else if fate then Success else Failed]
      ensures InOrder(steps[..], if ok then index + 1 else index)
    {
      if skip {
        SkipIsLegal(log, index);
        UpdateStep(index, Skipped);
        ok := true;
      } else {
        RunIsLegal(log, index, if fate then Success else Failed);
        ok := RunStep(index, fate);
      }
    }

    /** What such a step does to the progress of the whole run. */
    method Perform(f: Flags, fate: Fates, index: nat) returns (ok: bool)
      requires Valid() && index < STEPS && Reached(f, fate, index)
      modifies this`log, steps
      ensures Valid() && steps == old(steps) && ok == !Fails(f, fate, index)
      ensures ok ==> Reached(f, fate, index + 1)
      ensures !ok ==> Ended(f, fate) && FirstFailure(f, fate, 0) < STEPS
    {
      ok := SkipOrRun(index, SkippedBy(f, index), fate(index));
    }

    /** The table when every step before k is done as the flags say and the rest has not begun. */
    ghost predicate Reached(f: Flags, fate: Fates, k: nat)
      reads this, steps
    {
      && k <= STEPS == steps.Length && InOrder(steps[..], k)
      && FirstFailure(f, fate, 0) >= k
      && (forall i :: 0 <= i < k ==> steps[i] == if SkippedBy(f, i) then Skipped else Success)
      && (forall i :: k <= i < STEPS ==> steps[i] == Pending)
    }

    ghost predicate Ended(f: Flags, fate: Fates)
      reads this, steps
    {
      steps.Length == STEPS && forall i :: 0 <= i < STEPS ==> steps[i] == FinalStatus(f, fate, i)
    }

    /** Steps 1 to 7, when not only contracts are deployed. */
    method Infrastructure(f: Flags, fate: Fates) returns (ok: bool)
      requires Valid() && Reached(f, fate, 1)
      modifies this`log, steps
      ensures Valid() && steps == old(steps)
      ensures ok ==> Reached(f, fate, 8)
      ensures !ok ==> Ended(f, fate) && FirstFailure(f, fate, 0) < STEPS
    {
      ok := Preparation(f, fate);
      if ok { ok := Perform(f, fate, 4); }
      if ok { ok := Perform(f, fate, 5); }
      if ok { ok := Perform(f, fate, 6); }
      if ok { ok := Perform(f, fate, 7); }
    }

    /** Steps 1 to 3 of them, before the first contracts. */
    method Preparation(f: Flags, fate: Fates) returns (ok: bool)
      requires Valid() && Reached(f, fate, 1)
      modifies this`log, steps
      ensures Valid() && steps == old(steps)
      ensures ok ==> Reached(f, fate, 4)
      ensures !ok ==> Ended(f, fate) && FirstFailure(f, fate, 0) < STEPS
    {
      ok := Perform(f, fate, 1);
      if ok { ok := Perform(f, fate, 2); }
      if ok { ok := Perform(f, fate, 3); }
    }

    /** With contractsOnly the same steps are marked as skipped. */
    method SkipInfrastructure(f: Flags, fate: Fates)
      requires Valid() && Reached(f, fate, 1) && f.contractsOnly
      modifies this`log, steps
      ensures Valid() && steps == old(steps) && Reached(f, fate, 8)
    {
      for i := 1 to 8
        invariant Valid() && steps == old(steps) && Reached(f, fate, i)
      {
        SkipIsLegal(log, i);
        UpdateStep(i, Skipped);
      }
    }

    /** Steps 8 to 11. */
    method Contracts(f: Flags, fate: Fates) returns (ok: bool)
      requires Valid() && Reached(f, fate, 8)
      modifies this`log, steps
      ensures Valid() && steps == old(steps) && Ended(f, fate)
      ensures ok <==> FirstFailure(f, fate, 0) == STEPS
    {
      ok := Perform(f, fate, 8);
      if ok { ok := Perform(f, fate, 9); }
      if ok { ok := Perform(f, fate, 10); }
      if ok { ok := Perform(f, fate, 11); }
    }

    /** The try block of main: false stands for an error. */
    method AllSteps(f: Flags, fate: Fates) returns (ok: bool)
      requires Valid() && Reached(f, fate, 0)
      modifies this`log, steps
      ensures Valid() && steps == old(steps) && Ended(f, fate)
      ensures ok <==> FirstFailure(f, fate, 0) == STEPS
    {
      ok := Perform(f, fate, 0);
      if !ok { return; }
      if !f.contractsOnly {
        ok := Infrastructure(f, fate);
        if !ok { return; }
      } else {
        SkipInfrastructure(f, fate);
      }
      ok := Contracts(f, fate);
    }

    /** main: true is the normal end, false the exit with an error; failedAt is the step it names. */
    method Run(f: Flags, fate: Fates) returns (ok: bool, failedAt: int)
      requires Valid() && Reached(f, fate, 0)
      modifies this`log, steps
      ensures Valid() && Ended(f, fate)
      ensures ok <==> forall i :: 0 <= i < STEPS ==> !Fails(f, fate, i)
      ensures !ok ==> 0 <= failedAt < STEPS && failedAt == FirstFailure(f, fate, 0)
      ensures !ok ==> forall i :: 0 <= i < STEPS ==> (steps[i] == Failed <==> i == failedAt)
    {
      ok := AllSteps(f, fate);
      failedAt := -1;
      if !ok {
        failedAt := FindFailed(f, fate);
      }
    }

    /** The first step of the table that failed. */
    method FindFailed(f: Flags, fate: Fates) returns (i: nat)
      requires Ended(f, fate) && FirstFailure(f, fate, 0) < STEPS
      ensures i == FirstFailure(f, fate, 0)
    {
      i := 0;
      while steps[i] != Failed
        invariant i <= FirstFailure(f, fate, 0)
        decreases STEPS - i
      {
        i := i + 1;
      }
    }
  }

  /** A legal move of the last table makes a longer legal run. */
  lemma ExtendLog(log: seq<seq<Status>>, after: seq<Status>, k: nat)
    requires LegalRun(log) && |after| == |log[|log| - 1]| && MovesAt(log[|log| - 1], after, k)
    ensures InOrder(after, if Finished(after[k]) then k + 1 else k) && LegalRun(log + [after])
  {
    var longer := log + [after];
    assert InOrder(after, if Finished(after[k]) then k + 1 else k);
    forall m | 0 <= m < |longer| - 1 ensures LegalMove(longer[m], longer[m + 1]) {
      if m < |log| - 1 { assert LegalMove(log[m], log[m + 1]); }
    }
  }

  lemma SkipIsLegal(log: seq<seq<Status>>, k: nat)
    requires LegalRun(log) && k < STEPS && InOrder(log[|log| - 1], k) && log[|log| - 1][k] == Pending
    ensures var after := log[|log| - 1][k := Skipped]; InOrder(after, k + 1) && LegalRun(log + [after])
  {
    ExtendLog(log, log[|log| - 1][k := Skipped], k);
  }

  lemma RunIsLegal(log: seq<seq<Status>>, k: nat, end: Status)
    requires LegalRun(log) && k < STEPS && InOrder(log[|log| - 1], k) && log[|log| - 1][k] == Pending
    requires end in {Success, Failed}
    ensures var running, after := log[|log| - 1][k := Running], log[|log| - 1][k := end];
            InOrder(after, if end == Success then k + 1 else k) && LegalRun(log + [running] + [after])
  {
    var running, after := log[|log| - 1][k := Running], log[|log| - 1][k := end];
    ExtendLog(log, running, k);
    ExtendLog(log + [running], after, k);
  }

  // ---------- what a legal run implies ----------

  /** Each step leaves pending at most once and in index order: when step j has left, every step
      before it has left and is finished. */
  lemma {:induction false} StepsLeaveInOrder(log: seq<seq<Status>>, m: nat, n: nat, i: nat, j: nat)
    requires LegalRun(log) && m <= n < |log| && i < j < STEPS
    ensures |log[m]| == |log[n]| == STEPS
    ensures log[m][j] != Pending ==> log[n][j] != Pending
    ensures log[n][j] != Pending ==> Finished(log[n][i])
    decreases n - m
  {
    assert WellOrdered(log[m]) && WellOrdered(log[n]);
    if m < n {
      StepsLeaveInOrder(log, m, n - 1, i, j);
      assert LegalMove(log[n - 1], log[n - 1 + 1]);
    }
  }

  // ---------- what the flags do ----------

  /** The table of a run in which every step that runs succeeds. */
  function Planned(f: Flags): (table: seq<Status>)
    ensures |table| == STEPS
  {
    var infrastructure := if f.contractsOnly then Skipped else Success;
    var keys := if f.skipKeys then Skipped else infrastructure;
    var l1 := if f.skipL1 then Skipped else infrastructure;
    [ Success, keys, infrastructure, infrastructure,
      l1, infrastructure, infrastructure, infrastructure,
      Success, Success, infrastructure, Success ]
  }

  /** The final table is the planned one up to the first step that was to run and failed; that step
      is failed, and the others are pending. */
  lemma EndsAsPlanned(f: Flags, fate: Fates, i: nat)
    requires i < STEPS
    ensures FinalStatus(f, fate, i) ==
            if exists j :: 0 <= j < i && Planned(f)[j] == Success && !fate(j) then Pending
            else if Planned(f)[i] == Success && !fate(i) then Failed
            else Planned(f)[i]
  {
    forall j | 0 <= j < STEPS ensures Planned(f)[j] == if SkippedBy(f, j) then Skipped else Success {
      PlannedIs(f, j);
    }
    EndsAs(f, Planned(f), fate, i);
  }

  lemma PlannedIs(f: Flags, j: nat)
    requires j < STEPS
    ensures Planned(f)[j] == if SkippedBy(f, j) then Skipped else Success
  {
  }

  lemma EndsAs(f: Flags, planned: seq<Status>, fate: Fates, i: nat)
    requires i < STEPS == |planned|
    requires forall j :: 0 <= j < STEPS ==> planned[j] == if SkippedBy(f, j) then Skipped else Success
    ensures FinalStatus(f, fate, i) ==
            if exists j :: 0 <= j < i && planned[j] == Success && !fate(j) then Pending
            else if planned[i] == Success && !fate(i) then Failed
            else planned[i]
  {
  }
}
