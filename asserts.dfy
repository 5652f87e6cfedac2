/** The object validators of shenandoahAsserts.cpp.  Each is a decision
    procedure over the heap view: Ok, or the failure handed to print_failure.
    report_vm_error does not return, so the first violated check decides; the
    validators are proved equal to a first-violated-check interpreter run over
    the checks they make, listed in source order. */
module Asserts {
  import opened Outcomes
  import opened HeapView
  import opened SafeLevels
  import opened Reporting

  // Phase strings, one per validator.
  const InHeapPhase := "Shenandoah assert_in_heap failed"
  const CorrectPhase := "Shenandoah assert_correct failed"
  const InCorrectRegionPhase := "Shenandoah assert_in_correct_region failed"
  const ForwardedPhase := "Shenandoah assert_forwarded failed"
  const NotForwardedPhase := "Shenandoah assert_not_forwarded failed"
  const MarkedCompletePhase := "Shenandoah assert_marked_complete failed"
  const MarkedNextPhase := "Shenandoah assert_marked_next failed"
  const NotInCsetPhase := "Shenandoah assert_not_in_cset failed"
  const NotInCsetLocPhase := "Shenandoah assert_not_in_cset_loc failed"

  // Condition strings.
  const OopInHeap := "oop must point to a heap address"
  const ForwardeeInHeap := "Forwardee must point to a heap address"
  const NoFullGcForwarding := "Non-trivial forwarding pointer during Full GC moves, probable bug."
  const ForwardeeOtherRegion := "Forwardee should be self, or another region"
  const NoMultipleForwardings := "Multiple forwardings"
  const ActiveRegion := "Object must reside in active region"
  const HumongousStart := "Object must reside in humongous start"
  const HumongousContinuation := "Humongous continuation should be of proper size"
  const ShouldBeForwarded := "Object should be forwarded"
  const ShouldNotBeForwarded := "Object should not be forwarded"
  const ShouldBeMarkedComplete := "Object should be marked (complete)"
  const ShouldBeMarkedNext := "Object should be marked (next)"
  const ShouldNotBeInCset := "Object should not be in collection set"
  const LocShouldNotBeInCset := "Interior location should not be in collection set"

  /** One guarded check of a validator: when `holds` is false the validator
      reports `condition` under `phase` at `level`. */
  datatype Check = Check(holds: bool, level: SafeLevel, phase: string, condition: string)

  /** The print_failure call of a violated check; no validator passes a
      referencing object, so `loc` is always null. */
  function FailureOf(c: Check, obj: Addr, interiorLoc: Addr, site: Site): Failure {
    Failure(c.level, obj, interiorLoc, NULL, c.phase, c.condition, site)
  }

  /** Runs the checks in order and stops at the first one that is violated. */
  function Decide(checks: seq<Check>, obj: Addr, interiorLoc: Addr, site: Site): (r: Outcome<Failure>)
    ensures r.Ok? <==> forall i :: 0 <= i < |checks| ==> checks[i].holds
    ensures r.Fail? ==>
      exists i :: 0 <= i < |checks| && !checks[i].holds && r.failure == FailureOf(checks[i], obj, interiorLoc, site)
                  && forall j :: 0 <= j < i ==> checks[j].holds
  {
    if checks == [] then Ok
    else if !checks[0].holds then Fail(FailureOf(checks[0], obj, interiorLoc, site))
    else
      var rest := Decide(checks[1..], obj, interiorLoc, site);
      assert forall i :: 1 <= i < |checks| ==> checks[i] == checks[1..][i - 1];
      rest
  }

  /** Running two lists of checks one after the other: the second list is
      reached only when the first passes. */
  lemma {:induction false} DecideAppend(a: seq<Check>, b: seq<Check>, obj: Addr, interiorLoc: Addr, site: Site)
    ensures Decide(a + b, obj, interiorLoc, site) ==
            if Decide(a, obj, interiorLoc, site).Ok? then Decide(b, obj, interiorLoc, site)
            else Decide(a, obj, interiorLoc, site)
  {
    if a == [] {
      assert a + b == b;
    } else {
      assert (a + b)[0] == a[0];
      assert (a + b)[1..] == a[1..] + b;
      DecideAppend(a[1..], b, obj, interiorLoc, site);
    }
  }

  /** When every check before position k holds and check k is violated, the
      outcome is check k's failure. */
  lemma {:induction false} DecideAt(checks: seq<Check>, k: nat, obj: Addr, interiorLoc: Addr, site: Site)
    requires k < |checks| && !checks[k].holds
    requires forall j :: 0 <= j < k ==> checks[j].holds
    ensures Decide(checks, obj, interiorLoc, site) == Fail(FailureOf(checks[k], obj, interiorLoc, site))
  {
    if k > 0 {
      assert checks[0].holds;
      assert checks[1..][k - 1] == checks[k];
      DecideAt(checks[1..], k - 1, obj, interiorLoc, site);
    }
  }

  /** A failure print_failure can render with everything it reads justified:
      no referencing object, and the level backed by the checks that passed. */
  predicate Sound(h: Heap, f: Failure) {
    f.loc == NULL && LevelJustified(h, f)
  }

  // ---------------------------------------------------------------------
  // assert_in_heap

  function InHeapChecks(h: Heap, obj: Addr): seq<Check> {
    [Check(h.inHeap(obj), SafeUnknown, InHeapPhase, OopInHeap)]
  }

  /** assert_in_heap (lines 177-185). */
  function AssertInHeap(h: Heap, obj: Addr, interiorLoc: Addr, site: Site): (r: Outcome<Failure>)
    ensures r == Decide(InHeapChecks(h, obj), obj, interiorLoc, site)
    ensures r.Fail? ==> Sound(h, r.failure)
  {
    if !h.inHeap(obj) then
      Fail(Failure(SafeUnknown, obj, interiorLoc, NULL, InHeapPhase, OopInHeap, site))
    else Ok
  }

  // ---------------------------------------------------------------------
  // assert_correct

  /** The five checks of assert_correct, in source order (lines 192, 200,
      212, 219, 228).  The last three only apply to a forwarded object. */
  function CorrectChecks(h: Heap, obj: Addr): seq<Check> {
    var fwd := h.fwd(obj);
    var forwarded := IsForwarded(h, obj);
    [ Check(h.inHeap(obj), SafeUnknown, CorrectPhase, OopInHeap),
      Check(h.inHeap(fwd), SafeOop, CorrectPhase, ForwardeeInHeap),
      Check(!(forwarded && h.fullGcMoveInProgress), SafeAll, CorrectPhase, NoFullGcForwarding),
      Check(!(forwarded && h.regionIndex(fwd) == h.regionIndex(obj)), SafeAll, CorrectPhase, ForwardeeOtherRegion),
      Check(!(forwarded && fwd != h.fwd(fwd)), SafeAll, CorrectPhase, NoMultipleForwardings) ]
  }

  /** assert_correct (lines 187-236). */
  function AssertCorrect(h: Heap, obj: Addr, interiorLoc: Addr, site: Site): (r: Outcome<Failure>)
    ensures r == Decide(CorrectChecks(h, obj), obj, interiorLoc, site)
  {
    var checks := CorrectChecks(h, obj);
    var fwd := h.fwd(obj);
    var isForwarded := IsForwarded(h, obj);
    if !h.inHeap(obj) then
      DecideAt(checks, 0, obj, interiorLoc, site);
      Fail(Failure(SafeUnknown, obj, interiorLoc, NULL, CorrectPhase, OopInHeap, site))
    else if !h.inHeap(fwd) then
      DecideAt(checks, 1, obj, interiorLoc, site);
      Fail(Failure(SafeOop, obj, interiorLoc, NULL, CorrectPhase, ForwardeeInHeap, site))
    else if isForwarded && h.fullGcMoveInProgress then
      DecideAt(checks, 2, obj, interiorLoc, site);
      Fail(Failure(SafeAll, obj, interiorLoc, NULL, CorrectPhase, NoFullGcForwarding, site))
    else if isForwarded && h.regionIndex(fwd) == h.regionIndex(obj) then
      DecideAt(checks, 3, obj, interiorLoc, site);
      Fail(Failure(SafeAll, obj, interiorLoc, NULL, CorrectPhase, ForwardeeOtherRegion, site))
    else if isForwarded && fwd != h.fwd(fwd) then
      DecideAt(checks, 4, obj, interiorLoc, site);
      Fail(Failure(SafeAll, obj, interiorLoc, NULL, CorrectPhase, NoMultipleForwardings, site))
    else Ok
  }

  /** Each failure of assert_correct is reported at a level its earlier
      checks justify: _safe_oop only once the object is known to be in the
      heap, _safe_all only once its forwardee is too. */
  lemma AssertCorrectSound(h: Heap, obj: Addr, interiorLoc: Addr, site: Site)
    ensures var r := AssertCorrect(h, obj, interiorLoc, site); r.Fail? ==> Sound(h, r.failure)
  {}

  /** The properties assert_correct establishes when it passes. */
  predicate Correct(h: Heap, obj: Addr) {
    var fwd := h.fwd(obj);
    && h.inHeap(obj) && h.inHeap(fwd)
    && (IsForwarded(h, obj) ==> !h.fullGcMoveInProgress && h.regionIndex(fwd) != h.regionIndex(obj) && h.fwd(fwd) == fwd)
  }

  /** assert_correct passes exactly for correct objects. */
  lemma AssertCorrectOk(h: Heap, obj: Addr, interiorLoc: Addr, site: Site)
    ensures AssertCorrect(h, obj, interiorLoc, site).Ok? <==> Correct(h, obj)
  {
    var c := CorrectChecks(h, obj);
    if Correct(h, obj) {
      assert forall i :: 0 <= i < |c| ==> c[i].holds;
    } else {
      assert !c[0].holds || !c[1].holds || !c[2].holds || !c[3].holds || !c[4].holds;
    }
  }

  /** A non-forwarded heap object passes, whatever the Full GC flag, the
      region indices or the second hop. */
  lemma SelfForwardedPasses(h: Heap, obj: Addr, interiorLoc: Addr, site: Site)
    requires h.inHeap(obj) && h.fwd(obj) == obj
    ensures AssertCorrect(h, obj, interiorLoc, site) == Ok
  {
    AssertCorrectOk(h, obj, interiorLoc, site);
  }

  // ---------------------------------------------------------------------
  // Validators that run assert_correct first

  function ForwardedCheck(h: Heap, obj: Addr): Check {
    Check(IsForwarded(h, obj), SafeAll, ForwardedPhase, ShouldBeForwarded)
  }

  function NotForwardedCheck(h: Heap, obj: Addr): Check {
    Check(!IsForwarded(h, obj), SafeAll, NotForwardedPhase, ShouldNotBeForwarded)
  }

  function MarkedCompleteCheck(h: Heap, obj: Addr): Check {
    Check(h.markedComplete(obj), SafeAll, MarkedCompletePhase, ShouldBeMarkedComplete)
  }

  function MarkedNextCheck(h: Heap, obj: Addr): Check {
    Check(h.markedNext(obj), SafeAll, MarkedNextPhase, ShouldBeMarkedNext)
  }

  function NotInCsetCheck(h: Heap, obj: Addr): Check {
    Check(!h.inCollectionSet(obj), SafeAll, NotInCsetPhase, ShouldNotBeInCset)
  }

  /** assert_forwarded (lines 269-278). */
  function AssertForwarded(h: Heap, obj: Addr, interiorLoc: Addr, site: Site): (r: Outcome<Failure>)
    ensures r == Decide(CorrectChecks(h, obj) + [ForwardedCheck(h, obj)], obj, interiorLoc, site)
    ensures r.Fail? ==> Sound(h, r.failure)
  {
    var correct := AssertCorrect(h, obj, interiorLoc, site);
    AssertCorrectSound(h, obj, interiorLoc, site);
    DecideAppend(CorrectChecks(h, obj), [ForwardedCheck(h, obj)], obj, interiorLoc, site);
    if correct.Fail? then correct
    else if obj == h.fwd(obj) then
      Fail(Failure(SafeAll, obj, interiorLoc, NULL, ForwardedPhase, ShouldBeForwarded, site))
    else Ok
  }

  /** assert_not_forwarded (lines 280-289). */
  function AssertNotForwarded(h: Heap, obj: Addr, interiorLoc: Addr, site: Site): (r: Outcome<Failure>)
    ensures r == Decide(CorrectChecks(h, obj) + [NotForwardedCheck(h, obj)], obj, interiorLoc, site)
    ensures r.Fail? ==> Sound(h, r.failure)
  {
    var correct := AssertCorrect(h, obj, interiorLoc, site);
    AssertCorrectSound(h, obj, interiorLoc, site);
    DecideAppend(CorrectChecks(h, obj), [NotForwardedCheck(h, obj)], obj, interiorLoc, site);
    if correct.Fail? then correct
    else if obj != h.fwd(obj) then
      Fail(Failure(SafeAll, obj, interiorLoc, NULL, NotForwardedPhase, ShouldNotBeForwarded, site))
    else Ok
  }

  /** assert_marked_complete (lines 291-300). */
  function AssertMarkedComplete(h: Heap, obj: Addr, interiorLoc: Addr, site: Site): (r: Outcome<Failure>)
    ensures r == Decide(CorrectChecks(h, obj) + [MarkedCompleteCheck(h, obj)], obj, interiorLoc, site)
    ensures r.Fail? ==> Sound(h, r.failure)
  {
    var correct := AssertCorrect(h, obj, interiorLoc, site);
    AssertCorrectSound(h, obj, interiorLoc, site);
    DecideAppend(CorrectChecks(h, obj), [MarkedCompleteCheck(h, obj)], obj, interiorLoc, site);
    if correct.Fail? then correct
    else if !h.markedComplete(obj) then
      Fail(Failure(SafeAll, obj, interiorLoc, NULL, MarkedCompletePhase, ShouldBeMarkedComplete, site))
    else Ok
  }

  /** assert_marked_next (lines 302-311). */
  function AssertMarkedNext(h: Heap, obj: Addr, interiorLoc: Addr, site: Site): (r: Outcome<Failure>)
    ensures r == Decide(CorrectChecks(h, obj) + [MarkedNextCheck(h, obj)], obj, interiorLoc, site)
    ensures r.Fail? ==> Sound(h, r.failure)
  {
    var correct := AssertCorrect(h, obj, interiorLoc, site);
    AssertCorrectSound(h, obj, interiorLoc, site);
    DecideAppend(CorrectChecks(h, obj), [MarkedNextCheck(h, obj)], obj, interiorLoc, site);
    if correct.Fail? then correct
    else if !h.markedNext(obj) then
      Fail(Failure(SafeAll, obj, interiorLoc, NULL, MarkedNextPhase, ShouldBeMarkedNext, site))
    else Ok
  }

  /** assert_not_in_cset (lines 313-322). */
  function AssertNotInCset(h: Heap, obj: Addr, interiorLoc: Addr, site: Site): (r: Outcome<Failure>)
    ensures r == Decide(CorrectChecks(h, obj) + [NotInCsetCheck(h, obj)], obj, interiorLoc, site)
    ensures r.Fail? ==> Sound(h, r.failure)
  {
    var correct := AssertCorrect(h, obj, interiorLoc, site);
    AssertCorrectSound(h, obj, interiorLoc, site);
    DecideAppend(CorrectChecks(h, obj), [NotInCsetCheck(h, obj)], obj, interiorLoc, site);
    if correct.Fail? then correct
    else if h.inCollectionSet(obj) then
      Fail(Failure(SafeAll, obj, interiorLoc, NULL, NotInCsetPhase, ShouldNotBeInCset, site))
    else Ok
  }

  /** assert_not_in_cset_loc (lines 324-331): no correctness check, no
      object, and a failure exactly when the location is in the collection
      set. */
  function AssertNotInCsetLoc(h: Heap, interiorLoc: Addr, site: Site): (r: Outcome<Failure>)
    ensures r.Ok? <==> !h.inCollectionSet(interiorLoc)
    ensures r.Fail? ==> r.failure == Failure(SafeUnknown, NULL, interiorLoc, NULL, NotInCsetLocPhase, LocShouldNotBeInCset, site)
    ensures r.Fail? ==> Sound(h, r.failure)
  {
    if h.inCollectionSet(interiorLoc) then
      Fail(Failure(SafeUnknown, NULL, interiorLoc, NULL, NotInCsetLocPhase, LocShouldNotBeInCset, site))
    else Ok
  }

  // ---------------------------------------------------------------------
  // What the composed validators report

  /** A validator that runs assert_correct first fails with assert_correct's
      own failure when that fails, and otherwise exactly when its own check is
      violated, at its own level and with its own condition. */
  lemma ComposedOutcome(h: Heap, obj: Addr, interiorLoc: Addr, site: Site, own: Check)
    ensures var r := Decide(CorrectChecks(h, obj) + [own], obj, interiorLoc, site);
      && (!Correct(h, obj) ==> r == AssertCorrect(h, obj, interiorLoc, site) && r.failure.phase == CorrectPhase)
      && (Correct(h, obj) ==> (r.Ok? <==> own.holds))
      && (Correct(h, obj) && !own.holds ==> r.failure == FailureOf(own, obj, interiorLoc, site))
  {
    DecideAppend(CorrectChecks(h, obj), [own], obj, interiorLoc, site);
    AssertCorrectOk(h, obj, interiorLoc, site);
  }

  /** For an object that passes assert_correct, exactly one of
      assert_forwarded and assert_not_forwarded passes, and the other reports
      its own condition at _safe_all. */
  lemma ForwardedExclusive(h: Heap, obj: Addr, interiorLoc: Addr, site: Site)
    requires AssertCorrect(h, obj, interiorLoc, site).Ok?
    ensures AssertForwarded(h, obj, interiorLoc, site).Ok? != AssertNotForwarded(h, obj, interiorLoc, site).Ok?
    ensures AssertForwarded(h, obj, interiorLoc, site).Fail? ==>
              AssertForwarded(h, obj, interiorLoc, site).failure.level == SafeAll
              && AssertForwarded(h, obj, interiorLoc, site).failure.condition == ShouldBeForwarded
    ensures AssertNotForwarded(h, obj, interiorLoc, site).Fail? ==>
              AssertNotForwarded(h, obj, interiorLoc, site).failure.level == SafeAll
              && AssertNotForwarded(h, obj, interiorLoc, site).failure.condition == ShouldNotBeForwarded
  {
    AssertCorrectOk(h, obj, interiorLoc, site);
    ComposedOutcome(h, obj, interiorLoc, site, ForwardedCheck(h, obj));
    ComposedOutcome(h, obj, interiorLoc, site, NotForwardedCheck(h, obj));
  }

  /** The marking and collection-set validators report their own condition
      only for objects that pass assert_correct, and then at _safe_all. */
  lemma OwnConditionOnlyAfterCorrect(h: Heap, obj: Addr, interiorLoc: Addr, site: Site)
    ensures var r := AssertMarkedComplete(h, obj, interiorLoc, site);
      r.Fail? && r.failure.condition == ShouldBeMarkedComplete ==> Correct(h, obj) && r.failure.level == SafeAll
    ensures var r := AssertMarkedNext(h, obj, interiorLoc, site);
      r.Fail? && r.failure.condition == ShouldBeMarkedNext ==> Correct(h, obj) && r.failure.level == SafeAll
    ensures var r := AssertNotInCset(h, obj, interiorLoc, site);
      r.Fail? && r.failure.condition == ShouldNotBeInCset ==> Correct(h, obj) && r.failure.level == SafeAll
  {
    ComposedOutcome(h, obj, interiorLoc, site, MarkedCompleteCheck(h, obj));
    ComposedOutcome(h, obj, interiorLoc, site, MarkedNextCheck(h, obj));
    ComposedOutcome(h, obj, interiorLoc, site, NotInCsetCheck(h, obj));
  }

  /** For a correct object these validators pass exactly when the object is
      marked, or not in the collection set. */
  lemma OwnConditionDecides(h: Heap, obj: Addr, interiorLoc: Addr, site: Site)
    requires Correct(h, obj)
    ensures AssertMarkedComplete(h, obj, interiorLoc, site).Ok? <==> h.markedComplete(obj)
    ensures AssertMarkedNext(h, obj, interiorLoc, site).Ok? <==> h.markedNext(obj)
    ensures AssertNotInCset(h, obj, interiorLoc, site).Ok? <==> !h.inCollectionSet(obj)
  {
    ComposedOutcome(h, obj, interiorLoc, site, MarkedCompleteCheck(h, obj));
    ComposedOutcome(h, obj, interiorLoc, site, MarkedNextCheck(h, obj));
    ComposedOutcome(h, obj, interiorLoc, site, NotInCsetCheck(h, obj));
  }

  // ---------------------------------------------------------------------
  // assert_in_correct_region

  /** The allocation size of the object in words, with its forwarding word. */
  function AllocSize(h: Heap, cfg: Config, obj: Addr): nat {
    h.size(obj) + cfg.brooksWordSize
  }

  predicate IsHumongous(h: Heap, cfg: Config, obj: Addr) {
    AllocSize(h, cfg, obj) > cfg.humongousThresholdWords
  }

  /** The number of regions a humongous object spans. */
  function RunLength(h: Heap, cfg: Config, obj: Addr): nat {
    cfg.requiredRegions(AllocSize(h, cfg, obj) * cfg.heapWordSize)
  }

  /** The run of a humongous heap object lies inside the region table. */
  predicate RunFits(h: Heap, cfg: Config, obj: Addr) {
    h.inHeap(obj) && IsHumongous(h, cfg, obj) ==> h.regionIndex(obj) + RunLength(h, cfg, obj) <= |h.regions|
  }

  /** The loop of line 253 reads regions()->get(i) without a bound check.  It
      is reached only for a correct object in an active region, so only there
      must the run lie inside the table. */
  predicate LoopInTable(h: Heap, cfg: Config, obj: Addr)
    requires WellFormed(h)
  {
    Correct(h, obj) && h.regions[h.regionIndex(obj)].active ==> RunFits(h, cfg, obj)
  }

  /** The active-region check of lines 243-248. */
  function ActiveCheck(h: Heap, obj: Addr): Check
    requires WellFormed(h) && h.inHeap(obj)
  {
    Check(h.regions[h.regionIndex(obj)].active, SafeUnknown, InCorrectRegionPhase, ActiveRegion)
  }

  /** The check the loop makes at region i of the run starting at idx. */
  function RunCheck(h: Heap, idx: nat, i: nat): Check
    requires i < |h.regions|
  {
    if i == idx then Check(h.regions[i].humongousStart, SafeUnknown, InCorrectRegionPhase, HumongousStart)
    else Check(h.regions[i].humongousContinuation, SafeOop, InCorrectRegionPhase, HumongousContinuation)
  }

  /** The checks of the loop, one per region of a humongous object's run, in
      the order the loop makes them. */
  function RunChecks(h: Heap, cfg: Config, obj: Addr): (r: seq<Check>)
    requires WellFormed(h) && h.inHeap(obj) && RunFits(h, cfg, obj)
    ensures |r| == if IsHumongous(h, cfg, obj) then RunLength(h, cfg, obj) else 0
  {
    var idx := h.regionIndex(obj);
    if IsHumongous(h, cfg, obj) then
      seq(RunLength(h, cfg, obj), k requires 0 <= k < RunLength(h, cfg, obj) => RunCheck(h, idx, idx + k))
    else []
  }

  /** Region i of the run is checked at position i - idx. */
  lemma RunChecksAt(h: Heap, cfg: Config, obj: Addr, i: nat)
    requires WellFormed(h) && h.inHeap(obj) && RunFits(h, cfg, obj) && IsHumongous(h, cfg, obj)
    requires h.regionIndex(obj) <= i < h.regionIndex(obj) + RunLength(h, cfg, obj)
    ensures RunChecks(h, cfg, obj)[i - h.regionIndex(obj)] == RunCheck(h, h.regionIndex(obj), i)
  {}

  /** What assert_in_correct_region decides: assert_correct first, then the
      active-region check, then the checks of the loop.  Every failure is safe
      to print, and an incorrect object gets assert_correct's own failure. */
  function InCorrectRegion(h: Heap, cfg: Config, obj: Addr, interiorLoc: Addr, site: Site): (r: Outcome<Failure>)
    requires WellFormed(h) && LoopInTable(h, cfg, obj)
    ensures !Correct(h, obj) ==> r == AssertCorrect(h, obj, interiorLoc, site) && r.Fail?
    ensures r.Fail? ==> Sound(h, r.failure)
  {
    AssertCorrectOk(h, obj, interiorLoc, site);
    AssertCorrectSound(h, obj, interiorLoc, site);
    var c := AssertCorrect(h, obj, interiorLoc, site);
    if c.Fail? then c
    else if !h.regions[h.regionIndex(obj)].active then Fail(FailureOf(ActiveCheck(h, obj), obj, interiorLoc, site))
    else Decide(RunChecks(h, cfg, obj), obj, interiorLoc, site)
  }

  /** assert_in_correct_region (lines 238-267). */
  method AssertInCorrectRegion(h: Heap, cfg: Config, obj: Addr, interiorLoc: Addr, site: Site)
    returns (r: Outcome<Failure>)
    requires WellFormed(h) && LoopInTable(h, cfg, obj)
    ensures r == InCorrectRegion(h, cfg, obj, interiorLoc, site)
  {
    r := AssertCorrect(h, obj, interiorLoc, site);
    if r.Fail? {
      return;
    }
    AssertCorrectOk(h, obj, interiorLoc, site);
    var idx := h.regionIndex(obj);
    var region := h.regions[idx];
    if !region.active {
      r := Fail(Failure(SafeUnknown, obj, interiorLoc, NULL, InCorrectRegionPhase, ActiveRegion, site));
      return;
    }
    ghost var checks := RunChecks(h, cfg, obj);
    var allocSize := h.size(obj) + cfg.brooksWordSize;
    if allocSize > cfg.humongousThresholdWords {
      var numRegions := cfg.requiredRegions(allocSize * cfg.heapWordSize);
      var i := idx;
      while i < idx + numRegions
        invariant idx <= i <= idx + numRegions
        invariant forall j :: 0 <= j < i - idx ==> checks[j].holds
      {
        var chainReg := h.regions[i];
        RunChecksAt(h, cfg, obj, i);
        if i == idx && !chainReg.humongousStart {
          r := Fail(Failure(SafeUnknown, obj, interiorLoc, NULL, InCorrectRegionPhase, HumongousStart, site));
          DecideAt(checks, i - idx, obj, interiorLoc, site);
          return;
        }
        if i != idx && !chainReg.humongousContinuation {
          r := Fail(Failure(SafeOop, obj, interiorLoc, NULL, InCorrectRegionPhase, HumongousContinuation, site));
          DecideAt(checks, i - idx, obj, interiorLoc, site);
          return;
        }
        i := i + 1;
      }
    }
  }

  /** A correct object in an inactive region fails at _safe_unknown, before
      the loop reads the region table. */
  lemma RegionInactiveFails(h: Heap, cfg: Config, obj: Addr, interiorLoc: Addr, site: Site)
    requires WellFormed(h) && Correct(h, obj) && !h.regions[h.regionIndex(obj)].active
    ensures InCorrectRegion(h, cfg, obj, interiorLoc, site)
            == Fail(Failure(SafeUnknown, obj, interiorLoc, NULL, InCorrectRegionPhase, ActiveRegion, site))
  {
    AssertCorrectOk(h, obj, interiorLoc, site);
  }

  /** A correct humongous object in an active region fails at _safe_unknown
      when its run does not begin with a humongous start region. */
  lemma RegionNotStartFails(h: Heap, cfg: Config, obj: Addr, interiorLoc: Addr, site: Site)
    requires WellFormed(h) && Correct(h, obj) && h.regions[h.regionIndex(obj)].active
    requires RunFits(h, cfg, obj) && IsHumongous(h, cfg, obj) && RunLength(h, cfg, obj) > 0
    requires !h.regions[h.regionIndex(obj)].humongousStart
    ensures InCorrectRegion(h, cfg, obj, interiorLoc, site)
            == Fail(Failure(SafeUnknown, obj, interiorLoc, NULL, InCorrectRegionPhase, HumongousStart, site))
  {
    AssertCorrectOk(h, obj, interiorLoc, site);
    RunChecksAt(h, cfg, obj, h.regionIndex(obj));
    DecideAt(RunChecks(h, cfg, obj), 0, obj, interiorLoc, site);
  }

  /** The regions of the run after the first must all be humongous
      continuations. */
  predicate ContinuationsFollow(h: Heap, idx: nat, n: nat)
    requires idx + n <= |h.regions|
  {
    forall i :: idx < i < idx + n ==> h.regions[i].humongousContinuation
  }

  /** The checks of the loop pass exactly when, for a humongous object, its
      run starts with a humongous start region followed by continuations. */
  lemma RunChecksPass(h: Heap, cfg: Config, obj: Addr, interiorLoc: Addr, site: Site)
    requires WellFormed(h) && h.inHeap(obj) && RunFits(h, cfg, obj)
    ensures var idx := h.regionIndex(obj);
      Decide(RunChecks(h, cfg, obj), obj, interiorLoc, site).Ok? <==>
        && (IsHumongous(h, cfg, obj) && RunLength(h, cfg, obj) > 0 ==> h.regions[idx].humongousStart)
        && (IsHumongous(h, cfg, obj) ==> ContinuationsFollow(h, idx, RunLength(h, cfg, obj)))
  {
    var idx := h.regionIndex(obj);
    var checks := RunChecks(h, cfg, obj);
    if IsHumongous(h, cfg, obj) {
      var n := RunLength(h, cfg, obj);
      if n > 0 {
        RunChecksAt(h, cfg, obj, idx);
      }
      if ContinuationsFollow(h, idx, n) {
        forall k | 0 < k < |checks| ensures checks[k].holds {
          RunChecksAt(h, cfg, obj, idx + k);
        }
      } else {
        var i :| idx < i < idx + n && !h.regions[i].humongousContinuation;
        RunChecksAt(h, cfg, obj, i);
      }
    }
  }

  /** assert_in_correct_region passes exactly for a correct object in an
      active region whose run, when it is humongous, starts with a humongous
      start region followed by continuations. */
  lemma InCorrectRegionOk(h: Heap, cfg: Config, obj: Addr, interiorLoc: Addr, site: Site)
    requires WellFormed(h) && LoopInTable(h, cfg, obj)
    ensures InCorrectRegion(h, cfg, obj, interiorLoc, site).Ok? <==>
      && Correct(h, obj)
      && h.regions[h.regionIndex(obj)].active
      && (IsHumongous(h, cfg, obj) && RunLength(h, cfg, obj) > 0 ==> h.regions[h.regionIndex(obj)].humongousStart)
      && (IsHumongous(h, cfg, obj) ==> ContinuationsFollow(h, h.regionIndex(obj), RunLength(h, cfg, obj)))
  {
    AssertCorrectOk(h, obj, interiorLoc, site);
    if Correct(h, obj) && h.regions[h.regionIndex(obj)].active {
      RunChecksPass(h, cfg, obj, interiorLoc, site);
    }
  }

  /** A failure about a continuation region is reported at _safe_oop: by then
      the object is known to be in the heap. */
  lemma ContinuationFailureLevel(h: Heap, cfg: Config, obj: Addr, interiorLoc: Addr, site: Site)
    requires WellFormed(h) && LoopInTable(h, cfg, obj)
    ensures var r := InCorrectRegion(h, cfg, obj, interiorLoc, site);
      r.Fail? && r.failure.condition == HumongousContinuation ==> r.failure.level == SafeOop
  {
    AssertCorrectOk(h, obj, interiorLoc, site);
    if Correct(h, obj) && h.regions[h.regionIndex(obj)].active {
      var checks := RunChecks(h, cfg, obj);
      forall k | 0 <= k < |checks| ensures checks[k].level == SafeOop || checks[k].condition == HumongousStart {
        RunChecksAt(h, cfg, obj, h.regionIndex(obj) + k);
      }
    }
  }

  /** A correct humongous object in an active region whose run starts well
      fails at _safe_oop with "Humongous continuation should be of proper
      size" at the first region j of the run that is not a continuation. */
  lemma RegionNotContinuationFails(h: Heap, cfg: Config, obj: Addr, interiorLoc: Addr, site: Site, j: nat)
    requires WellFormed(h) && Correct(h, obj) && h.regions[h.regionIndex(obj)].active
    requires RunFits(h, cfg, obj) && IsHumongous(h, cfg, obj)
    requires h.regions[h.regionIndex(obj)].humongousStart
    requires h.regionIndex(obj) < j < h.regionIndex(obj) + RunLength(h, cfg, obj)
    requires !h.regions[j].humongousContinuation
    requires forall i :: h.regionIndex(obj) < i < j ==> h.regions[i].humongousContinuation
    ensures InCorrectRegion(h, cfg, obj, interiorLoc, site)
            == Fail(Failure(SafeOop, obj, interiorLoc, NULL, InCorrectRegionPhase, HumongousContinuation, site))
  {
    AssertCorrectOk(h, obj, interiorLoc, site);
    var idx := h.regionIndex(obj);
    var checks := RunChecks(h, cfg, obj);
    forall k | 0 <= k < j - idx ensures checks[k].holds {
      RunChecksAt(h, cfg, obj, idx + k);
    }
    RunChecksAt(h, cfg, obj, j);
    DecideAt(checks, j - idx, obj, interiorLoc, site);
  }

  // ---------------------------------------------------------------------
  // Validator reports

  /** A validator failure, passed to print_failure, never produces the
      matrix block, and its "Referenced from" part never renders an object:
      it describes the raw interior location, or says none was recorded. */
  lemma ValidatorReportShape(h: Heap, cfg: Config, f: Failure)
    requires WellFormed(h) && Sound(h, f)
    ensures Heading(MatrixPart) !in FailureReport(h, cfg, f)
    ensures ConnectedCount(FailureReport(h, cfg, f)) == 0
    ensures ReferencedFrom(h, f) ==
              if f.interiorLoc != NULL then [InteriorLocation(f.interiorLoc)] + NonObjLines(h, f.interiorLoc)
              else [NoInteriorLocation]
  {
    MatrixByLevel(h, cfg, f);
    MatrixSectionCount(h, cfg, f);
    MatrixConnectionCount(h, cfg, f);
    ReferencedFromLocationChoice(h, f);
  }
}
