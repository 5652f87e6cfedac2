# Shenandoah GC assertions: a verified model

This project models the assertion layer of the Shenandoah garbage collector in
HotSpot, `ShenandoahAsserts` (`src/hotspot/share/gc/shenandoah/shenandoahAsserts.cpp`).
That layer has two parts:

- **Object validators.** `assert_in_heap`, `assert_correct`,
  `assert_in_correct_region`, `assert_forwarded`, `assert_not_forwarded`,
  `assert_marked_complete`, `assert_marked_next`, `assert_not_in_cset` and
  `assert_not_in_cset_loc` inspect an object (or a raw location) and its Brooks
  forwarding pointer. When a check is violated, the validator calls
  `print_failure` with a *safety level*, a phase and a condition. That call ends
  in `report_vm_error` and does not return.
- **The failure reporter.** `print_failure` builds a diagnostic message in a
  message buffer. The safety level (`_safe_unknown < _safe_oop < _safe_oop_fwd <
  _safe_all`) says how much of the suspect object may be read:
  - below `_safe_oop`, the object is only "safe printed" (its address and region);
  - from `_safe_oop` on, its klass and marking state are read;
  - at `_safe_oop_fwd` the forwardee is read too;
  - at `_safe_all` the connection matrix may be consulted.

Two reference-processor guards (`assert_rp_isalive_installed` and
`assert_rp_isalive_not_installed`) check which is-alive closure is registered.
They report through `print_rp_failure`.

Modules, one file each:

| file | module | contents |
|---|---|---|
| `outcomes.dfy` | `Outcomes` | `Option`, and `Outcome` (Ok or a failure) |
| `heap.dfy` | `HeapView` | the heap queries the asserts make, as an immutable view; region lookup |
| `safe_level.dfy` | `SafeLevels` | the four-step safety ladder |
| `report.dfy` | `Reporting` | `print_failure`, `print_obj`, `print_non_obj` and `print_obj_safe` |
| `asserts.dfy` | `Asserts` | the object validators |
| `rp_asserts.dfy` | `RpAsserts` | the reference-processor guards and `print_rp_failure` |

How the model is built:

- **Validators.** Each validator is a function from the heap view to `Ok`, or to
  the `Failure` it would hand to `print_failure`. Because `report_vm_error`
  never returns, the first violated check decides the outcome. `Decide` runs a
  list of checks in order and stops at the first violated one.
  - `assert_in_heap`, `assert_correct` and the five validators that start with
    `assert_correct` are proved equal to `Decide` over their checks, listed in
    source order.
  - `assert_not_in_cset_loc` makes one check and is specified directly.
  - `assert_in_correct_region` keeps the source's loop over the humongous run
    as a `while` loop. It is proved equal to `InCorrectRegion`:
    `assert_correct`'s outcome, then the active-region check, then `Decide`
    over the loop's checks.
- **Reports.** A report is a sequence of line tags, one per `msg.append`.
  Formatting is not modelled. The message buffer is a class whose `Append`
  extends its `lines`. Every `print_*` routine is a method that appends to the
  buffer. Each one is proved to append exactly the lines its specification
  function describes.

## Model

| member | source | states |
|---|---|---|
| Reporting.MessageBuffer.constructor | src/hotspot/share/gc/shenandoah/shenandoahAsserts.cpp:90 | ShenandoahMessageBuffer is defined outside this file; this is its construction at line 90: a new buffer holds exactly the header line it was created with |
| Reporting.MessageBuffer.Append | src/hotspot/share/gc/shenandoah/shenandoahAsserts.cpp:92 | ShenandoahMessageBuffer::append is defined outside this file; line 92 is one of its call sites: append adds one line at the end and changes nothing else |
| Reporting.ObjLines | src/hotspot/share/gc/shenandoah/shenandoahAsserts.cpp:33-48 | print_obj shows the object's klass, its complete and next marking bits, its collection-set membership and its region; every line it reads from an object is about that object |
| Reporting.NonObjLines | src/hotspot/share/gc/shenandoah/shenandoahAsserts.cpp:50-66 | print_non_obj says "inside" iff the location is in the heap and "outside" iff it is not; inside, it shows the collection-set flag and region; it never reads object state |
| Reporting.SafeLines | src/hotspot/share/gc/shenandoah/shenandoahAsserts.cpp:68-79 | print_obj_safe starts with the safe-print line and shows only the address and its region; the region appears iff the address is in the heap and its region exists; nothing is read from the object |
| Reporting.PrintObj | src/hotspot/share/gc/shenandoah/shenandoahAsserts.cpp:33-48 | appends exactly the print_obj lines to the buffer |
| Reporting.PrintNonObj | src/hotspot/share/gc/shenandoah/shenandoahAsserts.cpp:50-66 | appends exactly the print_non_obj lines to the buffer |
| Reporting.PrintObjSafe | src/hotspot/share/gc/shenandoah/shenandoahAsserts.cpp:68-79 | appends exactly the print_obj_safe lines to the buffer |
| Reporting.ReferencedFrom | src/hotspot/share/gc/shenandoah/shenandoahAsserts.cpp:92-103 | the "Referenced from" body contains only address-rendering lines |
| Reporting.ReferencedFromObjectChoice | src/hotspot/share/gc/shenandoah/shenandoahAsserts.cpp:92-103 | with an interior location and an in-heap referencing object, the part is the interior location followed by print_obj of that object; otherwise no klass or marking line appears in it |
| Reporting.ReferencedFromLocationChoice | src/hotspot/share/gc/shenandoah/shenandoahAsserts.cpp:92-103 | without an in-heap referencing object, "no interior location" appears iff the interior location is null; otherwise the interior location is rendered with print_non_obj |
| Reporting.PrintReferencedFrom | src/hotspot/share/gc/shenandoah/shenandoahAsserts.cpp:92-103 | appends the heading, the "Referenced from" body and a blank line |
| Reporting.ObjectSection | src/hotspot/share/gc/shenandoah/shenandoahAsserts.cpp:105-111 | the "Object" section holds only its heading and rendering lines |
| Reporting.ObjectDetailByLevel | src/hotspot/share/gc/shenandoah/shenandoahAsserts.cpp:105-111 | the object's klass or marking state is shown iff the level is at least _safe_oop |
| Reporting.ObjectFlagsAtSafeOop | src/hotspot/share/gc/shenandoah/shenandoahAsserts.cpp:105-111 | from _safe_oop on, the object section shows both marking bits, the collection-set flag and the region of the object |
| Reporting.ObjectSafePrintByLevel | src/hotspot/share/gc/shenandoah/shenandoahAsserts.cpp:105-111 | the object is safe printed iff the level is below _safe_oop |
| Reporting.ObjectSafePrintBelowSafeOop | src/hotspot/share/gc/shenandoah/shenandoahAsserts.cpp:105-111 | below _safe_oop the object section is exactly heading, print_obj_safe lines, blank |
| Reporting.PrintObjectSection | src/hotspot/share/gc/shenandoah/shenandoahAsserts.cpp:105-111 | appends exactly the object section |
| Reporting.ForwardeeSection | src/hotspot/share/gc/shenandoah/shenandoahAsserts.cpp:113-126 | the forwardee section holds only its heading, "(the object itself)" and rendering lines |
| Reporting.ForwardeeSectionShape | src/hotspot/share/gc/shenandoah/shenandoahAsserts.cpp:113-126 | the forwardee heading appears iff the level is at least _safe_oop; "(the object itself)" appears iff additionally the forwardee is the object |
| Reporting.ForwardeeByLevel | src/hotspot/share/gc/shenandoah/shenandoahAsserts.cpp:113-126 | in the whole report, the forwardee heading appears iff the level is at least _safe_oop |
| Reporting.ObjectItselfByLevel | src/hotspot/share/gc/shenandoah/shenandoahAsserts.cpp:113-126 | the whole report says "(the object itself)" iff the level is at least _safe_oop and the object forwards to itself |
| Reporting.ForwardeeDetailByLevel | src/hotspot/share/gc/shenandoah/shenandoahAsserts.cpp:113-126 | a distinct forwardee is shown in detail iff the level is at least _safe_oop_fwd |
| Reporting.ForwardeeSafePrintAtSafeOop | src/hotspot/share/gc/shenandoah/shenandoahAsserts.cpp:113-126 | the forwardee is safe printed iff the level is exactly _safe_oop and the forwardee is distinct |
| Reporting.ForwardeeSafePrinted | src/hotspot/share/gc/shenandoah/shenandoahAsserts.cpp:117-120 | at _safe_oop, a distinct forwardee is safe printed |
| Reporting.ForwardeeNotSafePrinted | src/hotspot/share/gc/shenandoah/shenandoahAsserts.cpp:117-118 | at _safe_oop_fwd or above, a distinct forwardee is not safe printed |
| Reporting.ForwardeeSectionShort | src/hotspot/share/gc/shenandoah/shenandoahAsserts.cpp:113-126 | below _safe_oop the section is empty; for a self-forwarded object it is heading, "(the object itself)", blank |
| Reporting.PrintForwardee | src/hotspot/share/gc/shenandoah/shenandoahAsserts.cpp:113-126 | appends exactly the forwardee section |
| Reporting.SecondForwardeeSection | src/hotspot/share/gc/shenandoah/shenandoahAsserts.cpp:128-136 | the second-forwardee section never reads object state |
| Reporting.SecondForwardeeSectionShape | src/hotspot/share/gc/shenandoah/shenandoahAsserts.cpp:128-136 | the second-forwardee heading appears iff the level is at least _safe_oop_fwd and fwd(fwd(obj)) differs from fwd(obj); when it appears, fwd(fwd(obj)) is safe printed there |
| Reporting.SecondForwardeeByLevel | src/hotspot/share/gc/shenandoah/shenandoahAsserts.cpp:128-136 | the same condition holds for the whole report |
| Reporting.PrintSecondForwardee | src/hotspot/share/gc/shenandoah/shenandoahAsserts.cpp:128-136 | appends exactly the second-forwardee section |
| Reporting.MatrixConnections | src/hotspot/share/gc/shenandoah/shenandoahAsserts.cpp:141-171 | the matrix body has only connection lines: 6 of them when the interior location is non-null and in the heap, 4 otherwise; each of the four reference/object pairs reports the matrix entry of its own region indices (loc or fwd(loc) against obj or fwd(obj)); the two interior-reference pairs, the interior location's region against obj's or fwd(obj)'s, appear iff the interior location is non-null and in the heap |
| Reporting.PrintConnections | src/hotspot/share/gc/shenandoah/shenandoahAsserts.cpp:141-171 | appends exactly the connection lines |
| Reporting.MatrixSection | src/hotspot/share/gc/shenandoah/shenandoahAsserts.cpp:138-172 | the matrix section holds only its heading and connection lines |
| Reporting.MatrixSectionShape | src/hotspot/share/gc/shenandoah/shenandoahAsserts.cpp:138 | the matrix heading appears iff loc is non-null and in the heap, UseShenandoahMatrix is set and the level is _safe_all |
| Reporting.MatrixByLevel | src/hotspot/share/gc/shenandoah/shenandoahAsserts.cpp:138-172 | the same condition holds for the whole report |
| Reporting.MatrixSectionCount | src/hotspot/share/gc/shenandoah/shenandoahAsserts.cpp:138-172 | when the matrix is shown it has 6 connection lines if the interior location is in the heap and 4 otherwise; when it is not shown it has none |
| Reporting.MatrixConnectionCount | src/hotspot/share/gc/shenandoah/shenandoahAsserts.cpp:81-175 | every connection line of the report comes from the matrix section |
| Reporting.PrintMatrix | src/hotspot/share/gc/shenandoah/shenandoahAsserts.cpp:138-172 | appends exactly the matrix section |
| Reporting.FailureReport | src/hotspot/share/gc/shenandoah/shenandoahAsserts.cpp:81-175 | the message starts with the "phase; condition" header |
| Reporting.PrefixMembership | src/hotspot/share/gc/shenandoah/shenandoahAsserts.cpp:89-136 | a line is in the report before the matrix iff it is the header, a "Referenced from" line, or a line of the object, forwardee or second-forwardee section |
| Reporting.ReportMembership | src/hotspot/share/gc/shenandoah/shenandoahAsserts.cpp:81-175 | a line is in the report iff it is in one of its sections |
| Reporting.LateLineOrigin | src/hotspot/share/gc/shenandoah/shenandoahAsserts.cpp:113-172 | the later headings and "(the object itself)" come only from their own sections |
| Reporting.ReportReadsOnlyHeapObjects | src/hotspot/share/gc/shenandoah/shenandoahAsserts.cpp:81-175 | when the level is backed by its heap facts, every klass or marking line of the report is about an in-heap address |
| Reporting.ReferencedFromReadsHeap | src/hotspot/share/gc/shenandoah/shenandoahAsserts.cpp:92-103 | the "Referenced from" part reads object state only of an in-heap object |
| Reporting.ObjectSectionReadsHeap | src/hotspot/share/gc/shenandoah/shenandoahAsserts.cpp:105-111 | the object section reads object state only of an in-heap object |
| Reporting.ForwardeeSectionReadsHeap | src/hotspot/share/gc/shenandoah/shenandoahAsserts.cpp:113-126 | the forwardee section reads object state only of an in-heap object |
| Reporting.PrintFailure | src/hotspot/share/gc/shenandoah/shenandoahAsserts.cpp:81-175 | print_failure hands report_vm_error the caller's site and exactly the report FailureReport describes |
| Asserts.Decide | src/hotspot/share/gc/shenandoah/shenandoahAsserts.cpp:187-236 | a sequence of guarded checks passes iff every check holds; otherwise it fails with the first violated check's level, phase and condition, and all earlier checks hold |
| Asserts.DecideAppend | src/hotspot/share/gc/shenandoah/shenandoahAsserts.cpp:238-240 | running checks a then b fails with a's failure if a fails, and otherwise behaves like b |
| Asserts.DecideAt | src/hotspot/share/gc/shenandoah/shenandoahAsserts.cpp:187-236 | if check k is violated and all earlier checks hold, the outcome is check k's failure |
| Asserts.AssertInHeap | src/hotspot/share/gc/shenandoah/shenandoahAsserts.cpp:177-185 | assert_in_heap fails at _safe_unknown with "oop must point to a heap address" iff the object is not in the heap; its failure is safe to print |
| Asserts.AssertCorrect | src/hotspot/share/gc/shenandoah/shenandoahAsserts.cpp:187-236 | assert_correct is the first-violated-check run over its five checks (object in heap, forwardee in heap, no forwarding during a Full GC move, forwardee in another region, no second forwarding), with their levels |
| Asserts.AssertCorrectSound | src/hotspot/share/gc/shenandoah/shenandoahAsserts.cpp:187-236 | every assert_correct failure has a null loc and a level backed by what was already checked |
| Asserts.AssertCorrectOk | src/hotspot/share/gc/shenandoah/shenandoahAsserts.cpp:187-236 | assert_correct passes iff the object and its forwardee are in the heap and, when forwarded, no Full GC move is in progress, the forwardee is in another region and is not forwarded again |
| Asserts.SelfForwardedPasses | src/hotspot/share/gc/shenandoah/shenandoahAsserts.cpp:206-235 | an in-heap object whose forwarding pointer points to itself passes assert_correct |
| Asserts.InCorrectRegion | src/hotspot/share/gc/shenandoah/shenandoahAsserts.cpp:238-267 | what assert_in_correct_region decides: an incorrect object gets assert_correct's own failure, and every failure is safe to print |
| Asserts.AssertInCorrectRegion | src/hotspot/share/gc/shenandoah/shenandoahAsserts.cpp:238-267 | the method, with the source's loop, returns exactly InCorrectRegion; the run must lie inside the region table only for a correct object in an active region, where the loop reads it |
| Asserts.RunChecks | src/hotspot/share/gc/shenandoah/shenandoahAsserts.cpp:250-265 | one check per region of a humongous object's run, in loop order; none for a small object |
| Asserts.RegionInactiveFails | src/hotspot/share/gc/shenandoah/shenandoahAsserts.cpp:242-247 | a correct object in an inactive region fails at _safe_unknown with "Object must reside in active region", whatever the size of its run |
| Asserts.RegionNotStartFails | src/hotspot/share/gc/shenandoah/shenandoahAsserts.cpp:253-258 | a correct humongous object in an active region whose own region is not a humongous start fails at _safe_unknown with "Object must reside in humongous start" |
| Asserts.RunChecksPass | src/hotspot/share/gc/shenandoah/shenandoahAsserts.cpp:250-265 | the loop's checks pass iff a humongous object's run begins with a humongous start followed only by continuations |
| Asserts.InCorrectRegionOk | src/hotspot/share/gc/shenandoah/shenandoahAsserts.cpp:238-267 | assert_in_correct_region passes iff the object is correct, its region is active and, when humongous, its run is a humongous start followed only by continuations |
| Asserts.RegionNotContinuationFails | src/hotspot/share/gc/shenandoah/shenandoahAsserts.cpp:259-263 | a correct humongous object in an active region whose run starts with a humongous start fails at _safe_oop with "Humongous continuation should be of proper size" at the first later region of the run that is not a continuation |
| Asserts.ContinuationFailureLevel | src/hotspot/share/gc/shenandoah/shenandoahAsserts.cpp:259-263 | a "Humongous continuation should be of proper size" failure is reported at _safe_oop |
| Asserts.AssertForwarded | src/hotspot/share/gc/shenandoah/shenandoahAsserts.cpp:269-278 | assert_forwarded runs assert_correct and then checks that the object is forwarded, at _safe_all; failures are safe to print |
| Asserts.AssertNotForwarded | src/hotspot/share/gc/shenandoah/shenandoahAsserts.cpp:280-289 | assert_not_forwarded runs assert_correct and then checks that the object is not forwarded, at _safe_all; failures are safe to print |
| Asserts.AssertMarkedComplete | src/hotspot/share/gc/shenandoah/shenandoahAsserts.cpp:291-300 | assert_marked_complete runs assert_correct and then checks the complete mark bit, at _safe_all; failures are safe to print |
| Asserts.AssertMarkedNext | src/hotspot/share/gc/shenandoah/shenandoahAsserts.cpp:302-311 | assert_marked_next runs assert_correct and then checks the next mark bit, at _safe_all; failures are safe to print |
| Asserts.AssertNotInCset | src/hotspot/share/gc/shenandoah/shenandoahAsserts.cpp:313-322 | assert_not_in_cset runs assert_correct and then checks that the object is not in the collection set, at _safe_all; failures are safe to print |
| Asserts.AssertNotInCsetLoc | src/hotspot/share/gc/shenandoah/shenandoahAsserts.cpp:324-331 | assert_not_in_cset_loc fails iff the interior location is in the collection set, at _safe_unknown with a null object and null loc |
| Asserts.ComposedOutcome | src/hotspot/share/gc/shenandoah/shenandoahAsserts.cpp:269-322 | a validator that starts with assert_correct fails with assert_correct's failure when the object is not correct; otherwise it passes iff its own check holds and fails with its own condition |
| Asserts.ForwardedExclusive | src/hotspot/share/gc/shenandoah/shenandoahAsserts.cpp:269-289 | for an object passing assert_correct, exactly one of assert_forwarded and assert_not_forwarded passes, and the other reports its own condition at _safe_all |
| Asserts.OwnConditionOnlyAfterCorrect | src/hotspot/share/gc/shenandoah/shenandoahAsserts.cpp:291-322 | the marking and collection-set validators report their own condition only for objects passing assert_correct, and at _safe_all |
| Asserts.OwnConditionDecides | src/hotspot/share/gc/shenandoah/shenandoahAsserts.cpp:291-322 | for a correct object these validators pass iff the object is marked (complete, next) or not in the collection set |
| Asserts.ValidatorReportShape | src/hotspot/share/gc/shenandoah/shenandoahAsserts.cpp:81-175 | a validator failure's report has no matrix block and no connection lines, and its "Referenced from" part only describes the raw interior location or says none was recorded |
| RpAsserts.AssertRpIsAliveNotInstalled | src/hotspot/share/gc/shenandoah/shenandoahAsserts.cpp:344-351 | fails iff a closure is registered, reporting it as actual and null as expected |
| RpAsserts.AssertRpIsAliveInstalled | src/hotspot/share/gc/shenandoah/shenandoahAsserts.cpp:353-360 | fails iff the registered closure is not the heap's is-alive closure, reporting both |
| RpAsserts.GuardsExclusive | src/hotspot/share/gc/shenandoah/shenandoahAsserts.cpp:344-360 | with a non-null designated closure the two guards never both pass, and both fail iff the registered closure is neither null nor the designated one |
| RpAsserts.RpReport | src/hotspot/share/gc/shenandoah/shenandoahAsserts.cpp:333-342 | the reference-processor report has five lines: the title first, then the actual and expected closures and the two closure-field addresses |
| RpAsserts.PrintRpFailure | src/hotspot/share/gc/shenandoah/shenandoahAsserts.cpp:333-342 | print_rp_failure hands report_vm_error the site and exactly that report |
| RpAsserts.GuardReports | src/hotspot/share/gc/shenandoah/shenandoahAsserts.cpp:333-360 | a failing guard's report names the registered closure as actual and null, or the designated closure, as expected |

## Left out

- Text formatting is not modelled. Each `msg.append` becomes one tagged line;
  `PTR_FORMAT`, field widths and the "not" padding are not represented.
- `r->print_on` is a `RegionLine(index)` tag, and `os::print_location` is a
  `LocationDescription(loc)` tag. The text they produce is not modelled.
- `klass()->external_name()` is not modelled. The `Klass` line carries only
  the klass pointer.
- `report_vm_error` terminates the VM. The validators model this by returning
  `Fail(failure)`, and the reporters by returning the `VmError` they would
  pass it. Nothing after that call is reachable.
- The `ShenandoahHeap::heap()` singleton and the reference processor's state
  are explicit parameters (`Heap`, `RefProcessing`).
- `required_regions`, `humongous_threshold_words`, `BrooksPointer::word_size`,
  `HeapWordSize` and `UseShenandoahMatrix` are parameters (`Config`). They are
  defined outside this file.
- Heap queries (is_in, forwarding pointer, marking bitmaps, collection set,
  connection matrix) are arbitrary total functions. Their implementations are
  not part of this model.
- Reporting.PrintFailure and Asserts.AssertInCorrectRegion: require
  `WellFormed`, meaning every in-heap address has a region index inside the
  region table. The source relies on this:
  - print_obj looks up the containing region (line 35) and calls `print_on` on
    it without a null check (line 39);
  - print_non_obj does the same at lines 54 and 56;
  - assert_in_correct_region looks up the region (line 242) and calls
    `is_active` on it (line 243).
  A region store that breaks this promise is not modelled.
- Reporting.PrintFailure: also requires `LevelJustified`. A level of at least
  _safe_oop needs the object in the heap, and at least _safe_oop_fwd needs its
  forwardee in the heap too. Every validator failure meets this: each
  validator's contract, or AssertCorrectSound for assert_correct, ensures
  `Sound`, which includes `LevelJustified`. Calls from outside this file with
  other levels are not covered.
- A region's number is taken to be its index in the region table.
- Concurrency is not modelled. A mutator or GC thread may change the heap
  between two queries; the model reads one consistent snapshot.
- `size_t` arithmetic (`size + word_size`, `* HeapWordSize`,
  `idx + num_regions`) is on unbounded naturals. Wrap-around is not modelled.
- Asserts.AssertInCorrectRegion: requires that, for a correct object in an
  active region, a humongous object's run of regions lies inside the region
  table (`LoopInTable`). Only there does the loop at line 253 read
  `regions()->get(i)`, which it does without a bound check; a run past the end
  of the table is not modelled. Objects that fail assert_correct or lie in an
  inactive region are not constrained.
- The debug-build macros (`shenandoah_assert_*`) that wrap these calls are
  defined outside this file and are not part of this model.
