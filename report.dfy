/** The failure reporter: print_failure and the three object renderers
    (print_obj, print_non_obj, print_obj_safe).  The report is a sequence of
    line tags, one per msg.append of the source; formatting is not modelled. */
module Reporting {
  import opened Outcomes
  import opened HeapView
  import opened SafeLevels

  /** A pointer to a BoolObjectClosure; 0 is null. */
  type Closure = nat

  /** The caller's source position, handed on to report_vm_error. */
  datatype Site = Site(file: string, line: int)

  /** The arguments of print_failure: the safety level, the object, the
      interior location, the referencing object `loc`, and the phase and condition labels. */
  datatype Failure = Failure(level: SafeLevel, obj: Addr, interiorLoc: Addr, loc: Addr,
                             phase: string, condition: string, site: Site)

  /** The six region pairs of the "Matrix connections" block. */
  datatype Connection =
    | ReferenceAndObject
    | FwdReferenceAndObject
    | ReferenceAndFwdObject
    | FwdReferenceAndFwdObject
    | InteriorReferenceAndObject
    | InteriorReferenceAndFwdObject

  /** The five headed parts of a failure report. */
  datatype Part = ReferencedFromPart | ObjectPart | ForwardeePart | SecondForwardeePart | MatrixPart

  /** The object state print_obj reads besides the klass. */
  datatype ObjectFlag =
    | AllocatedAfterCompleteMarkStart
    | AllocatedAfterNextMarkStart
    | MarkedComplete
    | MarkedNext

  /** The four pointers of a reference-processor report. */
  datatype PointerRole = Actual | Expected | IsAliveField | ForwardedIsAliveField

  /** One msg.append of the source. */
  datatype Line =
    | Header(phase: string, condition: string)   // "<phase>; <condition>"
    | Title(text: string)                        // first line of a reference-processor report
    | Heading(part: Part)                        // "Referenced from:", "Object:", ...
    | InteriorLocation(loc: Addr)
    | NoInteriorLocation                         // "no interior location recorded ..."
    | Blank
    | Klass(obj: Addr, klass: nat)               // read from the object's header
    | Flag(obj: Addr, flag: ObjectFlag, yes: bool)
    | InCollectionSet(addr: Addr, yes: bool)
    | RegionLine(index: nat)                     // r->print_on of the region with that number
    | InsideHeap
    | OutsideHeap
    | LocationDescription(loc: Addr)             // os::print_location
    | SafePrint(addr: Addr)                      // "<addr> - safe print, no details"
    | TheObjectItself
    | Connected(pair: Connection, yes: bool)
    | Pointer(role: PointerRole, value: nat)

  /** What report_vm_error receives; that call does not return. */
  datatype VmError = VmError(site: Site, message: seq<Line>)

  /** A line whose content had to be read from the object itself (its klass
      word or its marking state), which is unsafe for a corrupt object. */
  predicate ReadsObjectState(l: Line) {
    l.Klass? || l.Flag?
  }

  /** A line that may appear inside a rendering of one address. */
  predicate BodyLine(l: Line) {
    !l.Header? && !l.Title? && !l.Heading? && !l.Connected? && !l.TheObjectItself?
  }

  /** The lines describe the object at `a` in detail. */
  predicate DetailedAbout(lines: seq<Line>, a: Addr) {
    exists l :: l in lines && ReadsObjectState(l) && l.obj == a
  }

  /** The level a failure is reported at is backed by facts its caller
      established: a level of at least _safe_oop means the object is in the
      heap, at least _safe_oop_fwd means its forwardee is in the heap too. */
  predicate LevelJustified(h: Heap, f: Failure) {
    && (f.level.AtLeast(SafeOop) ==> h.inHeap(f.obj))
    && (f.level.AtLeast(SafeOopFwd) ==> h.inHeap(h.fwd(f.obj)))
  }

  // ---------------------------------------------------------------------
  // The three renderers, as the lines they append

  /** print_obj: the klass, the four marking flags, the collection-set flag
      and the region of an object whose region is known. */
  function ObjLines(h: Heap, obj: Addr): (r: seq<Line>)
    requires RegionContaining(h, obj).Some?
    ensures Klass(obj, h.klass(obj)) in r
    ensures Flag(obj, MarkedComplete, h.markedComplete(obj)) in r && Flag(obj, MarkedNext, h.markedNext(obj)) in r
    ensures InCollectionSet(obj, h.inCollectionSet(obj)) in r && RegionLine(h.regionIndex(obj)) in r
    ensures forall l :: l in r ==> BodyLine(l) && (ReadsObjectState(l) ==> l.obj == obj)
  {
    [ Klass(obj, h.klass(obj)),
      Flag(obj, AllocatedAfterCompleteMarkStart, h.allocatedAfterCompleteMarkStart(obj)),
      Flag(obj, AllocatedAfterNextMarkStart, h.allocatedAfterNextMarkStart(obj)),
      Flag(obj, MarkedComplete, h.markedComplete(obj)),
      Flag(obj, MarkedNext, h.markedNext(obj)),
      InCollectionSet(obj, h.inCollectionSet(obj)),
      RegionLine(RegionContaining(h, obj).value) ]
  }

  /** print_non_obj: a raw location, described by its region and
      collection-set membership when it is in the heap. */
  function NonObjLines(h: Heap, loc: Addr): (r: seq<Line>)
    requires h.inHeap(loc) ==> RegionContaining(h, loc).Some?
    ensures InsideHeap in r <==> h.inHeap(loc)
    ensures OutsideHeap in r <==> !h.inHeap(loc)
    ensures h.inHeap(loc) ==> InCollectionSet(loc, h.inCollectionSet(loc)) in r && RegionLine(h.regionIndex(loc)) in r
    ensures forall l :: l in r ==> BodyLine(l) && !ReadsObjectState(l)
  {
    if h.inHeap(loc) then
      [InsideHeap, InCollectionSet(loc, h.inCollectionSet(loc)), RegionLine(RegionContaining(h, loc).value)]
    else
      [OutsideHeap, LocationDescription(loc)]
  }

  /** print_obj_safe: the address, and its region when the address is in the
      heap and the region exists.  Nothing is read from the object. */
  function SafeLines(h: Heap, a: Addr): (r: seq<Line>)
    ensures |r| > 0 && r[0] == SafePrint(a)
    ensures forall l :: l in r ==> l == SafePrint(a) || l == RegionLine(h.regionIndex(a))
    ensures RegionLine(h.regionIndex(a)) in r <==> h.inHeap(a) && RegionContaining(h, a).Some?
  {
    [SafePrint(a)]
    + (if h.inHeap(a) then
         match RegionContaining(h, a)
         case Some(i) => [RegionLine(i)]
         case None => []
       else [])
  }

  // ---------------------------------------------------------------------
  // The sections of print_failure

  /** "Referenced from:" (lines 92-103). */
  function ReferencedFrom(h: Heap, f: Failure): (r: seq<Line>)
    requires WellFormed(h)
    ensures forall l :: l in r ==> BodyLine(l)
  {
    var locInHeap := f.loc != NULL && h.inHeap(f.loc);
    if f.interiorLoc != NULL then
      [InteriorLocation(f.interiorLoc)]
      + (if locInHeap then ObjLines(h, f.loc) else NonObjLines(h, f.interiorLoc))
    else
      [NoInteriorLocation]
  }

  /** "Object:" (lines 105-111). */
  function ObjectSection(h: Heap, f: Failure): (r: seq<Line>)
    requires WellFormed(h) && LevelJustified(h, f)
    ensures forall l :: l in r ==> l == Heading(ObjectPart) || BodyLine(l)
  {
    [Heading(ObjectPart)]
    + (if f.level.AtLeast(SafeOop) then ObjLines(h, f.obj) else SafeLines(h, f.obj))
    + [Blank]
  }

  /** "Forwardee:" (lines 113-126). */
  function ForwardeeSection(h: Heap, f: Failure): (r: seq<Line>)
    requires WellFormed(h) && LevelJustified(h, f)
    ensures forall l :: l in r ==> l == Heading(ForwardeePart) || l == TheObjectItself || BodyLine(l)
  {
    if f.level.AtLeast(SafeOop) then
      var fwd := h.fwd(f.obj);
      [Heading(ForwardeePart)]
      + (if f.obj != fwd then
           (if f.level.AtLeast(SafeOopFwd) then ObjLines(h, fwd) else SafeLines(h, fwd))
         else [TheObjectItself])
      + [Blank]
    else []
  }

  /** "Second forwardee:" (lines 128-136), always printed safely. */
  function SecondForwardeeSection(h: Heap, f: Failure): (r: seq<Line>)
    ensures forall l :: l in r ==> (l == Heading(SecondForwardeePart) || BodyLine(l)) && !ReadsObjectState(l)
  {
    if f.level.AtLeast(SafeOopFwd) then
      var fwd := h.fwd(f.obj);
      var fwd2 := h.fwd(fwd);
      if fwd != fwd2 then [Heading(SecondForwardeePart)] + SafeLines(h, fwd2) + [Blank] else []
    else []
  }

  /** The connection lines of the matrix block (lines 141-171). */
  function MatrixConnections(h: Heap, f: Failure): (r: seq<Line>)
    ensures forall l :: l in r ==> l.Connected?
    ensures |r| == if f.interiorLoc != NULL && h.inHeap(f.interiorLoc) then 6 else 4
    ensures Connected(ReferenceAndObject, h.connected(h.regionIndex(f.loc), h.regionIndex(f.obj))) in r
    ensures Connected(FwdReferenceAndObject, h.connected(h.regionIndex(h.fwd(f.loc)), h.regionIndex(f.obj))) in r
    ensures Connected(ReferenceAndFwdObject, h.connected(h.regionIndex(f.loc), h.regionIndex(h.fwd(f.obj)))) in r
    ensures Connected(FwdReferenceAndFwdObject, h.connected(h.regionIndex(h.fwd(f.loc)), h.regionIndex(h.fwd(f.obj)))) in r
    ensures Connected(InteriorReferenceAndObject, h.connected(h.regionIndex(f.interiorLoc), h.regionIndex(f.obj))) in r
            <==> f.interiorLoc != NULL && h.inHeap(f.interiorLoc)
    ensures Connected(InteriorReferenceAndFwdObject, h.connected(h.regionIndex(f.interiorLoc), h.regionIndex(h.fwd(f.obj)))) in r
            <==> f.interiorLoc != NULL && h.inHeap(f.interiorLoc)
  {
    var fromIdx := h.regionIndex(f.loc);
    var toIdx := h.regionIndex(f.obj);
    var fwdFromIdx := h.regionIndex(h.fwd(f.loc));
    var fwdToIdx := h.regionIndex(h.fwd(f.obj));
    [ Connected(ReferenceAndObject, h.connected(fromIdx, toIdx)),
      Connected(FwdReferenceAndObject, h.connected(fwdFromIdx, toIdx)),
      Connected(ReferenceAndFwdObject, h.connected(fromIdx, fwdToIdx)),
      Connected(FwdReferenceAndFwdObject, h.connected(fwdFromIdx, fwdToIdx)) ]
    + (if f.interiorLoc != NULL && h.inHeap(f.interiorLoc) then
         var interiorIdx := h.regionIndex(f.interiorLoc);
         [ Connected(InteriorReferenceAndObject, h.connected(interiorIdx, toIdx)),
           Connected(InteriorReferenceAndFwdObject, h.connected(interiorIdx, fwdToIdx)) ]
       else [])
  }

  /** "Matrix connections:" (lines 138-172). */
  function MatrixSection(h: Heap, cfg: Config, f: Failure): (r: seq<Line>)
    ensures forall l :: l in r ==> l == Heading(MatrixPart) || l.Connected?
  {
    if f.loc != NULL && h.inHeap(f.loc) && cfg.useMatrix && f.level == SafeAll then
      [Heading(MatrixPart)] + MatrixConnections(h, f)
    else []
  }

  /** The report up to the matrix block. */
  function ReportBeforeMatrix(h: Heap, f: Failure): seq<Line>
    requires WellFormed(h) && LevelJustified(h, f)
  {
    [Header(f.phase, f.condition)] + [Heading(ReferencedFromPart)] + ReferencedFrom(h, f) + [Blank]
    + ObjectSection(h, f) + ForwardeeSection(h, f) + SecondForwardeeSection(h, f)
  }

  /** The whole message print_failure hands to report_vm_error. */
  function FailureReport(h: Heap, cfg: Config, f: Failure): (r: seq<Line>)
    requires WellFormed(h) && LevelJustified(h, f)
    ensures |r| > 0 && r[0] == Header(f.phase, f.condition)
  {
    ReportBeforeMatrix(h, f) + MatrixSection(h, cfg, f)
  }

  /** The number of matrix-connection lines. */
  function ConnectedCount(lines: seq<Line>): nat {
    if lines == [] then 0
    else (if lines[0].Connected? then 1 else 0) + ConnectedCount(lines[1..])
  }

  /** Concatenation regroups; appending section by section builds the same
      message as appending the sections' concatenation. */
  lemma AppendAssoc(a: seq<Line>, b: seq<Line>, c: seq<Line>)
    ensures (a + b) + c == a + (b + c)
  {}

  // ---------------------------------------------------------------------
  // The message buffer and the imperative renderers

  /** ShenandoahMessageBuffer: a text buffer that only grows. */
  class MessageBuffer {
    var lines: seq<Line>

    constructor (first: Line)
      ensures lines == [first]
    {
      lines := [first];
    }

    method Append(l: Line)
      modifies this
      ensures lines == old(lines) + [l]
    {
      lines := lines + [l];
    }
  }

  method PrintObj(msg: MessageBuffer, h: Heap, obj: Addr)
    requires RegionContaining(h, obj).Some?
    modifies msg
    ensures msg.lines == old(msg.lines) + ObjLines(h, obj)
  {
    var r := RegionContaining(h, obj).value;
    ghost var start := msg.lines;
    msg.Append(Klass(obj, h.klass(obj)));
    msg.Append(Flag(obj, AllocatedAfterCompleteMarkStart, h.allocatedAfterCompleteMarkStart(obj)));
    msg.Append(Flag(obj, AllocatedAfterNextMarkStart, h.allocatedAfterNextMarkStart(obj)));
    msg.Append(Flag(obj, MarkedComplete, h.markedComplete(obj)));
    msg.Append(Flag(obj, MarkedNext, h.markedNext(obj)));
    msg.Append(InCollectionSet(obj, h.inCollectionSet(obj)));
    msg.Append(RegionLine(r));
    ghost var ls := ObjLines(h, obj);
    AppendAssoc(start, [ls[0]], [ls[1]]);
    AppendAssoc(start, ls[..2], [ls[2]]);
    AppendAssoc(start, ls[..3], [ls[3]]);
    AppendAssoc(start, ls[..4], [ls[4]]);
    AppendAssoc(start, ls[..5], [ls[5]]);
    AppendAssoc(start, ls[..6], [ls[6]]);
  }

  method PrintNonObj(msg: MessageBuffer, h: Heap, loc: Addr)
    requires h.inHeap(loc) ==> RegionContaining(h, loc).Some?
    modifies msg
    ensures msg.lines == old(msg.lines) + NonObjLines(h, loc)
  {
    if h.inHeap(loc) {
      msg.Append(InsideHeap);
      var r := RegionContaining(h, loc).value;
      msg.Append(InCollectionSet(loc, h.inCollectionSet(loc)));
      msg.Append(RegionLine(r));
    } else {
      msg.Append(OutsideHeap);
      msg.Append(LocationDescription(loc));
    }
  }

  method PrintObjSafe(msg: MessageBuffer, h: Heap, loc: Addr)
    modifies msg
    ensures msg.lines == old(msg.lines) + SafeLines(h, loc)
  {
    msg.Append(SafePrint(loc));
    if h.inHeap(loc) {
      var r := RegionContaining(h, loc);
      if r.Some? {
        msg.Append(RegionLine(r.value));
      }
    }
  }

  /** Lines 92-103 of print_failure. */
  method PrintReferencedFrom(msg: MessageBuffer, h: Heap, f: Failure)
    requires WellFormed(h)
    modifies msg
    ensures msg.lines == old(msg.lines) + [Heading(ReferencedFromPart)] + ReferencedFrom(h, f) + [Blank]
  {
    var locInHeap := f.loc != NULL && h.inHeap(f.loc);
    msg.Append(Heading(ReferencedFromPart));
    if f.interiorLoc != NULL {
      msg.Append(InteriorLocation(f.interiorLoc));
      if locInHeap {
        PrintObj(msg, h, f.loc);
      } else {
        PrintNonObj(msg, h, f.interiorLoc);
      }
      ghost var body := if locInHeap then ObjLines(h, f.loc) else NonObjLines(h, f.interiorLoc);
      AppendAssoc(old(msg.lines) + [Heading(ReferencedFromPart)], [InteriorLocation(f.interiorLoc)], body);
    } else {
      msg.Append(NoInteriorLocation);
    }
    msg.Append(Blank);
    AppendAssoc(old(msg.lines), [Heading(ReferencedFromPart)], ReferencedFrom(h, f));
  }

  /** Lines 105-111 of print_failure. */
  method PrintObjectSection(msg: MessageBuffer, h: Heap, f: Failure)
    requires WellFormed(h) && LevelJustified(h, f)
    modifies msg
    ensures msg.lines == old(msg.lines) + ObjectSection(h, f)
  {
    msg.Append(Heading(ObjectPart));
    if f.level.AtLeast(SafeOop) {
      PrintObj(msg, h, f.obj);
    } else {
      PrintObjSafe(msg, h, f.obj);
    }
    msg.Append(Blank);
    ghost var body := if f.level.AtLeast(SafeOop) then ObjLines(h, f.obj) else SafeLines(h, f.obj);
    AppendAssoc(old(msg.lines), [Heading(ObjectPart)], body);
    AppendAssoc(old(msg.lines), [Heading(ObjectPart)] + body, [Blank]);
  }

  /** Lines 113-126 of print_failure. */
  method PrintForwardee(msg: MessageBuffer, h: Heap, f: Failure)
    requires WellFormed(h) && LevelJustified(h, f)
    modifies msg
    ensures msg.lines == old(msg.lines) + ForwardeeSection(h, f)
  {
    if f.level.AtLeast(SafeOop) {
      var fwd := h.fwd(f.obj);
      msg.Append(Heading(ForwardeePart));
      if f.obj != fwd {
        if f.level.AtLeast(SafeOopFwd) {
          PrintObj(msg, h, fwd);
        } else {
          PrintObjSafe(msg, h, fwd);
        }
      } else {
        msg.Append(TheObjectItself);
      }
      msg.Append(Blank);
      ghost var body := if f.obj != fwd then
           (if f.level.AtLeast(SafeOopFwd) then ObjLines(h, fwd) else SafeLines(h, fwd))
         else [TheObjectItself];
      AppendAssoc(old(msg.lines), [Heading(ForwardeePart)], body);
      AppendAssoc(old(msg.lines), [Heading(ForwardeePart)] + body, [Blank]);
    }
  }

  /** Lines 128-136 of print_failure. */
  method PrintSecondForwardee(msg: MessageBuffer, h: Heap, f: Failure)
    modifies msg
    ensures msg.lines == old(msg.lines) + SecondForwardeeSection(h, f)
  {
    if f.level.AtLeast(SafeOopFwd) {
      var fwd := h.fwd(f.obj);
      var fwd2 := h.fwd(fwd);
      if fwd != fwd2 {
        msg.Append(Heading(SecondForwardeePart));
        PrintObjSafe(msg, h, fwd2);
        msg.Append(Blank);
        AppendAssoc(old(msg.lines), [Heading(SecondForwardeePart)], SafeLines(h, fwd2));
        AppendAssoc(old(msg.lines), [Heading(SecondForwardeePart)] + SafeLines(h, fwd2), [Blank]);
      }
    }
  }

  /** Lines 138-172 of print_failure. */
  method PrintMatrix(msg: MessageBuffer, h: Heap, cfg: Config, f: Failure)
    modifies msg
    ensures msg.lines == old(msg.lines) + MatrixSection(h, cfg, f)
  {
    var locInHeap := f.loc != NULL && h.inHeap(f.loc);
    if locInHeap && cfg.useMatrix && f.level == SafeAll {
      msg.Append(Heading(MatrixPart));
      PrintConnections(msg, h, f);
      AppendAssoc(old(msg.lines), [Heading(MatrixPart)], MatrixConnections(h, f));
    }
  }

  /** Lines 141-171 of print_failure: the connection lines of the matrix block. */
  method PrintConnections(msg: MessageBuffer, h: Heap, f: Failure)
    modifies msg
    ensures msg.lines == old(msg.lines) + MatrixConnections(h, f)
  {
    var interiorLocInHeap := f.interiorLoc != NULL && h.inHeap(f.interiorLoc);
    var fwdTo := h.fwd(f.obj);
    var fwdFrom := h.fwd(f.loc);
    var fromIdx := h.regionIndex(f.loc);
    var toIdx := h.regionIndex(f.obj);
    var fwdFromIdx := h.regionIndex(fwdFrom);
    var fwdToIdx := h.regionIndex(fwdTo);
    ghost var c := MatrixConnections(h, f);
    ghost var before := msg.lines;
    msg.Append(Connected(ReferenceAndObject, h.connected(fromIdx, toIdx)));
    msg.Append(Connected(FwdReferenceAndObject, h.connected(fwdFromIdx, toIdx)));
    msg.Append(Connected(ReferenceAndFwdObject, h.connected(fromIdx, fwdToIdx)));
    msg.Append(Connected(FwdReferenceAndFwdObject, h.connected(fwdFromIdx, fwdToIdx)));
    AppendAssoc(before, [c[0]], [c[1]]);
    AppendAssoc(before, c[..2], [c[2]]);
    AppendAssoc(before, c[..3], [c[3]]);
    if interiorLocInHeap {
      var fromInteriorIdx := h.regionIndex(f.interiorLoc);
      msg.Append(Connected(InteriorReferenceAndObject, h.connected(fromInteriorIdx, toIdx)));
      msg.Append(Connected(InteriorReferenceAndFwdObject, h.connected(fromInteriorIdx, fwdToIdx)));
      AppendAssoc(before, c[..4], [c[4]]);
      AppendAssoc(before, c[..5], [c[5]]);
    }
  }

  /** print_failure: builds the report for a failure whose level its caller
      has justified, in a heap whose addresses all map to regions, and hands
      it to report_vm_error. */
  method PrintFailure(h: Heap, cfg: Config, f: Failure) returns (e: VmError)
    requires WellFormed(h) && LevelJustified(h, f)
    ensures e == VmError(f.site, FailureReport(h, cfg, f))
  {
    var msg := new MessageBuffer(Header(f.phase, f.condition));
    PrintReferencedFrom(msg, h, f);
    PrintObjectSection(msg, h, f);
    PrintForwardee(msg, h, f);
    PrintSecondForwardee(msg, h, f);
    PrintMatrix(msg, h, cfg, f);
    e := VmError(f.site, msg.lines);
  }

  /** A line is in the report before the matrix block exactly when it is in
      one of the sections there. */
  lemma PrefixMembership(h: Heap, f: Failure, l: Line)
    requires WellFormed(h) && LevelJustified(h, f)
    ensures l in ReportBeforeMatrix(h, f) <==>
      l == Header(f.phase, f.condition) || l == Heading(ReferencedFromPart) || l in ReferencedFrom(h, f)
      || l == Blank || l in ObjectSection(h, f) || l in ForwardeeSection(h, f)
      || l in SecondForwardeeSection(h, f)
  {}

  /** A line is in the report exactly when it is in one of its sections. */
  lemma ReportMembership(h: Heap, cfg: Config, f: Failure, l: Line)
    requires WellFormed(h) && LevelJustified(h, f)
    ensures l in FailureReport(h, cfg, f) <==>
      l == Header(f.phase, f.condition) || l == Heading(ReferencedFromPart) || l in ReferencedFrom(h, f)
      || l == Blank || l in ObjectSection(h, f) || l in ForwardeeSection(h, f)
      || l in SecondForwardeeSection(h, f) || l in MatrixSection(h, cfg, f)
  {
    PrefixMembership(h, f, l);
  }

  // ---------------------------------------------------------------------
  // What the report contains at each level

  /** The object is rendered in detail exactly from _safe_oop up. */
  lemma ObjectDetailByLevel(h: Heap, f: Failure)
    requires WellFormed(h) && LevelJustified(h, f)
    ensures DetailedAbout(ObjectSection(h, f), f.obj) <==> f.level.AtLeast(SafeOop)
  {
    var s := ObjectSection(h, f);
    if f.level.AtLeast(SafeOop) {
      assert Klass(f.obj, h.klass(f.obj)) in s;
    } else {
      forall l | l in s ensures !ReadsObjectState(l) {}
    }
  }

  /** At _safe_oop and above the object's marking flags, collection-set flag
      and region are all reported. */
  lemma ObjectFlagsAtSafeOop(h: Heap, f: Failure)
    requires WellFormed(h) && LevelJustified(h, f)
    requires f.level.AtLeast(SafeOop)
    ensures var s := ObjectSection(h, f);
      && Flag(f.obj, MarkedComplete, h.markedComplete(f.obj)) in s
      && Flag(f.obj, MarkedNext, h.markedNext(f.obj)) in s
      && InCollectionSet(f.obj, h.inCollectionSet(f.obj)) in s
      && RegionLine(h.regionIndex(f.obj)) in s
  {
    var o := ObjLines(h, f.obj);
    assert ObjectSection(h, f) == [Heading(ObjectPart)] + o + [Blank];
  }

  /** The object is safe-printed exactly below _safe_oop. */
  lemma ObjectSafePrintByLevel(h: Heap, f: Failure)
    requires WellFormed(h) && LevelJustified(h, f)
    ensures SafePrint(f.obj) in ObjectSection(h, f) <==> !f.level.AtLeast(SafeOop)
  {
    var s := ObjectSection(h, f);
    if f.level.AtLeast(SafeOop) {
      assert SafePrint(f.obj) !in ObjLines(h, f.obj);
    } else {
      assert s[1] == SafePrint(f.obj);
    }
  }

  /** Below _safe_oop the object is safe-printed: its address and, when it
      is in the heap, its region, and nothing else. */
  lemma ObjectSafePrintBelowSafeOop(h: Heap, f: Failure)
    requires WellFormed(h) && LevelJustified(h, f)
    requires !f.level.AtLeast(SafeOop)
    ensures ObjectSection(h, f) ==
              [Heading(ObjectPart), SafePrint(f.obj)]
              + (if h.inHeap(f.obj) then [RegionLine(h.regionIndex(f.obj))] else [])
              + [Blank]
  {}

  /** The headings of the last three parts, and the object-itself marker,
      come from their own sections only. */
  lemma LateLineOrigin(h: Heap, cfg: Config, f: Failure, l: Line)
    requires WellFormed(h) && LevelJustified(h, f)
    requires l == TheObjectItself || (l.Heading? && l.part != ReferencedFromPart && l.part != ObjectPart)
    ensures l in FailureReport(h, cfg, f) <==>
              l in ForwardeeSection(h, f) || l in SecondForwardeeSection(h, f) || l in MatrixSection(h, cfg, f)
  {
    ReportMembership(h, cfg, f, l);
  }

  /** Each of the last three sections holds no heading of another part, and
      only the forwardee section says "(the object itself)". */
  lemma ForwardeeSectionHeadings(h: Heap, f: Failure)
    requires WellFormed(h) && LevelJustified(h, f)
    ensures Heading(SecondForwardeePart) !in ForwardeeSection(h, f)
    ensures Heading(MatrixPart) !in ForwardeeSection(h, f)
  {}

  lemma SecondForwardeeSectionHeadings(h: Heap, f: Failure)
    ensures Heading(ForwardeePart) !in SecondForwardeeSection(h, f)
    ensures Heading(MatrixPart) !in SecondForwardeeSection(h, f)
    ensures TheObjectItself !in SecondForwardeeSection(h, f)
  {}

  lemma MatrixSectionHeadings(h: Heap, cfg: Config, f: Failure)
    ensures Heading(ForwardeePart) !in MatrixSection(h, cfg, f)
    ensures Heading(SecondForwardeePart) !in MatrixSection(h, cfg, f)
    ensures TheObjectItself !in MatrixSection(h, cfg, f)
  {}

  /** The forwardee section is printed exactly from _safe_oop up, and says
      "(the object itself)" exactly when the object is not forwarded. */
  lemma ForwardeeSectionShape(h: Heap, f: Failure)
    requires WellFormed(h) && LevelJustified(h, f)
    ensures Heading(ForwardeePart) in ForwardeeSection(h, f) <==> f.level.AtLeast(SafeOop)
    ensures TheObjectItself in ForwardeeSection(h, f) <==> f.level.AtLeast(SafeOop) && h.fwd(f.obj) == f.obj
  {
    var s := ForwardeeSection(h, f);
    if f.level.AtLeast(SafeOop) {
      assert s[0] == Heading(ForwardeePart);
      if h.fwd(f.obj) == f.obj {
        assert s[1] == TheObjectItself;
      } else if f.level.AtLeast(SafeOopFwd) {
        assert TheObjectItself !in ObjLines(h, h.fwd(f.obj));
      } else {
        assert TheObjectItself !in SafeLines(h, h.fwd(f.obj));
      }
    }
  }

  /** "Forwardee" appears exactly from _safe_oop up. */
  lemma ForwardeeByLevel(h: Heap, cfg: Config, f: Failure)
    requires WellFormed(h) && LevelJustified(h, f)
    ensures Heading(ForwardeePart) in FailureReport(h, cfg, f) <==> f.level.AtLeast(SafeOop)
  {
    LateLineOrigin(h, cfg, f, Heading(ForwardeePart));
    ForwardeeSectionShape(h, f);
    SecondForwardeeSectionHeadings(h, f);
    MatrixSectionHeadings(h, cfg, f);
  }

  /** "(the object itself)" appears exactly when the forwardee section is
      printed and the object is not forwarded. */
  lemma ObjectItselfByLevel(h: Heap, cfg: Config, f: Failure)
    requires WellFormed(h) && LevelJustified(h, f)
    ensures TheObjectItself in FailureReport(h, cfg, f)
            <==> f.level.AtLeast(SafeOop) && h.fwd(f.obj) == f.obj
  {
    LateLineOrigin(h, cfg, f, TheObjectItself);
    ForwardeeSectionShape(h, f);
    SecondForwardeeSectionHeadings(h, f);
    MatrixSectionHeadings(h, cfg, f);
  }

  /** A distinct forwardee is rendered in detail exactly from _safe_oop_fwd
      up. */
  lemma ForwardeeDetailByLevel(h: Heap, f: Failure)
    requires WellFormed(h) && LevelJustified(h, f)
    ensures DetailedAbout(ForwardeeSection(h, f), h.fwd(f.obj))
            <==> f.level.AtLeast(SafeOopFwd) && h.fwd(f.obj) != f.obj
  {
    var fwd := h.fwd(f.obj);
    var s := ForwardeeSection(h, f);
    if f.level.AtLeast(SafeOopFwd) && fwd != f.obj {
      assert Klass(fwd, h.klass(fwd)) in s;
    } else {
      forall l | l in s ensures !ReadsObjectState(l) {}
    }
  }

  /** At exactly _safe_oop a distinct forwardee is safe-printed. */
  lemma ForwardeeSafePrintAtSafeOop(h: Heap, f: Failure)
    requires WellFormed(h) && LevelJustified(h, f)
    ensures SafePrint(h.fwd(f.obj)) in ForwardeeSection(h, f)
            <==> f.level == SafeOop && h.fwd(f.obj) != f.obj
  {
    var fwd := h.fwd(f.obj);
    if f.level == SafeOop && fwd != f.obj {
      ForwardeeSafePrinted(h, f);
    } else if f.level.AtLeast(SafeOopFwd) && fwd != f.obj {
      ForwardeeNotSafePrinted(h, f);
    } else {
      ForwardeeSectionShort(h, f);
    }
  }

  lemma ForwardeeSafePrinted(h: Heap, f: Failure)
    requires WellFormed(h) && LevelJustified(h, f)
    requires f.level == SafeOop && h.fwd(f.obj) != f.obj
    ensures SafePrint(h.fwd(f.obj)) in ForwardeeSection(h, f)
  {
    assert ForwardeeSection(h, f)[1] == SafePrint(h.fwd(f.obj));
  }

  lemma ForwardeeNotSafePrinted(h: Heap, f: Failure)
    requires WellFormed(h) && LevelJustified(h, f)
    requires f.level.AtLeast(SafeOopFwd) && h.fwd(f.obj) != f.obj
    ensures SafePrint(h.fwd(f.obj)) !in ForwardeeSection(h, f)
  {
    var fwd := h.fwd(f.obj);
    assert ForwardeeSection(h, f) == [Heading(ForwardeePart)] + ObjLines(h, fwd) + [Blank];
    assert SafePrint(fwd) !in ObjLines(h, fwd);
  }

  /** Below _safe_oop, or for an object that is not forwarded, the forwardee
      section renders no address. */
  lemma ForwardeeSectionShort(h: Heap, f: Failure)
    requires WellFormed(h) && LevelJustified(h, f)
    requires !f.level.AtLeast(SafeOop) || h.fwd(f.obj) == f.obj
    ensures ForwardeeSection(h, f) == if f.level.AtLeast(SafeOop) then [Heading(ForwardeePart), TheObjectItself, Blank] else []
  {}

  /** The second-forwardee section is printed exactly from _safe_oop_fwd up
      when the forwardee is itself forwarded, and safe-prints the second
      forwardee. */
  lemma SecondForwardeeSectionShape(h: Heap, f: Failure)
    ensures Heading(SecondForwardeePart) in SecondForwardeeSection(h, f)
            <==> f.level.AtLeast(SafeOopFwd) && h.fwd(h.fwd(f.obj)) != h.fwd(f.obj)
    ensures Heading(SecondForwardeePart) in SecondForwardeeSection(h, f)
            ==> SafePrint(h.fwd(h.fwd(f.obj))) in SecondForwardeeSection(h, f)
  {
    var s := SecondForwardeeSection(h, f);
    if s != [] {
      assert s[0] == Heading(SecondForwardeePart);
      assert s[1] == SafePrint(h.fwd(h.fwd(f.obj)));
    }
  }

  /** "Second forwardee" appears exactly from _safe_oop_fwd up, when the
      forwardee is itself forwarded. */
  lemma SecondForwardeeByLevel(h: Heap, cfg: Config, f: Failure)
    requires WellFormed(h) && LevelJustified(h, f)
    ensures Heading(SecondForwardeePart) in FailureReport(h, cfg, f)
            <==> f.level.AtLeast(SafeOopFwd) && h.fwd(h.fwd(f.obj)) != h.fwd(f.obj)
  {
    LateLineOrigin(h, cfg, f, Heading(SecondForwardeePart));
    SecondForwardeeSectionShape(h, f);
    ForwardeeSectionHeadings(h, f);
    MatrixSectionHeadings(h, cfg, f);
  }

  lemma {:induction false} ConnectedCountAppend(a: seq<Line>, b: seq<Line>)
    ensures ConnectedCount(a + b) == ConnectedCount(a) + ConnectedCount(b)
  {
    if a == [] {
      assert a + b == b;
    } else {
      assert (a + b)[1..] == a[1..] + b;
      ConnectedCountAppend(a[1..], b);
    }
  }

  lemma {:induction false} ConnectedCountNone(a: seq<Line>)
    requires forall l :: l in a ==> !l.Connected?
    ensures ConnectedCount(a) == 0
  {
    if a != [] {
      assert a[0] in a;
      ConnectedCountNone(a[1..]);
    }
  }

  lemma {:induction false} ConnectedCountAll(a: seq<Line>)
    requires forall l :: l in a ==> l.Connected?
    ensures ConnectedCount(a) == |a|
  {
    if a != [] {
      assert a[0] in a;
      ConnectedCountAll(a[1..]);
    }
  }

  /** The matrix block is printed exactly when the referencing object is a
      non-null heap address, the matrix is in use and the level is _safe_all. */
  lemma MatrixSectionShape(h: Heap, cfg: Config, f: Failure)
    ensures Heading(MatrixPart) in MatrixSection(h, cfg, f)
            <==> f.loc != NULL && h.inHeap(f.loc) && cfg.useMatrix && f.level == SafeAll
  {
    var m := MatrixSection(h, cfg, f);
    if m != [] {
      assert m[0] == Heading(MatrixPart);
    }
  }

  /** "Matrix connections" appears only when the referencing object is a
      non-null heap address, the matrix is in use and the level is _safe_all. */
  lemma MatrixByLevel(h: Heap, cfg: Config, f: Failure)
    requires WellFormed(h) && LevelJustified(h, f)
    ensures Heading(MatrixPart) in FailureReport(h, cfg, f)
            <==> f.loc != NULL && h.inHeap(f.loc) && cfg.useMatrix && f.level == SafeAll
  {
    LateLineOrigin(h, cfg, f, Heading(MatrixPart));
    MatrixSectionShape(h, cfg, f);
    ForwardeeSectionHeadings(h, f);
    SecondForwardeeSectionHeadings(h, f);
  }

  /** The matrix block holds four connection lines, and two more exactly when
      the interior location is in the heap. */
  lemma MatrixSectionCount(h: Heap, cfg: Config, f: Failure)
    ensures ConnectedCount(MatrixSection(h, cfg, f)) ==
              if f.loc != NULL && h.inHeap(f.loc) && cfg.useMatrix && f.level == SafeAll then
                (if f.interiorLoc != NULL && h.inHeap(f.interiorLoc) then 6 else 4)
              else 0
  {
    if f.loc != NULL && h.inHeap(f.loc) && cfg.useMatrix && f.level == SafeAll {
      var c := MatrixConnections(h, f);
      ConnectedCountAppend([Heading(MatrixPart)], c);
      assert ConnectedCount([Heading(MatrixPart)]) == 0;
      ConnectedCountAll(c);
    }
  }

  /** No part of the report but the matrix block holds connection lines. */
  lemma MatrixConnectionCount(h: Heap, cfg: Config, f: Failure)
    requires WellFormed(h) && LevelJustified(h, f)
    ensures ConnectedCount(FailureReport(h, cfg, f)) == ConnectedCount(MatrixSection(h, cfg, f))
  {
    var prefix := ReportBeforeMatrix(h, f);
    forall l | l in prefix ensures !l.Connected? {
      PrefixMembership(h, f, l);
    }
    ConnectedCountNone(prefix);
    ConnectedCountAppend(prefix, MatrixSection(h, cfg, f));
  }

  /** Every line of the report that reads object state is about a heap
      address: the safety level keeps diagnosis from dereferencing garbage. */
  lemma ReportReadsOnlyHeapObjects(h: Heap, cfg: Config, f: Failure)
    requires WellFormed(h) && LevelJustified(h, f)
    ensures forall l :: l in FailureReport(h, cfg, f) && ReadsObjectState(l) ==> h.inHeap(l.obj)
  {
    ReferencedFromReadsHeap(h, f);
    ObjectSectionReadsHeap(h, f);
    ForwardeeSectionReadsHeap(h, f);
    forall l | l in FailureReport(h, cfg, f) && ReadsObjectState(l) ensures h.inHeap(l.obj) {
      ReportMembership(h, cfg, f, l);
    }
  }

  lemma ReferencedFromReadsHeap(h: Heap, f: Failure)
    requires WellFormed(h)
    ensures forall l :: l in ReferencedFrom(h, f) && ReadsObjectState(l) ==> h.inHeap(l.obj)
  {}

  lemma ObjectSectionReadsHeap(h: Heap, f: Failure)
    requires WellFormed(h) && LevelJustified(h, f)
    ensures forall l :: l in ObjectSection(h, f) && ReadsObjectState(l) ==> h.inHeap(l.obj)
  {}

  lemma ForwardeeSectionReadsHeap(h: Heap, f: Failure)
    requires WellFormed(h) && LevelJustified(h, f)
    ensures forall l :: l in ForwardeeSection(h, f) && ReadsObjectState(l) ==> h.inHeap(l.obj)
  {}

  /** "Referenced from" renders the referencing object in detail only when
      the interior location is set and the referencing object is a heap
      address. */
  lemma ReferencedFromObjectChoice(h: Heap, f: Failure)
    requires WellFormed(h)
    ensures f.interiorLoc != NULL && f.loc != NULL && h.inHeap(f.loc) ==>
              ReferencedFrom(h, f) == [InteriorLocation(f.interiorLoc)] + ObjLines(h, f.loc)
    ensures !(f.interiorLoc != NULL && f.loc != NULL && h.inHeap(f.loc)) ==>
              forall l :: l in ReferencedFrom(h, f) ==> !ReadsObjectState(l)
  {}

  /** Otherwise it describes the raw interior location when one is set, and
      says that none was recorded when it is null. */
  lemma ReferencedFromLocationChoice(h: Heap, f: Failure)
    requires WellFormed(h)
    requires !(f.loc != NULL && h.inHeap(f.loc))
    ensures NoInteriorLocation in ReferencedFrom(h, f) <==> f.interiorLoc == NULL
    ensures f.interiorLoc != NULL ==>
              ReferencedFrom(h, f) == [InteriorLocation(f.interiorLoc)] + NonObjLines(h, f.interiorLoc)
  {}
}
