/** The reference-processor phase guards of shenandoahAsserts.cpp: checks
    that the is-alive closure registered with the reference processor is, or
    is not, the one the heap designates, and the report they hand to
    report_vm_error. */
module RpAsserts {
  import opened Outcomes
  import opened Reporting

  const NotInstalledTitle := "Shenandoah assert_rp_isalive_not_installed failed"
  const InstalledTitle := "Shenandoah assert_rp_isalive_installed failed"

  /** What the guards read: the closure registered with the reference
      processor (rp->is_alive_non_header()), the closure the heap designates
      (heap->is_alive_closure()), and the addresses of the heap's two
      is-alive closure fields.  Closures are pointers; 0 is null. */
  datatype RefProcessing = RefProcessing(
    registered: Closure,
    designated: Closure,
    isAliveField: nat,
    forwardedIsAliveField: nat)

  /** The arguments of print_rp_failure. */
  datatype RpFailure = RpFailure(title: string, actual: Closure, expected: Closure, site: Site)

  /** assert_rp_isalive_not_installed (lines 344-351). */
  function AssertRpIsAliveNotInstalled(rp: RefProcessing, site: Site): (r: Outcome<RpFailure>)
    ensures r.Ok? <==> rp.registered == 0
    ensures r.Fail? ==> r.failure == RpFailure(NotInstalledTitle, rp.registered, 0, site)
  {
    if rp.registered != 0 then Fail(RpFailure(NotInstalledTitle, rp.registered, 0, site)) else Ok
  }

  /** assert_rp_isalive_installed (lines 353-360). */
  function AssertRpIsAliveInstalled(rp: RefProcessing, site: Site): (r: Outcome<RpFailure>)
    ensures r.Ok? <==> rp.registered == rp.designated
    ensures r.Fail? ==> r.failure == RpFailure(InstalledTitle, rp.registered, rp.designated, site)
  {
    if rp.registered != rp.designated then
      Fail(RpFailure(InstalledTitle, rp.registered, rp.designated, site))
    else Ok
  }

  /** While the heap designates a non-null closure the two guards never both
      pass; both fail exactly when the registered closure is neither null nor
      the designated one. */
  lemma GuardsExclusive(rp: RefProcessing, site: Site)
    requires rp.designated != 0
    ensures !(AssertRpIsAliveNotInstalled(rp, site).Ok? && AssertRpIsAliveInstalled(rp, site).Ok?)
    ensures AssertRpIsAliveNotInstalled(rp, site).Fail? && AssertRpIsAliveInstalled(rp, site).Fail?
            <==> rp.registered != 0 && rp.registered != rp.designated
  {}

  /** The lines of print_rp_failure (lines 333-342): the title, the actual and
      expected closures, and the addresses of the heap's two closure fields. */
  function RpReport(rp: RefProcessing, f: RpFailure): (r: seq<Line>)
    ensures |r| == 5 && r[0] == Title(f.title)
    ensures Pointer(Actual, f.actual) in r && Pointer(Expected, f.expected) in r
  {
    [ Title(f.title),
      Pointer(Actual, f.actual),
      Pointer(Expected, f.expected),
      Pointer(IsAliveField, rp.isAliveField),
      Pointer(ForwardedIsAliveField, rp.forwardedIsAliveField) ]
  }

  /** print_rp_failure: builds the report and hands it to report_vm_error. */
  method PrintRpFailure(rp: RefProcessing, f: RpFailure) returns (e: VmError)
    ensures e == VmError(f.site, RpReport(rp, f))
  {
    var msg := new MessageBuffer(Title(f.title));
    msg.Append(Pointer(Actual, f.actual));
    msg.Append(Pointer(Expected, f.expected));
    msg.Append(Pointer(IsAliveField, rp.isAliveField));
    msg.Append(Pointer(ForwardedIsAliveField, rp.forwardedIsAliveField));
    e := VmError(f.site, msg.lines);
  }

  /** A failing guard's report names the registered closure as the actual
      one, and null or the designated closure as the expected one. */
  lemma GuardReports(rp: RefProcessing, site: Site)
    ensures var r := AssertRpIsAliveNotInstalled(rp, site);
      r.Fail? ==> Pointer(Actual, rp.registered) in RpReport(rp, r.failure)
                  && Pointer(Expected, 0) in RpReport(rp, r.failure)
    ensures var r := AssertRpIsAliveInstalled(rp, site);
      r.Fail? ==> Pointer(Actual, rp.registered) in RpReport(rp, r.failure)
                  && Pointer(Expected, rp.designated) in RpReport(rp, r.failure)
  {}
}
