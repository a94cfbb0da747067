/**
 * The validation interceptors and the start-up selector. The kernel's
 * original code-signing validators and its vnode path lookup are opaque to
 * the plugin; they enter the model as function parameters.
 */
module Interceptor {
  import opened Patterns
  import opened Patcher
  import opened PathFilter

  /** Opaque kernel handles: the file (vnode) and its backing memory object (pager). */
  type Vnode = nat
  type Pager = nat

  /** What vn_getpath hands back: its status (0 on success) and the path it wrote. */
  datatype PathLookup = PathLookup(status: int, path: string)

  /** The wrappers patch only when the lookup succeeded and named the reporter. */
  predicate IsReporter(lookup: PathLookup) {
    lookup.status == 0 && MatchReporterPath(lookup.path)
  }

  /** What the original cs_validate_range returns and leaves in `*result`. */
  datatype RangeValidation = RangeValidation(valid: bool, result: nat)

  /** What the original cs_validate_page leaves in `*validated_p`, `*tainted_p` and `*nx_p`. */
  datatype PageValidation = PageValidation(validated: int, tainted: int, nx: int)

  /** The kernel's page size on x86_64. */
  const PageSize: nat := 4096

  /**
   * The wrapper for cs_validate_range (macOS Catalina and earlier). It calls
   * the original on the unpatched bytes, returns exactly what the original
   * returned, and patches `data[0..size)` only when validation succeeded and
   * the file is the reporter.
   */
  method WrapCSValidateRange(
    orgCSValidateRange: (Vnode, Pager, nat, seq<Byte>, nat) -> RangeValidation,
    vnGetPath: Vnode -> PathLookup,
    vp: Vnode, pager: Pager, offset: nat, data: array<Byte>, size: nat, resultIn: nat)
    returns (retVal: bool, result: nat)
    requires size <= data.Length
    modifies data
    ensures RangeValidation(retVal, result) == orgCSValidateRange(vp, pager, offset, old(data[..size]), resultIn)
    ensures data[..size] ==
      if retVal && IsReporter(vnGetPath(vp)) then Patched(old(data[..size])) else old(data[..size])
    ensures data[size..] == old(data[size..])
  {
    var validation := orgCSValidateRange(vp, pager, offset, data[..size], resultIn);
    retVal, result := validation.valid, validation.result;
    if retVal {
      var lookup := vnGetPath(vp);
      if lookup.status == 0 && MatchReporterPath(lookup.path) {
        var _ := PatchReporter(data, size);
      }
    }
  }

  /**
   * The wrapper for cs_validate_page (macOS Big Sur and later). It calls the
   * original on the unpatched page, passes its three flags back untouched,
   * and, whatever their values, patches the first PageSize bytes when the
   * file is the reporter.
   */
  method WrapCSValidatePage(
    orgCSValidatePage: (Vnode, Pager, nat, seq<Byte>, PageValidation) -> PageValidation,
    vnGetPath: Vnode -> PathLookup,
    vp: Vnode, pager: Pager, pageOffset: nat, data: array<Byte>, flagsIn: PageValidation)
    returns (flags: PageValidation)
    requires PageSize <= data.Length
    modifies data
    ensures flags == orgCSValidatePage(vp, pager, pageOffset, old(data[..PageSize]), flagsIn)
    ensures data[..PageSize] ==
      if IsReporter(vnGetPath(vp)) then Patched(old(data[..PageSize])) else old(data[..PageSize])
    ensures data[PageSize..] == old(data[PageSize..])
  {
    flags := orgCSValidatePage(vp, pager, pageOffset, data[..PageSize], flagsIn);
    var lookup := vnGetPath(vp);
    if lookup.status == 0 && MatchReporterPath(lookup.path) {
      var _ := PatchReporter(data, PageSize);
    }
  }

  /** Kernel versions are Darwin major release numbers. */
  type KernelVersion = int

  /** Darwin 20, macOS Big Sur: the first release validating pages with cs_validate_page. */
  const BigSur: KernelVersion := 20

  /** The wrapper a route request installs. */
  datatype Wrapper = RangeWrapper | PageWrapper

  /** A request to route one kernel symbol to one wrapper. */
  datatype RouteRequest = RouteRequest(symbol: string, wrapper: Wrapper)

  const RequestLegacy: RouteRequest := RouteRequest("_cs_validate_range", RangeWrapper)
  const RequestCurrent: RouteRequest := RouteRequest("_cs_validate_page", PageWrapper)

  /**
   * The one request the start routine submits: the page validator's from
   * Big Sur on, the range validator's before. Either way the symbol and the
   * wrapper belong to the same validator.
   */
  function SelectRequest(version: KernelVersion): (r: RouteRequest)
    ensures r == RequestCurrent <==> version >= BigSur
    ensures r == RequestLegacy <==> version < BigSur
    ensures r.wrapper == PageWrapper <==> r.symbol == "_cs_validate_page"
  {
    if version >= BigSur then RequestCurrent else RequestLegacy
  }

  /** How the start routine ends: the hook is in place, or routing failed and was only logged. */
  datatype StartOutcome = Routed(request: RouteRequest) | RouteFailed(request: RouteRequest)

  /**
   * The action run once the kernel patcher is ready: it submits exactly the
   * selected request, alone, to the router; a refusal is logged and the
   * plugin carries on unpatched.
   */
  function OnPatcherLoad(version: KernelVersion, routeMultipleLong: seq<RouteRequest> -> bool): (o: StartOutcome)
    ensures o.request == SelectRequest(version)
    ensures o.Routed? <==> routeMultipleLong([SelectRequest(version)])
  {
    var request := SelectRequest(version);
    if routeMultipleLong([request]) then Routed(request) else RouteFailed(request)
  }
}
