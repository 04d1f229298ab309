/** Access evaluation: device posture and the policy's conditions, as lists of reasons to
    deny. Addresses, networks and countries are looked up by parameters. */
module AccessEval {
  import opened Text
  import opened PolicyTime

  datatype Reason =
    | PostureUnavailable(device: string)
    | FirewallOff(device: string)
    | DiskOpen(device: string)
    | Vulnerable(device: string, vulnerability: string)
    | VulnerabilitiesUnknown(device: string)
    | PolicyNeedsDisk(device: string)
    | PolicyNeedsNoVulnerabilities(device: string)
    | WindowMisconfigured
    | OutsideWindow(start: string, end: string)
    | AddressUnreadable
    | NetworkNotAllowed
    | CountryUnknown
    | CountryNotAllowed

  datatype Policy = Policy(start: Option<string>, end: Option<string>, networks: seq<string>, countries: seq<string>,
                           needsDisk: bool, needsNoVulnerabilities: bool)

  /** Whether an address can be read, whether a list entry covers it, where it is; ""
      stands for an unknown country. */
  datatype Lookup = Lookup(readable: string -> bool, covers: (string, string) -> bool, country: string -> string)

  // ---- conditions ----

  predicate TimeAllows(p: Policy, now: nat) {
    p.start.Some? && p.end.Some? ==>
      var s, e := ParsePolicyTime(p.start.value), ParsePolicyTime(p.end.value);
      s.Some? && e.Some? && InWindow(now, s.value, e.value)
  }

  predicate NetworkAllows(p: Policy, l: Lookup, ip: string) {
    p.networks != [] ==> l.readable(ip) && exists n :: n in p.networks && l.covers(n, ip)
  }

  predicate CountryAllows(p: Policy, l: Lookup, ip: string) {
    p.countries != [] ==> l.country(ip) != "" && exists c :: c in p.countries && EqualFold(c, l.country(ip))
  }

  function When(b: bool, r: Reason): seq<Reason> {
    if b then [r] else []
  }

  function TimeReasons(p: Policy, now: nat): (r: seq<Reason>)
    ensures r == [] <==> TimeAllows(p, now)
  {
    if p.start.None? || p.end.None? then []
    else
      var s, e := ParsePolicyTime(p.start.value), ParsePolicyTime(p.end.value);
      if s.None? || e.None? then [WindowMisconfigured]
      else When(!InWindow(now, s.value, e.value), OutsideWindow(FormatPolicyTime(s.value), FormatPolicyTime(e.value)))
  }

  ghost function NetworkReasons(p: Policy, l: Lookup, ip: string): (r: seq<Reason>)
    ensures r == [] <==> NetworkAllows(p, l, ip)
  {
    if p.networks != [] && !l.readable(ip) then [AddressUnreadable]
    else When(!NetworkAllows(p, l, ip), NetworkNotAllowed)
  }

  ghost function CountryReasons(p: Policy, l: Lookup, ip: string): (r: seq<Reason>)
    ensures r == [] <==> CountryAllows(p, l, ip)
  {
    if p.countries != [] && l.country(ip) == "" then [CountryUnknown]
    else When(!CountryAllows(p, l, ip), CountryNotAllowed)
  }

  /** What each reason claims of the policy's conditions. */
  ghost predicate Denies(p: Policy, l: Lookup, ip: string, now: nat, r: Reason) {
    match r
    case WindowMisconfigured =>
      p.start.Some? && p.end.Some? && (ParsePolicyTime(p.start.value).None? || ParsePolicyTime(p.end.value).None?)
    case OutsideWindow(start, end) =>
      p.start.Some? && p.end.Some? &&
      (match (ParsePolicyTime(p.start.value), ParsePolicyTime(p.end.value))
       case (Some(s), Some(e)) => !InWindow(now, s, e) && start == FormatPolicyTime(s) && end == FormatPolicyTime(e)
       case _ => false)
    case AddressUnreadable => p.networks != [] && !l.readable(ip)
    case NetworkNotAllowed => p.networks != [] && l.readable(ip) && forall n :: n in p.networks ==> !l.covers(n, ip)
    case CountryUnknown => p.countries != [] && l.country(ip) == ""
    case CountryNotAllowed =>
      p.countries != [] && l.country(ip) != "" && forall c :: c in p.countries ==> Lower(c) != Lower(l.country(ip))
    case _ => false
  }

  ghost predicate ExactlyDenies(p: Policy, l: Lookup, ip: string, now: nat, reasons: seq<Reason>) {
    match p
    case Policy(_, _, _, _, _, _) => forall r :: r in reasons <==> Denies(p, l, ip, now, r)
  }

  /** The reasons are exactly those that hold of the conditions. */
  lemma ReasonsDeny(p: Policy, l: Lookup, ip: string, now: nat)
    ensures ExactlyDenies(p, l, ip, now, TimeReasons(p, now) + NetworkReasons(p, l, ip) + CountryReasons(p, l, ip))
  {
    forall r
      ensures r in TimeReasons(p, now) + NetworkReasons(p, l, ip) + CountryReasons(p, l, ip) <==> Denies(p, l, ip, now, r)
    {
      TimeDenies(p, l, ip, now, r);
      NetworkDenies(p, l, ip, now, r);
      CountryDenies(p, l, ip, now, r);
    }
  }

  predicate OfTime(r: Reason) {
    r.WindowMisconfigured? || r.OutsideWindow?
  }

  predicate OfNetwork(r: Reason) {
    r.AddressUnreadable? || r.NetworkNotAllowed?
  }

  lemma TimeDenies(p: Policy, l: Lookup, ip: string, now: nat, r: Reason)
    ensures r in TimeReasons(p, now) <==> OfTime(r) && Denies(p, l, ip, now, r)
  {
  }

  lemma NetworkDenies(p: Policy, l: Lookup, ip: string, now: nat, r: Reason)
    ensures r in NetworkReasons(p, l, ip) <==> OfNetwork(r) && Denies(p, l, ip, now, r)
  {
  }

  lemma CountryDenies(p: Policy, l: Lookup, ip: string, now: nat, r: Reason)
    ensures r in CountryReasons(p, l, ip) <==> !OfTime(r) && !OfNetwork(r) && Denies(p, l, ip, now, r)
  {
  }

  method NetworkMatches(p: Policy, l: Lookup, ip: string) returns (matched: bool)
    ensures matched <==> exists n :: n in p.networks && l.covers(n, ip)
  {
    matched := false;
    for i := 0 to |p.networks|
      invariant !matched && forall j :: 0 <= j < i ==> !l.covers(p.networks[j], ip)
    {
      if l.covers(p.networks[i], ip) {
        matched := true;
        break;
      }
    }
  }

  method CountryMatches(p: Policy, country: string) returns (matched: bool)
    ensures matched <==> exists c :: c in p.countries && EqualFold(c, country)
  {
    matched := false;
    for i := 0 to |p.countries|
      invariant !matched && forall j :: 0 <= j < i ==> !EqualFold(p.countries[j], country)
    {
      if EqualFold(p.countries[i], country) {
        matched := true;
        break;
      }
    }
  }

  /** Every condition that is set gives its own reason, and none is given exactly when
      all of them hold. */
  method EvalConditions(p: Policy, l: Lookup, ip: string, now: nat) returns (reasons: seq<Reason>)
    requires now < MINUTES
    ensures reasons == TimeReasons(p, now) + NetworkReasons(p, l, ip) + CountryReasons(p, l, ip)
    ensures ExactlyDenies(p, l, ip, now, reasons)
    ensures reasons == [] <==> TimeAllows(p, now) && NetworkAllows(p, l, ip) && CountryAllows(p, l, ip)
  {
    ReasonsDeny(p, l, ip, now);
    reasons := [];
    if p.start.Some? && p.end.Some? {
      var s, e := ParsePolicyTime(p.start.value), ParsePolicyTime(p.end.value);
      if s.None? || e.None? {
        reasons := reasons + [WindowMisconfigured];
      } else if !InWindow(now, s.value, e.value) {
        reasons := reasons + [OutsideWindow(FormatPolicyTime(s.value), FormatPolicyTime(e.value))];
      }
    }
    assert reasons == TimeReasons(p, now);
    if |p.networks| > 0 {
      if !l.readable(ip) {
        reasons := reasons + [AddressUnreadable];
      } else {
        var matched := NetworkMatches(p, l, ip);
        if !matched {
          reasons := reasons + [NetworkNotAllowed];
        }
      }
    }
    assert reasons == TimeReasons(p, now) + NetworkReasons(p, l, ip);
    if |p.countries| > 0 {
      var country := l.country(ip);
      if country == "" {
        reasons := reasons + [CountryUnknown];
      } else {
        var matched := CountryMatches(p, country);
        if !matched {
          reasons := reasons + [CountryNotAllowed];
        }
      }
    }
  }

  /** A window that was accepted when written allows, however the database renders its
      bounds, exactly the arc of the clock from start to end. */
  lemma StoredWindowMeansArc(start: string, end: string, s: nat, e: nat, p: Policy, now: nat, second: nat, micros: nat)
    requires second < 60 && micros < 1000000 && now < MINUTES && s < MINUTES && e < MINUTES
    requires ParsePolicyTime(start) == Some(s) && ParsePolicyTime(end) == Some(e)
    requires p.start == Some(Normalise(DbText(s, second, micros))) && p.end == Some(Normalise(DbText(e, second, micros)))
    ensures TimeAllows(p, now) <==> (now - s) % MINUTES < (e - s) % MINUTES
  {
    BoundSurvives(start, s, second, micros);
    BoundSurvives(end, e, second, micros);
    ReadWindowMeansArc(p, s, e, now);
  }

  lemma ReadWindowMeansArc(p: Policy, s: nat, e: nat, now: nat)
    requires now < MINUTES && s < MINUTES && e < MINUTES && p.start.Some? && p.end.Some?
    requires ParsePolicyTime(p.start.value) == Some(s) && ParsePolicyTime(p.end.value) == Some(e)
    ensures TimeAllows(p, now) <==> (now - s) % MINUTES < (e - s) % MINUTES
  {
    WindowIsArc(now, s, e);
  }

  // ---- posture ----

  datatype Posture = Posture(firewall: bool, disk: bool, vulnerabilities: seq<string>, unknown: bool)

  /** None stands for a device whose state cannot be read. */
  type Fleet = string -> Option<Posture>

  /** The secure baseline; the policy's own flags only repeat it. */
  predicate Compliant(state: Option<Posture>) {
    state.Some? && state.value.firewall && state.value.disk && state.value.vulnerabilities == [] && !state.value.unknown
  }

  /** What each reason claims of the device it names. */
  predicate Justified(state: Option<Posture>, p: Policy, device: string, r: Reason) {
    match r
    case PostureUnavailable(d) => d == device && state.None?
    case FirewallOff(d) => d == device && state.Some? && !state.value.firewall
    case DiskOpen(d) => d == device && state.Some? && !state.value.disk
    case Vulnerable(d, v) => d == device && state.Some? && v in state.value.vulnerabilities
    case VulnerabilitiesUnknown(d) => d == device && state.Some? && state.value.unknown
    case PolicyNeedsDisk(d) => d == device && state.Some? && p.needsDisk && !state.value.disk
    case PolicyNeedsNoVulnerabilities(d) =>
      && d == device && state.Some? && p.needsNoVulnerabilities
      && (state.value.vulnerabilities != [] || state.value.unknown)
    case _ => false
  }

  /** The policy's own flags add reasons, but never a device that fails. */
  lemma JustifiedIffNotCompliant(state: Option<Posture>, p: Policy, device: string)
    ensures (exists r :: Justified(state, p, device, r)) <==> !Compliant(state)
  {
    if state.None? {
      assert Justified(state, p, device, PostureUnavailable(device));
    } else if !state.value.firewall {
      assert Justified(state, p, device, FirewallOff(device));
    } else if !state.value.disk {
      assert Justified(state, p, device, DiskOpen(device));
    } else if state.value.vulnerabilities != [] {
      assert Justified(state, p, device, Vulnerable(device, state.value.vulnerabilities[0]));
    } else if state.value.unknown {
      assert Justified(state, p, device, VulnerabilitiesUnknown(device));
    }
  }

  /** The loop over the known vulnerabilities. */
  method AppendVulnerabilities(sofar: seq<Reason>, device: string, vulnerabilities: seq<string>) returns (reasons: seq<Reason>)
    ensures forall r :: r in reasons <==> r in sofar || (r.Vulnerable? && r.device == device && r.vulnerability in vulnerabilities)
  {
    reasons := sofar;
    for i := 0 to |vulnerabilities|
      invariant forall r :: r in reasons <==> r in sofar || (r.Vulnerable? && r.device == device && r.vulnerability in vulnerabilities[..i])
    {
      assert vulnerabilities[..i + 1] == vulnerabilities[..i] + [vulnerabilities[i]];
      reasons := reasons + [Vulnerable(device, vulnerabilities[i])];
    }
    assert vulnerabilities[..|vulnerabilities|] == vulnerabilities;
  }

  /** The reasons given are exactly those that hold of the device; there is none exactly
      when it meets the baseline. */
  method DevicePosture(fleet: Fleet, p: Policy, device: string) returns (reasons: seq<Reason>)
    ensures forall r :: r in reasons <==> Justified(fleet(device), p, device, r)
    ensures reasons == [] <==> Compliant(fleet(device))
  {
    JustifiedIffNotCompliant(fleet(device), p, device);
    if fleet(device).None? {
      return [PostureUnavailable(device)];
    }
    var state := fleet(device).value;
    reasons := [];
    if !state.firewall {
      reasons := reasons + [FirewallOff(device)];
    }
    if !state.disk {
      reasons := reasons + [DiskOpen(device)];
    }
    reasons := AppendVulnerabilities(reasons, device, state.vulnerabilities);
    if state.unknown {
      reasons := reasons + [VulnerabilitiesUnknown(device)];
    }
    if p.needsDisk && !state.disk {
      reasons := reasons + [PolicyNeedsDisk(device)];
    }
    if p.needsNoVulnerabilities && (|state.vulnerabilities| > 0 || state.unknown) {
      reasons := reasons + [PolicyNeedsNoVulnerabilities(device)];
    }
    assert reasons == [] <==> forall r :: r !in reasons by {
      assert reasons != [] ==> reasons[0] in reasons;
    }
  }

  /** Fail closed: every device's reasons are given, and none only when every one of the
      devices complies. */
  method DevicesPosture(fleet: Fleet, p: Policy, devices: seq<string>) returns (reasons: seq<Reason>)
    ensures forall r :: r in reasons <==> exists d :: d in devices && Justified(fleet(d), p, d, r)
    ensures reasons == [] <==> forall d :: d in devices ==> Compliant(fleet(d))
  {
    reasons := [];
    for i := 0 to |devices|
      invariant forall r :: r in reasons <==> exists d :: d in devices[..i] && Justified(fleet(d), p, d, r)
      invariant reasons == [] <==> forall d :: d in devices[..i] ==> Compliant(fleet(d))
    {
      assert devices[..i + 1] == devices[..i] + [devices[i]];
      var more := DevicePosture(fleet, p, devices[i]);
      if |more| > 0 {
        reasons := reasons + more;
      }
    }
    assert devices[..|devices|] == devices;
  }
}
