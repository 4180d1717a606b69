/** The in-process reference monitor: a deny-by-default allow list over the domain
    parsed out of a security context "u:r:DOMAIN:s0". */
module Selinux {
  type CString = s: string | '\0' !in s

  datatype Option<+T> = None | Some(value: T)

  datatype Av = Av(tclass: string, perm: string)

  datatype Rule = Rule(domain: string, av: Av)

  const SYS_DOMAIN := "sys_dom_t"
  const UID_DOMAIN := "uid_dom_t"
  const APP_DOMAIN := "app_sandbox_t"
  const OIPES_DOMAIN := "oipes_client_t"
  const SIGNAL := Av("process", "signal")

  const SYS_CORE: seq<Av> := [
      Av("process", "signal"), Av("process", "fork"), Av("process", "getattr"),
      Av("capability", "sys_admin"), Av("capability", "sys_rawio"), Av("capability", "sys_module"),
      Av("capability", "sys_boot"), Av("system", "module_load"), Av("system", "policy")]

  const SYS_POLICY: seq<Av> := [
      Av("security", "compute_av"), Av("security", "compute_create"), Av("security", "compute_member"),
      Av("security", "compute_relabel"), Av("module", "load")]

  const SYS_FILES: seq<Av> := [
      Av("file", "read"), Av("file", "write"), Av("file", "open"),
      Av("file", "getattr"), Av("dir", "read"), Av("dir", "search"),
      Av("dir", "add_name"), Av("dir", "write")]

  const SYS_SOCKETS: seq<Av> := [
      Av("unix_dgram_socket", "sendto"), Av("unix_dgram_socket", "recvfrom"), Av("unix_stream_socket", "connectto"),
      Av("tcp_socket", "create"), Av("tcp_socket", "bind"), Av("tcp_socket", "connect"),
      Av("tcp_socket", "send_msg"), Av("tcp_socket", "recv_msg")]

  const SYS_OTHER: seq<Av> := [
      Av("udp_socket", "create"), Av("udp_socket", "bind"), Av("udp_socket", "send_msg"),
      Av("udp_socket", "recv_msg"), Av("sysfs", "read")]

  const SYS_RULES: seq<Av> := SYS_CORE + SYS_POLICY + SYS_FILES + SYS_SOCKETS + SYS_OTHER

  const UID_CORE: seq<Av> := [
      Av("process", "signal"), Av("process", "fork"), Av("process", "getattr"),
      Av("process", "transition"), Av("capability", "sys_tty_config"), Av("unix_dgram_socket", "sendto"),
      Av("unix_dgram_socket", "recvfrom")]

  const UID_STREAMS: seq<Av> := [
      Av("unix_stream_socket", "connectto"), Av("unix_stream_socket", "listen"), Av("unix_stream_socket", "accept")]

  const UID_FILES: seq<Av> := [
      Av("file", "read"), Av("file", "write"), Av("file", "open"),
      Av("file", "getattr"), Av("file", "create"), Av("file", "unlink")]

  const UID_OTHER: seq<Av> := [
      Av("dir", "read"), Av("dir", "search"), Av("dir", "add_name"),
      Av("dir", "write"), Av("fd", "use")]

  const UID_RULES: seq<Av> := UID_CORE + UID_STREAMS + UID_FILES + UID_OTHER

  const APP_RULES: seq<Av> := [
      Av("process", "getattr"), Av("file", "read"), Av("file", "write"),
      Av("file", "open"), Av("file", "getattr"), Av("dir", "read"),
      Av("dir", "search"), Av("unix_dgram_socket", "sendto")]

  const OIPES_RULES: seq<Av> := [
      Av("tcp_socket", "create"), Av("tcp_socket", "bind"), Av("tcp_socket", "connect"),
      Av("tcp_socket", "send_msg"), Av("tcp_socket", "recv_msg"), Av("file", "read"),
      Av("file", "write")]

  function Section(domain: string, avs: seq<Av>): (rules: seq<Rule>)
    ensures |rules| == |avs|
  {
    seq(|avs|, i requires 0 <= i < |avs| => Rule(domain, avs[i]))
  }

  /** The allow list, in the order of the source. */
  function AllowRules(): seq<Rule> {
    Section(SYS_DOMAIN, SYS_RULES) + Section(UID_DOMAIN, UID_RULES)
    + Section(APP_DOMAIN, APP_RULES) + Section(OIPES_DOMAIN, OIPES_RULES)
  }

  // The character of a C string at i; its end reads as the terminator.
  function CharAt(s: CString, i: nat): char {
    if i < |s| then s[i] else '\0'
  }

  predicate MarkerAt(s: CString, i: nat) {
    CharAt(s, i) == ':' && CharAt(s, i + 1) == 'r' && CharAt(s, i + 2) == ':'
  }

  /** What parsing promises: the type between the first ":r:" and the next colon,
      short enough for the buffer. */
  ghost predicate IsDomain(ctx: CString, size: nat, d: string) {
    exists k: nat ::
      && MarkerAt(ctx, k) && (forall j: nat :: j < k ==> !MarkerAt(ctx, j))
      && |d| < size && ':' !in d
      && k + 3 + |d| < |ctx| && ctx[k + 3..k + 3 + |d|] == d && ctx[k + 3 + |d|] == ':'
  }

  /** strstr(ctx, ":r:"), from position i on. */
  function FindMarker(ctx: CString, i: nat): (r: Option<nat>)
    requires i <= |ctx|
    ensures r.Some? ==> i <= r.value && r.value + 3 <= |ctx|
    decreases |ctx| - i
  {
    if i == |ctx| then None
    else if MarkerAt(ctx, i) then Some(i)
    else FindMarker(ctx, i + 1)
  }

  /** Where the scan from p stops, given that it has reached n. */
  function ScanEnd(ctx: CString, p: nat, n: nat, size: nat): (r: nat)
    requires p + n <= |ctx|
    ensures n <= r && p + r <= |ctx|
    decreases |ctx| - p - n
  {
    if CharAt(ctx, p + n) != '\0' && CharAt(ctx, p + n) != ':' && n + 1 < size
    then ScanEnd(ctx, p, n + 1, size) else n
  }

  function Domain(ctx: CString, size: nat): Option<string> {
    match FindMarker(ctx, 0)
    case None => None
    case Some(k) =>
      var n := ScanEnd(ctx, k + 3, 0, size);
      if CharAt(ctx, k + 3 + n) == ':' then Some(ctx[k + 3..k + 3 + n]) else None
  }

  lemma {:induction false} MarkerFound(ctx: CString, i: nat)
    requires i <= |ctx|
    ensures match FindMarker(ctx, i)
            case None => forall j: nat :: i <= j ==> !MarkerAt(ctx, j)
            case Some(k) => MarkerAt(ctx, k) && forall j: nat :: i <= j < k ==> !MarkerAt(ctx, j)
    decreases |ctx| - i
  {
    if i < |ctx| && !MarkerAt(ctx, i) {
      MarkerFound(ctx, i + 1);
    }
  }

  lemma {:induction false} ScanStops(ctx: CString, p: nat, n: nat, size: nat)
    requires p + n <= |ctx| && n < size
    requires forall j :: p <= j < p + n ==> ctx[j] != ':'
    ensures var r := ScanEnd(ctx, p, n, size);
      && r < size && (forall j :: p <= j < p + r ==> ctx[j] != ':')
      && (CharAt(ctx, p + r) == ':' || p + r == |ctx| || r + 1 == size)
    decreases |ctx| - p - n
  {
    if CharAt(ctx, p + n) != '\0' && CharAt(ctx, p + n) != ':' && n + 1 < size {
      ScanStops(ctx, p, n + 1, size);
    }
  }

  /** The parser computes exactly what parsing promises. */
  lemma DomainMeaning(ctx: CString, size: nat, d: string)
    requires size > 0
    ensures Domain(ctx, size) == Some(d) <==> IsDomain(ctx, size, d)
  {
    MarkerFound(ctx, 0);
    if FindMarker(ctx, 0).Some? {
      var k := FindMarker(ctx, 0).value;
      ScanStops(ctx, k + 3, 0, size);
      var n := ScanEnd(ctx, k + 3, 0, size);
      if IsDomain(ctx, size, d) {
        assert forall j :: 0 <= j < |d| ==> ctx[k + 3..k + 3 + |d|][j] == d[j];
        assert n == |d|;
      }
    }
  }

  /** Round trip: a well-formed context yields its type exactly when the type is
      short enough for the buffer. */
  lemma ContextParses(d: string, level: string, size: nat)
    requires size > 0 && ':' !in d && '\0' !in d && '\0' !in level
    ensures var ctx := "u:r:" + d + ":" + level;
      '\0' !in ctx && Domain(ctx, size) == if |d| < size then Some(d) else None
  {
    var ctx := "u:r:" + d + ":" + level;
    assert forall i :: 0 <= i < |d| ==> ctx[4 + i] == d[i];
    assert MarkerAt(ctx, 1) && !MarkerAt(ctx, 0);
    assert ctx[4..4 + |d|] == d && ctx[4 + |d|] == ':';
    if |d| < size {
      assert IsDomain(ctx, size, d);
      DomainMeaning(ctx, size, d);
    } else if Domain(ctx, size).Some? {
      DomainMeaning(ctx, size, Domain(ctx, size).value);
    }
  }

  /** Copies the domain of ctx, terminated, into out. */
  method ExtractDomain(ctx: CString, out: array<char>) returns (status: int)
    requires out.Length > 0
    modifies out
    ensures match Domain(ctx, out.Length)
            case None => status == -1 && out[..] == old(out[..])
            case Some(d) => status == 0 && |d| < out.Length && out[..|d|] == d && out[|d|] == '\0'
                            && out[|d| + 1..] == old(out[|d| + 1..])
  {
    var p := FindMarker(ctx, 0);
    if p.None? {
      return -1;
    }
    var start, n := p.value + 3, 0;
    ScanStops(ctx, start, 0, out.Length);
    while CharAt(ctx, start + n) != '\0' && CharAt(ctx, start + n) != ':' && n + 1 < out.Length
      invariant start + n <= |ctx| && n < out.Length
      invariant ScanEnd(ctx, start, n, out.Length) == ScanEnd(ctx, start, 0, out.Length)
      decreases |ctx| - n
    {
      n := n + 1;
    }
    if CharAt(ctx, start + n) != ':' {
      return -1;
    }
    forall i | 0 <= i < n {
      out[i] := ctx[start + i];
    }
    out[n] := '\0';
    return 0;
  }

  // Contents of a terminated buffer.
  function Terminated(s: seq<char>): (r: string)
  {
    if |s| == 0 || s[0] == '\0' then [] else [s[0]] + Terminated(s[1..])
  }

  lemma {:induction false} TerminatedPrefix(s: seq<char>, d: string)
    requires |d| < |s| && s[..|d|] == d && s[|d|] == '\0' && '\0' !in d
    ensures Terminated(s) == d
  {
    if |d| > 0 {
      assert s[0] == d[0];
      assert s[1..][..|d| - 1] == d[1..];
      TerminatedPrefix(s[1..], d[1..]);
      assert d == [d[0]] + d[1..];
    }
  }

  lemma DomainHasNoTerminator(ctx: CString, size: nat)
    requires Domain(ctx, size).Some?
    ensures '\0' !in Domain(ctx, size).value
  {
  }

  /** The access decision: 0 allowed, 1 denied, -1 for a context without a domain. */
  function Decision(ctx: CString, av: Av): int {
    match Domain(ctx, 64)
    case None => -1
    case Some(d) => if Rule(d, av) in AllowRules() then 0 else 1
  }

  class Monitor {
    var enforcing: bool

    constructor ()
      ensures enforcing
    {
      enforcing := true;
    }

    /** The decision does not depend on the enforcing flag: a permissive monitor
        denies what an enforcing one denies. */
    method Check(ctx: CString, av: Av) returns (r: int)
      ensures r == Decision(ctx, av)
    {
      hide AllowRules, Terminated, Domain;
      var buffer := new char[64](_ => '\0');
      var status := ExtractDomain(ctx, buffer);
      if status != 0 {
        return -1;
      }
      var d := Terminated(buffer[..]);
      DomainHasNoTerminator(ctx, 64);
      TerminatedPrefix(buffer[..], Domain(ctx, 64).value);
      var rules := AllowRules();
      for i := 0 to |rules|
        invariant forall j :: 0 <= j < i ==> rules[j] != Rule(d, av)
      {
        if rules[i].domain == d && rules[i].av == av {
          return 0;
        }
      }
      return 1;
    }
  }

  lemma SectionMember(domain: string, avs: seq<Av>, d: string, av: Av)
    ensures Rule(d, av) in Section(domain, avs) <==> d == domain && av in avs
  {
    if d == domain && av in avs {
      var i :| 0 <= i < |avs| && avs[i] == av;
      assert Section(domain, avs)[i] == Rule(d, av);
    }
  }

  /** Exactly the system and the user-interface domain may signal a process. */
  lemma SignalDomains(ctx: CString)
    ensures Decision(ctx, SIGNAL) == 0 <==> IsDomain(ctx, 64, SYS_DOMAIN) || IsDomain(ctx, 64, UID_DOMAIN)
  {
    DomainMeaning(ctx, 64, SYS_DOMAIN);
    DomainMeaning(ctx, 64, UID_DOMAIN);
    if Domain(ctx, 64).Some? {
      var d := Domain(ctx, 64).value;
      SectionMember(SYS_DOMAIN, SYS_RULES, d, SIGNAL);
      SectionMember(UID_DOMAIN, UID_RULES, d, SIGNAL);
      SectionMember(APP_DOMAIN, APP_RULES, d, SIGNAL);
      SectionMember(OIPES_DOMAIN, OIPES_RULES, d, SIGNAL);
      assert SYS_RULES[0] == SIGNAL && UID_RULES[0] == SIGNAL;
      assert SIGNAL !in APP_RULES && SIGNAL !in OIPES_RULES;
    }
  }

  // ----- The policy by class -----

  predicate In(av: Av, tclass: string, perms: seq<string>) {
    av.tclass == tclass && av.perm in perms
  }

  predicate SystemMayCore(av: Av) {
    || In(av, "process", ["signal", "fork", "getattr"])
    || In(av, "capability", ["sys_admin", "sys_rawio", "sys_module", "sys_boot"])
    || In(av, "system", ["module_load", "policy"])
  }

  predicate SystemMayPolicy(av: Av) {
    || In(av, "security", ["compute_av", "compute_create", "compute_member", "compute_relabel"])
    || In(av, "module", ["load"])
  }

  predicate SystemMayFiles(av: Av) {
    || In(av, "file", ["read", "write", "open", "getattr"])
    || In(av, "dir", ["read", "search", "add_name", "write"])
  }

  predicate SystemMaySockets(av: Av) {
    || In(av, "unix_dgram_socket", ["sendto", "recvfrom"])
    || In(av, "unix_stream_socket", ["connectto"])
    || In(av, "tcp_socket", ["create", "bind", "connect", "send_msg", "recv_msg"])
  }

  predicate SystemMayOther(av: Av) {
    || In(av, "udp_socket", ["create", "bind", "send_msg", "recv_msg"])
    || In(av, "sysfs", ["read"])
  }

  predicate SystemMay(av: Av) {
    SystemMayCore(av) || SystemMayPolicy(av) || SystemMayFiles(av) || SystemMaySockets(av) || SystemMayOther(av)
  }

  predicate InterfaceMayCore(av: Av) {
    || In(av, "process", ["signal", "fork", "getattr", "transition"])
    || In(av, "capability", ["sys_tty_config"])
    || In(av, "unix_dgram_socket", ["sendto", "recvfrom"])
  }

  predicate InterfaceMayStreams(av: Av) {
    || In(av, "unix_stream_socket", ["connectto", "listen", "accept"])
  }

  predicate InterfaceMayFiles(av: Av) {
    || In(av, "file", ["read", "write", "open", "getattr", "create", "unlink"])
  }

  predicate InterfaceMayOther(av: Av) {
    || In(av, "dir", ["read", "search", "add_name", "write"])
    || In(av, "fd", ["use"])
  }

  predicate InterfaceMay(av: Av) {
    InterfaceMayCore(av) || InterfaceMayStreams(av) || InterfaceMayFiles(av) || InterfaceMayOther(av)
  }

  predicate SandboxMay(av: Av) {
    || In(av, "process", ["getattr"])
    || In(av, "file", ["read", "write", "open", "getattr"])
    || In(av, "dir", ["read", "search"])
    || In(av, "unix_dgram_socket", ["sendto"])
  }

  predicate NetworkMay(av: Av) {
    || In(av, "tcp_socket", ["create", "bind", "connect", "send_msg", "recv_msg"])
    || In(av, "file", ["read", "write"])
  }

  lemma SystemMayCoreRules(av: Av)
    ensures av in SYS_CORE <==> SystemMayCore(av)
  {
  }

  lemma SystemMayPolicyRules(av: Av)
    ensures av in SYS_POLICY <==> SystemMayPolicy(av)
  {
  }

  lemma SystemMayFilesRules(av: Av)
    ensures av in SYS_FILES <==> SystemMayFiles(av)
  {
  }

  lemma SystemMaySocketsRules(av: Av)
    ensures av in SYS_SOCKETS <==> SystemMaySockets(av)
  {
  }

  lemma SystemMayOtherRules(av: Av)
    ensures av in SYS_OTHER <==> SystemMayOther(av)
  {
  }

  lemma SystemRules(av: Av)
    ensures av in SYS_RULES <==> SystemMay(av)
  {
    hide SystemMayCore, SystemMayPolicy, SystemMayFiles, SystemMaySockets, SystemMayOther;
    SystemMayCoreRules(av);
    SystemMayPolicyRules(av);
    SystemMayFilesRules(av);
    SystemMaySocketsRules(av);
    SystemMayOtherRules(av);
  }

  lemma InterfaceMayCoreRules(av: Av)
    ensures av in UID_CORE <==> InterfaceMayCore(av)
  {
  }

  lemma InterfaceMayStreamsRules(av: Av)
    ensures av in UID_STREAMS <==> InterfaceMayStreams(av)
  {
  }

  lemma InterfaceMayFilesRules(av: Av)
    ensures av in UID_FILES <==> InterfaceMayFiles(av)
  {
  }

  lemma InterfaceMayOtherRules(av: Av)
    ensures av in UID_OTHER <==> InterfaceMayOther(av)
  {
  }

  lemma InterfaceRules(av: Av)
    ensures av in UID_RULES <==> InterfaceMay(av)
  {
    hide InterfaceMayCore, InterfaceMayStreams, InterfaceMayFiles, InterfaceMayOther;
    InterfaceMayCoreRules(av);
    InterfaceMayStreamsRules(av);
    InterfaceMayFilesRules(av);
    InterfaceMayOtherRules(av);
  }

  lemma SandboxRules(av: Av)
    ensures av in APP_RULES <==> SandboxMay(av)
  {
  }

  lemma NetworkRules(av: Av)
    ensures av in OIPES_RULES <==> NetworkMay(av)
  {
  }

  /** What a domain may do, class by class; every other domain may do nothing. */
  predicate May(domain: string, av: Av) {
    || (domain == "sys_dom_t" && SystemMay(av))
    || (domain == "uid_dom_t" && InterfaceMay(av))
    || (domain == "app_sandbox_t" && SandboxMay(av))
    || (domain == "oipes_client_t" && NetworkMay(av))
  }

  /** The decision on every context and request: -1 exactly if no domain can be parsed,
      0 exactly if the policy lets the domain do it, 1 otherwise. */
  lemma DecisionMeaning(ctx: CString, av: Av)
    ensures Decision(ctx, av) == -1 <==> forall d :: !IsDomain(ctx, 64, d)
    ensures Decision(ctx, av) == 0 <==> exists d :: IsDomain(ctx, 64, d) && May(d, av)
    ensures Decision(ctx, av) == 1 <==> exists d :: IsDomain(ctx, 64, d) && !May(d, av)
  {
    hide IsDomain, Domain, SystemMay, InterfaceMay, SandboxMay, NetworkMay;
    forall d
      ensures Domain(ctx, 64) == Some(d) <==> IsDomain(ctx, 64, d)
    {
      DomainMeaning(ctx, 64, d);
    }
    if Domain(ctx, 64).Some? {
      var d := Domain(ctx, 64).value;
      SectionMember(SYS_DOMAIN, SYS_RULES, d, av);
      SectionMember(UID_DOMAIN, UID_RULES, d, av);
      SectionMember(APP_DOMAIN, APP_RULES, d, av);
      SectionMember(OIPES_DOMAIN, OIPES_RULES, d, av);
      SystemRules(av);
      InterfaceRules(av);
      SandboxRules(av);
      NetworkRules(av);
    }
  }
}
