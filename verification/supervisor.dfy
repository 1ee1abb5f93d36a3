/** pkg/supervisor/get.go: configuration validation, parsing of the
    credential script's output, and the step ordering of `Info`. The remote
    steps (jumpbox connection, inventory query, credential script) are
    inputs; the address loop is `Inventory.CollectAddresses`. */
module Supervisor {
  import opened Outcomes
  import opened SshConfig
  import opened LineMatch
  import Inventory

  datatype SSOConfig = SSOConfig(user: string, password: string)

  /** `VCenterConfig`: its SSH endpoint and its API login. */
  datatype VCenterConfig = VCenterConfig(ssh: SshConfig.Config, sso: SSOConfig)

  /** `config.Config`: an optional jumpbox and a vCenter section that may be
      missing (a nil pointer). */
  datatype Config = Config(jumpbox: Option<SshConfig.Config>, vcenter: Option<VCenterConfig>)

  /** `validateVCenterConfig`: a missing section fails, otherwise the SSH
      part is validated. */
  function ValidateVCenterConfig(vc: Option<VCenterConfig>, parses: string -> bool): (r: Option<ConfigError>)
    ensures vc.None? ==> r == Some(VCenterMissing)
    ensures vc.Some? ==> r == Validate(vc.value.ssh, parses)
    ensures r.None? <==> vc.Some? && Valid(vc.value.ssh, parses)
  {
    if vc.None? then Some(VCenterMissing) else Validate(vc.value.ssh, parses)
  }

  /** The jumpbox section, when present, passes validation. */
  predicate JumpboxOk(c: Config, parses: string -> bool) {
    c.jumpbox.None? || Valid(c.jumpbox.value, parses)
  }

  /** `ValidateConfig`: the jumpbox is checked only when configured and its
      error wins over any vCenter error. */
  function ValidateConfig(c: Config, parses: string -> bool): (r: Option<ConfigError>)
    ensures r.None? <==> JumpboxOk(c, parses) && c.vcenter.Some? && Valid(c.vcenter.value.ssh, parses)
    ensures !JumpboxOk(c, parses) ==> r == Validate(c.jumpbox.value, parses)
    ensures JumpboxOk(c, parses) ==> r == ValidateVCenterConfig(c.vcenter, parses)
  {
    if c.jumpbox.Some? && Validate(c.jumpbox.value, parses).Some? then Validate(c.jumpbox.value, parses)
    else ValidateVCenterConfig(c.vcenter, parses)
  }

  /** The pattern `^prefix(\S+)$` did not match exactly once. */
  datatype MatchError = MatchError(prefix: string, count: nat)

  /** `getMatch`: succeed iff the pattern matches exactly once, with the
      capture group; zero or several matches are an error carrying the count. */
  function GetMatch(s: string, prefix: string): (r: Result<string, MatchError>)
    ensures r.Success? <==> exists i :: OnlyMatchAt(prefix, Lines(s), i)
    ensures forall i :: OnlyMatchAt(prefix, Lines(s), i) ==>
      r == Success(MatchLine(prefix, Lines(s)[i]).value)
    ensures r.Failure? ==> r.error == MatchError(prefix, |FindAll(s, prefix)|) && r.error.count != 1
  {
    FindAllExactlyOne(s, prefix);
    var matches := FindAll(s, prefix);
    if |matches| != 1 then Failure(MatchError(prefix, |matches|)) else Success(matches[0])
  }

  /** `parseDecryptK8Pwd`: the control-plane IP and the password, each from
      its one and only line; the IP is looked for first, and on any failure
      both strings are empty. */
  function ParseDecryptK8Pwd(s: string): (r: (string, string, Option<MatchError>))
    ensures r.2.None? <==>
      (exists i :: OnlyMatchAt(IPPrefix, Lines(s), i)) && (exists i :: OnlyMatchAt(PWDPrefix, Lines(s), i))
    ensures forall i, k :: OnlyMatchAt(IPPrefix, Lines(s), i) && OnlyMatchAt(PWDPrefix, Lines(s), k) ==>
      r == (MatchLine(IPPrefix, Lines(s)[i]).value, MatchLine(PWDPrefix, Lines(s)[k]).value, None)
    ensures r.2.Some? ==> r.0 == "" && r.1 == ""
    ensures (forall i :: !OnlyMatchAt(IPPrefix, Lines(s), i)) ==> r.2 == Some(GetMatch(s, IPPrefix).error)
  {
    match GetMatch(s, IPPrefix)
    case Failure(e) => ("", "", Some(e))
    case Success(ip) =>
      match GetMatch(s, PWDPrefix)
      case Failure(e) => ("", "", Some(e))
      case Success(password) =>
        assert exists i :: OnlyMatchAt(IPPrefix, Lines(s), i);
        assert exists i :: OnlyMatchAt(PWDPrefix, Lines(s), i);
        (ip, password, None)
  }

  /** A line `prefix + token` with a non-empty, space-free token matches
      `^prefix(\S+)$` with the token as capture group, and holds no newline. */
  lemma TokenLineMatches(prefix: string, token: string)
    requires '\n' !in prefix && token != [] && NoSpace(token)
    ensures MatchLine(prefix, prefix + token) == Some(token)
    ensures '\n' !in prefix + token
  {
    var line := prefix + token;
    assert line[..|prefix|] == prefix && line[|prefix|..] == token;
    assert forall i :: |prefix| <= i < |line| ==> line[i] == token[i - |prefix|];
  }

  /** The IP pattern never matches a password line, and vice versa. */
  lemma PrefixesDisjoint(token: string)
    ensures MatchLine(IPPrefix, PWDPrefix + token).None?
    ensures MatchLine(PWDPrefix, IPPrefix + token).None?
  {
    assert (PWDPrefix + token)[0] == 'P' != IPPrefix[0];
    assert (IPPrefix + token)[0] == 'I' != PWDPrefix[0];
    if |PWDPrefix + token| > |IPPrefix| {
      assert (PWDPrefix + token)[..|IPPrefix|][0] == 'P';
    }
    if |IPPrefix + token| > |PWDPrefix| {
      assert (IPPrefix + token)[..|PWDPrefix|][0] == 'I';
    }
  }

  /** The script's expected output, one IP line and one password line, parses
      into exactly that IP and password. */
  lemma ParseWellFormedOutput(ip: string, password: string)
    requires ip != [] && NoSpace(ip) && password != [] && NoSpace(password)
    ensures ParseDecryptK8Pwd(IPPrefix + ip + "\n" + PWDPrefix + password + "\n") == (ip, password, None)
  {
    var a, b := IPPrefix + ip, PWDPrefix + password;
    TokenLineMatches(IPPrefix, ip);
    TokenLineMatches(PWDPrefix, password);
    PrefixesDisjoint(ip);
    PrefixesDisjoint(password);
    var s := IPPrefix + ip + "\n" + PWDPrefix + password + "\n";
    assert s == a + "\n" + (b + "\n" + "");
    assert Lines("") == [""];
    LinesAfterLine(b, "");
    LinesAfterLine(a, b + "\n" + "");
    var ls := Lines(s);
    assert ls == [a, b, ""];
    assert OnlyMatchAt(IPPrefix, ls, 0);
    assert OnlyMatchAt(PWDPrefix, ls, 1);
  }

  /** The password pattern matches each of two password lines. */
  lemma TwoPasswordMatches(a: string, b1: string, b2: string, p1: string, p2: string)
    requires MatchLine(PWDPrefix, a).None?
    requires MatchLine(PWDPrefix, b1) == Some(p1) && MatchLine(PWDPrefix, b2) == Some(p2)
    ensures Matches(PWDPrefix, [a, b1, b2, ""]) == [p1, p2]
  {
    var ls := [a, b1, b2, ""];
    assert ls[1..] == [b1, b2, ""] && ls[2..] == [b2, ""] && ls[3..] == [""] && ls[4..] == [];
    assert MatchLine(PWDPrefix, "").None?;
    assert Matches(PWDPrefix, ls[3..]) == [];
    assert Matches(PWDPrefix, ls[2..]) == [p2] + Matches(PWDPrefix, ls[3..]);
    assert Matches(PWDPrefix, ls[1..]) == [p1] + Matches(PWDPrefix, ls[2..]);
    assert Matches(PWDPrefix, ls) == Matches(PWDPrefix, ls[1..]);
  }

  /** The lines of output holding an IP line and two password lines. */
  lemma ThreeLines(a: string, b1: string, b2: string)
    requires '\n' !in a && '\n' !in b1 && '\n' !in b2
    ensures Lines(a + "\n" + b1 + "\n" + b2 + "\n") == [a, b1, b2, ""]
  {
    var s := a + "\n" + b1 + "\n" + b2 + "\n";
    assert s == a + "\n" + (b1 + "\n" + (b2 + "\n" + ""));
    assert Lines("") == [""];
    LinesAfterLine(b2, "");
    LinesAfterLine(b1, b2 + "\n" + "");
    LinesAfterLine(a, b1 + "\n" + (b2 + "\n" + ""));
  }

  /** Output holding two password lines is rejected: the password pattern
      matches twice. */
  lemma ParseRejectsTwoPasswords(ip: string, p1: string, p2: string)
    requires ip != [] && NoSpace(ip) && p1 != [] && NoSpace(p1) && p2 != [] && NoSpace(p2)
    ensures ParseDecryptK8Pwd(IPPrefix + ip + "\n" + PWDPrefix + p1 + "\n" + PWDPrefix + p2 + "\n")
      == ("", "", Some(MatchError(PWDPrefix, 2)))
  {
    var a, b1, b2 := IPPrefix + ip, PWDPrefix + p1, PWDPrefix + p2;
    TokenLineMatches(IPPrefix, ip);
    TokenLineMatches(PWDPrefix, p1);
    TokenLineMatches(PWDPrefix, p2);
    PrefixesDisjoint(ip);
    var s := IPPrefix + ip + "\n" + PWDPrefix + p1 + "\n" + PWDPrefix + p2 + "\n";
    assert s == a + "\n" + b1 + "\n" + b2 + "\n";
    ThreeLines(a, b1, b2);
    var ls := Lines(s);
    assert OnlyMatchAt(IPPrefix, ls, 0) by {
      PrefixesDisjoint(p1);
      PrefixesDisjoint(p2);
    }
    TwoPasswordMatches(a, b1, b2, p1, p2);
    assert FindAll(s, PWDPrefix) == [p1, p2];
  }

  /** `SupervisorInfo`. */
  datatype SupervisorInfo = SupervisorInfo(controlPlane: string, vms: seq<string>, password: string)

  /** The remote steps `Info` can take, in the order it takes them. */
  datatype Step = ConnectJumpbox | QueryInventory | RunDecryptScript

  datatype CredentialError = RemoteFailed | ParseFailed(err: MatchError)

  datatype InfoError =
    | InvalidConfig(cause: ConfigError)
    | JumpboxClientConfig         // building the jumpbox client config failed
    | JumpboxConnect              // "unable to initiate jumpbox connection"
    | VMsFailed(discovery: Inventory.DiscoveryError)  // "unable to retrieve Supervisor VMs"
    | CredentialsFailed(credentials: CredentialError) // "unable to retrieve Supervisor credentials"

  /** What the remote side does when asked: whether the jumpbox client config
      builds and the jumpbox connects; the property results of the matched VM
      objects (None when the tunnel, session, view or search fails); and the
      standard output of the credential script (None when reaching or running
      it fails). */
  datatype Remote = Remote(
    jumpboxConfigOk: bool,
    jumpboxConnects: bool,
    inventory: Option<seq<Inventory.PropertyResult>>,
    decryptOutput: Option<string>)

  /** Every remote step of a run that gets all the way through. */
  function FullPlan(c: Config): seq<Step> {
    JumpboxSteps(c) + [QueryInventory, RunDecryptScript]
  }

  /** The remote steps of a run that has got through the jumpbox, if any. */
  function JumpboxSteps(c: Config): seq<Step> {
    if c.jumpbox.Some? then [ConnectJumpbox] else []
  }

  /** The jumpbox, when configured, is reachable. */
  predicate JumpboxReached(c: Config, remote: Remote) {
    c.jumpbox.Some? ==> remote.jumpboxConfigOk && remote.jumpboxConnects
  }

  /** `Info`: validate, connect to the jumpbox if one is configured, discover
      the VM addresses, then run and parse the credential script. */
  method Info(c: Config, parses: string -> bool, remote: Remote)
    returns (r: Result<SupervisorInfo, InfoError>, steps: seq<Step>)
    ensures ValidateConfig(c, parses).Some? ==>
      r == Failure(InvalidConfig(ValidateConfig(c, parses).value)) && steps == []
    ensures ValidateConfig(c, parses).None? && c.jumpbox.Some? && !remote.jumpboxConfigOk ==>
      r == Failure(JumpboxClientConfig) && steps == []
    ensures ValidateConfig(c, parses).None? && c.jumpbox.Some? && remote.jumpboxConfigOk &&
            !remote.jumpboxConnects ==>
      r == Failure(JumpboxConnect) && steps == [ConnectJumpbox]
    ensures ValidateConfig(c, parses).None? && JumpboxReached(c, remote) &&
            Inventory.Discovered(remote.inventory).Failure? ==>
      r == Failure(VMsFailed(Inventory.Discovered(remote.inventory).error)) &&
      steps == JumpboxSteps(c) + [QueryInventory]
    ensures ValidateConfig(c, parses).None? && JumpboxReached(c, remote) &&
            Inventory.Discovered(remote.inventory).Success? && remote.decryptOutput.None? ==>
      r == Failure(CredentialsFailed(RemoteFailed)) && steps == FullPlan(c)
    ensures ValidateConfig(c, parses).None? && JumpboxReached(c, remote) &&
            Inventory.Discovered(remote.inventory).Success? && remote.decryptOutput.Some? &&
            ParseDecryptK8Pwd(remote.decryptOutput.value).2.Some? ==>
      r == Failure(CredentialsFailed(ParseFailed(ParseDecryptK8Pwd(remote.decryptOutput.value).2.value))) &&
      steps == FullPlan(c)
    ensures steps <= FullPlan(c)
    ensures RunDecryptScript in steps ==> Inventory.Discovered(remote.inventory).Success?
    ensures ValidateConfig(c, parses).None? && Inventory.Discovered(remote.inventory).Failure? && QueryInventory in steps ==>
      r == Failure(VMsFailed(Inventory.Discovered(remote.inventory).error))
    ensures r.Success? <==>
      ValidateConfig(c, parses).None? &&
      JumpboxReached(c, remote) &&
      Inventory.Discovered(remote.inventory).Success? && remote.decryptOutput.Some? &&
      ParseDecryptK8Pwd(remote.decryptOutput.value).2.None?
    ensures r.Success? ==>
      steps == FullPlan(c) &&
      var parsed := ParseDecryptK8Pwd(remote.decryptOutput.value);
      r.value == SupervisorInfo(parsed.0, Inventory.Discovered(remote.inventory).value, parsed.1)
  {
    steps := [];
    var invalid := ValidateConfig(c, parses);
    if invalid.Some? {
      return Failure(InvalidConfig(invalid.value)), steps;
    }

    if c.jumpbox.Some? {
      if !remote.jumpboxConfigOk {
        return Failure(JumpboxClientConfig), steps;
      }
      steps := steps + [ConnectJumpbox];
      if !remote.jumpboxConnects {
        return Failure(JumpboxConnect), steps;
      }
    }

    steps := steps + [QueryInventory];
    var vms: Result<seq<string>, Inventory.DiscoveryError>;
    if remote.inventory.None? {
      vms := Failure(Inventory.InventoryUnavailable);
    } else {
      vms := Inventory.CollectAddresses(remote.inventory.value);
    }
    if vms.Failure? {
      return Failure(VMsFailed(vms.error)), steps;
    }

    steps := steps + [RunDecryptScript];
    if remote.decryptOutput.None? {
      return Failure(CredentialsFailed(RemoteFailed)), steps;
    }
    var parsed := ParseDecryptK8Pwd(remote.decryptOutput.value);
    if parsed.2.Some? {
      return Failure(CredentialsFailed(ParseFailed(parsed.2.value))), steps;
    }
    return Success(SupervisorInfo(parsed.0, vms.value, parsed.1)), steps;
  }
}
