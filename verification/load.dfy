/** pkg/load/load.go: the validator revision that reports every failure.
    Each validator collects its failures in a list by successive appends and
    returns `errors.Join` of the list. Its configuration record names the
    address `Server` and also demands a timeout. */
module Load {
  import opened Outcomes
  import SshConfig

  /** The SSH record as this file reads it (`Server`, `*Port`, `*Timeout`). */
  datatype SSHConfig = SSHConfig(
    server: string,
    port: Option<nat>,
    user: string,
    key: Option<string>,
    keyPath: Option<string>,
    password: Option<string>,
    timeout: Option<nat>)

  /** The vCenter section embeds an SSH record; it is never absent here. */
  datatype VCenterConfig = VCenterConfig(ssh: SSHConfig, ssoUser: string, ssoPassword: string)

  datatype Config = Config(jumpbox: Option<SSHConfig>, vcenter: VCenterConfig)

  /** The individual checks, in the order the validator makes them. */
  datatype Check =
    | ServerMissing      // "server must be supplied"
    | ServerUnparseable  // "unable to parse server: ..."
    | PortMissing        // "port must be supplied"
    | UserMissing        // "SSH user must be supplied"
    | CredentialMissing  // "one of key, keyPath, or password must be supplied"
    | TimeoutMissing     // "a timeout must be supplied"

  datatype Section = JumpboxSection | VCenterSection

  /** Go error values as built here: a failed check, an error wrapped with a
      section prefix ("unable to validate jumpbox config: %w", "unable to
      validate vcenter config: %w"), or an `errors.Join`. */
  datatype Error =
    | Failed(check: Check)
    | Wrapped(section: Section, inner: Error)
    | Joined(errs: seq<Error>)

  /** The non-nil members of an error list, in order. */
  function Present(errs: seq<Option<Error>>): seq<Error> {
    if errs == [] then []
    else (if errs[0].Some? then [errs[0].value] else []) + Present(errs[1..])
  }

  lemma {:induction false} PresentEmpty(errs: seq<Option<Error>>)
    ensures Present(errs) == [] <==> forall i :: 0 <= i < |errs| ==> errs[i].None?
  {
    if errs != [] {
      PresentEmpty(errs[1..]);
      assert forall i :: 1 <= i < |errs| ==> errs[i] == errs[1..][i - 1];
    }
  }

  /** `errors.Join`: nil when every member is nil, otherwise one error
      holding the non-nil members in order. */
  function Join(errs: seq<Option<Error>>): (r: Option<Error>)
    ensures r.None? <==> forall i :: 0 <= i < |errs| ==> errs[i].None?
    ensures r.None? <==> Present(errs) == []
    ensures r.Some? ==> r.value == Joined(Present(errs))
  {
    PresentEmpty(errs);
    if Present(errs) == [] then None else Some(Joined(Present(errs)))
  }

  predicate HasCredential(c: SSHConfig) {
    c.key.Some? || c.keyPath.Some? || c.password.Some?
  }

  /** A check fails for this configuration. */
  predicate CheckFails(c: SSHConfig, parses: string -> bool, x: Check) {
    match x
    case ServerMissing => c.server == ""
    case ServerUnparseable => !parses(c.server)
    case PortMissing => c.port.None?
    case UserMissing => c.user == ""
    case CredentialMissing => !HasCredential(c)
    case TimeoutMissing => c.timeout.None?
  }

  /** The number of checks the validator makes. */
  const Checks := 6

  /** The check made in position `i` (counting from 0). */
  function CheckAt(i: nat): (x: Check)
    requires i < Checks
    ensures Rank(x) == i
  {
    match i
    case 0 => ServerMissing
    case 1 => ServerUnparseable
    case 2 => PortMissing
    case 3 => UserMissing
    case 4 => CredentialMissing
    case _ => TimeoutMissing
  }

  /** The position in which a check is made. */
  function Rank(x: Check): (r: nat)
    ensures r < Checks
  {
    match x
    case ServerMissing => 0
    case ServerUnparseable => 1
    case PortMissing => 2
    case UserMissing => 3
    case CredentialMissing => 4
    case TimeoutMissing => 5
  }

  /** The error list after the first `n` checks: each failing check appends
      its own error. */
  function Collected(c: SSHConfig, parses: string -> bool, n: nat): seq<Error>
    requires n <= Checks
  {
    if n == 0 then []
    else if CheckFails(c, parses, CheckAt(n - 1)) then Collected(c, parses, n - 1) + [Failed(CheckAt(n - 1))]
    else Collected(c, parses, n - 1)
  }

  /** After `n` checks the list holds an error for exactly the failing
      checks among the first `n`. */
  lemma {:induction false} CollectedMembers(c: SSHConfig, parses: string -> bool, n: nat)
    requires n <= Checks
    ensures forall e :: e in Collected(c, parses, n) ==>
      e.Failed? && Rank(e.check) < n && CheckFails(c, parses, e.check)
    ensures forall x :: Rank(x) < n && CheckFails(c, parses, x) ==> Failed(x) in Collected(c, parses, n)
  {
    if n > 0 {
      CollectedMembers(c, parses, n - 1);
    }
  }

  /** Every entry is a failed check, and the checks come in the order they
      are made, so none twice. */
  predicate InCheckOrder(errs: seq<Error>) {
    forall i, j :: 0 <= i < j < |errs| ==>
      errs[i].Failed? && errs[j].Failed? && Rank(errs[i].check) < Rank(errs[j].check)
  }

  /** The list is in the order the checks are made. */
  lemma {:induction false} CollectedOrdered(c: SSHConfig, parses: string -> bool, n: nat)
    requires n <= Checks
    ensures InCheckOrder(Collected(c, parses, n))
  {
    if n > 0 {
      CollectedOrdered(c, parses, n - 1);
      CollectedMembers(c, parses, n - 1);
      var prev := Collected(c, parses, n - 1);
      var cur := Collected(c, parses, n);
      forall i, j | 0 <= i < j < |cur|
        ensures cur[i].Failed? && cur[j].Failed? && Rank(cur[i].check) < Rank(cur[j].check)
      {
        assert cur[i] == prev[i] && prev[i] in prev;
        if j < |prev| {
          assert cur[j] == prev[j];
        }
      }
    } else {
      assert Collected(c, parses, n) == [];
    }
  }

  /** Every check passes. */
  predicate AllPass(c: SSHConfig, parses: string -> bool) {
    c.server != "" && parses(c.server) && c.port.Some? && c.user != "" && HasCredential(c) &&
    c.timeout.Some?
  }

  /** The errors the SSH validator collects. */
  function Reported(c: SSHConfig, parses: string -> bool): seq<Error> {
    Collected(c, parses, Checks)
  }

  /** Every check of the validator fails exactly when its error is reported. */
  lemma ReportedExactly(c: SSHConfig, parses: string -> bool)
    ensures forall e :: e in Reported(c, parses) ==> e.Failed?
    ensures forall x :: Failed(x) in Reported(c, parses) <==> CheckFails(c, parses, x)
  {
    CollectedMembers(c, parses, Checks);
    forall x | CheckFails(c, parses, x) ensures Failed(x) in Reported(c, parses) {
      assert Rank(x) < Checks;
    }
  }

  /** The errors come in the order the checks are made, so none twice. */
  lemma ReportedInOrder(c: SSHConfig, parses: string -> bool)
    ensures InCheckOrder(Reported(c, parses))
  {
    CollectedOrdered(c, parses, Checks);
  }

  /** Nothing is reported exactly when every check passes. */
  lemma ReportedNothing(c: SSHConfig, parses: string -> bool)
    ensures Reported(c, parses) == [] <==> AllPass(c, parses)
  {
    ReportedExactly(c, parses);
    if Reported(c, parses) != [] {
      assert Reported(c, parses)[0] in Reported(c, parses);
    }
    if !AllPass(c, parses) {
      var x := if c.server == "" then ServerMissing
        else if !parses(c.server) then ServerUnparseable
        else if c.port.None? then PortMissing
        else if c.user == "" then UserMissing
        else if !HasCredential(c) then CredentialMissing
        else TimeoutMissing;
      assert Failed(x) in Reported(c, parses);
    }
  }

  /** What the SSH validator returns: nil, or the join of its failures. */
  function SSHErrors(c: SSHConfig, parses: string -> bool): Option<Error> {
    if Reported(c, parses) == [] then None else Some(Joined(Reported(c, parses)))
  }

  /** `errors.Join` of a list whose members are all non-nil. */
  function JoinAll(errs: seq<Error>): (r: Option<Error>)
    ensures r == Join(seq(|errs|, i requires 0 <= i < |errs| => Some(errs[i])))
  {
    PresentSomes(errs);
    if errs == [] then None else Some(Joined(errs))
  }

  lemma {:induction false} PresentSomes(errs: seq<Error>)
    ensures Present(seq(|errs|, i requires 0 <= i < |errs| => Some(errs[i]))) == errs
  {
    var opts := seq(|errs|, i requires 0 <= i < |errs| => Some(errs[i]));
    if errs != [] {
      PresentSomes(errs[1..]);
      assert opts[1..] == seq(|errs[1..]|, i requires 0 <= i < |errs[1..]| => Some(errs[1..][i]));
    }
  }

  /** `validateSSHConfig`: every failing check is appended, then joined. */
  method ValidateSSHConfig(c: SSHConfig, parses: string -> bool) returns (err: Option<Error>)
    ensures err == SSHErrors(c, parses)
    ensures err.None? <==> AllPass(c, parses)
  {
    var errs: seq<Error> := [];
    if c.server == "" {
      errs := errs + [Failed(ServerMissing)];
    }
    assert errs == Collected(c, parses, 1);
    if !parses(c.server) {
      errs := errs + [Failed(ServerUnparseable)];
    }
    assert errs == Collected(c, parses, 2);
    if c.port.None? {
      errs := errs + [Failed(PortMissing)];
    }
    assert errs == Collected(c, parses, 3);
    if c.user == "" {
      errs := errs + [Failed(UserMissing)];
    }
    assert errs == Collected(c, parses, 4);
    if !HasCredential(c) {
      errs := errs + [Failed(CredentialMissing)];
    }
    assert errs == Collected(c, parses, 5);
    if c.timeout.None? {
      errs := errs + [Failed(TimeoutMissing)];
    }
    assert errs == Collected(c, parses, 6);
    ReportedNothing(c, parses);
    err := JoinAll(errs);
  }

  /** What `validateVCenterConfig` returns: the join of a one-member list
      holding the embedded SSH record's result, possibly nil. */
  function VCenterErrors(vc: VCenterConfig, parses: string -> bool): Option<Error> {
    Join([SSHErrors(vc.ssh, parses)])
  }

  /** The vCenter validator is nil exactly when its SSH record passes every
      check; otherwise it wraps the SSH failures in one more join. */
  lemma VCenterErrorsMeaning(vc: VCenterConfig, parses: string -> bool)
    ensures VCenterErrors(vc, parses).None? <==> AllPass(vc.ssh, parses)
    ensures VCenterErrors(vc, parses).Some? ==>
      VCenterErrors(vc, parses).value == Joined([Joined(Reported(vc.ssh, parses))])
  {
    ReportedNothing(vc.ssh, parses);
    assert Present([SSHErrors(vc.ssh, parses)]) ==
      (if SSHErrors(vc.ssh, parses).Some? then [SSHErrors(vc.ssh, parses).value] else []);
  }

  /** `validateVCenterConfig`: appends the SSH result, nil or not, and joins. */
  method ValidateVCenterConfig(vc: VCenterConfig, parses: string -> bool) returns (err: Option<Error>)
    ensures err == VCenterErrors(vc, parses)
    ensures err.None? <==> AllPass(vc.ssh, parses)
  {
    var errs: seq<Option<Error>> := [];
    var sshErr := ValidateSSHConfig(vc.ssh, parses);
    errs := errs + [sshErr];
    assert errs == [SSHErrors(vc.ssh, parses)];
    VCenterErrorsMeaning(vc, parses);
    err := Join(errs);
  }

  /** The whole configuration passes: the jumpbox, when present, and the
      vCenter SSH record pass every check. */
  predicate Valid(c: Config, parses: string -> bool) {
    (c.jumpbox.Some? ==> AllPass(c.jumpbox.value, parses)) && AllPass(c.vcenter.ssh, parses)
  }

  /** The list `validateConfig` builds: the wrapped jumpbox failure, if the
      jumpbox is present and fails, then the wrapped vCenter failure. */
  function ConfigErrors(c: Config, parses: string -> bool): seq<Error> {
    var jump := if c.jumpbox.Some? then SSHErrors(c.jumpbox.value, parses) else None;
    var vc := VCenterErrors(c.vcenter, parses);
    (if jump.Some? then [Wrapped(JumpboxSection, jump.value)] else []) +
    (if vc.Some? then [Wrapped(VCenterSection, vc.value)] else [])
  }

  /** Each section contributes at most one error, wrapped with its own prefix
      and holding that section's failing checks; a jumpbox error precedes a
      vCenter error; nothing is collected exactly when the configuration is
      valid. */
  lemma ConfigErrorsSections(c: Config, parses: string -> bool)
    ensures |ConfigErrors(c, parses)| <= 2
    ensures ConfigErrors(c, parses) == [] <==> Valid(c, parses)
    ensures forall e :: e in ConfigErrors(c, parses) ==> e.Wrapped?
    ensures (exists e :: Wrapped(JumpboxSection, e) in ConfigErrors(c, parses)) <==>
      c.jumpbox.Some? && !AllPass(c.jumpbox.value, parses)
    ensures (exists e :: Wrapped(VCenterSection, e) in ConfigErrors(c, parses)) <==>
      !AllPass(c.vcenter.ssh, parses)
    ensures c.jumpbox.Some? && !AllPass(c.jumpbox.value, parses) ==>
      ConfigErrors(c, parses)[0] == Wrapped(JumpboxSection, Joined(Reported(c.jumpbox.value, parses)))
    ensures !AllPass(c.vcenter.ssh, parses) ==>
      ConfigErrors(c, parses)[|ConfigErrors(c, parses)| - 1] ==
        Wrapped(VCenterSection, Joined([Joined(Reported(c.vcenter.ssh, parses))]))
  {
    VCenterErrorsMeaning(c.vcenter, parses);
    if c.jumpbox.Some? {
      ReportedNothing(c.jumpbox.value, parses);
    }
    var errs := ConfigErrors(c, parses);
    if c.jumpbox.Some? && !AllPass(c.jumpbox.value, parses) {
      assert Wrapped(JumpboxSection, Joined(Reported(c.jumpbox.value, parses))) == errs[0];
    }
    if !AllPass(c.vcenter.ssh, parses) {
      var v := Wrapped(VCenterSection, Joined([Joined(Reported(c.vcenter.ssh, parses))]));
      assert v == errs[|errs| - 1];
    }
  }

  /** What `validateConfig` returns. */
  function ConfigResult(c: Config, parses: string -> bool): Option<Error> {
    JoinAll(ConfigErrors(c, parses))
  }

  /** `validateConfig`: the jumpbox only when present, then the vCenter
      section, each failure wrapped with its prefix; then joined. */
  method ValidateConfig(c: Config, parses: string -> bool) returns (err: Option<Error>)
    ensures err == ConfigResult(c, parses)
    ensures err.None? <==> Valid(c, parses)
  {
    var errs: seq<Error> := [];
    if c.jumpbox.Some? {
      var jumpErr := ValidateSSHConfig(c.jumpbox.value, parses);
      if jumpErr.Some? {
        errs := errs + [Wrapped(JumpboxSection, jumpErr.value)];
      }
    }
    var vcErr := ValidateVCenterConfig(c.vcenter, parses);
    if vcErr.Some? {
      errs := errs + [Wrapped(VCenterSection, vcErr.value)];
    }
    assert errs == ConfigErrors(c, parses);
    ConfigErrorsSections(c, parses);
    err := JoinAll(errs);
  }

  /** `Load`: an invalid configuration is returned as the validation error
      before any further work; a valid one yields nil. */
  method Load(c: Config, parses: string -> bool) returns (err: Option<Error>)
    ensures err == ConfigResult(c, parses)
    ensures err.None? <==> Valid(c, parses)
    ensures err.Some? ==> err.value == Joined(ConfigErrors(c, parses))
  {
    err := ValidateConfig(c, parses);
    if err.Some? {
      return;
    }
    err := None;
  }

  /** The same SSH record as the first-failure validator of
      pkg/supervisor/get.go reads it (`Host` for `Server`, no timeout). */
  function AsHostConfig(c: SSHConfig): SshConfig.Config {
    SshConfig.Config(c.server, c.port, c.user, c.key, c.keyPath, c.password)
  }

  /** The collected check matching an error of the first-failure validator
      (none matches the timeout, which only this revision demands). That
      validator never reports a missing vCenter section. */
  function FirstFailureCheck(e: SshConfig.ConfigError): Check
    requires e != SshConfig.VCenterMissing
  {
    match e
    case HostMissing => ServerMissing
    case HostUnparseable => ServerUnparseable
    case PortMissing => Check.PortMissing
    case UserMissing => Check.UserMissing
    case CredentialMissing => Check.CredentialMissing
  }

  /** Across the two revisions: the first-failure validator passes exactly when
      the collecting validator reports nothing but a missing timeout, and when
      it fails its error is the first one the collecting validator reports. */
  lemma RevisionsAgree(c: SSHConfig, parses: string -> bool)
    ensures SshConfig.Validate(AsHostConfig(c), parses).None? <==>
      forall e :: e in Reported(c, parses) ==> e == Failed(TimeoutMissing)
    ensures SshConfig.Validate(AsHostConfig(c), parses).Some? ==>
      Reported(c, parses) != [] &&
      Reported(c, parses)[0] == Failed(FirstFailureCheck(SshConfig.Validate(AsHostConfig(c), parses).value))
  {
    ReportedExactly(c, parses);
    ReportedInOrder(c, parses);
    var r := Reported(c, parses);
    var v := SshConfig.Validate(AsHostConfig(c), parses);
    if v.Some? {
      var x := FirstFailureCheck(v.value);
      assert CheckFails(c, parses, x);
      assert Failed(x) in r;
      assert CheckFails(c, parses, r[0].check);
    } else {
      forall e | e in r ensures e == Failed(TimeoutMissing) {
        assert CheckFails(c, parses, e.check);
      }
    }
  }
}
