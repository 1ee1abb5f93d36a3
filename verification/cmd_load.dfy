/** pkg/cmd/load/load.go: the option check, the password parser and the
    delivery sequence of `Run`. Remote commands go through an abstract
    runner: the k-th command issued after the credential script fails
    exactly when `outcomes` has a `false` at index k (indices beyond its end
    succeed). The address loop is `Inventory.CollectAddresses`. */
module CmdLoad {
  import opened Outcomes
  import opened LineMatch
  import Inventory
  import Supervisor

  /** `LoadOptions`. */
  datatype LoadOptions = LoadOptions(
    container: string,
    jumpbox: string,
    jumpboxUser: string,
    jumpboxPassword: string,
    server: string,
    user: string,
    password: string,
    ssoUser: string,
    ssoPassword: string,
    cleanup: bool)

  /** `HasJumpbox`: a jumpbox is configured. */
  predicate HasJumpbox(o: LoadOptions) {
    o.jumpbox != ""
  }

  datatype OptionsError = JumpboxCredentialsMissing

  /** `Validate`: a jumpbox needs both its user and its password; without a
      jumpbox anything goes. */
  function Validate(o: LoadOptions): (r: Option<OptionsError>)
    ensures r.Some? <==> o.jumpbox != "" && (o.jumpboxUser == "" || o.jumpboxPassword == "")
    ensures !HasJumpbox(o) ==> r.None?
  {
    if HasJumpbox(o) && (o.jumpboxUser == "" || o.jumpboxPassword == "")
    then Some(JumpboxCredentialsMissing)
    else None
  }

  /** A jumpbox is configured exactly when its address is given, and the option
      check only ever concerns a configured jumpbox: without one every option
      set passes, with one it passes once both credentials are given. */
  lemma JumpboxOnlyWhenNamed(o: LoadOptions)
    ensures HasJumpbox(o) <==> o.jumpbox != ""
    ensures !HasJumpbox(o) ==> Validate(o).None?
    ensures HasJumpbox(o) ==> (Validate(o).None? <==> o.jumpboxUser != "" && o.jumpboxPassword != "")
  {
  }

  /** `getSupervisorPassword`: the capture group of the one and only
      `PWD: <token>` line; otherwise an error carrying the number of matches. */
  function GetSupervisorPassword(s: string): (r: Result<string, nat>)
    ensures r.Success? <==> exists i :: OnlyMatchAt(PWDPrefix, Lines(s), i)
    ensures forall i :: OnlyMatchAt(PWDPrefix, Lines(s), i) ==>
      r == Success(MatchLine(PWDPrefix, Lines(s)[i]).value)
    ensures r.Failure? ==> r.error == |FindAll(s, PWDPrefix)| && r.error != 1
  {
    FindAllExactlyOne(s, PWDPrefix);
    var matches := FindAll(s, PWDPrefix);
    if |matches| != 1 then Failure(|matches|) else Success(matches[0])
  }

  /** The two password parsers agree: this one succeeds exactly when the
      password lookup of pkg/supervisor/get.go does, with the same password,
      and whenever the full two-line parse succeeds its password is this
      parser's result. */
  lemma PasswordParsersAgree(s: string)
    ensures GetSupervisorPassword(s).Success? <==> Supervisor.GetMatch(s, PWDPrefix).Success?
    ensures GetSupervisorPassword(s).Success? ==>
      GetSupervisorPassword(s).value == Supervisor.GetMatch(s, PWDPrefix).value
    ensures Supervisor.ParseDecryptK8Pwd(s).2.None? ==>
      GetSupervisorPassword(s) == Success(Supervisor.ParseDecryptK8Pwd(s).1)
  {
    if GetSupervisorPassword(s).Success? {
      var i :| OnlyMatchAt(PWDPrefix, Lines(s), i);
      assert Supervisor.GetMatch(s, PWDPrefix) == Success(MatchLine(PWDPrefix, Lines(s)[i]).value);
    }
    if Supervisor.ParseDecryptK8Pwd(s).2.None? {
      var i :| OnlyMatchAt(IPPrefix, Lines(s), i);
      var k :| OnlyMatchAt(PWDPrefix, Lines(s), k);
      assert Supervisor.ParseDecryptK8Pwd(s).1 == MatchLine(PWDPrefix, Lines(s)[k]).value;
    }
  }

  /** The commands `Run` issues, as structured values. */
  datatype Command =
    | RunDecryptScript                                   // the credential script
    | Stage(container: string, path: string)             // scp of the image to the server
    | CopyToVM(addr: string, path: string, password: string)    // sshpass scp to root@addr
    | ImportOnVM(addr: string, path: string, password: string)  // ctr images import on addr
    | RemoveStaged(path: string)                         // the deferred `rm`

  datatype RunError =
    | DiscoveryFailed(discovery: Inventory.DiscoveryError)
    | PasswordUnavailable     // running the credential script failed
    | PasswordUnparsed(matches: nat)
    | StagingFailed           // "Unable to run remote command"
    | VMFailed(addr: string)  // "Unable to write container to Supervisor VM <addr>"

  /** The runner's verdict on the k-th command. */
  predicate Fails(outcomes: seq<bool>, k: nat) {
    k < |outcomes| && !outcomes[k]
  }

  /** The offset of the first failing command among `n` commands issued from
      index `from`, or `n` when all of them succeed. */
  function FirstFailure(outcomes: seq<bool>, from: nat, n: nat): (m: nat)
    ensures m <= n
    ensures forall k :: from <= k < from + m ==> !Fails(outcomes, k)
    ensures m < n ==> Fails(outcomes, from + m)
    decreases n
  {
    if n == 0 || Fails(outcomes, from) then 0
    else 1 + FirstFailure(outcomes, from + 1, n - 1)
  }

  /** The first failing offset is the one after which nothing has failed. */
  lemma FirstFailureIs(outcomes: seq<bool>, from: nat, n: nat, m: nat)
    requires m < n && Fails(outcomes, from + m)
    requires forall k :: from <= k < from + m ==> !Fails(outcomes, k)
    ensures FirstFailure(outcomes, from, n) == m
  {
  }

  /** Every per-VM command for `addrs` when nothing fails: copy then import,
      address by address. */
  function Plan(addrs: seq<string>, path: string, password: string): (r: seq<Command>)
    ensures |r| == 2 * |addrs|
  {
    if addrs == [] then []
    else [CopyToVM(addrs[0], path, password), ImportOnVM(addrs[0], path, password)]
         + Plan(addrs[1..], path, password)
  }

  lemma {:induction false} PlanAt(addrs: seq<string>, path: string, password: string)
    ensures |Plan(addrs, path, password)| == 2 * |addrs|
    ensures forall k :: 0 <= k < |addrs| ==>
      Plan(addrs, path, password)[2 * k] == CopyToVM(addrs[k], path, password) &&
      Plan(addrs, path, password)[2 * k + 1] == ImportOnVM(addrs[k], path, password)
  {
    if addrs != [] {
      var tail := addrs[1..];
      PlanAt(tail, path, password);
      forall k | 0 < k < |addrs|
        ensures Plan(addrs, path, password)[2 * k] == CopyToVM(addrs[k], path, password)
        ensures Plan(addrs, path, password)[2 * k + 1] == ImportOnVM(addrs[k], path, password)
      {
        assert addrs[k] == tail[k - 1];
        assert 2 * k == 2 + 2 * (k - 1);
      }
    }
  }

  /** The per-VM commands actually issued: the plan cut just after its first
      failing command. */
  function Delivered(addrs: seq<string>, path: string, password: string, outcomes: seq<bool>): seq<Command> {
    var plan := Plan(addrs, path, password);
    var m := FirstFailure(outcomes, 1, |plan|);
    if m < |plan| then plan[..m + 1] else plan
  }

  /** The error of the per-VM phase: the address whose command failed first. */
  function DeliveryError(addrs: seq<string>, outcomes: seq<bool>): Option<RunError> {
    var m := FirstFailure(outcomes, 1, 2 * |addrs|);
    if m < 2 * |addrs| then Some(VMFailed(addrs[m / 2])) else None
  }

  /** When every per-VM command succeeds, each address gets exactly one copy
      followed by one import, in address order, and there is no error. */
  lemma DeliveredAllSucceed(addrs: seq<string>, path: string, password: string, outcomes: seq<bool>)
    requires forall k :: 1 <= k < 1 + 2 * |addrs| ==> !Fails(outcomes, k)
    ensures DeliveryError(addrs, outcomes).None?
    ensures |Delivered(addrs, path, password, outcomes)| == 2 * |addrs|
    ensures forall i :: 0 <= i < |addrs| ==>
      Delivered(addrs, path, password, outcomes)[2 * i] == CopyToVM(addrs[i], path, password) &&
      Delivered(addrs, path, password, outcomes)[2 * i + 1] == ImportOnVM(addrs[i], path, password)
  {
    PlanAt(addrs, path, password);
  }

  /** The plan for the first `j` addresses is the plan's first `2 * j`
      commands. */
  lemma {:induction false} PlanPrefix(addrs: seq<string>, path: string, password: string, j: nat)
    requires j <= |addrs|
    ensures |Plan(addrs, path, password)| == 2 * |addrs|
    ensures Plan(addrs[..j], path, password) == Plan(addrs, path, password)[..2 * j]
  {
    PlanAt(addrs, path, password);
    if j > 0 {
      PlanPrefix(addrs[1..], path, password, j - 1);
      assert addrs[..j][1..] == addrs[1..][..j - 1];
      assert addrs[..j][0] == addrs[0];
    }
  }

  /** Helper for `Deliver` and `DeliveredStopsAtFirstFailure`: the cut at the
      first failing command, without the statements about that command. */
  lemma DeliveredCut(addrs: seq<string>, path: string, password: string, outcomes: seq<bool>, m: nat)
    requires m < 2 * |addrs| && Fails(outcomes, 1 + m)
    requires forall k :: 1 <= k < 1 + m ==> !Fails(outcomes, k)
    ensures DeliveryError(addrs, outcomes) == Some(VMFailed(addrs[m / 2]))
    ensures |Plan(addrs, path, password)| == 2 * |addrs|
    ensures Delivered(addrs, path, password, outcomes) == Plan(addrs, path, password)[..m + 1]
  {
    PlanAt(addrs, path, password);
    FirstFailureIs(outcomes, 1, 2 * |addrs|, m);
  }

  /** The same cut, located by address: the copy (`second` false) or the
      import (`second` true) on address `i` is the first command to fail. */
  lemma DeliveredCutAt(addrs: seq<string>, path: string, password: string, outcomes: seq<bool>,
                       i: nat, second: bool)
    requires i < |addrs|
    requires Fails(outcomes, 1 + 2 * i + (if second then 1 else 0))
    requires forall k :: 1 <= k < 1 + 2 * i + (if second then 1 else 0) ==> !Fails(outcomes, k)
    ensures DeliveryError(addrs, outcomes) == Some(VMFailed(addrs[i]))
    ensures |Plan(addrs, path, password)| == 2 * |addrs|
    ensures Delivered(addrs, path, password, outcomes) ==
      Plan(addrs, path, password)[..2 * i + (if second then 2 else 1)]
  {
    var m := 2 * i + (if second then 1 else 0);
    assert m / 2 == i;
    DeliveredCut(addrs, path, password, outcomes, m);
  }

  /** With no failure among the per-VM commands, the whole plan is issued
      and there is no error. */
  lemma DeliveredWhole(addrs: seq<string>, path: string, password: string, outcomes: seq<bool>)
    requires forall k :: 1 <= k < 1 + 2 * |addrs| ==> !Fails(outcomes, k)
    ensures DeliveryError(addrs, outcomes).None?
    ensures Delivered(addrs, path, password, outcomes) == Plan(addrs, path, password)
  {
    var n := 2 * |addrs|;
    assert FirstFailure(outcomes, 1, n) == n;
  }

  /** At the first failing command the sequence stops: that command is the
      last one issued, every earlier one succeeded, the error names its
      address, and every command issued belongs to that address or an
      earlier one. */
  lemma DeliveredStopsAtFirstFailure(addrs: seq<string>, path: string, password: string, outcomes: seq<bool>, m: nat)
    requires m < 2 * |addrs| && Fails(outcomes, 1 + m)
    requires forall k :: 1 <= k < 1 + m ==> !Fails(outcomes, k)
    ensures DeliveryError(addrs, outcomes) == Some(VMFailed(addrs[m / 2]))
    ensures |Plan(addrs, path, password)| == 2 * |addrs|
    ensures Delivered(addrs, path, password, outcomes) == Plan(addrs, path, password)[..m + 1]
    ensures Delivered(addrs, path, password, outcomes)[m] ==
      if m % 2 == 0 then CopyToVM(addrs[m / 2], path, password) else ImportOnVM(addrs[m / 2], path, password)
    ensures Delivered(addrs, path, password, outcomes) <= Plan(addrs[..m / 2 + 1], path, password)
  {
    DeliveredCut(addrs, path, password, outcomes, m);
    var plan := Plan(addrs, path, password);
    var issued := Delivered(addrs, path, password, outcomes);
    var h := m / 2;
    assert m == 2 * h || m == 2 * h + 1;
    PlanAt(addrs, path, password);
    PlanPrefix(addrs, path, password, h + 1);
    assert issued <= plan[..2 * (h + 1)];
    assert issued[m] == plan[m];
    if m % 2 == 0 {
      assert plan[2 * h] == CopyToVM(addrs[h], path, password);
    } else {
      assert plan[2 * h + 1] == ImportOnVM(addrs[h], path, password);
    }
  }

  /** Every per-VM command uses the one staging path and the one password. */
  lemma {:induction false} PlanUsesOnePathAndPassword(addrs: seq<string>, path: string, password: string)
    ensures forall c :: c in Plan(addrs, path, password) ==>
      (c.CopyToVM? || c.ImportOnVM?) && c.path == path && c.password == password
  {
    if addrs != [] {
      PlanUsesOnePathAndPassword(addrs[1..], path, password);
    }
  }

  /** Two VMs, and the import on the first fails: the run copies and imports
      on the first VM, reports that VM, and never touches the second. */
  lemma ImportFailureOnFirstVM(path: string, password: string)
    ensures var addrs := ["10.0.0.1", "10.0.0.2"];
      var outcomes := [true, true, false];
      Delivered(addrs, path, password, outcomes) ==
        [CopyToVM("10.0.0.1", path, password), ImportOnVM("10.0.0.1", path, password)] &&
      DeliveryError(addrs, outcomes) == Some(VMFailed("10.0.0.1"))
  {
    var addrs := ["10.0.0.1", "10.0.0.2"];
    var outcomes := [true, true, false];
    DeliveredStopsAtFirstFailure(addrs, path, password, outcomes, 1);
    PlanAt(addrs, path, password);
  }

  /** Issuing the copy and then the import for address `i` extends the
      issued prefix of the plan by one command each. */
  lemma PlanStep(addrs: seq<string>, path: string, password: string, i: nat)
    requires i < |addrs|
    ensures |Plan(addrs, path, password)| == 2 * |addrs|
    ensures Plan(addrs, path, password)[..2 * i] + [CopyToVM(addrs[i], path, password)] ==
      Plan(addrs, path, password)[..2 * i + 1]
    ensures Plan(addrs, path, password)[..2 * i + 1] + [ImportOnVM(addrs[i], path, password)] ==
      Plan(addrs, path, password)[..2 * i + 2]
  {
    PlanAt(addrs, path, password);
    var plan := Plan(addrs, path, password);
    assert plan[..2 * i + 1] == plan[..2 * i] + [plan[2 * i]];
    assert plan[..2 * i + 2] == plan[..2 * i + 1] + [plan[2 * i + 1]];
  }

  /** The per-VM loop of `Run`: for each address in order, copy the staged
      image to the VM and import it there, returning at the first failure
      with an error naming that address. */
  method Deliver(addrs: seq<string>, path: string, password: string, outcomes: seq<bool>)
    returns (err: Option<RunError>, issued: seq<Command>)
    ensures err == DeliveryError(addrs, outcomes)
    ensures issued == Delivered(addrs, path, password, outcomes)
  {
    ghost var plan := Plan(addrs, path, password);
    issued := [];
    assert plan[..0] == [];
    var next := 1;
    var i := 0;
    while i < |addrs|
      invariant 0 <= i <= |addrs|
      invariant next == 1 + 2 * i
      invariant issued == plan[..2 * i]
      invariant forall k :: 1 <= k < 1 + 2 * i ==> !Fails(outcomes, k)
    {
      var addr := addrs[i];
      PlanStep(addrs, path, password, i);
      issued := issued + [CopyToVM(addr, path, password)];
      if Fails(outcomes, next) {
        DeliveredCutAt(addrs, path, password, outcomes, i, false);
        return Some(VMFailed(addr)), issued;
      }
      next := next + 1;
      issued := issued + [ImportOnVM(addr, path, password)];
      if Fails(outcomes, next) {
        DeliveredCutAt(addrs, path, password, outcomes, i, true);
        return Some(VMFailed(addr)), issued;
      }
      next := next + 1;
      i := i + 1;
    }
    assert plan[..2 * |addrs|] == plan;
    DeliveredWhole(addrs, path, password, outcomes);
    return None, issued;
  }

  /** The body of `Run` after the tunnel: discover the addresses, fetch and
      parse the password, stage the image on the server, then copy and import
      it on each VM in order, stopping at the first failure; the staged file
      is removed at the end when cleanup is asked for and staging succeeded. */
  method Run(o: LoadOptions, stagingPath: string, inventory: Option<seq<Inventory.PropertyResult>>,
             decryptOutput: Option<string>, outcomes: seq<bool>)
    returns (err: Option<RunError>, trace: seq<Command>)
    ensures Inventory.Discovered(inventory).Failure? ==>
      err == Some(DiscoveryFailed(Inventory.Discovered(inventory).error)) && trace == []
    ensures Inventory.Discovered(inventory).Success? && decryptOutput.None? ==>
      err == Some(PasswordUnavailable) && trace == [RunDecryptScript]
    ensures Inventory.Discovered(inventory).Success? && decryptOutput.Some? &&
            GetSupervisorPassword(decryptOutput.value).Failure? ==>
      err == Some(PasswordUnparsed(GetSupervisorPassword(decryptOutput.value).error)) &&
      trace == [RunDecryptScript]
    ensures Inventory.Discovered(inventory).Success? && decryptOutput.Some? &&
            GetSupervisorPassword(decryptOutput.value).Success? && Fails(outcomes, 0) ==>
      err == Some(StagingFailed) && trace == [RunDecryptScript, Stage(o.container, stagingPath)]
    ensures Inventory.Discovered(inventory).Success? && decryptOutput.Some? &&
            GetSupervisorPassword(decryptOutput.value).Success? && !Fails(outcomes, 0) ==>
      var addrs := Inventory.Discovered(inventory).value;
      var password := GetSupervisorPassword(decryptOutput.value).value;
      err == DeliveryError(addrs, outcomes) &&
      trace == [RunDecryptScript, Stage(o.container, stagingPath)]
               + Delivered(addrs, stagingPath, password, outcomes)
               + (if o.cleanup then [RemoveStaged(stagingPath)] else [])
  {
    trace := [];
    var found: Result<seq<string>, Inventory.DiscoveryError>;
    if inventory.None? {
      found := Failure(Inventory.InventoryUnavailable);
    } else {
      found := Inventory.CollectAddresses(inventory.value);
    }
    if found.Failure? {
      return Some(DiscoveryFailed(found.error)), trace;
    }
    var addrs := found.value;

    trace := trace + [RunDecryptScript];
    if decryptOutput.None? {
      return Some(PasswordUnavailable), trace;
    }
    var parsed := GetSupervisorPassword(decryptOutput.value);
    if parsed.Failure? {
      return Some(PasswordUnparsed(parsed.error)), trace;
    }
    var staged;
    err, staged := StageAndDeliver(o, stagingPath, addrs, parsed.value, outcomes);
    trace := trace + staged;
  }

  /** The tail of `Run` once the password is known: stage the image on the
      server, deliver it to every VM, and remove the staged file when cleanup
      is asked for and staging succeeded. */
  method StageAndDeliver(o: LoadOptions, stagingPath: string, addrs: seq<string>, password: string,
                         outcomes: seq<bool>)
    returns (err: Option<RunError>, trace: seq<Command>)
    ensures Fails(outcomes, 0) ==>
      err == Some(StagingFailed) && trace == [Stage(o.container, stagingPath)]
    ensures !Fails(outcomes, 0) ==>
      err == DeliveryError(addrs, outcomes) &&
      trace == [Stage(o.container, stagingPath)]
               + Delivered(addrs, stagingPath, password, outcomes)
               + (if o.cleanup then [RemoveStaged(stagingPath)] else [])
  {
    trace := [Stage(o.container, stagingPath)];
    if Fails(outcomes, 0) {
      return Some(StagingFailed), trace;
    }

    var deliveryErr, issued := Deliver(addrs, stagingPath, password, outcomes);
    err := deliveryErr;
    trace := trace + issued;

    // The deferred removal: its outcome is reported but never returned.
    if o.cleanup {
      trace := trace + [RemoveStaged(stagingPath)];
    }
  }
}
