/** cmd/get/sv-password.go: the `get supervisor` command clears the fields of
    the retrieved supervisor information that its selective flag does not ask
    for, in place, before printing it. */
module SvPassword {
  import opened Outcomes
  import Supervisor

  /** The command's flags; `all` defaults to true and selects nothing. */
  datatype Flags = Flags(controlPlane: bool, password: bool, vms: bool, all: bool)

  /** The flags are declared mutually exclusive, so at most one of the three
      selective flags is set on any accepted command line. */
  predicate Exclusive(f: Flags) {
    (f.controlPlane ==> !f.password && !f.vms) && (f.password ==> !f.vms)
  }

  /** The information the three `if` statements leave: each set flag clears
      the two other fields, in the order control plane, VMs, password. */
  function Project(i: Supervisor.SupervisorInfo, f: Flags): Supervisor.SupervisorInfo {
    var a := if f.controlPlane then i.(vms := [], password := "") else i;
    var b := if f.vms then a.(controlPlane := "", password := "") else a;
    if f.password then b.(controlPlane := "", vms := []) else b
  }

  /** With `--control-plane` only the control-plane address survives. */
  lemma ControlPlaneOnly(i: Supervisor.SupervisorInfo, f: Flags)
    requires Exclusive(f) && f.controlPlane
    ensures Project(i, f) == Supervisor.SupervisorInfo(i.controlPlane, [], "")
  {
  }

  /** With `--vms` only the VM list survives. */
  lemma VMsOnly(i: Supervisor.SupervisorInfo, f: Flags)
    requires Exclusive(f) && f.vms
    ensures Project(i, f) == Supervisor.SupervisorInfo("", i.vms, "")
  {
  }

  /** With `--password` only the password survives. */
  lemma PasswordOnly(i: Supervisor.SupervisorInfo, f: Flags)
    requires Exclusive(f) && f.password
    ensures Project(i, f) == Supervisor.SupervisorInfo("", [], i.password)
  {
  }

  /** With no selective flag (the default `--all`) nothing is cleared. */
  lemma AllUnchanged(i: Supervisor.SupervisorInfo, f: Flags)
    requires !f.controlPlane && !f.vms && !f.password
    ensures Project(i, f) == i
  {
  }

  /** Every field of the result is either the retrieved one or cleared, and
      applying the same flags again changes nothing. */
  lemma ProjectOnlyClears(i: Supervisor.SupervisorInfo, f: Flags)
    ensures Project(i, f).controlPlane in {i.controlPlane, ""}
    ensures Project(i, f).vms in {i.vms, []}
    ensures Project(i, f).password in {i.password, ""}
    ensures Project(Project(i, f), f) == Project(i, f)
  {
  }

  /** The command's `info` value, whose fields the flag checks overwrite. */
  class Info {
    var controlPlane: string
    var vms: seq<string>
    var password: string

    /** The information as a value. */
    function Value(): Supervisor.SupervisorInfo
      reads this
    {
      Supervisor.SupervisorInfo(controlPlane, vms, password)
    }

    constructor (i: Supervisor.SupervisorInfo)
      ensures Value() == i
    {
      controlPlane := i.controlPlane;
      vms := i.vms;
      password := i.password;
    }

    /** Lines 34-47: each flag that is set clears two fields in place. */
    method Restrict(f: Flags)
      modifies this
      ensures Value() == Project(old(Value()), f)
    {
      if f.controlPlane {
        vms := [];
        password := "";
      }
      if f.vms {
        controlPlane := "";
        password := "";
      }
      if f.password {
        controlPlane := "";
        vms := [];
      }
    }
  }

  /** The command's `Run`: a failed retrieval sets exit code 1 and prints
      nothing; otherwise the projected information is printed and the exit
      code is left alone. */
  method GetSupervisor(retrieved: Result<Supervisor.SupervisorInfo, Supervisor.InfoError>, f: Flags)
    returns (exitCode: Option<int>, printed: Option<Supervisor.SupervisorInfo>)
    ensures retrieved.Failure? <==> exitCode == Some(1)
    ensures retrieved.Failure? ==> printed == None
    ensures retrieved.Success? ==> exitCode == None && printed == Some(Project(retrieved.value, f))
  {
    if retrieved.Failure? {
      return Some(1), None;
    }
    var info := new Info(retrieved.value);
    info.Restrict(f);
    exitCode, printed := None, Some(info.Value());
  }
}
