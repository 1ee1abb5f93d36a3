/** Address discovery over the guest network data of the control-plane VMs:
    `getVMNetworkPreferredIP` and the address loop of `getSupervisorVMs`
    (pkg/supervisor/get.go), repeated verbatim, apart from error wording, as
    `getVMNetworkPreferredIP` and `getSupervisorControlPlaneAddresses`
    (pkg/cmd/load/load.go). The property-collector results the vCenter API
    would return are inputs, one per matched VM object, in object order. */
module Inventory {
  import opened Outcomes

  const VMNetwork := "VM Network"
  const PreferredState := "preferred"

  datatype IpAddress = IpAddress(ipAddress: string, state: string)

  /** One guest NIC: the network it is attached to and its IP configuration. */
  datatype Nic = Nic(network: string, ipAddresses: seq<IpAddress>)

  /** The `guest.net` property of a VM. */
  datatype VirtualMachine = VirtualMachine(net: seq<Nic>)

  /** A property-collector content entry: a VM, or something that fails
      `ObjectContentToType`. */
  datatype ObjectContent = VmContent(vm: VirtualMachine) | Undecodable

  /** The outcome of `RetrieveProperties` for one object. */
  datatype PropertyResult = RetrieveFailed | Retrieved(content: seq<ObjectContent>)

  datatype DiscoveryError =
    | InventoryUnavailable   // tunnel, session, login, view or find failed
    | NoControlPlaneVMs      // "no supervisor control plane VMs were found"
    | RetrieveError          // RetrieveProperties failed
    | ObjectCount(count: nat)  // "%d objects match"
    | ConvertError           // ObjectContentToType failed
    | NoPreferredAddress     // "object did not have a VM Network preferred IP address"

  /** The address `a` of NIC `i`, slot `j` is a candidate: the NIC is on the
      VM network and the address is flagged preferred. */
  ghost predicate Candidate(nics: seq<Nic>, i: int, j: int) {
    0 <= i < |nics| && nics[i].network == VMNetwork &&
    0 <= j < |nics[i].ipAddresses| && nics[i].ipAddresses[j].state == PreferredState
  }

  /** `(i, j)` is the first candidate in NIC-then-address order. */
  ghost predicate FirstCandidate(nics: seq<Nic>, i: int, j: int) {
    Candidate(nics, i, j) &&
    forall i', j' :: Candidate(nics, i', j') ==> i < i' || (i == i' && j <= j')
  }

  /** The first preferred address among `addrs`. */
  function FirstPreferred(addrs: seq<IpAddress>): Option<string> {
    if addrs == [] then None
    else if addrs[0].state == PreferredState then Some(addrs[0].ipAddress)
    else FirstPreferred(addrs[1..])
  }

  /** The first preferred address of the first VM-network NIC that has one. */
  function VMNetworkPreferred(nics: seq<Nic>): Option<string> {
    if nics == [] then None
    else if nics[0].network == VMNetwork && FirstPreferred(nics[0].ipAddresses).Some?
    then FirstPreferred(nics[0].ipAddresses)
    else VMNetworkPreferred(nics[1..])
  }

  /** What `getVMNetworkPreferredIP` returns: that address, or "" if none. */
  function PreferredAddress(vm: VirtualMachine): string {
    match VMNetworkPreferred(vm.net)
    case Some(a) => a
    case None => ""
  }

  lemma {:induction false} FirstPreferredIsFirst(addrs: seq<IpAddress>)
    ensures FirstPreferred(addrs).None? <==>
      forall j :: 0 <= j < |addrs| ==> addrs[j].state != PreferredState
    ensures FirstPreferred(addrs).Some? ==>
      exists j :: 0 <= j < |addrs| && addrs[j].state == PreferredState &&
        FirstPreferred(addrs).value == addrs[j].ipAddress &&
        forall k :: 0 <= k < j ==> addrs[k].state != PreferredState
  {
    if addrs != [] && addrs[0].state != PreferredState {
      var tail := addrs[1..];
      FirstPreferredIsFirst(tail);
      assert forall k :: 0 < k < |addrs| ==> addrs[k] == tail[k - 1];
      if FirstPreferred(tail).Some? {
        var j :| 0 <= j < |tail| && tail[j].state == PreferredState &&
          FirstPreferred(tail).value == tail[j].ipAddress &&
          forall k :: 0 <= k < j ==> tail[k].state != PreferredState;
        assert addrs[j + 1] == tail[j];
        assert forall k :: 0 <= k < j + 1 ==> addrs[k].state != PreferredState;
      }
    }
  }

  /** The scan answers with the first candidate in NIC-then-address order, and
      answers nothing only when there is no candidate at all. */
  lemma {:induction false} VMNetworkPreferredIsFirst(nics: seq<Nic>)
    ensures VMNetworkPreferred(nics).None? <==> forall i, j :: !Candidate(nics, i, j)
    ensures VMNetworkPreferred(nics).Some? ==>
      exists i, j :: FirstCandidate(nics, i, j) &&
        VMNetworkPreferred(nics).value == nics[i].ipAddresses[j].ipAddress
  {
    if nics != [] {
      var tail := nics[1..];
      VMNetworkPreferredIsFirst(tail);
      FirstPreferredIsFirst(nics[0].ipAddresses);
      assert forall i, j :: 0 < i < |nics| ==> (Candidate(nics, i, j) <==> Candidate(tail, i - 1, j)) by {
        forall i, j | 0 < i < |nics| ensures Candidate(nics, i, j) <==> Candidate(tail, i - 1, j) {
          assert nics[i] == tail[i - 1];
        }
      }
      if nics[0].network == VMNetwork && FirstPreferred(nics[0].ipAddresses).Some? {
        var j :| 0 <= j < |nics[0].ipAddresses| && nics[0].ipAddresses[j].state == PreferredState &&
          FirstPreferred(nics[0].ipAddresses).value == nics[0].ipAddresses[j].ipAddress &&
          forall k :: 0 <= k < j ==> nics[0].ipAddresses[k].state != PreferredState;
        assert FirstCandidate(nics, 0, j);
      } else {
        assert forall j :: !Candidate(nics, 0, j);
        if VMNetworkPreferred(tail).Some? {
          var i, j :| FirstCandidate(tail, i, j) &&
            VMNetworkPreferred(tail).value == tail[i].ipAddresses[j].ipAddress;
          assert Candidate(nics, i + 1, j);
          assert FirstCandidate(nics, i + 1, j) by {
            forall i', j' | Candidate(nics, i', j') ensures i + 1 < i' || (i + 1 == i' && j <= j') {
              assert i' > 0;
              assert Candidate(tail, i' - 1, j');
            }
          }
        } else {
          forall i, j ensures !Candidate(nics, i, j) {
            if 0 < i < |nics| { assert !Candidate(tail, i - 1, j); }
          }
        }
      }
    }
  }

  /** `getVMNetworkPreferredIP`: scan the NICs in order; on a "VM Network" NIC
      scan its addresses in order and return the first preferred one; a
      VM-network NIC with no preferred address is passed over. */
  method GetVMNetworkPreferredIP(vm: VirtualMachine) returns (addr: string)
    ensures addr == PreferredAddress(vm)
  {
    var i := 0;
    while i < |vm.net|
      invariant 0 <= i <= |vm.net|
      invariant VMNetworkPreferred(vm.net) == VMNetworkPreferred(vm.net[i..])
    {
      var nic := vm.net[i];
      assert vm.net[i..][0] == nic && vm.net[i..][1..] == vm.net[i + 1..];
      if nic.network == VMNetwork {
        var j := 0;
        while j < |nic.ipAddresses|
          invariant 0 <= j <= |nic.ipAddresses|
          invariant FirstPreferred(nic.ipAddresses) == FirstPreferred(nic.ipAddresses[j..])
        {
          assert nic.ipAddresses[j..][0] == nic.ipAddresses[j];
          assert nic.ipAddresses[j..][1..] == nic.ipAddresses[j + 1..];
          if nic.ipAddresses[j].state == PreferredState {
            return nic.ipAddresses[j].ipAddress;
          }
          j := j + 1;
        }
      }
      i := i + 1;
    }
    return "";
  }

  /** One object's contribution: exactly one content entry, decodable as a VM,
      with a non-empty preferred VM-network address. */
  function ResolveObject(p: PropertyResult): Result<string, DiscoveryError> {
    match p
    case RetrieveFailed => Failure(RetrieveError)
    case Retrieved(content) =>
      if |content| != 1 then Failure(ObjectCount(|content|))
      else match content[0]
        case Undecodable => Failure(ConvertError)
        case VmContent(vm) =>
          if PreferredAddress(vm) == "" then Failure(NoPreferredAddress)
          else Success(PreferredAddress(vm))
  }

  /** `prefix` in front of a successful list; a failure passes through. */
  function Prepend(prefix: seq<string>, r: Result<seq<string>, DiscoveryError>): Result<seq<string>, DiscoveryError> {
    match r
    case Success(addrs) => Success(prefix + addrs)
    case Failure(e) => Failure(e)
  }

  /** Every object resolved in order, stopping at the first failure. */
  function CollectEach(objs: seq<PropertyResult>): Result<seq<string>, DiscoveryError> {
    if objs == [] then Success([])
    else
      match ResolveObject(objs[0])
      case Failure(e) => Failure(e)
      case Success(a) => Prepend([a], CollectEach(objs[1..]))
  }

  /** The addresses of the matched VMs, or the reason there are none. */
  function Collect(objs: seq<PropertyResult>): Result<seq<string>, DiscoveryError> {
    if objs == [] then Failure(NoControlPlaneVMs) else CollectEach(objs)
  }

  lemma {:induction false} CollectEachAllOrNothing(objs: seq<PropertyResult>)
    ensures CollectEach(objs).Success? <==>
      forall i :: 0 <= i < |objs| ==> ResolveObject(objs[i]).Success?
    ensures CollectEach(objs).Success? ==>
      |CollectEach(objs).value| == |objs| &&
      forall i :: 0 <= i < |objs| ==> CollectEach(objs).value[i] == ResolveObject(objs[i]).value
    ensures CollectEach(objs).Failure? ==>
      exists i :: 0 <= i < |objs| && ResolveObject(objs[i]) == Failure(CollectEach(objs).error) &&
        forall j :: 0 <= j < i ==> ResolveObject(objs[j]).Success?
  {
    if objs != [] {
      var tail := objs[1..];
      CollectEachAllOrNothing(tail);
      assert forall i :: 0 < i < |objs| ==> objs[i] == tail[i - 1];
      if ResolveObject(objs[0]).Success? && CollectEach(tail).Failure? {
        var i :| 0 <= i < |tail| && ResolveObject(tail[i]) == Failure(CollectEach(tail).error) &&
          forall j :: 0 <= j < i ==> ResolveObject(tail[j]).Success?;
        assert objs[i + 1] == tail[i];
        assert forall j :: 0 <= j < i + 1 ==> ResolveObject(objs[j]).Success?;
      }
    }
  }

  /** The collection succeeds only as a whole: no VMs is an error; otherwise it
      yields one address per object, in object order, when every object
      resolves, and else fails with the first failing object's error and
      no partial list. */
  lemma CollectAllOrNothing(objs: seq<PropertyResult>)
    ensures objs == [] ==> Collect(objs) == Failure(NoControlPlaneVMs)
    ensures Collect(objs).Success? <==>
      objs != [] && forall i :: 0 <= i < |objs| ==> ResolveObject(objs[i]).Success?
    ensures Collect(objs).Success? ==>
      |Collect(objs).value| == |objs| &&
      forall i :: 0 <= i < |objs| ==> Collect(objs).value[i] == ResolveObject(objs[i]).value
    ensures objs != [] && Collect(objs).Failure? ==>
      exists i :: 0 <= i < |objs| && ResolveObject(objs[i]) == Failure(Collect(objs).error) &&
        forall j :: 0 <= j < i ==> ResolveObject(objs[j]).Success?
  {
    CollectEachAllOrNothing(objs);
  }

  /** The address loop: one call per object, appending each address, and
      returning the first error with no partial list. */
  method CollectAddresses(objs: seq<PropertyResult>) returns (r: Result<seq<string>, DiscoveryError>)
    ensures r == Collect(objs)
  {
    if |objs| < 1 {
      return Failure(NoControlPlaneVMs);
    }
    var ipAddrs: seq<string> := [];
    var i := 0;
    assert objs[i..] == objs;
    match CollectEach(objs) {
      case Success(addrs) => assert ipAddrs + addrs == addrs;
      case Failure(_) =>
    }
    while i < |objs|
      invariant 0 <= i <= |objs|
      invariant CollectEach(objs) == Prepend(ipAddrs, CollectEach(objs[i..]))
    {
      var o := objs[i];
      assert objs[i..][0] == o && objs[i..][1..] == objs[i + 1..];
      if o.RetrieveFailed? {
        return Failure(RetrieveError);
      }
      var content := o.content;
      if |content| != 1 {
        return Failure(ObjectCount(|content|));
      }
      if content[0].Undecodable? {
        return Failure(ConvertError);
      }
      var addr := GetVMNetworkPreferredIP(content[0].vm);
      if addr == "" {
        return Failure(NoPreferredAddress);
      }
      match CollectEach(objs[i + 1..]) {
        case Success(addrs) => assert (ipAddrs + [addr]) + addrs == ipAddrs + ([addr] + addrs);
        case Failure(_) =>
      }
      ipAddrs := ipAddrs + [addr];
      i := i + 1;
    }
    assert ipAddrs + [] == ipAddrs;
    return Success(ipAddrs);
  }

  /** The addresses the inventory yields, if the query itself got through
      (`None` stands for a failed tunnel, session, view or search). */
  function Discovered(inventory: Option<seq<PropertyResult>>): Result<seq<string>, DiscoveryError> {
    match inventory
    case None => Failure(InventoryUnavailable)
    case Some(objs) => Collect(objs)
  }
}
