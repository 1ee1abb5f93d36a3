# ultravisor: a verified model of its deterministic core

ultravisor is a command-line tool for a vSphere Supervisor cluster. It can
fetch the cluster's control-plane address, VM addresses and root password,
and it can load a container image onto every control-plane VM. Almost all of
the tool is network plumbing: SSH sessions and tunnels, vCenter API calls and
remote commands. This project models the deterministic pieces underneath
that plumbing, in Dafny, and proves what they promise. Every remote step
appears in the model only through its outcome, which is an input:

- whether a connection succeeds;
- the property-collector results for each VM;
- the standard output of the credential script;
- the success or failure of each remote command.

Modules:

- `SshConfig` (ssh_config.dfy): the Host-shaped SSH record and the
  first-failure validator. pkg/supervisor/get.go and
  pkg/util/jumpbox/jumpbox.go both define this validator, with identical
  bodies. `url.Parse` succeeding is the parameter `parses`.
- `Supervisor` (supervisor.dfy), for pkg/supervisor/get.go:
  - the vCenter and whole-config validators;
  - `getMatch` and `parseDecryptK8Pwd`;
  - the step order of `Info`.
- `Jumpbox` (jumpbox.dfy): the early returns of `JumpboxClient`.
- `LineMatch` (line_match.dfy): the RE2 pattern `(?m:^PREFIX(\S+)$)`,
  written out by hand.
  - The text is split on `\n`.
  - A line matches when it is the prefix followed by a non-empty token.
  - The token holds none of space, tab, `\n`, form feed or `\r`.
- `Inventory` (inventory.dfy): the preferred-address search and the
  all-or-nothing address collection. Both Go files repeat this code, so it
  is modelled once.
- `CmdLoad` (cmd_load.dfy), for pkg/cmd/load/load.go:
  - the option check;
  - the password parser;
  - the command sequence of `Run`, over an abstract runner. The k-th command
    after the credential script fails exactly when `outcomes[k]` is `false`;
    index 0 is the staging copy.
- `Load` (load.dfy), for pkg/load/load.go: the validators that collect every
  failure by appending to a list and then calling `errors.Join`.
- `SvPassword` (sv_password.dfy): the flag-driven clearing of fields in
  cmd/get/sv-password.go.
- `Color` (color.dfy): the ANSI colour helpers of pkg/log/color.go.
- `Ptr` (ptr.dfy): `ptr.To` and `ptr.Deref`.

## Model

| member | source | states |
|---|---|---|
| SshConfig.Validate | pkg/supervisor/get.go:105-127 | The checks run in order: host empty, host unparseable, port missing, user empty, no credential. The result is the first failing check and None iff all pass; each error holds exactly when its check fails and every earlier check passes. The `Validate` of pkg/util/jumpbox/jumpbox.go:12-34 has the same body. |
| SshConfig.AnyCredentialSuffices | pkg/util/jumpbox/jumpbox.go:29-31 | When every earlier check passes, adding any one of key, key path or password makes the configuration valid. |
| Supervisor.ValidateVCenterConfig | pkg/supervisor/get.go:130-136 | A missing vCenter section gives the "vcenter config must be supplied" error. Otherwise the result is the SSH validator's result on its SSH part. It is None iff the section is present and valid. |
| Supervisor.ValidateConfig | pkg/supervisor/get.go:91-103 | The jumpbox is checked only when configured, and its error wins. Otherwise the result is the vCenter result. None iff the jumpbox (if any) and the vCenter section both pass. |
| Supervisor.GetMatch | pkg/supervisor/get.go:350-356 | Success iff exactly one line matches, returning that line's capture group. Otherwise the error carries the match count, which is never 1. |
| Supervisor.ParseDecryptK8Pwd | pkg/supervisor/get.go:336-348 | Succeeds iff exactly one IP line and exactly one PWD line exist, and returns their tokens. Both strings are empty on any error. The IP error is reported first. |
| Supervisor.ParseWellFormedOutput | pkg/supervisor/get.go:336-348 | Output made of one `IP: <ip>` line and one `PWD: <pwd>` line, with space-free non-empty tokens, parses to exactly (ip, pwd). |
| Supervisor.ParseRejectsTwoPasswords | pkg/supervisor/get.go:342-345 | Output with one IP line and two PWD lines fails with a count of 2, and both returned strings are empty. |
| Supervisor.TokenLineMatches | pkg/supervisor/get.go:337 | A line `prefix + token` with a non-empty, space-free token matches, and its capture group is the token. |
| Supervisor.PrefixesDisjoint | pkg/supervisor/get.go:337-342 | An IP line never matches the PWD pattern, and a PWD line never matches the IP pattern. |
| Supervisor.Info | pkg/supervisor/get.go:28-86 | An invalid config fails before any remote step. A jumpbox whose client config fails gives that error with no step taken; one that does not connect gives the connect error after the one connect step. A discovery failure gives the VMs error after the inventory query. A credential script that fails or whose output does not parse gives the credentials error after the full plan. The steps are always a prefix of jumpbox, inventory, credential script. Success holds iff every stage succeeds, and the result pairs the parsed IP and password with the discovered VM list. |
| Jumpbox.JumpboxClient | pkg/util/jumpbox/jumpbox.go:39-70 | Invalid config returns its error with no client, no cleanup and no connection attempt. A valid config whose client config fails gives the client-config error before any dial; one that does not connect gives the wrapped connect error after the one dial. Any error means no client and no cleanup. Success holds iff valid, the client config builds and the connection succeeds; it returns a client for host:port and a cleanup that closes it. At most one endpoint is dialled. |
| LineMatch.Lines | pkg/supervisor/get.go:337 | Splitting on `\n` yields at least one line. |
| LineMatch.LinesHaveNoNewline | pkg/supervisor/get.go:337 | No line produced by the split contains `\n`. |
| LineMatch.JoinLinesOfLines | pkg/supervisor/get.go:337 | Rejoining the lines with `\n` gives back the original text. |
| LineMatch.LinesAfterLine | pkg/supervisor/get.go:337 | A line without `\n`, followed by `\n` and more text, is the first line of the split; the rest of the split is the split of the remaining text. |
| LineMatch.MatchLine | pkg/supervisor/get.go:337 | A line matches iff it is the prefix followed by a non-empty token without RE2 whitespace, and the capture is that token. |
| LineMatch.NoMatches | pkg/supervisor/get.go:351 | There are no matches iff no line matches. |
| LineMatch.OnlyMatchGivesSingle | pkg/supervisor/get.go:351-355 | If exactly one line matches, the match list is exactly that line's token. |
| LineMatch.SingleFromOnlyMatch | pkg/supervisor/get.go:351-355 | A match list of length one comes from exactly one matching line. |
| LineMatch.FindAllExactlyOne | pkg/supervisor/get.go:351-355 | The match list has length one iff exactly one line matches, and then it holds that line's capture. |
| Inventory.FirstPreferredIsFirst | pkg/supervisor/get.go:246-250 | Within one NIC, the search yields the first address whose state is "preferred", and None iff there is none. |
| Inventory.VMNetworkPreferredIsFirst | pkg/supervisor/get.go:243-255 | The result is the address at the first (NIC, slot) candidate in NIC-then-address order: the NIC is on "VM Network" and the address is preferred. It is None iff no candidate exists. |
| Inventory.GetVMNetworkPreferredIP | pkg/supervisor/get.go:243-255 | The nested loop with its early return yields that first candidate's address, or "" when there is none. pkg/cmd/load/load.go:275-287 repeats the same search. |
| Inventory.CollectEachAllOrNothing | pkg/supervisor/get.go:212-238 | The loop succeeds iff every object resolves. It then yields one address per object in order; otherwise it returns the first object's error and no list. |
| Inventory.CollectAllOrNothing | pkg/supervisor/get.go:205-240 | Zero objects is an error. Otherwise the call succeeds only as a whole, with one preferred address per VM in object order. A count other than 1, a failed conversion or a missing address fails the whole call. |
| Inventory.CollectAddresses | pkg/cmd/load/load.go:237-272 | The appending loop returns exactly the all-or-nothing result above. |
| CmdLoad.Validate | pkg/cmd/load/load.go:41-49 | Fails iff a jumpbox is set and its user or password is empty. Never fails without a jumpbox. |
| CmdLoad.JumpboxOnlyWhenNamed | pkg/cmd/load/load.go:155-157 | `HasJumpbox` holds iff the jumpbox address is non-empty. Without a jumpbox the option check always passes. With one it passes iff both the user and the password are given. |
| CmdLoad.GetSupervisorPassword | pkg/cmd/load/load.go:289-298 | Returns the token iff exactly one `PWD: <token>` line exists. Otherwise the error carries the match count, which is never 1. |
| CmdLoad.PasswordParsersAgree | pkg/cmd/load/load.go:289-298 | This parser agrees with get.go's PWD lookup in success and in value. When the full IP+PWD parse succeeds, its password is this parser's result. |
| CmdLoad.FirstFailure | pkg/cmd/load/load.go:134-149 | The offset of the first failing command: every earlier one succeeds, and it fails unless it is past the end. |
| CmdLoad.FirstFailureIs | pkg/cmd/load/load.go:134-149 | A failing command with no earlier failure is the first failure. |
| CmdLoad.Plan | pkg/cmd/load/load.go:134-149 | The full per-VM plan has two commands per address. |
| CmdLoad.PlanAt | pkg/cmd/load/load.go:134-149 | Plan position 2k is the copy to address k, and position 2k+1 is the import on it. |
| CmdLoad.PlanPrefix | pkg/cmd/load/load.go:134-149 | The plan for the first j addresses is the first 2j commands of the plan. |
| CmdLoad.PlanUsesOnePathAndPassword | pkg/cmd/load/load.go:116 | Every per-VM command is a copy or an import, and uses the one staging path and the one password. |
| CmdLoad.DeliveredAllSucceed | pkg/cmd/load/load.go:134-151 | When nothing fails, every address gets one copy then one import, in order, and there is no error. |
| CmdLoad.DeliveredStopsAtFirstFailure | pkg/cmd/load/load.go:134-149 | The last command issued is the failing copy or import. No later address is touched. The error names that address. |
| CmdLoad.ImportFailureOnFirstVM | pkg/cmd/load/load.go:143-148 | With two VMs and a failed import on the first, exactly the first VM's copy and import are issued, and the error names the first VM. |
| CmdLoad.PlanStep | pkg/cmd/load/load.go:136-145 | Each copy, then each import, extends the issued prefix of the plan by one command. |
| CmdLoad.Deliver | pkg/cmd/load/load.go:134-149 | The loop's error and issued commands are exactly the error and command list specified above. |
| CmdLoad.Run | pkg/cmd/load/load.go:63-151 | A discovery failure issues nothing. A missing or unparsable password stops after the credential script. A failed staging copy stops before any per-VM command. Otherwise the trace is script, stage, the fail-fast per-VM commands, then the removal when cleanup is set; the removal never changes the error. |
| CmdLoad.StageAndDeliver | pkg/cmd/load/load.go:114-151 | A failed staging copy stops with the staging error after that one command. Otherwise the error is the delivery error, and the commands are the staging copy, then the fail-fast per-VM commands, then the removal of the staged file when cleanup is set. |
| Load.Join | pkg/load/load.go:70 | `errors.Join` is nil iff every member is nil. Otherwise it holds the non-nil members in order. |
| Load.JoinAll | pkg/load/load.go:40 | Joining a list of non-nil errors is `errors.Join` of that list. |
| Load.CollectedMembers | pkg/load/load.go:44-68 | After the first n checks, the list holds an error exactly for each failing check among them. |
| Load.CollectedOrdered | pkg/load/load.go:44-68 | The list follows the order the checks are made. |
| Load.ReportedExactly | pkg/load/load.go:44-70 | Every check's error is reported iff that check fails, the timeout included. |
| Load.ReportedInOrder | pkg/load/load.go:44-70 | Reported errors follow check order: server, parse, port, user, credential, timeout. No check is reported twice. |
| Load.ReportedNothing | pkg/load/load.go:70 | Nothing is reported iff every check passes. |
| Load.ValidateSSHConfig | pkg/load/load.go:44-71 | The six appends and the join return the join of exactly the reported errors. The result is nil iff every check passes. |
| Load.VCenterErrorsMeaning | pkg/load/load.go:74-79 | The vCenter result is nil iff the embedded SSH record passes. Otherwise it is the SSH join wrapped in one more join. |
| Load.ValidateVCenterConfig | pkg/load/load.go:74-79 | Appending the possibly-nil SSH result and joining gives that result. It is nil iff the SSH record passes. |
| Load.ConfigErrorsSections | pkg/load/load.go:28-41 | Each section contributes at most one error, wrapped with its own prefix. The jumpbox counts only when present. A jumpbox error precedes the vCenter error. Nothing is collected iff the config is valid. |
| Load.ValidateConfig | pkg/load/load.go:28-41 | The method returns the join of the section errors, and nil iff the config is valid. |
| Load.Load | pkg/load/load.go:13-26 | An invalid config returns its validation error, the join of the section errors. A valid config returns nil. |
| Load.RevisionsAgree | pkg/load/load.go:44-68 | On the same record, the first-failure validator passes iff this one reports nothing beyond a missing timeout. When it fails, its error is the first one reported here. |
| SvPassword.ControlPlaneOnly | cmd/get/sv-password.go:34-37 | `--control-plane` keeps the control-plane address and empties the VM list and the password. |
| SvPassword.VMsOnly | cmd/get/sv-password.go:39-42 | `--vms` keeps the VM list and blanks the control plane and the password. |
| SvPassword.PasswordOnly | cmd/get/sv-password.go:44-47 | `--password` keeps the password and blanks the control plane and the VM list. |
| SvPassword.AllUnchanged | cmd/get/sv-password.go:34-47 | With no selective flag (the default `--all`) nothing changes. |
| SvPassword.ProjectOnlyClears | cmd/get/sv-password.go:34-47 | Each field either keeps its value or is cleared, and projecting twice equals projecting once. |
| SvPassword.Info.constructor | cmd/get/sv-password.go:27 | The info object holds the retrieved information. |
| SvPassword.Info.Restrict | cmd/get/sv-password.go:34-47 | The in-place updates leave the projection of the old value. |
| SvPassword.GetSupervisor | cmd/get/sv-password.go:27-54 | A failed retrieval sets exit code 1 and prints nothing. Otherwise it prints the projected information and leaves the exit code alone. |
| Color.Digits | pkg/log/color.go:70 | `%d` of a natural number is one or more decimal digits, with no leading zero. |
| Color.DigitsRoundTrip | pkg/log/color.go:70 | Reading the digits back gives the number. |
| Color.Colorize | pkg/log/color.go:65-71 | Disabled: the text unchanged. Enabled: `ESC[<c>m`, then the text, then `ESC[<r>m`, with the codes in decimal. |
| Color.ColorAndIntensify | pkg/log/color.go:73-79 | Disabled: the text unchanged. Enabled: `ESC[<c>;<t>m`, then the text, then `ESC[<r>m`. |
| Color.ColorizeVisible | pkg/log/color.go:65-71 | Colouring never changes what a terminal shows: after removing SGR sequences, the output is the text. |
| Color.ColorAndIntensifyVisible | pkg/log/color.go:73-79 | The same holds for the colour-and-intensity form. |
| Color.SgrInvisible | pkg/log/color.go:70 | A complete `ESC[<codes>m` sequence shows nothing. |
| Color.Framed | pkg/log/color.go:70-78 | Text between two SGR sequences is all that is shown. |
| Color.CodeDigits | pkg/log/color.go:22-38 | The decimal forms of reset, decreased intensity, normal intensity and bright red are "0", "2", "22" and "91". |
| Color.FormatFieldName | pkg/log/color.go:50-52 | Always gives `ESC[2m` + `name=` + `ESC[22m`: the captured `NoColor` is never set, so colour is always on. |
| Color.FormatErrFieldName | pkg/log/color.go:54-56 | Always gives `ESC[91;2m` + `name=` + `ESC[0m`, as the captured `NoColor` is always false. |
| Color.FormatErrFieldValue | pkg/log/color.go:58-60 | Always gives `ESC[91m` + value + `ESC[0m`, as the captured `NoColor` is always false. |
| Color.FormattersVisible | pkg/log/color.go:41-62 | For names and values without ESC, a terminal shows exactly `name=` and the value: the formatters only add colour. |
| Ptr.Cell.constructor | pkg/util/ptr/ptr.go:4-6 | A new cell holds the given value. |
| Ptr.To | pkg/util/ptr/ptr.go:4-6 | Returns a non-nil pointer to a fresh cell holding `v`. |
| Ptr.Deref | pkg/util/ptr/ptr.go:10-15 | Gives `def` for nil and the pointed-to value otherwise. |
| Ptr.DerefIgnoresDefault | pkg/util/ptr/ptr.go:11-13 | Through a non-nil pointer the default plays no part. |
| Ptr.ToThenWrite | pkg/util/ptr/ptr.go:4-15 | `Deref(To(v), def)` is `v`. Writing through the new pointer leaves every existing cell unchanged. |

## Left out

- SSH sessions, tunnels and proxies.
  - Connecting and closing, `tunnel.Bind`, `sshtunnel.Start` with its sleep, `go tunnel.Close()`.
  - The vCenter SSH client set-up in `Run` (pkg/cmd/load/load.go:51-100).
  - These are network I/O and goroutines. Each appears only as a success/failure input.
- govmomi calls: session login and logout, container views, the property collector, `ObjectContentToType`. These are foreign library calls; their results are the `PropertyResult` inputs.
- Deferred close, logout and destroy, including the error propagation through them. This is resource plumbing, and the source's versions behave inconsistently:
  - get.go:185 tests `err` where it means `tErr`;
  - get.go:58-66 and jumpbox.go:60-67 assign to an `err` that is never returned, and close the session twice.
  - `Jumpbox.JumpboxClient` returns the cleanup as a value and does not model what calling it does.
- Exact command strings: `%q` quoting, `filepath.Join` and `filepath.Base` in pkg/cmd/load/load.go:116, 136 and 144. Commands are structured values, and the staging path is an input to `CmdLoad.Run`.
- `url.Parse` is the parameter `parses`; which strings Go accepts is not modelled. Go accepts the empty string, so an empty host fails only the emptiness check. Callers of the model should pass a `parses` with that property.
- Error message texts: each error is a constructor named after its message.
- CmdLoad.Run: copy and import failures share one error (`VMFailed`), as both return the same message in the source. Whether the removal succeeds is not modelled, since it only prints and never changes the returned error.
- CmdLoad.Run: the runner's outcome list is finite. A command past its end counts as succeeding.
- Info, Run and `Load` are not modelled for reruns or concurrency.
- JSON printing in cmd/get/sv-password.go: `SvPassword.GetSupervisor` returns the value it would print. The marshalling error branch is left out, as marshalling this struct of strings does not fail.
- Go's `%d` of negative numbers gives a leading `-`. `Color.Decimal` writes it, but the visibility lemmas assume non-negative codes, as every caller passes a constant from 0 to 97.
- Only `string` arguments are modelled for `colorize` and `colorAndIntensify`; Go accepts any value formatted with `%s`/`%v`.
- Configuration file plumbing, context plumbing, CLI wiring, the global exit code variable beyond its single update, and logging (including the password written to debug logs).
- Inventory.GetVMNetworkPreferredIP: a nil `Guest` or nil `IpConfig` pointer (get.go:244,246; pkg/cmd/load/load.go:276,278) makes the source panic. The model has no nil here: it reads a VM's NICs and a NIC's addresses as plain lists, so such a VM shows up as having no preferred address.
- Inventory.CollectAddresses: for the same reason, where the source would panic on a VM without guest or IP data, the model returns the `NoPreferredAddress` error.
- A nil `VCenterConfig.SSH` pointer in pkg/supervisor/get.go:135 would panic inside the validator. The model's vCenter section always has an SSH record.
- pkg/config/config.go is not part of this model. Its `SSHConfig` (`Port string`, `Timeout time.Duration`) matches neither validator revision. Each validator reads its own record instead: `SshConfig.Config` and `Load.SSHConfig`.
