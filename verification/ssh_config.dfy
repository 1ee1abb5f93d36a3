/** The Host-shaped SSH configuration record read by pkg/supervisor/get.go and
    pkg/util/jumpbox/jumpbox.go, and the first-failure validator that both
    files define with identical bodies (`validateSSHConfig` and `Validate`). */
module SshConfig {
  import opened Outcomes

  /** A jumpbox or vCenter SSH endpoint. Go pointers (`*Port`, `*Key`, ...)
      are `Option`s; the port's numeric type plays no part in validation. */
  datatype Config = Config(
    host: string,
    port: Option<nat>,
    user: string,
    key: Option<string>,
    keyPath: Option<string>,
    password: Option<string>)

  /** The failures a first-failure validator can report. */
  datatype ConfigError =
    | HostMissing        // "host must be supplied"
    | HostUnparseable    // "unable to parse server: ..."
    | PortMissing        // "port must be supplied"
    | UserMissing        // "SSH user must be supplied"
    | CredentialMissing  // "one of key, keyPath, or password must be supplied"
    | VCenterMissing     // "vcenter config must be supplied"

  /** At least one of the three kinds of credential material is present. */
  predicate HasCredential(c: Config) {
    c.key.Some? || c.keyPath.Some? || c.password.Some?
  }

  /** Every check of the validator passes; `parses` stands for `url.Parse`
      succeeding on its argument. */
  predicate Valid(c: Config, parses: string -> bool) {
    c.host != "" && parses(c.host) && c.port.Some? && c.user != "" && HasCredential(c)
  }

  /** The validator: host, host parse, port, user, credential, in that order,
      returning the first failure. */
  function Validate(c: Config, parses: string -> bool): (r: Option<ConfigError>)
    ensures r == None <==> Valid(c, parses)
    ensures r == Some(HostMissing) <==> c.host == ""
    ensures r == Some(HostUnparseable) <==> c.host != "" && !parses(c.host)
    ensures r == Some(PortMissing) <==> c.host != "" && parses(c.host) && c.port.None?
    ensures r == Some(UserMissing) <==>
      c.host != "" && parses(c.host) && c.port.Some? && c.user == ""
    ensures r == Some(CredentialMissing) <==>
      c.host != "" && parses(c.host) && c.port.Some? && c.user != "" && !HasCredential(c)
    ensures r != Some(VCenterMissing)
  {
    if c.host == "" then Some(HostMissing)
    else if !parses(c.host) then Some(HostUnparseable)
    else if c.port.None? then Some(PortMissing)
    else if c.user == "" then Some(UserMissing)
    else if c.key.None? && c.keyPath.None? && c.password.None? then Some(CredentialMissing)
    else None
  }

  /** Any one of key, key path or password satisfies the credential check:
      adding one to a configuration never introduces a credential failure, and
      a configuration valid apart from its credential becomes valid. */
  lemma AnyCredentialSuffices(c: Config, parses: string -> bool, which: nat, secret: string)
    requires which < 3
    requires c.host != "" && parses(c.host) && c.port.Some? && c.user != ""
    ensures
      var c' := if which == 0 then c.(key := Some(secret))
                else if which == 1 then c.(keyPath := Some(secret))
                else c.(password := Some(secret));
      Validate(c', parses) == None
  {
  }
}
