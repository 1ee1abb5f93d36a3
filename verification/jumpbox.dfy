/** pkg/util/jumpbox/jumpbox.go. `Validate` there has the same body as
    `validateSSHConfig` in pkg/supervisor/get.go and is `SshConfig.Validate`.
    `JumpboxClient` is modelled with the client-config builder and the SSH
    connection as given outcomes. */
module Jumpbox {
  import opened Outcomes
  import opened SshConfig

  datatype Endpoint = Endpoint(host: string, port: nat)

  /** A connected SSH client for the jumpbox. */
  datatype Client = Client(server: Endpoint)

  /** The cleanup closure handed back with a client: it closes that client. */
  datatype Cleanup = CloseClient(client: Client)

  datatype JumpboxError =
    | Invalid(cause: ConfigError)
    | ClientConfigFailed     // building the SSH client config failed
    | ConnectFailed          // "unable to initiate jumpbox connection"

  /** `JumpboxClient`: validate, build the client config, connect. `dialed`
      lists the endpoints a connection was attempted to. */
  method JumpboxClient(c: SshConfig.Config, parses: string -> bool, clientConfigOk: bool, connects: bool)
    returns (client: Option<Client>, cleanup: Option<Cleanup>, err: Option<JumpboxError>, dialed: seq<Endpoint>)
    ensures Validate(c, parses).Some? ==>
      err == Some(Invalid(Validate(c, parses).value)) && client.None? && cleanup.None? && dialed == []
    ensures Valid(c, parses) && !clientConfigOk ==> err == Some(ClientConfigFailed)
    ensures Valid(c, parses) && clientConfigOk && !connects ==> err == Some(ConnectFailed)
    ensures err.None? <==> Valid(c, parses) && clientConfigOk && connects
    ensures err.Some? ==> client.None? && cleanup.None?
    ensures err.None? ==>
      client == Some(Client(Endpoint(c.host, c.port.value))) && cleanup == Some(CloseClient(client.value))
    ensures dialed != [] <==> Valid(c, parses) && clientConfigOk
    ensures dialed != [] ==> dialed == [Endpoint(c.host, c.port.value)]
  {
    dialed := [];
    var invalid := Validate(c, parses);
    if invalid.Some? {
      return None, None, Some(Invalid(invalid.value)), dialed;
    }
    if !clientConfigOk {
      return None, None, Some(ClientConfigFailed), dialed;
    }
    var server := Endpoint(c.host, c.port.value);
    dialed := dialed + [server];
    if !connects {
      return None, None, Some(ConnectFailed), dialed;
    }
    var ssh := Client(server);
    return Some(ssh), Some(CloseClient(ssh)), None, dialed;
  }
}
