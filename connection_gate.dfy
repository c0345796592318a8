/**
 * The connection validator the broker engine calls once per CONNECT packet
 * (`OnNewConnection`). It admits a single hard-coded user name and password
 * pair and refuses everyone else with "bad user name or password".
 */
module ConnectionGate {
  import opened Wrappers

  /** The two connect reason codes the validator can set. */
  datatype MqttConnectReasonCode = Success | BadUserNameOrPassword

  const AllowedUsername: string := "anousone"
  const AllowedPassword: string := "qwertyanousone"

  /**
   * The decision of the validator. The user name is looked at first and a
   * mismatch decides at once; a missing (null) user name or password never
   * matches.
   */
  function ConnectReasonCode(username: Option<string>, password: Option<string>): (r: MqttConnectReasonCode)
    ensures r == Success <==> username == Some(AllowedUsername) && password == Some(AllowedPassword)
  {
    if username != Some(AllowedUsername) then BadUserNameOrPassword
    else if password != Some(AllowedPassword) then BadUserNameOrPassword
    else Success
  }

  /** A wrong user name is refused whatever the password, and the password is not consulted. */
  lemma WrongUsernameIgnoresPassword(username: Option<string>, password: Option<string>, other: Option<string>)
    requires username != Some(AllowedUsername)
    ensures ConnectReasonCode(username, password) == BadUserNameOrPassword
    ensures ConnectReasonCode(username, password) == ConnectReasonCode(username, other)
  {
  }

  /** The right user name with a wrong or missing password is refused. */
  lemma WrongPasswordRejected(password: Option<string>)
    requires password != Some(AllowedPassword)
    ensures ConnectReasonCode(Some(AllowedUsername), password) == BadUserNameOrPassword
  {
  }

  /** What the engine hands the validator for one connection attempt. */
  class MqttConnectionValidatorContext {
    var ClientId: string
    var Endpoint: string
    var Username: Option<string>
    var Password: Option<string>
    var ReasonCode: MqttConnectReasonCode

    constructor (clientId: string, endpoint: string, username: Option<string>, password: Option<string>)
      ensures ClientId == clientId && Endpoint == endpoint
      ensures Username == username && Password == password
    {
      ClientId, Endpoint := clientId, endpoint;
      Username, Password := username, password;
      // the engine's initial code; the validator overwrites it on every path
      ReasonCode := Success;
    }
  }

  /** Sets the reason code of the attempt and touches nothing else. */
  method OnNewConnection(context: MqttConnectionValidatorContext)
    modifies context`ReasonCode
    ensures context.ReasonCode == ConnectReasonCode(context.Username, context.Password)
  {
    if context.Username != Some(AllowedUsername) {
      context.ReasonCode := BadUserNameOrPassword;
      return;
    }
    if context.Password != Some(AllowedPassword) {
      context.ReasonCode := BadUserNameOrPassword;
      return;
    }
    context.ReasonCode := Success;
  }
}
