/**
 The collaborators the registration flow talks to, and a record of each call it
 makes to them. The identity provider (Cognito invite and group assignment) and
 the application's local store are remote or application code; the model keeps
 only the arguments they are called with and the replies they give.
 */
module Collaborators {
  import opened Wrappers
  import opened Php
  import opened Hex

  /** The attribute map sent to Cognito: attribute key to value. */
  type Attributes = map<string, string>

  /** The optional `$clientMetadata` array forwarded to the invite. */
  type ClientMetadata = map<string, string>

  /** Whatever `adminAddUserToGroup` returns; opaque to the flow. */
  type GroupReply = map<string, string>

  /** The record the application's `create()` returns; the flow reads only its email. */
  datatype LocalUser = LocalUser(email: string)

  /** One call to a collaborator, with its arguments. */
  datatype Call =
    | InviteUser(userKey: string, password: Option<string>, attributes: Attributes,
                 clientMetadata: Option<ClientMetadata>, messageAction: Option<string>,
                 forceEmailVerified: bool)
    | Create(fields: Payload)
    | AdminAddUserToGroup(username: string, groupName: string)

  /** A result together with the collaborator calls made to produce it, in order. */
  datatype Run<+T> = Run(value: T, calls: seq<Call>)

  /** Number of random bytes a generated password is made from. */
  const RandomByteCount := 10

  /** The output of `openssl_random_pseudo_bytes(10)`: exactly ten bytes. */
  type RandomBytes = bytes: seq<byte> | |bytes| == RandomByteCount
    witness [0, 0, 0, 0, 0, 0, 0, 0, 0, 0]

  /** What the collaborators answer during one registration. */
  datatype Env = Env(
    validator: Payload -> bool,    // the application's validation rules
    randomBytes: RandomBytes,      // the output of openssl_random_pseudo_bytes(10)
    inviteReply: bool,             // the result of AwsCognitoClient::inviteUser
    store: Payload -> LocalUser,   // the application's create()
    groupReply: GroupReply)        // the result of AwsCognitoClient::adminAddUserToGroup

  predicate IsCreate(c: Call) { c.Create? }

  predicate IsInvite(c: Call) { c.InviteUser? }

  predicate IsGroupCall(c: Call) { c.AdminAddUserToGroup? }
}
