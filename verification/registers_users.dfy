/**
 The registration flow of the `RegistersUsers` trait: validate the request,
 make sure it carries a password, invite the user in Cognito, and only when
 the invite succeeded create the local record (without the password) and put
 the new user in the default group.

 Every operation returns its result together with the ordered list of
 collaborator calls it made.
 */
module RegistersUsers {
  import opened Wrappers
  import opened Php
  import opened Hex
  import opened CognitoConfig
  import opened Collaborators
  import opened AttributeMapping

  /** The exceptions `createCognitoUser` throws before reaching Cognito. */
  datatype Exception =
    | InvalidUserField(field: string)  // InvalidUserFieldException for a configured field
    | UndefinedKey(key: string)        // the ErrorException of reading a missing user key

  /** How a registration request ends. */
  datatype Outcome =
    | ValidationFailed             // the validator rejected the request
    | Threw(exception: Exception)  // createCognitoUser threw; nothing was called
    | RemoteFailed                 // the Cognito invite did not succeed; no local record
    | Registered(user: LocalUser)  // invited remotely and created locally

  /** The payload names the user, by username or by email. */
  predicate HasUserKey(p: Payload)
  {
    "username" in p || "email" in p
  }

  /**
   The working payload sent towards Cognito: the request, with a password made
   from the random bytes when the request's password is empty or missing.
   */
  function WorkingPayload(request: Payload, randomBytes: RandomBytes): (data: Payload)
    ensures data.Keys == request.Keys + {"password"}
    ensures forall k :: k in request && k != "password" ==> data[k] == request[k]
    ensures Falsy(Get(request, "password")) ==> data["password"] == Bin2Hex(randomBytes)
    ensures !Falsy(Get(request, "password")) ==> data == request
  {
    if Falsy(Get(request, "password")) then request["password" := Bin2Hex(randomBytes)]
    else request
  }

  /**
   `createCognitoUser`: map the configured fields to attributes, choose the user
   key and temporary password, and invite the user. A missing configured field
   stops it before any call, naming that field; so does a request with neither
   `username` nor `email`, whose user key cannot be read.
   */
  function CreateCognitoUser(request: Payload, clientMetadata: Option<ClientMetadata>,
                             config: Config, inviteReply: bool): (r: Run<Result<bool, Exception>>)
    ensures r.value.Err? <==> !AllPresent(config.userFields, request) || !HasUserKey(request)
    ensures r.value.Err? ==> r.calls == []
    ensures !AllPresent(config.userFields, request) ==>
              exists j :: IsFirstMissing(config.userFields, request, j)
                          && r.value == Err(InvalidUserField(config.userFields[j].1))
    ensures AllPresent(config.userFields, request) && !HasUserKey(request) ==>
              r.value == Err(UndefinedKey("email"))
    ensures r.value.Ok? ==> r.value.value == inviteReply && |r.calls| == 1 && IsInvite(r.calls[0])
    ensures r.value.Ok? ==>
              var c := r.calls[0];
              && c.attributes.Keys == AttributeKeys(config.userFields)
              && (forall i :: 0 <= i < |config.userFields| ==>
                    MapsTo(c.attributes, config.userFields[i].0, request[config.userFields[i].1]))
              && c.userKey == (if "username" in request then request["username"] else request["email"])
              && c.password == Get(request, "password")
              && c.clientMetadata == clientMetadata
              && c.messageAction == config.messageAction
              && c.forceEmailVerified == config.forceEmailVerified
  {
    match MapAttributes(config.userFields, request)
    case Err(field) => Run(Err(InvalidUserField(field)), [])
    case Ok(attributes) =>
      var userKey := if "username" in request then "username" else "email";
      var password := Get(request, "password");
      if userKey !in request then Run(Err(UndefinedKey(userKey)), [])
      else
        var invite := InviteUser(request[userKey], password, attributes, clientMetadata,
                                 config.messageAction, config.forceEmailVerified);
        Run(Ok(inviteReply), [invite])
  }

  /**
   `setDefaultGroup`: when a default group is configured (a truthy value), one
   `adminAddUserToGroup` call for that group and its reply; otherwise no call
   and an empty array.
   */
  function SetDefaultGroup(username: string, config: Config, reply: GroupReply): (r: Run<GroupReply>)
    ensures |r.calls| <= 1
    ensures r.calls != [] <==> !Falsy(config.defaultGroup)
    ensures forall c :: c in r.calls ==> c == AdminAddUserToGroup(username, config.defaultGroup.value)
    ensures r.calls == [] ==> r.value == map[]
    ensures r.calls != [] ==> r.value == reply
  {
    if !Falsy(config.defaultGroup) then
      Run(reply, [AdminAddUserToGroup(username, config.defaultGroup.value)])
    else
      Run(map[], [])
  }

  /** The fields persisted locally: the original request without its password. */
  function LocalFields(request: Payload): (fields: Payload)
    ensures "password" !in fields
    ensures fields.Keys == request.Keys - {"password"}
    ensures forall k :: k in fields ==> fields[k] == request[k]
  {
    request - {"password"}
  }

  /**
   `register`: validation first; then the remote invite on the working payload;
   the local create and the group assignment only after a successful invite.
   */
  function Register(request: Payload, config: Config, env: Env): (r: Run<Outcome>)
    ensures r.value == ValidationFailed <==> !env.validator(request)
    ensures !env.validator(request) ==> r.calls == []
    ensures r.value.Threw? ==> r.calls == []
    ensures r.value.RemoteFailed? ==> |r.calls| == 1 && IsInvite(r.calls[0])
    ensures r.value.Registered? <==>
              env.validator(request)
              && AllPresent(config.userFields, WorkingPayload(request, env.randomBytes))
              && HasUserKey(request)
              && env.inviteReply
    ensures r.value.Registered? ==>
              && 2 <= |r.calls| <= 3
              && IsInvite(r.calls[0])
              && r.calls[1] == Create(LocalFields(request))
              && r.value.user == env.store(LocalFields(request))
              && r.calls[2..] == SetDefaultGroup(r.value.user.email, config, env.groupReply).calls
    ensures forall i :: 0 <= i < |r.calls| && IsCreate(r.calls[i]) ==> i == 1 && r.value.Registered?
  {
    if !env.validator(request) then Run(ValidationFailed, [])
    else
      var data := WorkingPayload(request, env.randomBytes);
      var invite := CreateCognitoUser(data, None, config, env.inviteReply);
      match invite.value
      case Err(exception) => Run(Threw(exception), invite.calls)
      case Ok(registered) =>
        if !registered then Run(RemoteFailed, invite.calls)
        else
          var fields := LocalFields(request);
          var user := env.store(fields);
          var group := SetDefaultGroup(user.email, config, env.groupReply);
          Run(Registered(user), invite.calls + [Create(fields)] + group.calls)
  }
}
