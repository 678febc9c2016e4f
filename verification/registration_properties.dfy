/**
 Properties of a whole registration run, stated about its outcome and the
 ordered collaborator calls it made.
 */
module RegistrationProperties {
  import opened Wrappers
  import opened Php
  import opened Hex
  import opened CognitoConfig
  import opened Collaborators
  import opened AttributeMapping
  import opened RegistersUsers

  /** A generated password is 20 lower-case hexadecimal characters, hence never empty. */
  lemma GeneratedPasswordShape(randomBytes: RandomBytes)
    ensures |Bin2Hex(randomBytes)| == 20
    ensures forall i :: 0 <= i < 20 ==> IsLowerHexDigit(Bin2Hex(randomBytes)[i])
    ensures !Falsy(Some(Bin2Hex(randomBytes)))
  {
  }

  /** Password synthesis happens at most once: the working payload already has a usable password. */
  lemma WorkingPayloadIdempotent(request: Payload, randomBytes: RandomBytes, moreBytes: RandomBytes)
    ensures !Falsy(Get(WorkingPayload(request, randomBytes), "password"))
    ensures WorkingPayload(WorkingPayload(request, randomBytes), moreBytes) == WorkingPayload(request, randomBytes)
  {
  }

  /**
   The password sent with the invite is the supplied one, or else the one
   generated from the random bytes: 20 lower-case hexadecimal characters.
   */
  lemma InvitePasswordSuppliedOrGenerated(request: Payload, config: Config, env: Env)
    requires Register(request, config, env).calls != []
    ensures IsInvite(Register(request, config, env).calls[0])
    ensures Register(request, config, env).calls[0].password ==
              Some(if Falsy(Get(request, "password")) then Bin2Hex(env.randomBytes) else request["password"])
    ensures Falsy(Get(request, "password")) ==>
              var password := Register(request, config, env).calls[0].password.value;
              |password| == 20 && forall i :: 0 <= i < 20 ==> IsLowerHexDigit(password[i])
  {
  }

  /** The invite's user key is the request's username when it has one, otherwise its email. */
  lemma InviteUserKey(request: Payload, config: Config, env: Env)
    requires Register(request, config, env).calls != []
    ensures HasUserKey(request)
    ensures Register(request, config, env).calls[0].userKey ==
              if "username" in request then request["username"] else request["email"]
  {
  }

  /**
   A request with neither `username` nor `email` whose configured fields are all
   present fails reading the `email` key, with no collaborator called.
   */
  lemma MissingUserKeyAborts(request: Payload, config: Config, env: Env)
    requires env.validator(request) && !HasUserKey(request)
    requires AllPresent(config.userFields, WorkingPayload(request, env.randomBytes))
    ensures Register(request, config, env) == Run(Threw(UndefinedKey("email")), [])
  {
  }

  /**
   After validation, `register` starts with exactly the call `createCognitoUser`
   makes on the working payload, without client metadata.
   */
  lemma RegisterStartsWithCreateCognitoUser(request: Payload, config: Config, env: Env)
    requires env.validator(request)
    ensures CreateCognitoUser(WorkingPayload(request, env.randomBytes), None, config, env.inviteReply).calls
            <= Register(request, config, env).calls
  {
  }

  /**
   Neither the supplied nor the generated password reaches the local store: its
   one call carries exactly the request's other fields, unchanged.
   */
  lemma PasswordNeverReachesStore(request: Payload, config: Config, env: Env, i: int)
    requires 0 <= i < |Register(request, config, env).calls|
    requires IsCreate(Register(request, config, env).calls[i])
    ensures var fields := Register(request, config, env).calls[i].fields;
            && "password" !in fields
            && fields.Keys == request.Keys - {"password"}
            && forall k :: k in fields ==> fields[k] == request[k]
  {
  }

  /** The local record is created only after, and only when, Cognito accepted the invite. */
  lemma CreateOnlyAfterInvite(request: Payload, config: Config, env: Env, i: int)
    requires 0 <= i < |Register(request, config, env).calls|
    requires IsCreate(Register(request, config, env).calls[i])
    ensures env.inviteReply
    ensures 0 < i && IsInvite(Register(request, config, env).calls[i - 1])
  {
  }

  /**
   The first configured field missing from the working payload aborts the
   registration under that field's name, with no collaborator called.
   */
  lemma FirstMissingFieldAborts(request: Payload, config: Config, env: Env, j: int)
    requires env.validator(request)
    requires IsFirstMissing(config.userFields, WorkingPayload(request, env.randomBytes), j)
    ensures Register(request, config, env) == Run(Threw(InvalidUserField(config.userFields[j].1)), [])
  {
  }

  /**
   When no entry of the field table names `password`, a configured field is
   missing from the working payload exactly when it is missing from the request.
   */
  lemma MissingInRequestIsMissingInWorkingPayload(request: Payload, config: Config, env: Env, j: int)
    requires forall i :: 0 <= i < |config.userFields| ==> config.userFields[i].1 != "password"
    ensures IsFirstMissing(config.userFields, WorkingPayload(request, env.randomBytes), j)
            <==> IsFirstMissing(config.userFields, request, j)
  {
  }

  /**
   The group call is made only by a successful registration with a configured
   group, directly after the local create, and for the stored user's email.
   */
  lemma GroupCallOnlyAfterCreate(request: Payload, config: Config, env: Env, i: int)
    requires 0 <= i < |Register(request, config, env).calls|
    requires IsGroupCall(Register(request, config, env).calls[i])
    ensures var r := Register(request, config, env);
            && r.value.Registered?
            && !Falsy(config.defaultGroup)
            && i == 2 && IsCreate(r.calls[1])
            && r.calls[i] == AdminAddUserToGroup(r.value.user.email, config.defaultGroup.value)
  {
  }

  /**
   A successful registration makes exactly the invite, the local create and,
   when a default group is configured, one group call for the new user's email.
   */
  lemma SuccessfulTrace(request: Payload, config: Config, env: Env)
    requires Register(request, config, env).value.Registered?
    ensures var r := Register(request, config, env);
            var user := env.store(LocalFields(request));
            && r.value.user == user
            && IsInvite(r.calls[0])
            && r.calls[1..] ==
                 [Create(LocalFields(request))]
                 + (if Falsy(config.defaultGroup) then []
                    else [AdminAddUserToGroup(user.email, config.defaultGroup.value)])
  {
  }

  /**
   Without a default group, a successful run makes exactly the invite of
   `createCognitoUser` and the local create.
   */
  lemma RegisteredWithoutGroup(request: Payload, config: Config, env: Env)
    requires env.validator(request) && env.inviteReply && Falsy(config.defaultGroup)
    requires AllPresent(config.userFields, WorkingPayload(request, env.randomBytes))
    requires HasUserKey(request)
    ensures Register(request, config, env).calls ==
              CreateCognitoUser(WorkingPayload(request, env.randomBytes), None, config, true).calls
              + [Create(LocalFields(request))]
  {
  }

  /** A rejected request makes no call at all. */
  lemma ValidationFirst(request: Payload, config: Config, env: Env)
    requires !env.validator(request)
    ensures Register(request, config, env) == Run(ValidationFailed, [])
  {
  }

  /**
   End to end: `{email: "a@b.com", name: "A"}` with the table
   `{email: email, name: name}` and no password invites the user with exactly
   those attributes and a generated password, and stores the two fields alone.
   */
  lemma ScenarioGeneratedPassword(request: Payload, config: Config, env: Env)
    requires request == map["email" := "a@b.com", "name" := "A"]
    requires config.userFields == [("email", "email"), ("name", "name")]
    requires config.defaultGroup == None
    requires env.validator(request) && env.inviteReply
    ensures Register(request, config, env).calls ==
              [ InviteUser("a@b.com", Some(Bin2Hex(env.randomBytes)), request, None,
                           config.messageAction, config.forceEmailVerified),
                Create(request) ]
  {
    var fields := config.userFields;
    var data := request["password" := Bin2Hex(env.randomBytes)];
    assert WorkingPayload(request, env.randomBytes) == data;
    assert "username" !in data && Get(data, "email") == Some("a@b.com");
    assert Get(data, "password") == Some(Bin2Hex(env.randomBytes));
    assert MapAttributes(fields, data) == Ok(request) by {
      assert fields[..1] == [("email", "email")] && fields[..1][..0] == [];
      assert MapAttributes(fields[..1], data) == Ok(map["email" := "a@b.com"]);
    }
    assert CreateCognitoUser(data, None, config, true).calls ==
             [InviteUser("a@b.com", Some(Bin2Hex(env.randomBytes)), request, None,
                         config.messageAction, config.forceEmailVerified)];
    assert LocalFields(request) == request;
    RegisteredWithoutGroup(request, config, env);
  }

  /** End to end: a request without the configured `name` field fails naming it, with no call made. */
  lemma ScenarioMissingName(request: Payload, config: Config, env: Env)
    requires request == map["email" := "a@b.com"]
    requires config.userFields == [("email", "email"), ("name", "name")]
    requires env.validator(request)
    ensures Register(request, config, env) == Run(Threw(InvalidUserField("name")), [])
  {
    FirstMissingFieldAborts(request, config, env, 1);
  }
}
