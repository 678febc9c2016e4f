/**
 The configuration values the registration flow reads (the `cognito.*` keys),
 passed explicitly instead of being looked up from a global configuration store.
 */
module CognitoConfig {
  import opened Wrappers

  /** No attribute key is configured twice. */
  predicate UniqueKeys(fields: seq<(string, string)>)
  {
    forall i, j :: 0 <= i < j < |fields| ==> fields[i].0 != fields[j].0
  }

  /**
   `cognito.cognito_user_fields`: an ordered table of
   (Cognito attribute key, payload field name) entries. It is a PHP array, so
   each attribute key occurs at most once.
   */
  type FieldMap = fields: seq<(string, string)> | UniqueKeys(fields)

  datatype Config = Config(
    messageAction: Option<string>,  // cognito.new_user_message_action (default null)
    forceEmailVerified: bool,       // cognito.force_new_user_email_verified (default false)
    userFields: FieldMap,           // cognito.cognito_user_fields
    defaultGroup: Option<string>)   // cognito.default_user_group

  /** The attribute keys a field table configures. */
  function AttributeKeys(fields: FieldMap): set<string>
  {
    set i | 0 <= i < |fields| :: fields[i].0
  }
}
