/**
 This module fixes the few pieces of PHP value semantics the registration flow
 depends on: request payloads as string-keyed arrays, lookup of a key that may be
 missing, and the "empty" / falsy test.
 */
module Php {
  import opened Wrappers

  /** A request payload (or a collection built from one): field name to string value. */
  type Payload = map<string, string>

  /** `$array[$key]` where a missing key reads as `null`. */
  function Get(p: Payload, key: string): (v: Option<string>)
    ensures v.Some? <==> key in p
    ensures v.Some? ==> v.value == p[key]
  {
    if key in p then Some(p[key]) else None
  }

  /**
   PHP's `empty($x)`, equivalently `!(bool)$x`, for a value that is either null
   or a string: null, the empty string and the string "0" are falsy.
   */
  predicate Falsy(v: Option<string>)
  {
    v == None || v == Some("") || v == Some("0")
  }
}
