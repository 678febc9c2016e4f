/**
 The strict, all-or-nothing translation of a request payload into Cognito
 attributes driven by the configured field table (the `foreach` loop of
 `createCognitoUser`).
 */
module AttributeMapping {
  import opened Wrappers
  import opened Php
  import opened CognitoConfig
  import opened Collaborators

  /** Every configured payload field is present. */
  predicate AllPresent(fields: FieldMap, payload: Payload)
  {
    forall i :: 0 <= i < |fields| ==> fields[i].1 in payload
  }

  /** Entry `j` names a missing field and every earlier entry names a present one. */
  predicate IsFirstMissing(fields: FieldMap, payload: Payload, j: int)
  {
    && 0 <= j < |fields|
    && fields[j].1 !in payload
    && forall i :: 0 <= i < j ==> fields[i].1 in payload
  }

  /** The map holds value `v` at key `k`. */
  predicate MapsTo(m: Attributes, k: string, v: string)
  {
    k in m && m[k] == v
  }

  /**
   The attribute map after processing the whole table, or the payload field
   name of the first entry whose field is missing.
   */
  function MapAttributes(fields: FieldMap, payload: Payload): (r: Result<Attributes, string>)
    ensures r.Ok? <==> AllPresent(fields, payload)
    ensures r.Err? ==> exists j :: IsFirstMissing(fields, payload, j) && r.error == fields[j].1
    ensures r.Ok? ==> r.value.Keys == AttributeKeys(fields)
    ensures r.Ok? ==> forall i :: 0 <= i < |fields| ==> MapsTo(r.value, fields[i].0, payload[fields[i].1])
    decreases |fields|
  {
    if |fields| == 0 then Ok(map[])
    else
      var n := |fields| - 1;
      var (key, field) := fields[n];
      match MapAttributes(fields[..n], payload)
      case Err(missing) =>
        PrefixMissing(fields, payload, missing);
        Err(missing)
      case Ok(attributes) =>
        if field in payload then
          ExtendAttributes(fields, fields[..n], payload, attributes);
          Ok(attributes[key := payload[field]])
        else
          LastMissing(fields, payload);
          Err(field)
  }

  /** A missing field found in all but the last entry is the first missing one of the whole table. */
  lemma PrefixMissing(fields: FieldMap, payload: Payload, missing: string)
    requires |fields| > 0
    requires exists j :: IsFirstMissing(fields[..|fields| - 1], payload, j) && missing == fields[j].1
    ensures !AllPresent(fields, payload)
    ensures exists j :: IsFirstMissing(fields, payload, j) && missing == fields[j].1
  {
    var j :| IsFirstMissing(fields[..|fields| - 1], payload, j) && missing == fields[j].1;
    assert IsFirstMissing(fields, payload, j);
  }

  /** The last entry names the first missing field when all earlier ones are present. */
  lemma LastMissing(fields: FieldMap, payload: Payload)
    requires |fields| > 0
    requires AllPresent(fields[..|fields| - 1], payload)
    requires fields[|fields| - 1].1 !in payload
    ensures !AllPresent(fields, payload)
    ensures IsFirstMissing(fields, payload, |fields| - 1)
  {
  }

  /** The attribute keys of a table are those of all but its last entry, plus the last entry's key. */
  lemma AttributeKeysExtend(fields: FieldMap, prefix: FieldMap)
    requires |fields| > 0 && prefix == fields[..|fields| - 1]
    ensures AttributeKeys(fields) == AttributeKeys(prefix) + {fields[|fields| - 1].0}
  {
  }

  /** When the earlier entries' fields are present and the last entry's is too, all of them are. */
  lemma AllPresentExtend(fields: FieldMap, prefix: FieldMap, payload: Payload)
    requires |fields| > 0 && prefix == fields[..|fields| - 1]
    requires AllPresent(prefix, payload)
    requires fields[|fields| - 1].1 in payload
    ensures AllPresent(fields, payload)
  {
  }

  /**
   Writing the last entry's value over the attributes of the earlier entries
   keeps every entry's payload value, since no earlier entry has the last one's key.
   */
  lemma EntryExtend(fields: FieldMap, prefix: FieldMap, payload: Payload, attributes: Attributes, i: int)
    requires |fields| > 0 && prefix == fields[..|fields| - 1]
    requires AllPresent(prefix, payload) && AllPresent(fields, payload)
    requires forall i :: 0 <= i < |prefix| ==> MapsTo(attributes, prefix[i].0, payload[prefix[i].1])
    requires 0 <= i < |fields|
    ensures MapsTo(attributes[fields[|fields| - 1].0 := payload[fields[|fields| - 1].1]],
                   fields[i].0, payload[fields[i].1])
  {
    var n := |fields| - 1;
    if i < n {
      assert prefix[i] == fields[i];
      assert fields[i].0 != fields[n].0;
    }
  }

  /** Adding the last entry to the attributes of the earlier ones keeps the mapping contract. */
  lemma ExtendAttributes(fields: FieldMap, prefix: FieldMap, payload: Payload, attributes: Attributes)
    requires |fields| > 0 && prefix == fields[..|fields| - 1]
    requires AllPresent(prefix, payload)
    requires fields[|fields| - 1].1 in payload
    requires attributes.Keys == AttributeKeys(prefix)
    requires forall i :: 0 <= i < |prefix| ==> MapsTo(attributes, prefix[i].0, payload[prefix[i].1])
    ensures AllPresent(fields, payload)
    ensures var r := attributes[fields[|fields| - 1].0 := payload[fields[|fields| - 1].1]];
            && r.Keys == AttributeKeys(fields)
            && forall i :: 0 <= i < |fields| ==> MapsTo(r, fields[i].0, payload[fields[i].1])
  {
    AllPresentExtend(fields, prefix, payload);
    AttributeKeysExtend(fields, prefix);
    forall i | 0 <= i < |fields|
      ensures MapsTo(attributes[fields[|fields| - 1].0 := payload[fields[|fields| - 1].1]],
                     fields[i].0, payload[fields[i].1])
    {
      EntryExtend(fields, prefix, payload, attributes, i);
    }
  }

  /**
   Nothing leaks into the attribute map: every attribute is configured by an
   entry of the table and holds that entry's payload value.
   */
  lemma AttributesExact(fields: FieldMap, payload: Payload)
    requires AllPresent(fields, payload)
    ensures MapAttributes(fields, payload).Ok?
    ensures var attributes := MapAttributes(fields, payload).value;
            forall k :: k in attributes ==>
              exists i :: 0 <= i < |fields| && fields[i].0 == k && attributes[k] == payload[fields[i].1]
  {
  }

  /** A missing field is reported, and it is the first missing one in table order. */
  lemma MissingFieldShortCircuits(fields: FieldMap, payload: Payload, j: int)
    requires IsFirstMissing(fields, payload, j)
    ensures MapAttributes(fields, payload) == Err(fields[j].1)
  {
  }
}
