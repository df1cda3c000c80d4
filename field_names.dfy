/**
 * `return_field_name`: find the real name of a layer field from a logical name, ignoring
 * case and underscores, so that the same script works against layers whose schema spells
 * a field `created_user`, `CreatedUser` or `CREATED_USER`.
 */
module FieldNames {
  import opened Wrappers
  import Text

  /** The comparison key of a field name: underscores deleted, then lower-cased. */
  function Normalize(name: string): string {
    Text.Lower(Text.Remove(name, '_'))
  }

  /** The position of the first field whose key equals the key of `query`, if any. */
  function FirstMatch(fields: seq<string>, query: string): (r: Option<nat>)
    ensures r.Some? ==> r.value < |fields| && Normalize(fields[r.value]) == Normalize(query)
    ensures r.Some? ==> forall j | 0 <= j < r.value :: Normalize(fields[j]) != Normalize(query)
    ensures r.None? <==> forall j | 0 <= j < |fields| :: Normalize(fields[j]) != Normalize(query)
  {
    if fields == [] then None
    else if Normalize(fields[0]) == Normalize(query) then Some(0)
    else match FirstMatch(fields[1..], query)
      case None => None
      case Some(k) => Some(k + 1)
  }

  /** The real (un-normalised) name of the first matching field, or None. */
  function FieldFor(fields: seq<string>, query: string): Option<string> {
    match FirstMatch(fields, query)
    case None => None
    case Some(i) => Some(fields[i])
  }

  /**
   * The search loop of `return_field_name`: it returns the first field, in schema order,
   * whose key equals the key of `nameToCheck`, under its original spelling; it returns
   * None exactly when no field matches.
   */
  method ReturnFieldName(fields: seq<string>, nameToCheck: string) returns (r: Option<string>)
    ensures r.None? <==> forall j | 0 <= j < |fields| :: Normalize(fields[j]) != Normalize(nameToCheck)
    ensures r.Some? ==> exists i | 0 <= i < |fields| ::
      r.value == fields[i] && Normalize(fields[i]) == Normalize(nameToCheck)
      && forall j | 0 <= j < i :: Normalize(fields[j]) != Normalize(nameToCheck)
    ensures r == FieldFor(fields, nameToCheck)
  {
    for i := 0 to |fields|
      invariant forall j | 0 <= j < i :: Normalize(fields[j]) != Normalize(nameToCheck)
    {
      if Normalize(fields[i]) == Normalize(nameToCheck) {
        return Some(fields[i]);
      }
    }
    return None;
  }

  /** The key of a key is the key itself. */
  lemma NormalizeIdempotent(name: string)
    ensures Normalize(Normalize(name)) == Normalize(name)
  {
    var stripped := Text.Remove(name, '_');
    Text.RemoveUnderscoreLower(stripped);
    Text.RemoveAbsent(stripped, '_');
    Text.LowerIdempotent(stripped);
  }

  /**
   * Only the key of the query matters: two queries with the same key find the same field,
   * and a query already in key form finds what the original query finds.
   */
  lemma LookupByKey(fields: seq<string>, q1: string, q2: string)
    requires Normalize(q1) == Normalize(q2)
    ensures FieldFor(fields, q1) == FieldFor(fields, q2)
    ensures FieldFor(fields, Normalize(q1)) == FieldFor(fields, q1)
  {
    NormalizeIdempotent(q1);
    KeyDetermines(fields, q1, q2);
    KeyDetermines(fields, q1, Normalize(q1));
  }

  lemma {:induction false} KeyDetermines(fields: seq<string>, q1: string, q2: string)
    requires Normalize(q1) == Normalize(q2)
    ensures FirstMatch(fields, q1) == FirstMatch(fields, q2)
  {
    if fields != [] {
      KeyDetermines(fields[1..], q1, q2);
    }
  }
}
