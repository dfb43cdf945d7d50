/**
 * Loading the article list from the decoded input document, and what the
 * batch loop's `enumerate` then walks over. Decoding itself is outside the
 * model: the loader receives the decoder's outcome, a value or the
 * decoder's error message.
 */
module Loader {
  import opened Wrappers
  import opened Json

  datatype LoadError =
    | ParseError(detail: string)  // the document is not valid JSON
    | FormatError                 // neither a list nor an object with an "articles" member

  /**
   * The article collection: the value of an object's "articles" member,
   * whatever its kind, or a top-level list as it is. Any other document is
   * rejected.
   */
  function LoadArticles(decoded: Result<Json, string>): (r: Result<Json, LoadError>)
    ensures decoded.Failure? ==> r == Failure(ParseError(decoded.error))
    ensures r == Failure(FormatError) <==>
      decoded.Success? && !decoded.value.JArray? &&
      !(decoded.value.JObject? && Lookup(decoded.value.members, "articles").Some?)
    ensures decoded.Success? && decoded.value.JObject? && Lookup(decoded.value.members, "articles").Some? ==>
      r == Success(Lookup(decoded.value.members, "articles").value)
    ensures decoded.Success? && decoded.value.JArray? ==> r == Success(decoded.value)
  {
    match decoded
    case Failure(message) => Failure(ParseError(message))
    case Success(data) =>
      if data.JObject? && Lookup(data.members, "articles").Some? then Success(Lookup(data.members, "articles").value)
      else if data.JArray? then Success(data)
      else Failure(FormatError)
  }

  /**
   * The elements iteration visits: a list's items, an object's distinct
   * keys as strings, a string's characters as one-character strings; any
   * other value cannot be iterated.
   */
  function Elements(v: Json): (r: Option<seq<Json>>)
    ensures r.None? <==> v.JNull? || v.JBool? || v.JInt? || v.JFloat?
    ensures v.JArray? ==> r == Some(v.items)
    ensures v.JObject? ==>
      r.Some? && |r.value| == |Keys(v.members)| &&
      forall i :: 0 <= i < |r.value| ==> r.value[i] == JString(Keys(v.members)[i])
    ensures v.JString? ==>
      r.Some? && |r.value| == |v.s| &&
      forall i :: 0 <= i < |r.value| ==> r.value[i] == JString([v.s[i]])
  {
    match v
    case JArray(items) => Some(items)
    case JObject(members) =>
      var ks := Keys(members);
      Some(seq(|ks|, i requires 0 <= i < |ks| => JString(ks[i])))
    case JString(s) => Some(seq(|s|, i requires 0 <= i < |s| => JString([s[i]])))
    case _ => None
  }
}
