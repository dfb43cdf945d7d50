/**
 * Worked runs of the whole program on small inputs, each proved from the
 * general model. The model's replies are left to the endpoint.
 */
module Scenarios {
  import opened Wrappers
  import opened Text
  import opened Json
  import opened Reply
  import opened Loader
  import opened Batch

  /** An object whose text is only spaces produces no row, whatever its id. */
  lemma BlankTextDropped(endpoint: Endpoint)
    ensures Process(endpoint, Success(JArray([JObject([("id", JInt(5)), ("text", JString("   "))])]))) == Success([])
  {
    var item := JObject([("id", JInt(5)), ("text", JString("   "))]);
    assert Lookup(item.members, "text") == Some(JString("   "));
    assert IsBlank("   ");
    TrimEmptyIffBlank("   ");
    assert Run(Classifier(endpoint), [item]) == Success([]) by {
      assert [item][..0] == [];
    }
  }

  /** A single string becomes one row with id 0 and the model's verdict on it. */
  lemma SingleStringOneRow(endpoint: Endpoint, text: string)
    requires !IsBlank(text)
    ensures var v := Classify(endpoint, text);
      Process(endpoint, Success(JArray([JString(text)]))) == Success([Row(JInt(0), v.company, v.decision, v.reason)])
  {
    var items := [JString(text)];
    var classify := Classifier(endpoint);
    TrimEmptyIffBlank(text);
    assert Resolve(items[0], 0) == Article(JInt(0), text);
    assert Kept(items[0], 0);
    assert Run(classify, items).Success?;
    RunRows(classify, items);
    var s := Survivors(items);
    assert 0 in s;
    assert s == [0];
    assert Run(classify, items).value == [RowAt(classify, items, 0)];
    assert Elements(JArray(items)) == Some(items);
  }

  /** A document that does not decode is reported as a parse failure carrying the decoder's message. */
  lemma UndecodableReported(endpoint: Endpoint, message: string)
    ensures Process(endpoint, Failure(message)) == Failure(LoadFailed(ParseError(message)))
  {
  }

  /** A top-level number is neither shape the loader accepts. */
  lemma NumberRejected(endpoint: Endpoint, n: int)
    ensures Process(endpoint, Success(JInt(n))) == Failure(LoadFailed(FormatError))
  {
  }
}
