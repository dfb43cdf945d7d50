/**
 * The batch run: every article the input yields is resolved to an id and a
 * text, blank texts are skipped, and each remaining text is classified by
 * the language model and turned into one output row.
 */
module Batch {
  import opened Wrappers
  import opened Text
  import opened Json
  import opened Reply
  import opened Loader

  /** Only this many leading characters of an article reach the model. */
  const MaxExcerpt := 2500

  /**
   * The language model behind the chat endpoint. The prompt is fixed apart
   * from the article excerpt, so the endpoint is a function of the excerpt;
   * `None` is a reply whose message content is null.
   */
  type Endpoint = string -> Option<string>

  function Excerpt(text: string): (e: string)
    ensures |e| == if |text| < MaxExcerpt then |text| else MaxExcerpt
    ensures forall k :: 0 <= k < |e| ==> e[k] == text[k]
  {
    if |text| <= MaxExcerpt then text else text[..MaxExcerpt]
  }

  /** One article through the model: the endpoint sees the excerpt, and a null reply reads as an empty one. */
  function Classify(endpoint: Endpoint, text: string): (v: Verdict)
    ensures endpoint(Excerpt(text)).None? ==> v == Verdict([], Irrelevant, FallbackReason)
    ensures endpoint(Excerpt(text)).Some? ==> v == ParseReply(endpoint(Excerpt(text)).value)
    ensures v.reason != []
    ensures v.company != [] ==> Lower(v.company) !in Sentinels
  {
    match endpoint(Excerpt(text))
    case Some(reply) => ParseReply(reply)
    case None => BlankReplyDefaults([]); ParseReply([])
  }

  /** The classification the loop applies to every kept text. */
  function Classifier(endpoint: Endpoint): string -> Verdict {
    text => Classify(endpoint, text)
  }

  /** Only the excerpt matters: texts that agree on their first 2500 characters are classified alike. */
  lemma ClassifySeesOnlyExcerpt(endpoint: Endpoint, a: string, b: string)
    requires MaxExcerpt <= |a| && MaxExcerpt <= |b|
    requires forall k :: 0 <= k < MaxExcerpt ==> a[k] == b[k]
    ensures Classify(endpoint, a) == Classify(endpoint, b)
  {
    assert Excerpt(a) == Excerpt(b);
  }

  /** How the loop reads one element. */
  datatype Resolved =
    | Article(id: Json, text: string)  // an id and a text to classify or skip
    | Ignored                          // neither a string nor an object
    | TextNotString                    // an object whose "text" is not a string: the loop aborts

  /**
   * A string is its own text, with its position as id. An object supplies
   * "text" (empty when absent) and "id" (the position when absent).
   */
  function Resolve(item: Json, index: nat): (r: Resolved)
    ensures r.Ignored? <==> !item.JString? && !item.JObject?
    ensures item.JString? ==> r == Article(JInt(index), item.s)
    ensures r.TextNotString? ==> item.JObject?
  {
    match item
    case JString(s) => Article(JInt(index), s)
    case JObject(members) =>
      var t := Get(members, "text", JString(""));
      if t.JString? then Article(Get(members, "id", JInt(index)), t.s) else TextNotString
    case _ => Ignored
  }

  /** What each kind of element resolves to. */
  lemma ResolveKinds(item: Json, index: nat)
    ensures var r := Resolve(item, index);
      (r.Ignored? <==> !item.JString? && !item.JObject?) &&
      (item.JString? ==> r == Article(JInt(index), item.s)) &&
      (item.JObject? ==>
        var t := Lookup(item.members, "text");
        (r.TextNotString? <==> t.Some? && !t.value.JString?) &&
        (r.Article? ==>
          r.id == Get(item.members, "id", JInt(index)) &&
          r.text == if t.None? then "" else t.value.s))
  {
  }

  /** An element that produces a row: it has a text and the text is not all whitespace. */
  predicate Kept(item: Json, index: nat) {
    var a := Resolve(item, index);
    a.Article? && !IsBlank(a.text)
  }

  /** The loop tests blankness by stripping; that is the same test. */
  lemma StripTestIsBlank(item: Json, index: nat)
    requires Resolve(item, index).Article?
    ensures Kept(item, index) <==> Trim(Resolve(item, index).text) != []
  {
    TrimEmptyIffBlank(Resolve(item, index).text);
  }

  predicate Broken(item: Json, index: nat) {
    Resolve(item, index).TextNotString?
  }

  /** The positions, in order, of the elements that `keep` accepts at their position. */
  function Positions(keep: (Json, nat) -> bool, items: seq<Json>): (s: seq<nat>)
    ensures forall k :: 0 <= k < |s| ==> s[k] < |items| && keep(items[s[k]], s[k])
    ensures forall a, b :: 0 <= a < b < |s| ==> s[a] < s[b]
    ensures forall i :: 0 <= i < |items| && keep(items[i], i) ==> i in s
    decreases |items|
  {
    if items == [] then []
    else
      var n := |items| - 1;
      var init := items[..n];
      assert forall i :: 0 <= i < n ==> init[i] == items[i];
      if keep(items[n], n) then Positions(keep, init) + [n] else Positions(keep, init)
  }

  /** The positions of the kept elements, in order. */
  function Survivors(items: seq<Json>): (s: seq<nat>)
    ensures forall k :: 0 <= k < |s| ==> s[k] < |items| && Kept(items[s[k]], s[k])
    ensures forall a, b :: 0 <= a < b < |s| ==> s[a] < s[b]
    ensures forall i :: 0 <= i < |items| && Kept(items[i], i) ==> i in s
  {
    Positions(Kept, items)
  }

  /** One output row. */
  datatype Row = Row(id: Json, company: string, decision: Decision, reason: string)

  function RowFor(classify: string -> Verdict, id: Json, text: string): Row {
    var v := classify(text);
    Row(id, v.company, v.decision, v.reason)
  }

  /** The row a kept element produces. */
  function RowAt(classify: string -> Verdict, items: seq<Json>, i: nat): Row
    requires i < |items| && Kept(items[i], i)
  {
    var a := Resolve(items[i], i);
    RowFor(classify, a.id, a.text)
  }

  datatype RunError =
    | LoadFailed(cause: LoadError)  // the input document could not be loaded
    | NotIterable                   // the article collection cannot be iterated
    | BadText(index: nat)           // the element at this position has a non-string text

  /**
   * The loop over the elements, one at a time: the rows produced so far, or
   * the abort at the first element whose text is not a string.
   */
  function Run(classify: string -> Verdict, items: seq<Json>): (r: Result<seq<Row>, RunError>)
    ensures r.Success? <==> forall i :: 0 <= i < |items| ==> !Broken(items[i], i)
    ensures r.Failure? ==>
      r.error.BadText? && r.error.index < |items| && Broken(items[r.error.index], r.error.index) &&
      forall i :: 0 <= i < r.error.index ==> !Broken(items[i], i)
    decreases |items|
  {
    if items == [] then Success([])
    else
      var n := |items| - 1;
      var init := items[..n];
      assert forall i :: 0 <= i < n ==> init[i] == items[i];
      match Run(classify, init)
      case Failure(e) => Failure(e)
      case Success(rows) =>
        match Resolve(items[n], n)
        case Ignored => Success(rows)
        case TextNotString => Failure(BadText(n))
        case Article(id, text) =>
          if Trim(text) == [] then Success(rows) else Success(rows + [RowFor(classify, id, text)])
  }

  /** A successful run writes exactly one row per kept element, in input order. */
  lemma {:induction false} RunRows(classify: string -> Verdict, items: seq<Json>)
    requires Run(classify, items).Success?
    ensures var rows := Run(classify, items).value;
      var s := Survivors(items);
      |rows| == |s| && forall k :: 0 <= k < |s| ==> rows[k] == RowAt(classify, items, s[k])
    decreases |items|
  {
    if items != [] {
      var n := |items| - 1;
      var init := items[..n];
      assert forall i :: 0 <= i < n ==> init[i] == items[i];
      RunRows(classify, init);
      var rows0 := Run(classify, init).value;
      var s0 := Survivors(init);
      forall k | 0 <= k < |s0|
        ensures RowAt(classify, init, s0[k]) == RowAt(classify, items, s0[k])
      {
      }
      var a := Resolve(items[n], n);
      if a.Article? {
        StripTestIsBlank(items[n], n);
      }
      if Kept(items[n], n) {
        assert Run(classify, items).value == rows0 + [RowFor(classify, a.id, a.text)];
        assert Survivors(items) == s0 + [n];
      } else {
        assert Run(classify, items).value == rows0;
        assert Survivors(items) == s0;
      }
    }
  }

  /**
   * What each row holds: the element's id (its position for a string or an
   * object without "id"), and a classification whose reason is never empty
   * and whose company is never a sentinel.
   */
  lemma RowsDescribeSurvivors(endpoint: Endpoint, items: seq<Json>, k: int)
    requires Run(Classifier(endpoint), items).Success?
    requires 0 <= k < |Run(Classifier(endpoint), items).value|
    ensures var row := Run(Classifier(endpoint), items).value[k];
      var s := Survivors(items);
      |s| == |Run(Classifier(endpoint), items).value| &&
      row.id == (if items[s[k]].JString? then JInt(s[k]) else Get(items[s[k]].members, "id", JInt(s[k]))) &&
      row.reason != [] &&
      (row.company != [] ==> Lower(row.company) !in Sentinels)
  {
    RunRows(Classifier(endpoint), items);
    var s := Survivors(items);
    ResolveKinds(items[s[k]], s[k]);
  }

  /** One more element extends a successful run as the loop body says. */
  lemma RunNext(classify: string -> Verdict, items: seq<Json>, i: nat)
    requires i < |items| && Run(classify, items[..i]).Success?
    ensures var rows := Run(classify, items[..i]).value;
      var a := Resolve(items[i], i);
      Run(classify, items[..i + 1]) ==
        if a.TextNotString? then Failure(BadText(i))
        else if a.Ignored? || Trim(a.text) == [] then Success(rows)
        else Success(rows + [RowFor(classify, a.id, a.text)])
  {
    assert items[..i + 1][..i] == items[..i];
  }

  /** A broken element after a clean prefix decides the outcome of the whole run. */
  lemma RunAbortsAt(classify: string -> Verdict, items: seq<Json>, i: nat)
    requires i < |items| && Run(classify, items[..i]).Success? && Broken(items[i], i)
    ensures Run(classify, items) == Failure(BadText(i))
  {
    var pre := items[..i];
    forall j | 0 <= j < i
      ensures !Broken(items[j], j)
    {
      assert pre[j] == items[j];
    }
    var r := Run(classify, items);
    assert r.Failure?;
    assert r.error.index == i;
  }

  /** The same loop as a program: rows are appended as the elements are visited. */
  method RunBatch(endpoint: Endpoint, items: seq<Json>) returns (r: Result<seq<Row>, RunError>)
    ensures r == Run(Classifier(endpoint), items)
  {
    var rows := [];
    var i := 0;
    while i < |items|
      invariant 0 <= i <= |items|
      invariant Run(Classifier(endpoint), items[..i]) == Success(rows)
    {
      RunNext(Classifier(endpoint), items, i);
      match Resolve(items[i], i) {
        case Ignored =>
        case TextNotString =>
          RunAbortsAt(Classifier(endpoint), items, i);
          return Failure(BadText(i));
        case Article(id, text) =>
          if Trim(text) != [] {
            var v := Classify(endpoint, text);
            rows := rows + [Row(id, v.company, v.decision, v.reason)];
          }
      }
      i := i + 1;
    }
    assert items[..i] == items;
    r := Success(rows);
  }

  /** The whole program: load the document, iterate the collection, run the loop. */
  function Process(endpoint: Endpoint, decoded: Result<Json, string>): (r: Result<seq<Row>, RunError>)
    ensures r.Failure? && r.error.LoadFailed? <==> LoadArticles(decoded).Failure?
    ensures LoadArticles(decoded).Failure? ==> r == Failure(LoadFailed(LoadArticles(decoded).error))
    ensures r == Failure(NotIterable) <==>
      LoadArticles(decoded).Success? && Elements(LoadArticles(decoded).value).None?
    ensures LoadArticles(decoded).Success? && Elements(LoadArticles(decoded).value).Some? ==>
      r == Run(Classifier(endpoint), Elements(LoadArticles(decoded).value).value)
  {
    match LoadArticles(decoded)
    case Failure(e) => Failure(LoadFailed(e))
    case Success(articles) =>
      match Elements(articles)
      case None => Failure(NotIterable)
      case Some(items) => Run(Classifier(endpoint), items)
  }

  /** A bare list and the same list wrapped as {"articles": [...]} give the same rows. */
  lemma WrappedListSameAsBare(endpoint: Endpoint, members: seq<(string, Json)>, items: seq<Json>)
    requires Lookup(members, "articles") == Some(JArray(items))
    ensures Process(endpoint, Success(JObject(members))) == Process(endpoint, Success(JArray(items)))
  {
  }
}
