# Compliance prefilter, modelled in Dafny

The system is a batch script. It reads a list of news articles from a JSON
document and asks a local language model whether each article is relevant
for corporate risk and compliance. Each answer is parsed into a company
name, a decision (`Relevant` or `Irrelevant`) and a one-sentence reason, and
the script collects one output row per article.

This project models the script's deterministic core as pure Dafny functions.
The three parts are:

- **The reply parser** (`analyze_text` after the model call).
  - The reply is stripped and split into lines.
  - A line whose start matches `company:`, `decision:` or `reason:` in any
    letter case sets that field to the stripped text after its first `:`.
  - When several lines set the same field, the last one wins.
  - Normalisation then runs:
    - a company that is empty or a sentinel (`none`, `n/a`, `no company`) becomes empty;
    - the decision is `Relevant` exactly when the value, lower-cased, starts with `rel`;
    - an empty reason becomes a fixed fallback sentence.
- **The loader** (`load_articles` after JSON decoding). It accepts:
  - an object with an `"articles"` member, returning that member's value as it is;
  - a top-level list.

  It rejects everything else.
- **The batch loop** (`main`).
  - Every element is resolved to an id and a text:
    - a string is its own text, and its position is its id;
    - an object supplies `"text"` (default empty) and `"id"` (default its position);
    - other elements are skipped.
  - Whitespace-only texts are skipped.
  - Each remaining text is classified on its first 2500 characters, giving one row, in input order.

The language model is a parameter, `Endpoint = string -> Option<string>`.
It maps the 2500-character excerpt to the reply content, where `None` stands
for a null content. The rest of the prompt is a constant, so the excerpt is
the only input that varies.

Python's string primitives are modelled exactly where the parser depends on them:

- `str.strip()` removes the 29 characters for which `str.isspace()` holds (`Text.Whitespace`; `Text.IsSpace` writes the same set as character ranges).
- `str.splitlines()` breaks at the ten line-boundary characters and treats
  `\r\n` as one boundary. It yields no trailing empty line.
- `str.lower()` is modelled on ASCII letters only. For the comparisons the
  parser makes, this is exact. Only U+0130 and U+212A lower to ASCII letters,
  and U+0130 lowers to two characters. Neither can complete a match against
  the lower-case tags, the sentinels or `rel`.

Modules:

- `Wrappers`: `Option`, `Result`.
- `Text`: strip, whitespace, lines, lower case.
- `Json`: the decoded document and dict semantics. A later duplicate key wins a lookup, and keys iterate in order of first appearance.
- `Reply`: the parser.
- `Loader`: the loader, and what iteration over the loaded value yields.
- `Batch`: the loop and the whole program.
- `Scenarios`: worked runs.

The code decides where its behaviour differs from a plain reading of its
documentation:

- The loader does not check that an `"articles"` member is a list. Whatever
  it holds is iterated as Python would iterate it:
  - a list yields its items;
  - an object yields its keys;
  - a string yields its characters;
  - anything else aborts the run (`NotIterable`).
- An object element whose `"text"` is present but not a string makes `.strip()`
  raise. The model aborts the run with `BadText(index)` at the first such element.

## Model

| member | source | states |
|---|---|---|
| Text.Trim | prefilter_lmstudio.py:60 | Stripping leaves no whitespace at either end and never lengthens the string. |
| Text.TrimRemovesOnlyBlank | prefilter_lmstudio.py:60 | The stripped string occurs unchanged inside the original. Everything before and after it is whitespace. |
| Text.TrimUnique | prefilter_lmstudio.py:60 | Conversely, if `s` is whitespace, then a non-empty `r` with no whitespace at its ends, then whitespace, stripping `s` gives exactly `r`. |
| Text.TrimEmptyIffBlank | prefilter_lmstudio.py:136 | `not text.strip()` holds exactly when every character of the text is whitespace. |
| Text.TrimFixed | prefilter_lmstudio.py:74 | A string with no whitespace at either end is unchanged by stripping. |
| Text.TrimIdempotent | prefilter_lmstudio.py:74 | Stripping an already stripped value (the decision) changes nothing. |
| Text.TrimIgnoresLeadingBlank | prefilter_lmstudio.py:60 | Whitespace in front of a string never survives stripping. |
| Text.Lower | prefilter_lmstudio.py:64 | Lower-casing keeps the length and maps each character independently. |
| Text.SplitLines | prefilter_lmstudio.py:63 | No line contains a line boundary. The empty reply has no lines, and any other reply has at least one. |
| Text.SplitJoinLines | prefilter_lmstudio.py:63 | Splitting recovers the lines joined by newlines, provided they are boundary-free and the last is non-empty. |
| Reply.LabelOf | prefilter_lmstudio.py:64-70 | A line sets field `l` exactly when its start matches `l`'s tag in any letter case. |
| Reply.HasTagIsLowerStartsWith | prefilter_lmstudio.py:64-69 | The caseless tag test is the same as "the lower-cased line starts with the tag". |
| Reply.IndentedLineSetsNothing | prefilter_lmstudio.py:63-70 | A line starting with whitespace sets no field, because tags must match at the very first character. |
| Reply.TaggedLineSplitsAfterTag | prefilter_lmstudio.py:65-70 | In a tagged line, the text after the first `:` is exactly the text after the tag. |
| Reply.AfterColonAt | prefilter_lmstudio.py:66 | Splitting at the first `:` keeps everything after that colon. |
| Reply.ReadLine | prefilter_lmstudio.py:64-70 | A line is tagged iff it matches a tag. Its value is then the stripped rest of the line after the tag. |
| Reply.ReadLines | prefilter_lmstudio.py:63-70 | Every line is read on its own, in order. |
| Reply.StepField | prefilter_lmstudio.py:65-70 | Reading a line overwrites only the field it is tagged with. |
| Reply.Scan | prefilter_lmstudio.py:61-70 | Reading the lines from the defaults `("", "Irrelevant", "")`, each field ends holding its default or the value of some line that sets it. |
| Reply.ScanLastWins | prefilter_lmstudio.py:63-70 | After all lines, a field holds the value from the last line that sets it. |
| Reply.ScanUnset | prefilter_lmstudio.py:61-70 | A field that no line sets keeps its initial value (`""`, `"Irrelevant"`, `""`). |
| Reply.LastSettingExists | prefilter_lmstudio.py:63-70 | If some line sets a field, there is a last such line. |
| Reply.ScanSkipsUntagged | prefilter_lmstudio.py:63-70 | Removing an untagged line does not change the fields read. |
| Reply.ScanTidy | prefilter_lmstudio.py:66-70 | Every field read from stripped values is itself stripped. |
| Reply.ReplyEntries | prefilter_lmstudio.py:60-70 | Every tagged value read from a reply has no surrounding whitespace. |
| Reply.NormalizeCompany | prefilter_lmstudio.py:72-73 | The company becomes empty iff it is empty or a sentinel in any letter case. Otherwise it is kept verbatim. |
| Reply.NormalizeDecision | prefilter_lmstudio.py:74 | The decision is `Relevant` iff the stripped, lower-cased value starts with `rel`, and `Irrelevant` otherwise. |
| Reply.NormalizeReason | prefilter_lmstudio.py:75-76 | The reason is never empty. A non-empty reason is kept, and an empty one becomes the fallback sentence. |
| Reply.ParseReply | prefilter_lmstudio.py:60-78 | Parsing is total. The reason is never empty, and a non-empty company is stripped and never a sentinel. |
| Reply.TidyDecision | prefilter_lmstudio.py:74 | For an already stripped value, `Relevant` iff its lower-cased form starts with `rel`. |
| Reply.LeadingIIsIrrelevant | prefilter_lmstudio.py:74 | A decision value whose first character is `i` or `I` (such as `Irrelevant`) is never relevant, stripped or not. |
| Reply.StartDecisionIrrelevant | prefilter_lmstudio.py:61-74 | The initial decision value normalises to `Irrelevant`. |
| Reply.ScanDecision | prefilter_lmstudio.py:61-74 | The decision is `Relevant` iff the last decision line's value, lower-cased, starts with `rel`. |
| Reply.ParseDecisionFromLastLine | prefilter_lmstudio.py:60-74 | For a whole reply, `Relevant` iff the last `decision:` line's value, lower-cased, starts with `rel`. |
| Reply.ParseDecisionAbsent | prefilter_lmstudio.py:61-74 | A reply with no `decision:` line is `Irrelevant`. |
| Reply.ParseCompanyFromLastLine | prefilter_lmstudio.py:63-73 | The company is the last `company:` line's value, or empty if that value is empty or a sentinel. |
| Reply.ParseCompanyAbsent | prefilter_lmstudio.py:61-73 | A reply with no `company:` line has an empty company. |
| Reply.ParseReasonFromLastLine | prefilter_lmstudio.py:63-76 | The reason is the last `reason:` line's value, or the fallback sentence if that value is empty. |
| Reply.ParseReasonAbsent | prefilter_lmstudio.py:61-76 | A reply with no `reason:` line gets exactly the fallback sentence. |
| Reply.BlankReplyDefaults | prefilter_lmstudio.py:60-78 | A reply that is empty or all whitespace gives no company, `Irrelevant` and the fallback reason. |
| Reply.LeadingBlankIgnored | prefilter_lmstudio.py:60-63 | Whitespace in front of the whole reply does not change the verdict. |
| Json.Lookup | prefilter_lmstudio.py:131-132 | `dict.get` finds nothing iff no member has the key. Otherwise it finds the value of the last member with that key. |
| Json.Get | prefilter_lmstudio.py:131-132 | `dict.get(key, default)` gives the value a lookup finds, and the default when no member has the key. |
| Json.Keys | prefilter_lmstudio.py:126 | Iterating a dict yields each key present exactly once. |
| Loader.LoadArticles | prefilter_lmstudio.py:97-104 | A decode failure is a parse error carrying the decoder's message. An object with `"articles"` is accepted and yields that member's value as it is. A list is accepted and yields itself. Anything else is a format error, and nothing else is. |
| Loader.Elements | prefilter_lmstudio.py:126 | Iteration gives a list's items, a dict's keys, or a string's characters. Null, booleans and numbers cannot be iterated. |
| Batch.Excerpt | prefilter_lmstudio.py:50 | The excerpt is the prefix of length min(\|text\|, 2500). |
| Batch.Classify | prefilter_lmstudio.py:50-60 | The endpoint sees only the excerpt. A null reply gives no company, `Irrelevant` and the fallback reason. Any other reply is parsed. The reason is never empty and the company is never a sentinel. |
| Batch.ClassifySeesOnlyExcerpt | prefilter_lmstudio.py:50 | Texts that agree on their first 2500 characters are classified alike. |
| Batch.Resolve | prefilter_lmstudio.py:127-134 | Only strings and objects are read, and everything else is skipped. A string is its own text with its position as id. Only an object can have a text that is not a string. |
| Batch.ResolveKinds | prefilter_lmstudio.py:127-134 | Resolution by element kind: a string gets id = position; an object gets `"text"` (default `""`) and `"id"` (default position); an object with non-string text aborts; anything else is skipped. |
| Batch.StripTestIsBlank | prefilter_lmstudio.py:136-137 | The loop's strip test keeps an element exactly when its text is not all whitespace. |
| Batch.Positions | prefilter_lmstudio.py:126-137 | For any test on (element, position), the collected positions are in range, strictly increasing, and are exactly the positions whose element passes the test. |
| Batch.Survivors | prefilter_lmstudio.py:126-137 | The kept positions are strictly increasing and in range. They include exactly the elements with a text that is not all whitespace. |
| Batch.Run | prefilter_lmstudio.py:126-145 | The loop succeeds iff no element has a non-string text. Otherwise it aborts at the first such element. |
| Batch.RunAbortsAt | prefilter_lmstudio.py:126-136 | If every earlier element is fine, the first object with a non-string text decides the outcome: the run aborts at its position, whatever follows. |
| Batch.RunRows | prefilter_lmstudio.py:126-145 | A successful run has exactly one row per kept element, in input order. Each row holds that element's id and the classification of its text. |
| Batch.RowsDescribeSurvivors | prefilter_lmstudio.py:126-145 | Each row's id is its element's position, or the object's `"id"`. Its reason is never empty and its company is never a sentinel. |
| Batch.RunBatch | prefilter_lmstudio.py:126-145 | The imperative loop produces the same outcome as `Batch.Run`. |
| Batch.Process | prefilter_lmstudio.py:100-145 | A load error is reported as that same error, and only load errors are. A collection that cannot be iterated is reported as such. Otherwise the outcome is the loop's outcome over the iterated elements. |
| Batch.WrappedListSameAsBare | prefilter_lmstudio.py:100-103 | A document `{"articles": [...]}` gives the same outcome as the bare list it wraps. |
| Scenarios.BlankTextDropped | prefilter_lmstudio.py:130-137 | `[{"id": 5, "text": "   "}]` produces no rows. |
| Scenarios.SingleStringOneRow | prefilter_lmstudio.py:127-145 | A single non-blank string gives one row with id 0 and the model's verdict on it. |
| Scenarios.UndecodableReported | prefilter_lmstudio.py:94-98 | A document the decoder rejects ends the program with a parse error that carries the decoder's message. |
| Scenarios.NumberRejected | prefilter_lmstudio.py:100-104 | A document that is a bare number is a format error. |

## Left out

- The OpenAI client, model name and chat-completion call (prefilter_lmstudio.py:7-12, 53-58) are network I/O through a library. The model's answer is the `Endpoint` parameter, so temperature and token limits have no counterpart.
- The prompt's wording (prefilter_lmstudio.py:28-49) is instructions to the language model. Only the 2500-character excerpt it embeds is modelled.
- JSON decoding (`json.load`, prefilter_lmstudio.py:94-98) is not modelled. The loader starts from the decoder's outcome: a decoded value, or the decoder's message.
- The existence check on the input file, CSV writing and printing (prefilter_lmstudio.py:116-121, 147-152) are file I/O and library formatting. The model stops at the list of rows.
- The order of the CSV columns is part of CSV writing, so it is left out with it.
- Text.Lower: full Unicode lower-casing is not modelled, only ASCII letters. As argued above, this does not change any comparison the parser makes.
- Json.Json: floating-point numbers are carried as reals and only ever passed through as ids. Their binary representation is not modelled.
- Json.Keys: the contract states membership and distinctness, not first-appearance order. The order follows from the definition.
- Scenarios: no worked run evaluates the parser on a literal multi-line reply, because that concrete evaluation exceeds the verifier's resource budget. The general lemmas `Reply.ParseCompanyFromLastLine`, `Reply.ParseDecisionFromLastLine` and `Reply.ParseReasonFromLastLine` cover every reply.
- Loader.LoadArticles: a parse error carries the decoder's message. The fixed prefix the program puts in front of it (prefilter_lmstudio.py:98) is message wording and is not modelled.
