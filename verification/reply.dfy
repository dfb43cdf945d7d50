/**
 * The reply parser of `analyze_text`: the model's free-form answer is cut
 * into lines, the last `Company:`, `Decision:` and `Reason:` line of each
 * kind supplies that field, and fixed defaults turn the raw fields into the
 * `(company, decision, reason)` triple. Parsing never fails.
 */
module Reply {
  import opened Wrappers
  import opened Text

  /** The three fields a reply line can set. */
  datatype Label = CompanyTag | DecisionTag | ReasonTag

  /** The lower-case prefix that marks a line as carrying `l`. */
  function Tag(l: Label): string {
    match l
    case CompanyTag => "company:"
    case DecisionTag => "decision:"
    case ReasonTag => "reason:"
  }

  /** `s` begins with `p` when compared character by character after ASCII lower-casing. */
  predicate CaselessPrefix(s: string, p: string)
    ensures CaselessPrefix(s, p) ==> |p| <= |s|
    decreases |p|
  {
    p == [] || (s != [] && LowerChar(s[0]) == p[0] && CaselessPrefix(s[1..], p[1..]))
  }

  /** `line` begins, at its very first character, with the tag of `l` in any letter case. */
  predicate HasTag(line: string, l: Label) {
    CaselessPrefix(line, Tag(l))
  }

  /** The field a reply line sets, if any; at most one tag can match. */
  function LabelOf(line: string): (r: Option<Label>)
    ensures forall l :: r == Some(l) <==> HasTag(line, l)
  {
    if HasTag(line, CompanyTag) then Some(CompanyTag)
    else if HasTag(line, DecisionTag) then Some(DecisionTag)
    else if HasTag(line, ReasonTag) then Some(ReasonTag)
    else None
  }

  lemma {:induction false} CaselessPrefixAt(s: string, p: string)
    ensures CaselessPrefix(s, p) <==>
      |p| <= |s| && forall k :: 0 <= k < |p| ==> LowerChar(s[k]) == p[k]
    decreases |p|
  {
    if p != [] && s != [] {
      CaselessPrefixAt(s[1..], p[1..]);
      if |p| <= |s| && forall k :: 0 <= k < |p| ==> LowerChar(s[k]) == p[k] {
        forall k | 0 <= k < |p| - 1
          ensures LowerChar(s[1..][k]) == p[1..][k]
        {
          assert LowerChar(s[k + 1]) == p[k + 1];
        }
      }
    }
  }

  /**
   * Tag matching is Python's `line.lower().startswith(tag)`: the first
   * characters of the line, lower-cased, are the tag. Nothing may precede it.
   */
  lemma HasTagIsLowerStartsWith(line: string, l: Label)
    ensures HasTag(line, l) <==> StartsWith(Lower(line), Tag(l))
  {
    var t := Tag(l);
    CaselessPrefixAt(line, t);
    if |t| <= |line| && forall k :: 0 <= k < |t| ==> LowerChar(line[k]) == t[k] {
      assert Lower(line)[..|t|] == t;
    }
    if StartsWith(Lower(line), t) {
      forall k | 0 <= k < |t|
        ensures LowerChar(line[k]) == t[k]
      {
        assert Lower(line)[..|t|][k] == t[k];
      }
    }
  }

  /** A line that starts with whitespace never sets a field. */
  lemma IndentedLineSetsNothing(line: string)
    requires line != [] && IsSpace(line[0])
    ensures LabelOf(line) == None
  {
    forall l: Label
      ensures !HasTag(line, l)
    {
      CaselessPrefixAt(line, Tag(l));
    }
  }

  /** What follows the first ':' of `s` (Python's `s.split(":", 1)[1]`). */
  function AfterColon(s: string): string
    requires ':' in s
    decreases |s|
  {
    if s[0] == ':' then s[1..] else AfterColon(s[1..])
  }

  lemma {:induction false} AfterColonAt(s: string, n: nat)
    requires n < |s| && s[n] == ':'
    requires forall k :: 0 <= k < n ==> s[k] != ':'
    ensures ':' in s && AfterColon(s) == s[n + 1..]
    decreases n
  {
    if n > 0 {
      assert s[1..][n - 1] == ':';
      AfterColonAt(s[1..], n - 1);
    }
  }

  /** In a tagged line, the first ':' is the one that closes the tag. */
  lemma TaggedLineSplitsAfterTag(line: string, l: Label)
    requires HasTag(line, l)
    ensures ':' in line && AfterColon(line) == line[|Tag(l)|..]
  {
    var t := Tag(l);
    CaselessPrefixAt(line, t);
    assert LowerChar(line[|t| - 1]) == ':';
    forall k | 0 <= k < |t| - 1
      ensures line[k] != ':'
    {
      assert LowerChar(line[k]) == t[k];
    }
    AfterColonAt(line, |t| - 1);
  }

  /** One reply line as the parser sees it: the field it sets and the value it carries, or nothing. */
  datatype Entry = Untagged | Tagged(field: Label, value: string)

  /**
   * Reads one line: a tagged line carries what follows its first ':'
   * (Python's `line.split(":", 1)[1].strip()`), which is the rest of the line
   * after the tag, stripped.
   */
  function ReadLine(line: string): (e: Entry)
    ensures e.Tagged? <==> LabelOf(line).Some?
    ensures e.Tagged? ==> e.field == LabelOf(line).value && |Tag(e.field)| <= |line|
    ensures e.Tagged? ==> e.value == Trim(line[|Tag(e.field)|..])
  {
    match LabelOf(line)
    case None => Untagged
    case Some(l) =>
      TaggedLineSplitsAfterTag(line, l);
      Tagged(l, Trim(AfterColon(line)))
  }

  /** Every line of a reply, read. */
  function ReadLines(lines: seq<string>): (es: seq<Entry>)
    ensures |es| == |lines|
    ensures forall i :: 0 <= i < |lines| ==> es[i] == ReadLine(lines[i])
  {
    if lines == [] then [] else [ReadLine(lines[0])] + ReadLines(lines[1..])
  }

  /** The raw fields while the entries are read, before any defaulting. */
  datatype Fields = Fields(company: string, decision: string, reason: string)

  /** The values the fields hold before any line is read. */
  const Start := Fields("", "Irrelevant", "")

  function Field(f: Fields, l: Label): string {
    match l
    case CompanyTag => f.company
    case DecisionTag => f.decision
    case ReasonTag => f.reason
  }

  /** Reading one entry: a tagged entry overwrites its own field; an untagged one changes nothing. */
  function Step(f: Fields, e: Entry): Fields {
    match e
    case Untagged => f
    case Tagged(CompanyTag, v) => f.(company := v)
    case Tagged(DecisionTag, v) => f.(decision := v)
    case Tagged(ReasonTag, v) => f.(reason := v)
  }

  /** `e` sets the field `l`. */
  predicate Sets(e: Entry, l: Label) {
    e.Tagged? && e.field == l
  }

  /** Reading an entry changes at most the one field it is tagged with. */
  lemma StepField(f: Fields, e: Entry, l: Label)
    ensures Field(Step(f, e), l) == if Sets(e, l) then e.value else Field(f, l)
  {
  }

  /**
   * The fields after reading `entries` in order, each overwriting what came
   * before: every field still holds its starting value or the value of some
   * entry that sets it.
   */
  function Scan(entries: seq<Entry>): (f: Fields)
    ensures forall l ::
      || Field(f, l) == Field(Start, l)
      || exists i :: 0 <= i < |entries| && Sets(entries[i], l) && Field(f, l) == entries[i].value
    decreases |entries|
  {
    if entries == [] then Start
    else
      var init := entries[..|entries| - 1];
      assert forall i :: 0 <= i < |init| ==> init[i] == entries[i];
      Step(Scan(init), entries[|entries| - 1])
  }

  /** `entries[i]` is the last entry that sets `l`. */
  ghost predicate LastSetting(entries: seq<Entry>, l: Label, i: int) {
    && 0 <= i < |entries|
    && Sets(entries[i], l)
    && forall j :: i < j < |entries| ==> !Sets(entries[j], l)
  }

  /** Last line wins: a field holds the value of the last entry that sets it. */
  lemma {:induction false} ScanLastWins(entries: seq<Entry>, l: Label, i: int)
    requires LastSetting(entries, l, i)
    ensures Field(Scan(entries), l) == entries[i].value
    decreases |entries|
  {
    var n := |entries|;
    var init := entries[..n - 1];
    StepField(Scan(init), entries[n - 1], l);
    if i < n - 1 {
      assert !Sets(entries[n - 1], l);
      assert LastSetting(init, l, i) by {
        assert forall j :: 0 <= j < |init| ==> init[j] == entries[j];
      }
      ScanLastWins(init, l, i);
    }
  }

  /** A field that no entry sets keeps its starting value. */
  lemma {:induction false} ScanUnset(entries: seq<Entry>, l: Label)
    requires forall j :: 0 <= j < |entries| ==> !Sets(entries[j], l)
    ensures Field(Scan(entries), l) == Field(Start, l)
    decreases |entries|
  {
    if entries != [] {
      var init := entries[..|entries| - 1];
      assert forall j :: 0 <= j < |init| ==> init[j] == entries[j];
      ScanUnset(init, l);
      StepField(Scan(init), entries[|entries| - 1], l);
    }
  }

  /** Whenever some entry sets `l`, one of them is the last. */
  lemma {:induction false} LastSettingExists(entries: seq<Entry>, l: Label, j: int)
    requires 0 <= j < |entries| && Sets(entries[j], l)
    ensures exists i :: LastSetting(entries, l, i)
    decreases |entries| - j
  {
    if !LastSetting(entries, l, j) {
      var j' :| j < j' < |entries| && Sets(entries[j'], l);
      LastSettingExists(entries, l, j');
    }
  }

  /** A line that sets nothing can be dropped without changing what is read. */
  lemma {:induction false} ScanSkipsUntagged(a: seq<Entry>, b: seq<Entry>)
    ensures Scan(a + [Untagged] + b) == Scan(a + b)
    decreases |b|
  {
    if b == [] {
      assert a + [Untagged] + b == a + [Untagged];
      assert (a + [Untagged])[..|a|] == a;
      assert a + b == a;
    } else {
      var b' := b[..|b| - 1];
      var x := b[|b| - 1];
      assert a + [Untagged] + b == (a + [Untagged] + b') + [x];
      assert a + b == (a + b') + [x];
      assert ((a + [Untagged] + b') + [x])[..|a + [Untagged] + b'|] == a + [Untagged] + b';
      assert ((a + b') + [x])[..|a + b'|] == a + b';
      ScanSkipsUntagged(a, b');
    }
  }

  /** Entries read from lines carry stripped values, so every field ends up stripped. */
  lemma {:induction false} ScanTidy(entries: seq<Entry>)
    requires forall j :: 0 <= j < |entries| && entries[j].Tagged? ==> Tidy(entries[j].value)
    ensures Tidy(Scan(entries).company) && Tidy(Scan(entries).decision) && Tidy(Scan(entries).reason)
    decreases |entries|
  {
    if entries == [] {
      assert Start.decision[0] == 'I' && Start.decision[|Start.decision| - 1] == 't';
    } else {
      var init := entries[..|entries| - 1];
      assert forall j :: 0 <= j < |init| ==> init[j] == entries[j];
      ScanTidy(init);
    }
  }

  /** Company values that mean "no company" (compared lower-cased). */
  const Sentinels: set<string> := {"none", "n/a", "no company"}

  /** The reason given when the reply supplies none. */
  const FallbackReason := "Model did not provide a clear reason."

  /** The company is dropped when it is empty or a sentinel, and kept verbatim otherwise. */
  function NormalizeCompany(c: string): (r: string)
    ensures r == [] <==> (c == [] || Lower(c) in Sentinels)
    ensures r != [] ==> r == c
  {
    if c == [] || Lower(c) in Sentinels then [] else c
  }

  /** The two decisions a verdict can carry. */
  datatype Decision = Relevant | Irrelevant {
    /** The word written for the decision. */
    function Word(): string {
      match this
      case Relevant => "Relevant"
      case Irrelevant => "Irrelevant"
    }
  }

  /** Only a value that starts with "rel" once stripped and lower-cased is a relevant decision. */
  function NormalizeDecision(d: string): (r: Decision)
    ensures r == Relevant <==> StartsWith(Lower(Trim(d)), "rel")
  {
    if StartsWith(Lower(Trim(d)), "rel") then Relevant else Irrelevant
  }

  /** A reason is never empty: the fallback sentence stands in for a missing one. */
  function NormalizeReason(reason: string): (r: string)
    ensures r != []
    ensures reason != [] ==> r == reason
    ensures reason == [] ==> r == FallbackReason
  {
    if reason == [] then FallbackReason else reason
  }

  /** The triple `analyze_text` returns. */
  datatype Verdict = Verdict(company: string, decision: Decision, reason: string)

  /** The entries of a reply: the whole reply is stripped first, its lines are not. */
  function ReplyEntries(reply: string): (es: seq<Entry>)
    ensures forall j :: 0 <= j < |es| && es[j].Tagged? ==> Tidy(es[j].value)
  {
    ReadLines(SplitLines(Trim(reply)))
  }

  /** Parses a reply; it is total and always yields a well-formed verdict. */
  function ParseReply(reply: string): (v: Verdict)
    ensures v.reason != []
    ensures v.company != [] ==> Lower(v.company) !in Sentinels && Tidy(v.company)
  {
    var es := ReplyEntries(reply);
    ScanTidy(es);
    var f := Scan(es);
    Verdict(NormalizeCompany(f.company), NormalizeDecision(f.decision), NormalizeReason(f.reason))
  }

  /** A stripped decision value counts as relevant exactly when its lower-cased form starts with "rel". */
  lemma TidyDecision(d: string)
    requires Tidy(d)
    ensures NormalizeDecision(d) == Relevant <==> StartsWith(Lower(d), "rel")
  {
    TrimFixed(d);
  }

  /**
   * A value that begins with 'i' in either case is not relevant: stripping
   * keeps that first character, so the lower-cased value cannot start with "rel".
   */
  lemma LeadingIIsIrrelevant(d: string)
    requires d != [] && LowerChar(d[0]) == 'i'
    ensures NormalizeDecision(d) == Irrelevant
  {
    var t := Trim(d);
    assert !IsSpace(d[0]);
    TrimEmptyIffBlank(d);
    TrimRemovesOnlyBlank(d);
    assert SkipSpaces(d, 0) == 0;
    assert t[0] == d[0];
    var low := Lower(t);
    assert low[0] == 'i';
    if |low| >= 3 {
      assert low[..3][0] == 'i';
    }
  }

  /** A null or blank reply reads as no reply at all: no company, not relevant, the fallback reason. */
  lemma BlankReplyDefaults(reply: string)
    requires IsBlank(reply)
    ensures ParseReply(reply) == Verdict([], Irrelevant, FallbackReason)
  {
    TrimEmptyIffBlank(reply);
    assert ReplyEntries(reply) == [];
    StartDecisionIrrelevant();
  }

  /** With no decision line, the starting value "Irrelevant" stands. */
  lemma StartDecisionIrrelevant()
    ensures NormalizeDecision(Start.decision) == Irrelevant
  {
    var s := Start.decision;
    assert s[0] == 'I' && s[|s| - 1] == 't';
    LeadingIIsIrrelevant(s);
  }

  /** Some last decision entry carries a value that starts with "rel" once lower-cased. */
  ghost predicate LastDecisionSaysRelevant(entries: seq<Entry>) {
    exists i :: LastSetting(entries, DecisionTag, i) && StartsWith(Lower(entries[i].value), "rel")
  }

  lemma ScanDecision(entries: seq<Entry>)
    requires forall j :: 0 <= j < |entries| && entries[j].Tagged? ==> Tidy(entries[j].value)
    ensures NormalizeDecision(Scan(entries).decision) == Relevant <==> LastDecisionSaysRelevant(entries)
  {
    var d := Scan(entries).decision;
    if j :| 0 <= j < |entries| && Sets(entries[j], DecisionTag) {
      LastSettingExists(entries, DecisionTag, j);
      var i :| LastSetting(entries, DecisionTag, i);
      ScanLastWins(entries, DecisionTag, i);
      TidyDecision(d);
    } else {
      ScanUnset(entries, DecisionTag);
      StartDecisionIrrelevant();
    }
  }

  /**
   * The decision is "Relevant" exactly when the last decision line's value,
   * lower-cased, starts with "rel"; without a decision line it is "Irrelevant".
   */
  lemma ParseDecisionFromLastLine(reply: string)
    ensures ParseReply(reply).decision == Relevant <==> LastDecisionSaysRelevant(ReplyEntries(reply))
  {
    ScanDecision(ReplyEntries(reply));
  }

  lemma ParseDecisionAbsent(reply: string)
    requires forall j :: 0 <= j < |ReplyEntries(reply)| ==> !Sets(ReplyEntries(reply)[j], DecisionTag)
    ensures ParseReply(reply).decision == Irrelevant
  {
    ScanDecision(ReplyEntries(reply));
  }

  /** The company comes from the last company line, normalised. */
  lemma ParseCompanyFromLastLine(reply: string, i: int)
    requires LastSetting(ReplyEntries(reply), CompanyTag, i)
    ensures var v := ReplyEntries(reply)[i].value;
      ParseReply(reply).company == if v == [] || Lower(v) in Sentinels then [] else v
  {
    ScanLastWins(ReplyEntries(reply), CompanyTag, i);
  }

  /** Without a company line the company is empty. */
  lemma ParseCompanyAbsent(reply: string)
    requires forall j :: 0 <= j < |ReplyEntries(reply)| ==> !Sets(ReplyEntries(reply)[j], CompanyTag)
    ensures ParseReply(reply).company == []
  {
    ScanUnset(ReplyEntries(reply), CompanyTag);
  }

  /** The reason is the last reason line's value, or the fallback when that value is empty. */
  lemma ParseReasonFromLastLine(reply: string, i: int)
    requires LastSetting(ReplyEntries(reply), ReasonTag, i)
    ensures var v := ReplyEntries(reply)[i].value;
      ParseReply(reply).reason == if v == [] then FallbackReason else v
  {
    ScanLastWins(ReplyEntries(reply), ReasonTag, i);
  }

  /** Without a reason line the reason is the fallback sentence. */
  lemma ParseReasonAbsent(reply: string)
    requires forall j :: 0 <= j < |ReplyEntries(reply)| ==> !Sets(ReplyEntries(reply)[j], ReasonTag)
    ensures ParseReply(reply).reason == FallbackReason
  {
    ScanUnset(ReplyEntries(reply), ReasonTag);
  }

  /** Whitespace in front of the whole reply is stripped away, so it never hides the first line's tag. */
  lemma LeadingBlankIgnored(ws: string, reply: string)
    requires IsBlank(ws)
    ensures ParseReply(ws + reply) == ParseReply(reply)
  {
    TrimIgnoresLeadingBlank(ws, reply);
  }
}
