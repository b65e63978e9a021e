/** The Inform 7 event-tag scanner (`_detect_i7_events_debug_tags`).

    The interpreter, in debug mode, brackets every action rule it runs:
    `[opening door]` when the rule starts, `[opening door - succeeded]` or
    `[opening door - failed]` when it ends. The scanner finds these tags,
    deletes them from the narrative text, keeps a stack of the rules still
    open and records, in order, the rules that succeeded. */
module EventTags {
  import opened Wrappers
  import opened Text
  import opened GlulxErrors

  const Escape: char := '\U{1b}'
  const FailedSuffix: string := " - failed"
  const SucceededSuffix: string := " - succeeded"

  // ---------------------------------------------------------------------------
  // The tag pattern (?<!\x1b)\[[^]]+\]\n? as `re.findall` applies it.

  /** First `]` at or after `j`. */
  function CloseBracket(text: string, j: nat): (r: Option<nat>)
    decreases |text| - j
    ensures r.Some? ==> j <= r.value < |text| && text[r.value] == ']'
    ensures r.Some? ==> forall k :: j <= k < r.value ==> text[k] != ']'
    ensures r.None? ==> forall k :: j <= k < |text| ==> text[k] != ']'
  {
    if j >= |text| then None
    else if text[j] == ']' then Some(j)
    else CloseBracket(text, j + 1)
  }

  /** The `]` at `k` is the first one after the `[` at `i`, and at least one
      character lies between them. */
  predicate ClosesAt(text: string, i: nat, k: nat) {
    i + 1 < k < |text| && text[k] == ']' && forall m :: i < m < k ==> text[m] != ']'
  }

  /** `text[i..e]` is what the tag pattern matches at `i`: a `[` not preceded
      by an escape character, one or more characters other than `]`, the `]`
      that follows them, and the newline after it when there is one. */
  predicate TagMatch(text: string, i: nat, e: nat) {
    && i < e <= |text| && text[i] == '[' && (i == 0 || text[i - 1] != Escape)
    && (|| (ClosesAt(text, i, e - 1) && !(e < |text| && text[e] == '\n'))
        || (e >= 2 && ClosesAt(text, i, e - 2) && text[e - 1] == '\n'))
  }

  /** End of the match of the tag pattern that starts at `i`, if any. */
  function MatchEnd(text: string, i: nat): (r: Option<nat>)
    requires i < |text|
    ensures r.Some? ==> i + 3 <= r.value <= |text| && TagMatch(text, i, r.value)
    ensures r.None? ==> forall e :: !TagMatch(text, i, e)
  {
    if text[i] != '[' || (i > 0 && text[i - 1] == Escape) then None
    else match CloseBracket(text, i + 1)
      case None => None
      case Some(k) =>
        if k == i + 1 then None
        else if k + 1 < |text| && text[k + 1] == '\n' then Some(k + 2)
        else Some(k + 1)
  }

  /** A match has one ending only. */
  lemma TagMatchUnique(text: string, i: nat, e1: nat, e2: nat)
    requires TagMatch(text, i, e1) && TagMatch(text, i, e2)
    ensures e1 == e2
  {
    var r := MatchEnd(text, i);
  }

  /** A token: `[`, a name of one or more characters none of which is `]`,
      `]`, and possibly a newline. */
  predicate TagShaped(t: string) {
    && |t| >= 3 && t[0] == '['
    && var k := if t[|t| - 1] == '\n' then |t| - 2 else |t| - 1;
      1 < k && t[k] == ']' && forall m :: 1 <= m < k ==> t[m] != ']'
  }

  /** What the pattern matches is a token. */
  lemma MatchIsShaped(text: string, i: nat, e: nat)
    requires TagMatch(text, i, e)
    ensures TagShaped(text[i..e])
  {
    var t := text[i..e];
    assert t[0] == text[i] && t[|t| - 1] == text[e - 1];
    if e >= 2 && ClosesAt(text, i, e - 2) && text[e - 1] == '\n' {
      assert t[|t| - 2] == text[e - 2];
      forall m | 1 <= m < |t| - 2
        ensures t[m] != ']'
      {
        assert t[m] == text[i + m];
      }
    } else {
      forall m | 1 <= m < |t| - 1
        ensures t[m] != ']'
      {
        assert t[m] == text[i + m];
      }
    }
  }

  /** The non-overlapping matches at or after `i`, left to right. */
  function MatchesFrom(text: string, i: nat): (r: seq<string>)
    decreases |text| - i
    ensures forall t :: t in r ==> TagShaped(t)
  {
    if i >= |text| then []
    else match MatchEnd(text, i)
      case Some(e) =>
        MatchIsShaped(text, i, e);
        [text[i..e]] + MatchesFrom(text, e)
      case None => MatchesFrom(text, i + 1)
  }

  /** Positions where no match starts are passed over. */
  lemma {:induction false} MatchesSkip(text: string, i: nat, j: nat)
    requires i <= j <= |text|
    requires forall k, e :: i <= k < j ==> !TagMatch(text, k, e)
    ensures MatchesFrom(text, i) == MatchesFrom(text, j)
    decreases j - i
  {
    if i < j {
      assert MatchEnd(text, i).None?;
      MatchesSkip(text, i + 1, j);
    }
  }

  /** The first match at or after `i` is the first token found, and the
      search resumes where it ends. */
  lemma MatchesFromFirst(text: string, i: nat, j: nat, e: nat)
    requires i <= j && TagMatch(text, j, e)
    requires forall k, e' :: i <= k < j ==> !TagMatch(text, k, e')
    ensures MatchesFrom(text, i) == [text[j..e]] + MatchesFrom(text, e)
  {
    MatchesSkip(text, i, j);
    var r := MatchEnd(text, j);
    assert r.Some?;
    TagMatchUnique(text, j, r.value, e);
  }

  /** Without a match at or after `i`, no token is found. */
  lemma MatchesFromNone(text: string, i: nat)
    requires i <= |text|
    requires forall k, e :: i <= k ==> !TagMatch(text, k, e)
    ensures MatchesFrom(text, i) == []
  {
    MatchesSkip(text, i, |text|);
  }

  /** `re.findall(r"(?<!\x1b)\[[^]]+\]\n?", text)`. */
  function Tokens(text: string): (r: seq<string>)
    ensures '[' !in text ==> r == []
    ensures forall t :: t in r ==> TagShaped(t)
  {
    assert '[' !in text ==> MatchesFrom(text, 0) == [] by {
      if '[' !in text {
        MatchesPlainEnd(text, 0);
      }
    }
    MatchesFrom(text, 0)
  }

  /** A token is its name between brackets, with the newline the pattern
      may have taken; `TagName` recovers that name. */
  lemma TokenParts(t: string)
    requires TagShaped(t)
    ensures var n := TagName(t);
      && |n| > 0 && ']' !in n
      && (t == "[" + n + "]" || t == "[" + n + "]\n")
  {
    var k := if t[|t| - 1] == '\n' then |t| - 2 else |t| - 1;
    var u := t[..k + 1];
    StripToken(t);
    var n := u[1..k];
    assert u == "[" + n + "]";
    assert t == u || t == u + "\n";
    assert ']' !in n by {
      forall m | 0 <= m < |n|
        ensures n[m] != ']'
      {
        assert n[m] == t[m + 1];
      }
    }
  }

  /** Stripping a token leaves it up to its `]`. */
  lemma StripToken(t: string)
    requires TagShaped(t)
    ensures var k := if t[|t| - 1] == '\n' then |t| - 2 else |t| - 1;
      Strip(t) == t[..k + 1]
  {
    var k := if t[|t| - 1] == '\n' then |t| - 2 else |t| - 1;
    var u := t[..k + 1];
    assert Trimmed(u) by {
      assert u[0] == '[' && u[|u| - 1] == ']';
    }
    if k == |t| - 2 {
      assert t == u + "\n";
      StripNewline(u);
    } else {
      assert t == u;
      StripTrimmed(u);
    }
  }


  /** `match.strip()[1:-1]`: the text between the brackets. */
  function TagName(token: string): (r: string) {
    var t := Strip(token);
    if |t| >= 2 then t[1..|t| - 1] else ""
  }

  // ---------------------------------------------------------------------------
  // Classifying a tag and the open-tag stack.

  datatype Tag = Opening(name: string) | Succeeded(name: string) | Failed(name: string) {
    predicate Closing() { !Opening? }
  }

  /** A tag holding " - failed" closes the rule named by what precedes the
      first such occurrence; otherwise one holding " - succeeded" closes
      likewise; any other tag opens a rule under its whole name. */
  function Classify(tagName: string): (t: Tag)
    ensures t.Failed? <==> Contains(tagName, FailedSuffix)
    ensures t.Succeeded? <==> !Contains(tagName, FailedSuffix) && Contains(tagName, SucceededSuffix)
    ensures t.Opening? ==> t.name == tagName
  {
    match IndexOf(tagName, FailedSuffix, 0)
    case Some(i) => Failed(tagName[..i])
    case None =>
      match IndexOf(tagName, SucceededSuffix, 0)
      case Some(i) => Succeeded(tagName[..i])
      case None => Opening(tagName)
  }

  /** The base name of a closing tag is what precedes the first occurrence of
      its suffix (`tag_name[:tag_name.index(" - failed")]`). */
  lemma ClassifyBaseName(tagName: string)
    ensures var t := Classify(tagName);
      var suffix := if t.Failed? then FailedSuffix else SucceededSuffix;
      t.Closing() ==>
        && |t.name| <= |tagName| && t.name == tagName[..|t.name|]
        && OccursAt(tagName, suffix, |t.name|)
        && forall j: nat :: j < |t.name| ==> !OccursAt(tagName, suffix, j)
  {
    IndexOfSpec(tagName, FailedSuffix, 0);
    IndexOfSpec(tagName, SucceededSuffix, 0);
  }

  /** `list.remove(x)`: drops the first occurrence of `x`; `None` is the
      `ValueError` raised when `x` is absent. */
  function RemoveFirst(s: seq<string>, x: string): (r: Option<seq<string>>)
    ensures r.None? <==> x !in s
    ensures r.Some? ==> |r.value| == |s| - 1 && multiset(r.value) == multiset(s) - multiset{x}
  {
    if |s| == 0 then None
    else if s[0] == x then
      assert s == [s[0]] + s[1..];
      Some(s[1..])
    else match RemoveFirst(s[1..], x)
      case None => None
      case Some(t) =>
        assert s == [s[0]] + s[1..];
        Some([s[0]] + t)
  }

  // ---------------------------------------------------------------------------
  // The scan, one token at a time.

  /** The loop's variables: `open_tags`, `matches` and the text being cleaned. */
  datatype ScanState = ScanState(openTags: seq<string>, matches: seq<string>, text: string)

  /** One iteration of the scanner's loop. */
  function StepTag(st: ScanState, token: string): (r: Result<ScanState, Error>)
  {
    var tag := Classify(TagName(token));
    var text := RemoveAll(st.text, token);
    if tag.Opening? then Ok(ScanState(st.openTags + [tag.name], st.matches, text))
    else match RemoveFirst(st.openTags, tag.name)
      case None => Err(UnopenedTag(tag.name))
      case Some(rest) =>
        Ok(ScanState(rest, if tag.Succeeded? then st.matches + [tag.name] else st.matches, text))
  }

  /** One step: an opening tag is pushed; a closing tag pops its base name
      from the stack, and fails exactly when that name is not open; a
      succeeded tag records its name; the token is removed from the text. */
  lemma StepTagSpec(st: ScanState, token: string)
    ensures var r, tag := StepTag(st, token), Classify(TagName(token));
      && (r.Ok? ==> r.value.text == RemoveAll(st.text, token))
      && (tag.Opening? ==> r.Ok? && r.value.openTags == st.openTags + [tag.name] && r.value.matches == st.matches)
      && (tag.Closing() ==> (r.Err? <==> tag.name !in st.openTags))
      && (r.Err? ==> r.error == UnopenedTag(tag.name))
      && (r.Ok? && tag.Closing() ==> multiset(r.value.openTags) == multiset(st.openTags) - multiset{tag.name})
      && (r.Ok? && tag.Succeeded? ==> r.value.matches == st.matches + [tag.name])
      && (r.Ok? && tag.Failed? ==> r.value.matches == st.matches)
  {
  }

  /** The loop run over `tokens`, starting from an empty stack and the whole text;
      the first failing step ends the scan. */
  function ScanTokens(tokens: seq<string>, text: string): (r: Result<ScanState, Error>)
    decreases |tokens|
  {
    if |tokens| == 0 then Ok(ScanState([], [], text))
    else match ScanTokens(tokens[..|tokens| - 1], text)
      case Err(e) => Err(e)
      case Ok(st) => StepTag(st, tokens[|tokens| - 1])
  }

  // Reference definitions, read off the tokens alone.

  /** Base names of the " - succeeded" tags, in the order they occur. */
  function SucceededNames(tokens: seq<string>): (r: seq<string>)
    decreases |tokens|
  {
    if |tokens| == 0 then []
    else
      var tag := Classify(TagName(tokens[|tokens| - 1]));
      SucceededNames(tokens[..|tokens| - 1]) + (if tag.Succeeded? then [tag.name] else [])
  }

  /** Names of the opening tags. */
  function OpenedNames(tokens: seq<string>): (r: multiset<string>)
    decreases |tokens|
  {
    if |tokens| == 0 then multiset{}
    else
      var tag := Classify(TagName(tokens[|tokens| - 1]));
      OpenedNames(tokens[..|tokens| - 1]) + (if tag.Opening? then multiset{tag.name} else multiset{})
  }

  /** Base names of the closing tags, succeeded or failed. */
  function ClosedNames(tokens: seq<string>): (r: multiset<string>)
    decreases |tokens|
  {
    if |tokens| == 0 then multiset{}
    else
      var tag := Classify(TagName(tokens[|tokens| - 1]));
      ClosedNames(tokens[..|tokens| - 1]) + (if tag.Closing() then multiset{tag.name} else multiset{})
  }

  /** What one successful step adds to the recorded names and to the stack,
      and that it only deletes characters from the text. */
  lemma StepPreserves(st: ScanState, token: string)
    requires StepTag(st, token).Ok?
    ensures var st', tag := StepTag(st, token).value, Classify(TagName(token));
      && st'.matches == st.matches + (if tag.Succeeded? then [tag.name] else [])
      && multiset(st'.openTags) + (if tag.Closing() then multiset{tag.name} else multiset{})
         == multiset(st.openTags) + (if tag.Opening? then multiset{tag.name} else multiset{})
      && IsSubseq(st'.text, st.text)
  {
    StepTagSpec(st, token);
    var tag := Classify(TagName(token));
    if tag.Closing() {
      assert tag.name in st.openTags;
    }
  }

  /** What a successful scan has built: the recorded names are exactly the
      succeeded names in order, the stack holds what was opened and not yet
      closed, and the cleaned text is the input with characters deleted. */
  lemma {:induction false} ScanInvariant(tokens: seq<string>, text: string)
    requires ScanTokens(tokens, text).Ok?
    ensures var st := ScanTokens(tokens, text).value;
      && st.matches == SucceededNames(tokens)
      && multiset(st.openTags) + ClosedNames(tokens) == OpenedNames(tokens)
      && IsSubseq(st.text, text)
    decreases |tokens|
  {
    if |tokens| == 0 {
      SubseqRefl(text);
    } else {
      var init := tokens[..|tokens| - 1];
      var token := tokens[|tokens| - 1];
      ScanInvariant(init, text);
      var st := ScanTokens(init, text).value;
      var st' := ScanTokens(tokens, text).value;
      StepPreserves(st, token);
      SubseqTrans(st'.text, st.text, text);
    }
  }

  /** The scan of one more token: the step applied to the scan so far. */
  lemma ScanStep(tokens: seq<string>, text: string, i: nat)
    requires i < |tokens|
    ensures ScanTokens(tokens[..i + 1], text) ==
      match ScanTokens(tokens[..i], text)
      case Err(e) => Err(e)
      case Ok(st) => StepTag(st, tokens[i])
  {
    assert tokens[..i + 1][..i] == tokens[..i];
  }

  /** Once a step fails, the whole scan fails with that error. */
  lemma {:induction false} ScanErrorSticks(tokens: seq<string>, text: string, n: nat)
    requires n <= |tokens| && ScanTokens(tokens[..n], text).Err?
    ensures ScanTokens(tokens, text) == ScanTokens(tokens[..n], text)
    decreases |tokens|
  {
    if n == |tokens| {
      assert tokens[..n] == tokens;
    } else {
      var init := tokens[..|tokens| - 1];
      assert init[..n] == tokens[..n];
      ScanErrorSticks(init, text, n);
    }
  }

  /** Tags that all get closed leave nothing on the stack. */
  lemma BalancedLeavesStackEmpty(tokens: seq<string>, text: string)
    requires ScanTokens(tokens, text).Ok?
    requires OpenedNames(tokens) == ClosedNames(tokens)
    ensures ScanTokens(tokens, text).value.openTags == []
  {
    ScanInvariant(tokens, text);
    var m := multiset(ScanTokens(tokens, text).value.openTags);
    var c := ClosedNames(tokens);
    assert m + c == c;
    forall x ensures m[x] == 0 {
      assert (m + c)[x] == m[x] + c[x];
    }
    assert m == multiset{};
  }

  // ---------------------------------------------------------------------------
  // Sub-rules and the final result.

  /** A name with a parenthesis denotes a sub-rule. */
  predicate IsSubRule(name: string) {
    '(' in name || ')' in name
  }

  /** `[m for m in matches if "(" not in m and ")" not in m]`. */
  function DropSubRules(names: seq<string>): (r: seq<string>)
    decreases |names|
    ensures IsSubseq(r, names)
    ensures forall n :: n in r ==> !IsSubRule(n)
    ensures forall n :: n in names && !IsSubRule(n) ==> n in r
  {
    if |names| == 0 then []
    else
      var rest := DropSubRules(names[1..]);
      assert names == [names[0]] + names[1..];
      if IsSubRule(names[0]) then
        SubseqSkip(rest, names[1..], names[0]);
        rest
      else
        SubseqCons(rest, names[1..], names[0]);
        [names[0]] + rest
  }

  /** The events found in a text block and the block with its tags removed. */
  datatype Detected = Detected(events: seq<string>, text: string)

  /** What `_detect_i7_events_debug_tags` returns or raises for `text`. */
  function DetectEventsSpec(text: string): (r: Result<Detected, Error>)
  {
    match ScanTokens(Tokens(text), text)
    case Err(e) => Err(e)
    case Ok(st) =>
      var events := DropSubRules(st.matches);
      if |events| > 0 && |st.openTags| > 0 then Err(UnbalancedTags(st.openTags))
      else Ok(Detected(events, st.text))
  }

  /** The loop of `_detect_i7_events_debug_tags` over the tag tokens, with
      the open-tag stack and the list of succeeded names. */
  method ScanAll(tokens: seq<string>, text: string) returns (r: Result<ScanState, Error>)
    ensures r == ScanTokens(tokens, text)
  {
    var st := ScanState([], [], text);
    for i := 0 to |tokens|
      invariant ScanTokens(tokens[..i], text) == Ok(st)
    {
      ScanStep(tokens, text, i);
      var next := ScanOne(st, tokens[i]);
      if next.Err? {
        ScanErrorSticks(tokens, text, i + 1);
        return next;
      }
      st := next.value;
    }
    assert tokens[..|tokens|] == tokens;
    return Ok(st);
  }

  /** The body of the scanner's loop for one token. */
  method ScanOne(st: ScanState, token: string) returns (r: Result<ScanState, Error>)
    ensures r == StepTag(st, token)
  {
    var matches, openTags := st.matches, st.openTags;
    var cleaned := RemoveAll(st.text, token);
    var tag := Classify(TagName(token));
    if tag.Closing() {
      var rest := RemoveFirst(openTags, tag.name);
      if rest.None? {
        return Err(UnopenedTag(tag.name));
      }
      openTags := rest.value;
      if tag.Succeeded? {
        matches := matches + [tag.name];
      }
    } else {
      openTags := openTags + [tag.name];
    }
    return Ok(ScanState(openTags, matches, cleaned));
  }

  /** `_detect_i7_events_debug_tags`: scan the tags, drop the sub-rules, and
      check that no tag is left open when events were recorded. */
  method DetectEvents(text: string) returns (r: Result<Detected, Error>)
    ensures r == DetectEventsSpec(text)
  {
    var scan := ScanAll(Tokens(text), text);
    if scan.Err? {
      return Err(scan.error);
    }
    var events := DropSubRules(scan.value.matches);
    if |events| > 0 && |scan.value.openTags| > 0 {
      return Err(UnbalancedTags(scan.value.openTags));
    }
    return Ok(Detected(events, scan.value.text));
  }

  // ---------------------------------------------------------------------------
  // Properties of the scanner's result.

  /** Reported events are succeeded rule names, in encounter order, with the
      sub-rules left out and every other succeeded name kept; the cleaned
      text is a subsequence of the input (what the tags and their lines
      took away is pinned down by `SucceededRuleDetected`). */
  lemma DetectedEventsAreSucceeded(text: string)
    requires DetectEventsSpec(text).Ok?
    ensures var d := DetectEventsSpec(text).value;
      && (forall e :: e in d.events ==> !IsSubRule(e))
      && IsSubseq(d.events, SucceededNames(Tokens(text)))
      && (forall n :: n in SucceededNames(Tokens(text)) && !IsSubRule(n) ==> n in d.events)
      && IsSubseq(d.text, text)
  {
    ScanInvariant(Tokens(text), text);
  }

  /** The final check: with at least one event reported the scan succeeds
      exactly when no tag is left open. */
  lemma EventsRequireEmptyStack(text: string)
    requires ScanTokens(Tokens(text), text).Ok?
    requires |DropSubRules(SucceededNames(Tokens(text)))| > 0
    ensures DetectEventsSpec(text).Ok? <==> ScanTokens(Tokens(text), text).value.openTags == []
    ensures DetectEventsSpec(text).Err? ==>
      DetectEventsSpec(text) == Err(UnbalancedTags(ScanTokens(Tokens(text), text).value.openTags))
  {
    ScanInvariant(Tokens(text), text);
  }

  /** A closing tag met when its base name is not open makes the whole
      detection fail with that name. */
  lemma UnopenedCloseIsFatal(text: string, i: nat)
    requires i < |Tokens(text)| && ScanTokens(Tokens(text)[..i], text).Ok?
    requires Classify(TagName(Tokens(text)[i])).Closing()
    requires Classify(TagName(Tokens(text)[i])).name !in ScanTokens(Tokens(text)[..i], text).value.openTags
    ensures DetectEventsSpec(text) == Err(UnopenedTag(Classify(TagName(Tokens(text)[i])).name))
  {
    var tokens := Tokens(text);
    ScanStep(tokens, text, i);
    StepTagSpec(ScanTokens(tokens[..i], text).value, tokens[i]);
    ScanErrorSticks(tokens, text, i + 1);
  }

  /** Text without any `[` holds no tag: nothing is detected and nothing removed. */
  lemma NoTagsNoChange(text: string)
    requires '[' !in text
    ensures DetectEventsSpec(text) == Ok(Detected([], text))
  {
  }
  // ---------------------------------------------------------------------------
  // A rule that opens and succeeds, worked out in full.

  /** Text that holds no tag and does not hide the one after it: no `[`, and
      no escape character at its end. */
  predicate Plain(s: string) {
    '[' !in s && (|s| > 0 ==> s[|s| - 1] != Escape)
  }

  /** The token the interpreter prints for a tag named `name`. */
  function TagLine(name: string): (t: string)
    ensures |t| == |name| + 3 && t[0] == '[' && t[|name| + 1] == ']' && t[|name| + 2] == '\n'
    ensures forall m :: 1 <= m <= |name| ==> t[m] == name[m - 1]
  {
    "[" + name + "]\n"
  }

  /** A line holding one tag: `[`, characters other than `]`, `]`, newline. */
  predicate IsTagLine(t: string) {
    && |t| >= 4 && t[0] == '[' && t[|t| - 2] == ']' && t[|t| - 1] == '\n'
    && forall m :: 1 <= m < |t| - 2 ==> t[m] != ']'
  }

  lemma TagLineIsTagLine(name: string)
    requires |name| > 0 && ']' !in name
    ensures IsTagLine(TagLine(name))
  {
    var t := TagLine(name);
    forall m | 1 <= m < |t| - 2
      ensures t[m] != ']'
    {
      assert t[m] == name[m - 1];
    }
  }

    /** A tag line not preceded by an escape is matched whole. */
  lemma TagLineAt(text: string, j: nat, t: string)
    requires IsTagLine(t) && j + |t| <= |text| && text[j..j + |t|] == t
    requires j > 0 ==> text[j - 1] != Escape
    ensures TagMatch(text, j, j + |t|)
  {
    var k := j + |t| - 2;
    assert text[j] == t[0] && text[k] == t[|t| - 2] && text[k + 1] == t[|t| - 1];
    forall m | j < m < k
      ensures text[m] != ']'
    {
      assert text[m] == t[m - j];
    }
    TagMatchWithNewline(text, j, k);
  }

  /** A tag closed by a `]` that a newline follows is matched with that newline. */
  lemma TagMatchWithNewline(text: string, i: nat, k: nat)
    requires i < |text| && text[i] == '[' && (i == 0 || text[i - 1] != Escape)
    requires ClosesAt(text, i, k) && k + 1 < |text| && text[k + 1] == '\n'
    ensures TagMatch(text, i, k + 2)
  {
  }

  /** Where there is no `[` no match starts. */
  lemma NoTagWithoutBracket(text: string, lo: nat, hi: nat)
    requires forall k :: lo <= k < hi && k < |text| ==> text[k] != '['
    ensures forall k, e :: lo <= k < hi ==> !TagMatch(text, k, e)
  {
  }

  /** Text without `[` from `i` to `j`, then a tag line `t`: the first token
      found from `i` is `t`, and the search resumes after it. */
  lemma MatchesPlainThenLine(text: string, i: nat, j: nat, t: string)
    requires i <= j && IsTagLine(t) && j + |t| <= |text| && text[j..j + |t|] == t
    requires forall k :: i <= k < j ==> text[k] != '['
    requires j > 0 ==> text[j - 1] != Escape
    ensures MatchesFrom(text, i) == [t] + MatchesFrom(text, j + |t|)
  {
    TagLineAt(text, j, t);
    NoTagWithoutBracket(text, i, j);
    MatchesFromFirst(text, i, j, j + |t|);
  }

  /** Text without `[` to the end holds no token. */
  lemma MatchesPlainEnd(text: string, i: nat)
    requires i <= |text|
    requires forall k :: i <= k < |text| ==> text[k] != '['
    ensures MatchesFrom(text, i) == []
  {
    NoTagWithoutBracket(text, i, |text|);
    MatchesFromNone(text, i);
  }

  /** From `i`, two tag lines at `j1` and `j2` with no `[` elsewhere and no
      escape character before either: they are the tokens found, in that
      order. */
  lemma PairTokensAt(text: string, i: nat, j1: nat, t1: string, j2: nat, t2: string)
    requires IsTagLine(t1) && IsTagLine(t2)
    requires i <= j1 && j1 + |t1| <= j2 && j2 + |t2| <= |text|
    requires text[j1..j1 + |t1|] == t1 && text[j2..j2 + |t2|] == t2
    requires forall k :: i <= k < j1 ==> text[k] != '['
    requires forall k :: j1 + |t1| <= k < j2 ==> text[k] != '['
    requires forall k :: j2 + |t2| <= k < |text| ==> text[k] != '['
    requires (j1 > 0 ==> text[j1 - 1] != Escape) && text[j2 - 1] != Escape
    ensures MatchesFrom(text, i) == [t1, t2]
  {
    var e := j1 + |t1|;
    MatchesPlainThenLine(text, i, j1, t1);
    LastTokenAt(text, e, j2, t2);
    assert [t1] + [t2] == [t1, t2];
  }

  /** From `i`, text without `[` up to a tag line at `j` that nothing but
      text without `[` follows: that line is the last token. */
  lemma LastTokenAt(text: string, i: nat, j: nat, t: string)
    requires i <= j && IsTagLine(t) && j + |t| <= |text| && text[j..j + |t|] == t
    requires forall k :: i <= k < j ==> text[k] != '['
    requires forall k :: j + |t| <= k < |text| ==> text[k] != '['
    requires j > 0 ==> text[j - 1] != Escape
    ensures MatchesFrom(text, i) == [t]
  {
    MatchesPlainThenLine(text, i, j, t);
    MatchesPlainEnd(text, j + |t|);
    assert [t] + [] == [t];
  }

  /** Where the pieces of `a + t1 + b + t2 + c` lie, and what is around them. */
  lemma PairLayout(a: string, t1: string, b: string, t2: string, c: string)
    requires IsTagLine(t1)
    requires Plain(a) && Plain(b) && '[' !in c
    ensures var text, j1, j2 := a + t1 + b + t2 + c, |a|, |a| + |t1| + |b|;
      && text[j1..j1 + |t1|] == t1 && text[j2..j2 + |t2|] == t2
      && (forall k :: 0 <= k < j1 ==> text[k] != '[')
      && (forall k :: j1 + |t1| <= k < j2 ==> text[k] != '[')
      && (forall k :: j2 + |t2| <= k < |text| ==> text[k] != '[')
      && (j1 > 0 ==> text[j1 - 1] != Escape) && text[j2 - 1] != Escape
  {
    var text, j1, j2 := a + t1 + b + t2 + c, |a|, |a| + |t1| + |b|;
    assert text[j1..j1 + |t1|] == t1;
    assert text[j2..j2 + |t2|] == t2;
    forall k | 0 <= k < j1
      ensures text[k] != '['
    {
      assert text[k] == a[k];
    }
    forall k | j1 + |t1| <= k < j2
      ensures text[k] != '['
    {
      assert text[k] == b[k - j1 - |t1|];
    }
    forall k | j2 + |t2| <= k < |text|
      ensures text[k] != '['
    {
      assert text[k] == c[k - j2 - |t2|];
    }
    assert j1 > 0 ==> text[j1 - 1] == a[j1 - 1];
    if |b| == 0 {
      assert text[j2 - 1] == t1[|t1| - 1];
    } else {
      assert text[j2 - 1] == b[|b| - 1];
    }
  }

  /** The tokens of two tag lines among plain text are those two lines. */
  lemma PairTokens(a: string, t1: string, b: string, t2: string, c: string)
    requires IsTagLine(t1) && IsTagLine(t2)
    requires Plain(a) && Plain(b) && '[' !in c
    ensures Tokens(a + t1 + b + t2 + c) == [t1, t2]
  {
    PairLayout(a, t1, b, t2, c);
    PairTokensAt(a + t1 + b + t2 + c, 0, |a|, t1, |a| + |t1| + |b|, t2);
  }

  /** The name of a tag line is the name it was printed with. */
  lemma TagLineName(name: string)
    requires |name| > 0
    ensures TagName(TagLine(name)) == name
  {
    var u := "[" + name + "]";
    assert TagLine(name) == u + "\n";
    assert Trimmed(u) by {
      assert u[0] == '[' && u[|u| - 1] == ']';
    }
    StripNewline(u);
    assert u[1..|u| - 1] == name;
  }

  /** A name without `-` opens a rule. */
  lemma ClassifyPlainName(n: string)
    requires '-' !in n
    ensures Classify(n) == Opening(n)
  {
    forall j: nat
      ensures !OccursAt(n, FailedSuffix, j) && !OccursAt(n, SucceededSuffix, j)
    {
      if j + 1 < |n| {
        MismatchAt(n, FailedSuffix, j, 1);
        MismatchAt(n, SucceededSuffix, j, 1);
      }
    }
  }

  /** Such a name followed by " - succeeded" closes that rule as succeeded. */
  lemma ClassifySucceededName(n: string)
    requires '-' !in n
    ensures Classify(n + SucceededSuffix) == Succeeded(n)
  {
    var m := n + SucceededSuffix;
    assert m[|n| + 1] == '-' && m[|n| + 3] == 's';
    forall j: nat
      ensures !OccursAt(m, FailedSuffix, j)
    {
      if j == |n| {
        MismatchAt(m, FailedSuffix, j, 3);
      } else if j + 1 < |m| {
        assert m[j + 1] != '-';
        MismatchAt(m, FailedSuffix, j, 1);
      }
    }
    assert OccursAt(m, SucceededSuffix, |n|) by {
      assert m[|n|..|n| + |SucceededSuffix|] == SucceededSuffix;
    }
    forall j: nat | j < |n|
      ensures !OccursAt(m, SucceededSuffix, j)
    {
      assert m[j + 1] != '-';
      MismatchAt(m, SucceededSuffix, j, 1);
    }
    IndexOfFirst(m, SucceededSuffix, |n|);
    assert m[..|n|] == n;
  }

  /** A pattern that starts with `[` does not occur where there is no `[`. */
  lemma NoOccurrenceWithoutBracket(s: string, pat: string, lo: nat, hi: nat)
    requires |pat| > 0 && pat[0] == '['
    requires forall k :: lo <= k < hi && k < |s| ==> s[k] != '['
    ensures forall j: nat :: lo <= j < hi ==> !OccursAt(s, pat, j)
  {
    forall j: nat | lo <= j < hi
      ensures !OccursAt(s, pat, j)
    {
      if j < |s| {
        MismatchAt(s, pat, j, 0);
      }
    }
  }

  /** Nor does it occur in text without `[` that comes before it. */
  lemma NoOccurrenceBefore(p: string, pat: string, u: string)
    requires |pat| > 0 && pat[0] == '[' && '[' !in p
    ensures forall j: nat :: j < |p| ==> !OccursAt(p + pat + u, pat, j)
  {
    var s := p + pat + u;
    forall k | 0 <= k < |p|
      ensures s[k] != '['
    {
      assert s[k] == p[k];
    }
    NoOccurrenceWithoutBracket(s, pat, 0, |p|);
  }

  /** Plain text, a tag line and plain text hold no occurrence of a tag line
      that the middle one does not start with. */
  lemma NoOtherLineIn(b: string, t2: string, c: string, t1: string)
    requires |t1| > 0 && t1[0] == '[' && !OccursAt(t2 + c, t1, 0)
    requires forall m :: 1 <= m < |t2| ==> t2[m] != '['
    requires '[' !in b && '[' !in c
    ensures forall j: nat :: !OccursAt(b + t2 + c, t1, j)
  {
    var rest := b + t2 + c;
    assert forall k :: 0 <= k < |rest| && k != |b| ==> rest[k] != '[' by {
      forall k | 0 <= k < |rest| && k != |b|
        ensures rest[k] != '['
      {
        if k < |b| {
          assert rest[k] == b[k];
        } else if k < |b| + |t2| {
          assert rest[k] == t2[k - |b|];
        } else {
          assert rest[k] == c[k - |b| - |t2|];
        }
      }
    }
    NoOccurrenceWithoutBracket(rest, t1, 0, |b|);
    NoOccurrenceWithoutBracket(rest, t1, |b| + 1, |rest|);
    assert !OccursAt(rest, t1, |b|) by {
      if |b| + |t1| <= |rest| {
        assert rest[|b|..|b| + |t1|] == (t2 + c)[..|t1|];
      }
    }
  }

  /** Removing the first tag line's token leaves everything else, when the
      second line does not start with the first. */
  lemma PairFirstRemoval(a: string, t1: string, b: string, t2: string, c: string)
    requires IsTagLine(t1) && IsTagLine(t2) && !OccursAt(t2 + c, t1, 0)
    requires forall m :: 1 <= m < |t2| ==> t2[m] != '['
    requires Plain(a) && Plain(b) && '[' !in c
    ensures RemoveAll(a + t1 + b + t2 + c, t1) == a + (b + t2 + c)
  {
    var rest := b + t2 + c;
    assert a + t1 + b + t2 + c == a + t1 + rest;
    NoOccurrenceBefore(a, t1, rest);
    RemoveAllSplit(a, t1, rest);
    NoOtherLineIn(b, t2, c, t1);
    RemoveAllAbsent(rest, t1);
  }

  /** Concatenation regrouped. Kept apart from `PairSecondRemoval`: the
      sequence equality next to `RemoveAll` terms is costly for the solver. */
  lemma Regroup(a: string, b: string, t: string, c: string)
    ensures a + (b + t + c) == a + b + t + c
  {
  }

  /** Removing the second tag line's token then leaves the plain text. */
  lemma PairSecondRemoval(a: string, b: string, t2: string, c: string)
    requires |t2| > 0 && t2[0] == '['
    requires Plain(a) && Plain(b) && '[' !in c
    ensures RemoveAll(a + (b + t2 + c), t2) == a + b + c
  {
    var ab := a + b;
    Regroup(a, b, t2, c);
    assert '[' !in ab;
    NoOccurrenceBefore(ab, t2, c);
    RemoveAllSplit(ab, t2, c);
    NoOccurrenceWithoutBracket(c, t2, 0, |c|);
    RemoveAllAbsent(c, t2);
  }

  /** The two tag lines of rule `n` as the interpreter prints them. */
  lemma RuleLines(n: string)
    requires |n| > 0 && '[' !in n && ']' !in n && '-' !in n
    ensures var t1, t2 := TagLine(n), TagLine(n + SucceededSuffix);
      && IsTagLine(t1) && IsTagLine(t2)
      && (forall c :: !OccursAt(t2 + c, t1, 0))
      && (forall m :: 1 <= m < |t2| ==> t2[m] != '[')
      && Classify(TagName(t1)) == Opening(n)
      && Classify(TagName(t2)) == Succeeded(n)
  {
    var m := n + SucceededSuffix;
    var t1, t2 := TagLine(n), TagLine(m);
    assert ']' !in m && '[' !in m by {
      assert forall k :: 0 <= k < |SucceededSuffix| ==> SucceededSuffix[k] != ']' && SucceededSuffix[k] != '[';
      assert forall k :: |n| <= k < |m| ==> m[k] == SucceededSuffix[k - |n|];
    }
    TagLineIsTagLine(n);
    TagLineIsTagLine(m);
    assert t2[|n| + 1] == m[|n|] == ' ';
    forall c
      ensures !OccursAt(t2 + c, t1, 0)
    {
      assert (t2 + c)[|n| + 1] == t2[|n| + 1];
      MismatchAt(t2 + c, t1, 0, |n| + 1);
    }
    forall k | 1 <= k < |t2|
      ensures t2[k] != '['
    {
      if k <= |m| {
        assert t2[k] == m[k - 1];
      }
    }
    TagLineName(n);
    TagLineName(m);
    ClassifyPlainName(n);
    ClassifySucceededName(n);
  }

  /** The scan of an opening tag and the tag that closes it as succeeded. */
  lemma DetectPairAt(text: string, t1: string, t2: string, n: string, final: string)
    requires Tokens(text) == [t1, t2]
    requires Classify(TagName(t1)) == Opening(n) && Classify(TagName(t2)) == Succeeded(n)
    requires RemoveAll(RemoveAll(text, t1), t2) == final
    ensures DetectEventsSpec(text) == Ok(Detected(if IsSubRule(n) then [] else [n], final))
  {
    var st0 := ScanState([], [], text);
    var st1 := ScanState([n], [], RemoveAll(text, t1));
    var st2 := ScanState([], [n], final);
    assert StepTag(st0, t1) == Ok(st1) by {
      StepTagSpec(st0, t1);
      assert [] + [n] == [n];
    }
    assert StepTag(st1, t2) == Ok(st2) by {
      StepTagSpec(st1, t2);
      assert RemoveFirst([n], n) == Some([]);
      assert [] + [n] == [n];
    }
    assert ScanTokens([t1], text) == Ok(st1) by {
      assert [t1][..0] == [];
    }
    assert ScanTokens(Tokens(text), text) == Ok(st2) by {
      assert [t1, t2][..1] == [t1];
    }
    assert DropSubRules([n]) == if IsSubRule(n) then [] else [n] by {
      assert [n][1..] == [];
    }
  }

  /** A rule that opens and then succeeds, in text that holds no other tag:
      its name is the one event reported unless it is a sub-rule, and both
      tokens are removed from the text, which otherwise stays as it was. */
  lemma SucceededRuleDetected(a: string, n: string, b: string, c: string)
    requires |n| > 0 && '[' !in n && ']' !in n && '-' !in n
    requires Plain(a) && Plain(b) && '[' !in c
    ensures var t1, t2 := TagLine(n), TagLine(n + SucceededSuffix);
      DetectEventsSpec(a + t1 + b + t2 + c)
      == Ok(Detected(if IsSubRule(n) then [] else [n], a + b + c))
  {
    var t1, t2 := TagLine(n), TagLine(n + SucceededSuffix);
    RuleLines(n);
    PairTokens(a, t1, b, t2, c);
    PairFirstRemoval(a, t1, b, t2, c);
    PairSecondRemoval(a, b, t2, c);
    DetectPairAt(a + t1 + b + t2 + c, t1, t2, n, a + b + c);
  }
}
