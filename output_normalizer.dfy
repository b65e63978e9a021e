/** Helpers that turn one chunk of interpreter output into narrative text plus
    side-channel facts: `_strip_input_prompt_symbol`,
    `_strip_i7_event_debug_tags` and `_detect_extra_infos`. */
module OutputNormalizer {
  import opened Wrappers
  import opened Text
  import opened GlulxErrors
  import opened EventTags

  /** The input prompt the interpreter prints at the end of every turn. */
  const Prompt: string := "\n>"

  /** `_strip_input_prompt_symbol`. */
  function StripPrompt(text: string): (r: string)
    ensures EndsWith(text, Prompt) ==> r + Prompt == text
    ensures !EndsWith(text, Prompt) ==> r == text
  {
    if EndsWith(text, Prompt) then text[..|text| - 2] else text
  }

  /** Removing the prompt undoes appending it. */
  lemma StripPromptRoundTrip(s: string)
    ensures StripPrompt(s + Prompt) == s
  {
    assert EndsWith(s + Prompt, Prompt) by {
      assert (s + Prompt)[|s + Prompt| - |Prompt|..] == Prompt;
    }
    assert (s + Prompt)[..|s|] == s;
  }

  /** `_strip_i7_event_debug_tags`: the text with its event tags removed; the
      scanner's failures propagate. */
  function StripEventTags(text: string): (r: Result<string, Error>)
    ensures r.Ok? ==> IsSubseq(r.value, text)
    ensures r.Err? <==> DetectEventsSpec(text).Err?
    ensures '[' !in text ==> r == Ok(text)
  {
    match DetectEventsSpec(text)
    case Err(e) => Err(e)
    case Ok(d) =>
      DetectedEventsAreSucceeded(text);
      Ok(d.text)
  }

  // ---------------------------------------------------------------------------
  // Side-channel blocks <tag>\n...</tag>.

  /** The facts `_detect_extra_infos` looks for, in the order it looks. */
  const InfoTags: seq<string> := ["description", "inventory", "score"]

  function OpenMarker(tag: string): (r: string) { "<" + tag + ">\n" }

  function CloseMarker(tag: string): (r: string) { "</" + tag + ">" }

  /** Positions of a matched block: `text[start..end]` is the whole match and
      `text[innerStart..innerEnd]` the captured group. */
  datatype Block = Block(start: nat, innerStart: nat, innerEnd: nat, end: nat)

  /** `re.search(r"<tag>\n(.*)</tag>", text, re.DOTALL)`. The leftmost match
      begins at the first opening marker (when any closing marker follows it,
      every later opening marker is also followed only by closing markers it
      precedes), and the greedy `.*` runs to the last closing marker after it. */
  function FindBlock(text: string, tag: string): (r: Option<Block>)
    ensures r.Some? ==> var b := r.value;
      && b.innerStart == b.start + |OpenMarker(tag)| <= b.innerEnd
      && b.end == b.innerEnd + |CloseMarker(tag)| <= |text|
      && OccursAt(text, OpenMarker(tag), b.start)
      && OccursAt(text, CloseMarker(tag), b.innerEnd)
  {
    var open, close := OpenMarker(tag), CloseMarker(tag);
    match IndexOf(text, open, 0)
    case None => None
    case Some(s) =>
      match LastIndexOf(text, close, s + |open|)
      case None => None
      case Some(k) => Some(Block(s, s + |open|, k, k + |close|))
  }

  /** The block found is the leftmost-longest match: no opening marker comes
      before it and no closing marker after it; and when none is found, no
      opening marker is followed by a closing marker. */
  lemma FindBlockSpec(text: string, tag: string)
    ensures var r := FindBlock(text, tag);
      && (r.Some? ==>
        && (forall j: nat :: j < r.value.start ==> !OccursAt(text, OpenMarker(tag), j))
        && (forall j: nat :: r.value.innerEnd < j ==> !OccursAt(text, CloseMarker(tag), j)))
      && (r.None? ==> forall i: nat, k: nat ::
        OccursAt(text, OpenMarker(tag), i) && i + |OpenMarker(tag)| <= k ==> !OccursAt(text, CloseMarker(tag), k))
  {
    var open := OpenMarker(tag);
    IndexOfSpec(text, open, 0);
    match IndexOf(text, open, 0)
    case None =>
    case Some(s) => LastIndexOfSpec(text, CloseMarker(tag), s + |open|);
  }

  /** The facts found so far and the text left over. */
  datatype Extracted = Extracted(infos: map<string, string>, text: string)

  /** One iteration of `_detect_extra_infos`: when the block is present its
      inner text, cleaned of event tags, becomes the fact and the block is cut
      out of the text (`re.sub` finds no second match, since no closing marker
      follows the first match). */
  function ExtractTag(acc: Extracted, tag: string): (r: Result<Extracted, Error>)
    ensures FindBlock(acc.text, tag).None? ==> r == Ok(acc)
  {
    match FindBlock(acc.text, tag)
    case None => Ok(acc)
    case Some(b) =>
      match StripEventTags(acc.text[b.innerStart..b.innerEnd])
      case Err(e) => Err(e)
      case Ok(cleaned) =>
        Ok(Extracted(acc.infos[tag := cleaned], acc.text[..b.start] + acc.text[b.end..]))
  }

  /** The effect of a found block: the fact is the inner text cleaned of event
      tags, the block is cut out, and a failure of the scanner on the inner
      text is the failure of the whole call. */
  lemma ExtractTagFound(acc: Extracted, tag: string)
    requires FindBlock(acc.text, tag).Some?
    ensures var b := FindBlock(acc.text, tag).value;
      var inner := acc.text[b.innerStart..b.innerEnd];
      var r := ExtractTag(acc, tag);
      && (r.Err? <==> DetectEventsSpec(inner).Err?)
      && (r.Ok? ==> r.value.infos[tag] == DetectEventsSpec(inner).value.text)
      && (r.Ok? ==> r.value.text == acc.text[..b.start] + acc.text[b.end..])
  {
  }

  /** Only the fact `tag` is added or replaced; the facts found before for
      other names are kept as they were. */
  lemma ExtractTagKeys(acc: Extracted, tag: string)
    requires ExtractTag(acc, tag).Ok?
    ensures var r := ExtractTag(acc, tag).value;
      && r.infos.Keys <= acc.infos.Keys + {tag}
      && forall k :: k in acc.infos && k != tag ==> k in r.infos && r.infos[k] == acc.infos[k]
  {
  }

  /** What is left of the text, and the newly found fact, are drawn from the
      text in order: cutting a block and cleaning its inner text only ever
      delete characters. */
  lemma ExtractTagSubseq(acc: Extracted, tag: string)
    requires ExtractTag(acc, tag).Ok?
    ensures IsSubseq(ExtractTag(acc, tag).value.text, acc.text)
    ensures FindBlock(acc.text, tag).Some? ==> IsSubseq(ExtractTag(acc, tag).value.infos[tag], acc.text)
  {
    match FindBlock(acc.text, tag)
    case None =>
      SubseqRefl(acc.text);
    case Some(b) =>
      var inner := acc.text[b.innerStart..b.innerEnd];
      var cleaned := StripEventTags(inner).value;
      SubseqCut(acc.text, b.start, b.end);
      SliceIsSubseq(acc.text, b.innerStart, b.innerEnd);
      SubseqTrans(cleaned, inner, acc.text);
  }

  lemma SliceIsSubseq(s: string, i: nat, j: nat)
    requires i <= j <= |s|
    ensures IsSubseq(s[i..j], s)
  {
    SubseqCut(s[i..], j - i, |s| - i);
    assert s[i..][..j - i] + s[i..][|s| - i..] == s[i..j];
    SubseqSuffix(s, i);
    SubseqTrans(s[i..j], s[i..], s);
  }

  /** The iterations of `_detect_extra_infos` for the fact names `tags`,
      starting from `acc`; the first failure ends the call. */
  function ExtractAll(acc: Extracted, tags: seq<string>): (r: Result<Extracted, Error>)
    decreases |tags|
  {
    if |tags| == 0 then Ok(acc)
    else match ExtractTag(acc, tags[0])
      case Err(e) => Err(e)
      case Ok(next) => ExtractAll(next, tags[1..])
  }

  /** What `_detect_extra_infos` returns or raises for `text`. */
  function ExtraInfosSpec(text: string): (r: Result<Extracted, Error>) {
    ExtractAll(Extracted(map[], text), InfoTags)
  }

  /** `_detect_extra_infos`: the loop over the three fact names, filling the
      `matches` dictionary and cutting each found block out of the text. */
  method DetectExtraInfos(text: string) returns (r: Result<Extracted, Error>)
    ensures r == ExtraInfosSpec(text)
  {
    var acc := Extracted(map[], text);
    for i := 0 to |InfoTags|
      invariant ExtractAll(acc, InfoTags[i..]) == ExtraInfosSpec(text)
    {
      assert InfoTags[i..][1..] == InfoTags[i + 1..];
      var step := ExtractOne(acc, InfoTags[i]);
      if step.Err? {
        return step;
      }
      acc := step.value;
    }
    return Ok(acc);
  }

  /** The body of the loop of `_detect_extra_infos` for one fact name. */
  method ExtractOne(acc: Extracted, tag: string) returns (r: Result<Extracted, Error>)
    ensures r == ExtractTag(acc, tag)
  {
    var block := FindBlock(acc.text, tag);
    if block.None? {
      return Ok(acc);
    }
    var b := block.value;
    var detected := DetectEvents(acc.text[b.innerStart..b.innerEnd]);
    ExtractTagFound(acc, tag);
    if detected.Err? {
      return Err(detected.error);
    }
    return Ok(Extracted(acc.infos[tag := detected.value.text], acc.text[..b.start] + acc.text[b.end..]));
  }

  // ---------------------------------------------------------------------------
  // Properties of the extracted facts.

  /** Only facts named in `tags` are added, and the left-over text is a
      subsequence of the text the blocks were cut from. */
  lemma {:induction false} ExtractAllShape(acc: Extracted, tags: seq<string>)
    requires ExtractAll(acc, tags).Ok?
    ensures forall k :: k in ExtractAll(acc, tags).value.infos ==> k in acc.infos || k in tags
    ensures IsSubseq(ExtractAll(acc, tags).value.text, acc.text)
    decreases |tags|
  {
    if |tags| == 0 {
      SubseqRefl(acc.text);
    } else {
      var next := ExtractTag(acc, tags[0]).value;
      ExtractAllShape(next, tags[1..]);
      ExtractTagKeys(acc, tags[0]);
      ExtractTagSubseq(acc, tags[0]);
      SubseqTrans(ExtractAll(acc, tags).value.text, next.text, acc.text);
    }
  }

  /** Only the three known facts are ever produced, and the left-over text
      is a subsequence of the input. */
  lemma ExtraInfosShape(text: string)
    requires ExtraInfosSpec(text).Ok?
    ensures ExtraInfosSpec(text).value.infos.Keys <= {"description", "inventory", "score"}
    ensures IsSubseq(ExtraInfosSpec(text).value.text, text)
  {
    ExtractAllShape(Extracted(map[], text), InfoTags);
  }

  /** A chunk without any `<` holds no block: no fact, no change. */
  lemma NoBlocksNoFacts(text: string)
    requires '<' !in text
    ensures ExtraInfosSpec(text) == Ok(Extracted(map[], text))
  {
    forall tag | tag in InfoTags ensures FindBlock(text, tag).None? {
      NoOpenMarker(text, tag);
    }
    var none := Extracted(map[], text);
    assert ExtractAll(none, InfoTags[2..]) == Ok(none);
    assert ExtractAll(none, InfoTags[1..]) == Ok(none);
  }

  /** `OpenMarker("score") + body + CloseMarker("score") + rest`. */
  function ScoreBlockText(body: string, rest: string): string {
    OpenMarker("score") + body + CloseMarker("score") + rest
  }

  /** A text holding only a score block, followed by narrative without a
      block, gives the captured group verbatim (the newline before the
      closing marker included) as the fact, and the narrative as the text. */
  lemma ScoreBlockOnly(body: string, rest: string)
    requires '<' !in body && '[' !in body && '<' !in rest
    ensures ExtraInfosSpec(ScoreBlockText(body, rest)) == Ok(Extracted(map["score" := body], rest))
  {
    var text := ScoreBlockText(body, rest);
    var o, c := OpenMarker("score"), CloseMarker("score");
    var k := |o| + |body|;
    var none := Extracted(map[], text);
    var last := Extracted(map["score" := body], rest);
    NoOtherBlock(body, rest, "description");
    NoOtherBlock(body, rest, "inventory");
    ScoreBlockFound(body, rest);
    assert text[|o|..k] == body;
    NoTagsNoChange(body);
    assert text[..0] + text[k + |c|..] == rest;
    assert ExtractTag(none, "score") == Ok(last);
    assert ExtractAll(none, InfoTags[2..]) == Ok(last);
    assert ExtractAll(none, InfoTags[1..]) == Ok(last);
  }

  /** The score block is the block found for "score". */
  lemma ScoreBlockFound(body: string, rest: string)
    requires '<' !in body && '<' !in rest
    ensures var k := |OpenMarker("score")| + |body|;
      FindBlock(ScoreBlockText(body, rest), "score") == Some(Block(0, |OpenMarker("score")|, k, k + |CloseMarker("score")|))
  {
    ScoreOpensAtStart(body, rest);
    ScoreClosesOnce(body, rest);
  }

  lemma ScoreOpensAtStart(body: string, rest: string)
    ensures IndexOf(ScoreBlockText(body, rest), OpenMarker("score"), 0) == Some(0)
  {
    var text, o := ScoreBlockText(body, rest), OpenMarker("score");
    assert text[0..|o|] == o;
    IndexOfSpec(text, o, 0);
  }

  lemma ScoreClosesOnce(body: string, rest: string)
    requires '<' !in body && '<' !in rest
    ensures var o := OpenMarker("score");
      LastIndexOf(ScoreBlockText(body, rest), CloseMarker("score"), |o|) == Some(|o| + |body|)
  {
    var text, o, c := ScoreBlockText(body, rest), OpenMarker("score"), CloseMarker("score");
    var k := |o| + |body|;
    LessThanOnlyAtMarkers(body, rest);
    assert text[k..k + |c|] == c;
    assert OccursAt(text, c, k);
    forall j: nat | k < j ensures !OccursAt(text, c, j) {
      if j + |c| <= |text| {
        MismatchAt(text, c, j, 0);
      }
    }
    LastIndexOfSpec(text, c, |o|);
  }

  /** No description or inventory block hides in a lone score block. */
  lemma NoOtherBlock(body: string, rest: string, tag: string)
    requires '<' !in body && '<' !in rest
    requires tag == "description" || tag == "inventory"
    ensures FindBlock(ScoreBlockText(body, rest), tag).None?
  {
    var text := ScoreBlockText(body, rest);
    var m := OpenMarker(tag);
    var k := |OpenMarker("score")| + |body|;
    assert m[0] == '<' && m[1] != 's' && m[1] != '/';
    LessThanOnlyAtMarkers(body, rest);
    forall i: nat | i + |m| <= |text| ensures !OccursAt(text, m, i) {
      if i == 0 || i == k {
        MismatchAt(text, m, i, 1);
      } else {
        MismatchAt(text, m, i, 0);
      }
    }
    IndexOfSpec(text, m, 0);
  }

  /** In a lone score block a `<` only starts one of its two markers. */
  lemma LessThanOnlyAtMarkers(body: string, rest: string)
    requires '<' !in body && '<' !in rest
    ensures var text, k := ScoreBlockText(body, rest), |OpenMarker("score")| + |body|;
      && text[1] == 's' && text[k + 1] == '/'
      && forall i :: 0 <= i < |text| && i != 0 && i != k ==> text[i] != '<'
  {
    var o, c := OpenMarker("score"), CloseMarker("score");
    var text := ScoreBlockText(body, rest);
    var k := |o| + |body|;
    forall i | 0 <= i < |text| && i != 0 && i != k ensures text[i] != '<' {
      if i < |o| {
        assert text[i] == o[i];
      } else if i < k {
        assert text[i] == body[i - |o|];
      } else if i < k + |c| {
        assert text[i] == c[i - k];
      } else {
        assert text[i] == rest[i - k - |c|];
      }
    }
  }

  lemma NoOpenMarker(text: string, tag: string)
    requires '<' !in text
    ensures FindBlock(text, tag).None?
  {
    var open := OpenMarker(tag);
    forall i: nat | i + |open| <= |text| ensures !OccursAt(text, open, i) {
      assert text[i..i + |open|][0] == text[i];
      assert open[0] == '<';
    }
  }
}
