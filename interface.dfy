/**
 * The reply-shaping pipeline of the chat client (`ChatInterface` in
 * interface.py): normalising what the generation backend returns to text,
 * extracting the assistant's newest utterance by priority-ordered marker
 * rules, limiting its length, and the user-turn sequence that ties the
 * shaper to the conversation memory.
 */
module Interface {

  import opened Wrappers
  import opened Strings
  import opened Memory

  /** One record of a backend result: its `content` entry if it has one, and its `str(...)` rendering. */
  datatype Entry = Entry(content: Option<String>, rendered: String)

  /** The shapes a backend result arrives in: text, one record, or a list of records. */
  datatype RawResponse = Text(text: String) | Record(entry: Entry) | Records(entries: seq<Entry>)

  const AssistantTag: String := "<|assistant|>"
  const TagOpen: String := "<|"
  const AssistantLabel: String := "Assistant:"
  const UserLabel: String := "User:"
  const BotLabel: String := "Bot:"
  const SentenceSeparator: String := ". "
  const Ellipsis: String := "..."
  const MaxSentences: nat := 3
  const MaxChars: nat := 300
  const FallbackReply: String := "Sorry, I encountered an error generating a response."

  /**
   * The text a backend result stands for: a list is read through its last
   * record, a record through its `content` or else its rendering.  An empty
   * list has no last record (Python raises IndexError): None.
   */
  function Normalize(raw: RawResponse): (t: Option<String>)
    ensures t.None? <==> raw == Records([])
    ensures raw.Text? ==> t == Some(raw.text)
    ensures raw.Record? && raw.entry.content.Some? ==> t == raw.entry.content
    ensures raw.Record? && raw.entry.content.None? ==> t == Some(raw.entry.rendered)
    ensures raw.Records? && raw.entries != [] && Last(raw.entries).content.Some? ==> t == Last(raw.entries).content
    ensures raw.Records? && raw.entries != [] && Last(raw.entries).content.None? ==> t == Some(Last(raw.entries).rendered)
  {
    match raw
    case Text(s) => Some(s)
    case Record(e) => Some(if e.content.Some? then e.content.value else e.rendered)
    case Records(es) =>
      if es == [] then None
      else
        var e := Last(es);
        Some(if e.content.Some? then e.content.value else e.rendered)
  }

  /**
   * The marker rules of `_extract_assistant_response`, in priority order, on
   * normalised text.  Whichever rule applies, the result has no whitespace
   * at either end and is a contiguous substring of the text.
   */
  function ExtractText(t: String): (r: String)
    ensures NoEdgeSpace(r)
    ensures Contains(t, r)
  {
    if Contains(t, AssistantTag) && |Split(t, AssistantTag)| > 1 then
      var response := FromChatTemplate(t);
      ContainsTrans(t, AfterLast(t, AssistantTag), response);
      response
    else if Contains(t, AssistantLabel) then
      var response := Trim(AfterLast(t, AssistantLabel));
      ContainsTrans(t, AfterLast(t, AssistantLabel), response);
      response
    else if Contains(t, UserLabel) && (Contains(AfterLast(t, UserLabel), BotLabel) || Contains(AfterLast(t, UserLabel), AssistantLabel)) then
      var lastPart := AfterLast(t, UserLabel);
      var response := AfterLastReplyLabel(lastPart);
      ContainsTrans(t, lastPart, response);
      ContainsTrans(t, response, Trim(response));
      Trim(response)
    else
      Trim(t)
  }

  /**
   * The reply in chat-template output: after the last `<|assistant|>`,
   * trimmed, before the first `<|`, trimmed.  It holds no `<|`, has no
   * whitespace at either end and lies within the text after the last tag.
   */
  function FromChatTemplate(t: String): (r: String)
    ensures !Contains(r, TagOpen)
    ensures NoEdgeSpace(r)
    ensures Contains(AfterLast(t, AssistantTag), r)
  {
    TrimmedFirstPart(AfterLast(t, AssistantTag), TagOpen);
    Trim(Split(Trim(AfterLast(t, AssistantTag)), TagOpen)[0])
  }

  /**
   * The text after the last `Bot:`, or failing that after the last
   * `Assistant:`: a substring free of the label it was cut at.
   */
  function AfterLastReplyLabel(lastPart: String): (r: String)
    ensures Contains(lastPart, r)
    ensures Contains(lastPart, BotLabel) ==> !Contains(r, BotLabel)
    ensures !Contains(lastPart, BotLabel) ==> !Contains(r, AssistantLabel)
  {
    if Contains(lastPart, BotLabel) then AfterLast(lastPart, BotLabel) else AfterLast(lastPart, AssistantLabel)
  }

  /** `_extract_assistant_response`: None where the source raises on an empty list. */
  function ExtractAssistantResponse(raw: RawResponse): (r: Option<String>)
    ensures r.None? <==> raw == Records([])
    ensures r.Some? ==> NoEdgeSpace(r.value) && Contains(Normalize(raw).value, r.value)
  {
    match Normalize(raw)
    case None => None
    case Some(t) => Some(ExtractText(t))
  }

  /** When the text holds `<|assistant|>`, the chat-template rule applies. */
  lemma TagRule(t: String)
    requires Contains(t, AssistantTag)
    ensures ExtractText(t) == FromChatTemplate(t)
  {
    SplitCount(t, AssistantTag);
  }

  /** Cutting trimmed text before its first `sep` and trimming again leaves a substring free of `sep`. */
  lemma TrimmedFirstPart(a: String, sep: String)
    requires sep != []
    ensures var r := Trim(Split(Trim(a), sep)[0]);
      !Contains(r, sep) && NoEdgeSpace(r) && Contains(a, r)
  {
    var b := Trim(a);
    var c := Split(b, sep)[0];
    var r := Trim(c);
    SplitFirst(b, sep);
    ContainsPrefix(b, |c|);
    ContainsTrans(a, b, c);
    ContainsTrans(a, c, r);
    if Contains(r, sep) {
      ContainsTrans(c, r, sep);
    }
  }

  /** Without `<|assistant|>`, a text holding `Assistant:` yields the trimmed text after its last occurrence. */
  lemma LabelRule(t: String)
    requires !Contains(t, AssistantTag) && Contains(t, AssistantLabel)
    ensures ExtractText(t) == Trim(AfterLast(t, AssistantLabel))
  {
  }

  /**
   * The `User:` rule.  Its test for `Assistant:` after the last `User:` can
   * never succeed, since the text holds no `Assistant:` by then: the reply is
   * the trimmed text after the last `Bot:` following the last `User:`, and
   * otherwise the whole text trimmed.
   */
  lemma UserRule(t: String)
    requires !Contains(t, AssistantTag) && !Contains(t, AssistantLabel) && Contains(t, UserLabel)
    ensures var lastPart := AfterLast(t, UserLabel);
      ExtractText(t) == if Contains(lastPart, BotLabel) then Trim(AfterLast(lastPart, BotLabel)) else Trim(t)
  {
    var lastPart := AfterLast(t, UserLabel);
    if Contains(lastPart, AssistantLabel) {
      ContainsTrans(t, lastPart, AssistantLabel);
    }
  }

  /** Text with none of the markers comes back only trimmed. */
  lemma MarkerFreeRule(t: String)
    requires !Contains(t, AssistantTag) && !Contains(t, AssistantLabel) && !Contains(t, UserLabel)
    ensures ExtractText(t) == Trim(t)
  {
  }

  /**
   * Chat-template output: whatever precedes the final `<|assistant|>` and
   * whatever follows the next `<|`, the reply between them comes out
   * without the whitespace around it.
   */
  lemma ChatTemplateReply(before: String, lead: String, reply: String, trail: String, after: String)
    requires forall i :: 0 <= i < |lead| ==> IsSpace(lead[i])
    requires forall i :: 0 <= i < |trail| ==> IsSpace(trail[i])
    requires reply != [] && NoEdgeSpace(reply) && !Contains(reply, TagOpen)
    requires !Contains(TagOpen + after, AssistantTag)
    ensures ExtractText(before + AssistantTag + lead + reply + trail + TagOpen + after) == reply
  {
    var y := lead + reply + trail + TagOpen + after;
    var t := before + AssistantTag + y;
    assert t == before + AssistantTag + lead + reply + trail + TagOpen + after;
    assert t[|before|..|before| + |AssistantTag|] == AssistantTag;
    assert OccursAt(t, AssistantTag, |before|);
    TemplateTail(lead, reply, trail, after);
    MarkersStartOnce();
    AfterFinalOccurrence(before, AssistantTag, y);
    assert FromChatTemplate(t) == reply;
    TagRule(t);
  }

  /**
   * None of the markers starts with a character that recurs in it, so no
   * two occurrences of one marker ever overlap.
   */
  lemma MarkersStartOnce()
    ensures AssistantTag[0] !in AssistantTag[1..]
    ensures AssistantLabel[0] !in AssistantLabel[1..]
    ensures UserLabel[0] !in UserLabel[1..]
    ensures BotLabel[0] !in BotLabel[1..]
  {
    assert AssistantTag[1..] == ['|', 'a', 's', 's', 'i', 's', 't', 'a', 'n', 't', '|', '>'];
    assert AssistantLabel[1..] == ['s', 's', 'i', 's', 't', 'a', 'n', 't', ':'];
    assert UserLabel[1..] == ['s', 'e', 'r', ':'];
    assert BotLabel[1..] == ['o', 't', ':'];
  }

  /** The text after the final tag: no tag in it, and its first `<|`-delimited part, trimmed, is the reply. */
  lemma TemplateTail(lead: String, reply: String, trail: String, after: String)
    requires forall i :: 0 <= i < |lead| ==> IsSpace(lead[i])
    requires forall i :: 0 <= i < |trail| ==> IsSpace(trail[i])
    requires reply != [] && NoEdgeSpace(reply) && !Contains(reply, TagOpen)
    requires !Contains(TagOpen + after, AssistantTag)
    ensures var y := lead + reply + trail + TagOpen + after;
      !Contains(y, AssistantTag) && Trim(Split(Trim(y), TagOpen)[0]) == reply
  {
    NoTagBeforeSpaces(reply, trail);
    NoTagAfterSpaces(lead, reply + trail);
    var y := lead + reply + trail + TagOpen + after;
    assert y == (lead + (reply + trail)) + (TagOpen + after);
    NoAssistantTagBefore(lead + (reply + trail), TagOpen + after);
    FirstPartIsReply(lead, reply, trail, after);
  }

  /** Whitespace after text without `<|` adds no `<|`: whitespace is neither `<` nor `|`. */
  lemma NoTagBeforeSpaces(body: String, trail: String)
    requires forall i :: 0 <= i < |trail| ==> IsSpace(trail[i])
    requires !Contains(body, TagOpen)
    ensures !Contains(body + trail, TagOpen)
  {
    var s := body + trail;
    forall i | 0 <= i <= |s| - |TagOpen|
      ensures !OccursAt(s, TagOpen, i)
    {
      if i + 1 < |body| {
        assert s[i..i + 2] == body[i..i + 2];
        assert !OccursAt(body, TagOpen, i);
      } else {
        assert s[i + 1] == trail[i + 1 - |body|];
      }
    }
  }


  /** Whitespace before text without `<|` adds no `<|`. */
  lemma NoTagAfterSpaces(lead: String, body: String)
    requires forall i :: 0 <= i < |lead| ==> IsSpace(lead[i])
    requires !Contains(body, TagOpen)
    ensures !Contains(lead + body, TagOpen)
  {
    var s := lead + body;
    forall i | 0 <= i <= |s| - |TagOpen|
      ensures !OccursAt(s, TagOpen, i)
    {
      if i < |lead| {
        assert s[i] == lead[i];
      } else {
        assert s[i..i + 2] == body[i - |lead|..i - |lead| + 2];
        assert !OccursAt(body, TagOpen, i - |lead|);
      }
    }
  }


  /**
   * In text without `<|` followed by text starting with `<`, no `<|` starts
   * before the join: the last character is followed by `<`, not `|`.
   */
  lemma NoTagBefore(body: String, rest: String)
    requires !Contains(body, TagOpen) && rest != [] && rest[0] == '<'
    ensures forall i :: 0 <= i < |body| ==> !OccursAt(body + rest, TagOpen, i)
  {
    var s := body + rest;
    forall i | 0 <= i < |body|
      ensures !OccursAt(s, TagOpen, i)
    {
      if i + 1 < |body| {
        assert s[i..i + 2] == body[i..i + 2];
        assert !OccursAt(body, TagOpen, i);
      } else {
        assert s[i + 1] == rest[0];
      }
    }
  }


  /** `<|assistant|>` starts with `<|`, so it cannot start before the join either. */
  lemma NoAssistantTagBefore(body: String, rest: String)
    requires !Contains(body, TagOpen) && rest != [] && rest[0] == '<'
    requires !Contains(rest, AssistantTag)
    ensures !Contains(body + rest, AssistantTag)
  {
    var s := body + rest;
    NoTagBefore(body, rest);
    forall i | 0 <= i <= |s| - |AssistantTag|
      ensures !OccursAt(s, AssistantTag, i)
    {
      if OccursAt(s, AssistantTag, i) {
        assert s[i..i + 2] == AssistantTag[..2] == TagOpen;
        assert OccursAt(s, TagOpen, i);
        assert s[i..i + |AssistantTag|] == rest[i - |body|..i - |body| + |AssistantTag|];
        assert OccursAt(rest, AssistantTag, i - |body|);
      }
    }
  }

  /** Stripping, cutting before the first `<|` and stripping again leaves the reply. */
  lemma FirstPartIsReply(lead: String, reply: String, trail: String, after: String)
    requires forall i :: 0 <= i < |lead| ==> IsSpace(lead[i])
    requires forall i :: 0 <= i < |trail| ==> IsSpace(trail[i])
    requires reply != [] && NoEdgeSpace(reply) && !Contains(reply + trail, TagOpen)
    ensures Trim(Split(Trim(lead + reply + trail + TagOpen + after), TagOpen)[0]) == reply
  {
    var core := reply + trail + TagOpen;
    assert lead + reply + trail + TagOpen + after == lead + core + after;
    assert core[0] == reply[0] && Last(core) == '|';
    TrimKeepsCore(lead, core, after);
    ReplyBeforeTag(reply, trail, Trim(lead + core + after));
  }

  /** Text starting with the reply, whitespace and `<|` has the reply as its trimmed first part. */
  lemma ReplyBeforeTag(reply: String, trail: String, r: String)
    requires forall i :: 0 <= i < |trail| ==> IsSpace(trail[i])
    requires reply != [] && NoEdgeSpace(reply) && !Contains(reply + trail, TagOpen)
    requires IsPrefix(reply + trail + TagOpen, r)
    ensures Trim(Split(r, TagOpen)[0]) == reply
  {
    CutBeforeTag(reply + trail, r);
    TrimBeforeSpaces(reply, trail);
  }

  /** Text that starts with `<|`-free text and then `<|` has that text as its first part. */
  lemma CutBeforeTag(body: String, r: String)
    requires !Contains(body, TagOpen) && IsPrefix(body + TagOpen, r)
    ensures Split(r, TagOpen)[0] == body
  {
    var rest := r[|body|..];
    assert r == body + rest;
    assert rest[..2] == TagOpen;
    assert OccursAt(r, TagOpen, |body|);
    SplitCount(r, TagOpen);
    SplitFirst(r, TagOpen);
    var p := Split(r, TagOpen)[0];
    NoTagBefore(body, rest);
    assert r[|body| + 1] == '|';
    OccursInPrefix(r, p, |body|);
    assert p == r[..|body|];
  }

  /** An occurrence of `<|` in `r` that fits in a prefix `p` of `r` is one in `p`. */
  lemma OccursInPrefix(r: String, p: String, k: nat)
    requires IsPrefix(p, r) && OccursAt(r, TagOpen, k)
    ensures k + 2 <= |p| ==> OccursAt(p, TagOpen, k)
  {
    if k + 2 <= |p| {
      assert p[k..k + 2] == r[k..k + 2];
    }
  }


  /** Stripping keeps a core that starts and ends with non-whitespace after a whitespace lead. */
  lemma TrimKeepsCore(lead: String, core: String, rest: String)
    requires forall i :: 0 <= i < |lead| ==> IsSpace(lead[i])
    requires core != [] && !IsSpace(core[0]) && !IsSpace(Last(core))
    ensures IsPrefix(core, Trim(lead + core + rest))
  {
    LeadBeforeCore(lead, core, rest);
    TrimKeepsPrefix(lead + core + rest, core, |lead|);
  }



  /**
   * Without a chat-template tag, the reply is what follows the final
   * `Assistant:`, trimmed, whatever precedes it.
   */
  lemma LabelledReply(before: String, reply: String)
    requires !Contains(before + AssistantLabel + reply, AssistantTag)
    requires !Contains(reply, AssistantLabel)
    ensures ExtractText(before + AssistantLabel + reply) == Trim(reply)
  {
    var t := before + AssistantLabel + reply;
    assert t[|before|..|before| + |AssistantLabel|] == AssistantLabel;
    assert OccursAt(t, AssistantLabel, |before|);
    LabelRule(t);
    MarkersStartOnce();
    AfterFinalOccurrence(before, AssistantLabel, reply);
  }

  /**
   * A transcript of `User:` and `Bot:` lines, with neither marker above:
   * the reply is what follows the `Bot:` after the final `User:`, trimmed.
   */
  lemma BotReply(before: String, question: String, reply: String)
    requires var t := before + UserLabel + question + BotLabel + reply;
      !Contains(t, AssistantTag) && !Contains(t, AssistantLabel)
    requires !Contains(question + BotLabel + reply, UserLabel)
    requires !Contains(reply, BotLabel)
    ensures ExtractText(before + UserLabel + question + BotLabel + reply) == Trim(reply)
  {
    var lastPart := question + BotLabel + reply;
    var t := before + UserLabel + lastPart;
    assert t == before + UserLabel + question + BotLabel + reply;
    assert t[|before|..|before| + |UserLabel|] == UserLabel;
    assert OccursAt(t, UserLabel, |before|);
    UserRule(t);
    MarkersStartOnce();
    AfterFinalOccurrence(before, UserLabel, lastPart);
    BotPart(question, reply);
  }

  lemma BotPart(question: String, reply: String)
    requires !Contains(reply, BotLabel)
    ensures var lastPart := question + BotLabel + reply;
      Contains(lastPart, BotLabel) && AfterLast(lastPart, BotLabel) == reply
  {
    var lastPart := question + BotLabel + reply;
    assert lastPart[|question|..|question| + |BotLabel|] == BotLabel;
    assert OccursAt(lastPart, BotLabel, |question|);
    MarkersStartOnce();
    AfterFinalOccurrence(question, BotLabel, reply);
  }

  /** The chat-template example: only the assistant's words survive. */
  lemma ChatTemplateExample(t: String)
    requires t == "<s>..." + AssistantTag + "\n" + "Hello there!" + "\n" + TagOpen + "user|>" + "\n"
    ensures ExtractText(t) == "Hello there!"
  {
    NotContainsByChar(TagOpen + ("user|>" + "\n"), AssistantTag, 'a');
    NotContainsByChar("Hello there!", TagOpen, '<');
    ChatTemplateReply("<s>...", "\n", "Hello there!", "\n", "user|>" + "\n");
    assert t == "<s>..." + AssistantTag + "\n" + "Hello there!" + "\n" + TagOpen + ("user|>" + "\n");
  }

  /** The labelled example: the label and the space after it are dropped. */
  lemma LabelExample(t: String)
    requires t == UserLabel + " Is the sky blue?\n" + AssistantLabel + " The sky is blue."
    ensures ExtractText(t) == "The sky is blue."
  {
    var before := UserLabel + " Is the sky blue?\n";
    var reply := " The sky is blue.";
    LabelExampleParts(before, reply);
    LabelledReply(before, reply);
  }

  lemma LabelExampleParts(before: String, reply: String)
    requires before == UserLabel + " Is the sky blue?\n"
    requires reply == " The sky is blue."
    ensures !Contains(before + AssistantLabel + reply, AssistantTag)
    ensures !Contains(reply, AssistantLabel)
    ensures Trim(reply) == "The sky is blue."
  {
    LabelExampleNoTag(before, reply);
    NotContainsByChar(reply, AssistantLabel, ':');
    assert reply == [' '] + "The sky is blue.";
    TrimAfterSpaces([' '], "The sky is blue.");
  }

  lemma LabelExampleNoTag(before: String, reply: String)
    requires before == UserLabel + " Is the sky blue?\n"
    requires reply == " The sky is blue."
    ensures !Contains(before + AssistantLabel + reply, AssistantTag)
  {
    var t := before + AssistantLabel + reply;
    assert '<' !in before && '<' !in AssistantLabel && '<' !in reply;
    assert '<' !in t;
    NotContainsByChar(t, AssistantTag, '<');
  }



  /**
   * `_limit_response_length`'s sentence step: more than `maxSentences` parts
   * split on ". " are cut to the first `maxSentences`, rejoined, and ended
   * with a period.
   */
  function LimitSentences(s: String, maxSentences: nat): (r: String)
    ensures |Split(s, SentenceSeparator)| <= maxSentences ==> r == s
    ensures |Split(s, SentenceSeparator)| > maxSentences ==> EndsWith(r, ".") && IsPrefix(r[..|r| - 1], s)
    ensures |Split(s, SentenceSeparator)| > maxSentences ==>
      var kept := Join(Split(s, SentenceSeparator)[..maxSentences], SentenceSeparator);
      r == if EndsWith(kept, ".") then kept else kept + "."
    ensures Clean(s) ==> Clean(r)
  {
    var sentences := Split(s, SentenceSeparator);
    if |sentences| > maxSentences then
      var kept := Join(sentences[..maxSentences], SentenceSeparator);
      KeptSentencesArePrefix(s, maxSentences);
      CloseSentence(s, kept);
      if EndsWith(kept, ".") then kept else kept + "."
    else s
  }

  /** Closing a prefix of `s` with a period gives a period-ended prefix, clean when `s` is. */
  lemma CloseSentence(s: String, kept: String)
    requires IsPrefix(kept, s)
    ensures var r := if EndsWith(kept, ".") then kept else kept + ".";
      EndsWith(r, ".") && IsPrefix(r[..|r| - 1], s) && (Clean(s) ==> Clean(r))
  {
    if EndsWith(kept, ".") {
      assert kept == kept[..|kept| - 1] + ".";
      if Clean(s) { CleanPrefixThen(s, kept[..|kept| - 1], "."); }
    } else {
      assert (kept + ".")[..|kept|] == kept;
      if Clean(s) { CleanPrefixThen(s, kept, "."); }
    }
  }

  /** The first `n` sentences, rejoined, are a prefix of the text they came from. */
  lemma KeptSentencesArePrefix(s: String, n: nat)
    requires n < |Split(s, SentenceSeparator)|
    ensures IsPrefix(Join(Split(s, SentenceSeparator)[..n], SentenceSeparator), s)
  {
    if n > 0 {
      JoinSplitPrefix(s, SentenceSeparator, n);
    }
  }

  /**
   * Text that runs on past `n` period-free sentences is cut to exactly those
   * sentences, rejoined with ". " and closed with a period.
   */
  lemma SentencesCut(sentences: seq<String>, rest: String)
    requires |sentences| > 0
    requires forall k :: 0 <= k < |sentences| ==> sentences[k] != [] && '.' !in sentences[k]
    ensures var kept := Join(sentences, SentenceSeparator);
      LimitSentences(kept + SentenceSeparator + rest, |sentences|) == kept + "."
  {
    var n := |sentences|;
    var kept := Join(sentences, SentenceSeparator);
    var s := kept + SentenceSeparator + rest;
    SplitJoinLeading(sentences, SentenceSeparator, rest);
    assert (sentences + Split(rest, SentenceSeparator))[..n] == sentences;
    JoinLastChar(sentences, SentenceSeparator);
    assert Last(Last(sentences)) in Last(sentences);
    assert kept[|kept| - 1..] != ".";
  }

  /** The sentence example: a fourth sentence is dropped and the third closed with a period. */
  lemma SentenceExample(t: String)
    requires t == "One" + SentenceSeparator + "Two" + SentenceSeparator + "Three" + SentenceSeparator + "Four."
    ensures LimitResponseLength(t, MaxSentences, MaxChars) == "One" + SentenceSeparator + "Two" + SentenceSeparator + "Three" + "."
  {
    SentenceExampleClean(t);
    SentenceExampleCut(t);
  }

  lemma SentenceExampleClean(t: String)
    requires t == "One" + SentenceSeparator + "Two" + SentenceSeparator + "Three" + SentenceSeparator + "Four."
    ensures CollapseWhitespace(t) == t
  {
    assert Clean(t);
  }

  lemma SentenceExampleCut(t: String)
    requires t == "One" + SentenceSeparator + "Two" + SentenceSeparator + "Three" + SentenceSeparator + "Four."
    ensures LimitSentences(t, MaxSentences) == "One" + SentenceSeparator + "Two" + SentenceSeparator + "Three" + "."
  {
    var sentences: seq<String> := ["One", "Two", "Three"];
    SentenceExampleJoin();
    SentencesCut(sentences, "Four.");
  }

  lemma SentenceExampleJoin()
    ensures Join(["One", "Two", "Three"], SentenceSeparator) == "One" + SentenceSeparator + "Two" + SentenceSeparator + "Three"
  {
  }

  /**
   * `_limit_response_length`'s character step: text longer than `maxChars`
   * is cut to its first `maxChars` characters, back to before the last space
   * among them, and ends in "...".
   */
  function LimitChars(s: String, maxChars: nat): (r: String)
    ensures |r| <= maxChars + |Ellipsis|
    ensures |s| <= maxChars ==> r == s
    ensures |s| > maxChars ==> EndsWith(r, Ellipsis) && IsPrefix(r[..|r| - |Ellipsis|], s)
    ensures |s| > maxChars && ' ' in s[..maxChars] ==>
      && |r| - |Ellipsis| < maxChars
      && s[|r| - |Ellipsis|] == ' '
      && ' ' !in s[|r| - |Ellipsis| + 1..maxChars]
    ensures |s| > maxChars && ' ' !in s[..maxChars] ==> r == s[..maxChars] + Ellipsis
    ensures Clean(s) ==> Clean(r)
  {
    if |s| > maxChars then
      var head := BeforeLast(s[..maxChars], ' ');
      assert ' ' in s[..maxChars] ==> s[..maxChars][|head| + 1..] == s[|head| + 1..maxChars];
      assert Clean(s) ==> Clean(head + Ellipsis) by {
        if Clean(s) { CleanPrefixThen(s, head, Ellipsis); }
      }
      head + Ellipsis
    else s
  }

  /**
   * `_limit_response_length`: the collapsed reply, cut by sentences and then
   * by characters.  It is clean text at most `maxChars + 3` long, and text
   * already within both limits comes back exactly as collapsed.
   */
  function LimitResponseLength(response: String, maxSentences: nat, maxChars: nat): (r: String)
    ensures Clean(r)
    ensures |r| <= maxChars + |Ellipsis|
    ensures var c := CollapseWhitespace(response);
      |Split(c, SentenceSeparator)| <= maxSentences && |c| <= maxChars ==> r == c
  {
    LimitChars(LimitSentences(CollapseWhitespace(response), maxSentences), maxChars)
  }

  /** The extracted reply to a backend call, or None where the call or the extraction raises. */
  function Reply(result: Option<RawResponse>): (r: Option<String>)
    ensures r.None? <==> result == None || result == Some(Records([]))
    ensures r.Some? ==> NoEdgeSpace(r.value) && Contains(Normalize(result.value).value, r.value)
  {
    match result
    case None => None
    case Some(raw) => ExtractAssistantResponse(raw)
  }

  /**
   * A clean, marker-free, single-sentence text within the length limit comes
   * through extraction and shaping unchanged.  The backend's own error
   * sentence is such a text: the backend does not raise but returns that
   * sentence as ordinary output, so the turn appends it as the reply.
   */
  lemma PlainTextAnswered(t: String)
    requires Clean(t) && |t| <= MaxChars
    requires !Contains(t, AssistantTag) && !Contains(t, AssistantLabel) && !Contains(t, UserLabel)
    requires !Contains(t, SentenceSeparator)
    ensures Reply(Some(Text(t))) == Some(t)
    ensures LimitResponseLength(t, MaxSentences, MaxChars) == t
  {
    MarkerFreeRule(t);
    SplitCount(t, SentenceSeparator);
  }

  /** The chat client: its conversation memory and the user-turn sequence. */
  class ChatInterface {

    const memory: ChatMemory

    constructor (windowSize: nat)
      ensures fresh(memory) && memory.Valid()
      ensures memory.windowSize == windowSize && memory.memory == []
    {
      memory := new ChatMemory(windowSize);
    }

    /**
     * `_handle_user_message` with the backend as the function `generate`,
     * whose None stands for a backend call that raised: append the user
     * message, send the snapshot, shape the result and append it as the
     * assistant's message.  Where the call raises or extraction raises on an
     * empty list, the fallback text is only shown and the user message stays
     * unanswered.  (The shipped backend catches its own errors and returns
     * its error sentence as text, which takes the first path; see
     * `PlainTextAnswered`.)  Returns what is shown to the user.
     */
    method HandleUserMessage(userInput: String, generate: seq<Message> -> Option<RawResponse>) returns (shown: String)
      requires memory.Valid()
      modifies memory
      ensures memory.Valid()
      ensures var afterUser := LastN(old(memory.memory) + [Message(User, userInput)], memory.Capacity());
        match Reply(generate([memory.systemPrompt] + afterUser))
        case Some(reply) =>
          && shown == LimitResponseLength(reply, MaxSentences, MaxChars)
          && memory.memory == LastN(afterUser + [Message(Assistant, shown)], memory.Capacity())
        case None =>
          shown == FallbackReply && memory.memory == afterUser
    {
      memory.AddUserMessage(userInput);
      var messages := memory.GetConversationHistory();
      assert messages == [memory.systemPrompt] + memory.memory;
      var fullResponse := generate(messages);
      match Reply(fullResponse)
      case Some(reply) =>
        shown := LimitResponseLength(reply, MaxSentences, MaxChars);
        memory.AddAssistantMessage(shown);
      case None =>
        shown := FallbackReply;
    }
  }

}
