/** `generate_knowledge_and_quiz` of `ai_utils.py`: the guards before the
    Gemini call, the single call, and the cleaning of its reply before
    JSON decoding. */
module Synth {
  import opened Wrappers
  import opened PyStr

  /** The argument of `lstrip`: read by Python as the set of characters
      `` ` ``, `j`, `s`, `o`, `n`. */
  const FenceChars := "```json"
  /** The argument of `rstrip`: the single character `` ` ``. */
  const TickChars := "```"

  /** A slice of a slice is a slice. */
  lemma SliceOfSlice(raw: string, i: int, s: string, j: int, r: string)
    requires SliceAt(raw, i, s) && SliceAt(s, j, r)
    ensures SliceAt(raw, i + j, r)
  {
    var inner := raw[i + j..i + j + |r|];
    var outer := raw[i..i + |s|];
    assert forall k | 0 <= k < |r| :: inner[k] == outer[j + k];
    assert inner == s[j..j + |r|];
  }

  /** A prefix of a suffix is a slice. */
  lemma PrefixOfSuffix(s: string, l: string, r: string)
    requires |l| <= |s| && l == s[|s| - |l|..]
    requires |r| <= |l| && r == l[..|r|]
    ensures SliceAt(s, |s| - |l|, r)
  {
    assert s[|s| - |l|..][..|r|] == r;
  }

  /** `lstrip` followed by `rstrip` keeps a contiguous piece. */
  lemma StripsAreSlice(s: string, front: Option<string>, back: Option<string>)
    ensures SliceAt(s, |s| - |LStrip(s, front)|, RStrip(LStrip(s, front), back))
  {
    PrefixOfSuffix(s, LStrip(s, front), RStrip(LStrip(s, front), back));
  }

  /** `text.strip().lstrip("```json").rstrip("```")`: it starts with none
      of `` ` ``, `j`, `s`, `o`, `n` and does not end with a backtick. */
  function Clean(raw: string): (r: string)
    ensures r != [] ==> r[0] !in FenceChars && r[|r| - 1] != '`'
  {
    RStrip(LStrip(Strip(raw), Some(FenceChars)), Some(TickChars))
  }

  /** `strip()`, then `lstrip` and `rstrip` with any arguments, keep a
      contiguous piece. */
  lemma StripChainIsSlice(raw: string, front: Option<string>, back: Option<string>)
    ensures exists i :: SliceAt(raw, i, RStrip(LStrip(Strip(raw), front), back))
  {
    var s := Strip(raw);
    var c := RStrip(LStrip(s, front), back);
    var i := |RStrip(raw, None)| - |s|;
    var j := |s| - |LStrip(s, front)|;
    assert SliceAt(raw, i, s) by {
      StripIsSlice(raw);
    }
    assert SliceAt(s, j, c) by {
      StripsAreSlice(s, front, back);
    }
    assert SliceAt(raw, i + j, c) by {
      SliceOfSlice(raw, i, s, j, c);
    }
  }

  /** The cleaned reply is a contiguous piece of the raw reply. */
  lemma CleanIsSlice(raw: string)
    ensures exists i :: SliceAt(raw, i, Clean(raw))
  {
    StripChainIsSlice(raw, Some(FenceChars), Some(TickChars));
    var i :| SliceAt(raw, i, RStrip(LStrip(Strip(raw), Some(FenceChars)), Some(TickChars)));
    assert SliceAt(raw, i, Clean(raw));
  }

  /** `lstrip` leaves alone a string whose first character it keeps. */
  lemma KeptAtFront(s: string, chars: Option<string>)
    requires s != [] && !Strips(chars, s[0])
    ensures LStrip(s, chars) == s
  {
  }

  /** `rstrip` leaves alone a string whose last character it keeps. */
  lemma KeptAtBack(s: string, chars: Option<string>)
    requires s != [] && !Strips(chars, s[|s| - 1])
    ensures RStrip(s, chars) == s
  {
  }

  /** Neither fence strip touches a string that opens and closes with a
      brace. */
  lemma BracedUntouched(s: string)
    requires s != [] && s[0] == '{' && s[|s| - 1] == '}'
    ensures RStrip(LStrip(s, Some(FenceChars)), Some(TickChars)) == s
  {
    KeptAtFront(s, Some(FenceChars));
    KeptAtBack(s, Some(TickChars));
  }

  /** When the model answers with a bare JSON object the cleaning changes
      nothing but surrounding whitespace. */
  lemma CleanKeepsObject(raw: string)
    requires Strip(raw) != [] && Strip(raw)[0] == '{' && Strip(raw)[|Strip(raw)| - 1] == '}'
    ensures Clean(raw) == Strip(raw)
  {
    BracedUntouched(Strip(raw));
  }

  /** `lstrip` removes a leading run of stripped characters and stops at
      the first character it keeps. */
  lemma LStripRun(a: string, b: string, chars: Option<string>)
    requires forall i :: 0 <= i < |a| ==> Strips(chars, a[i])
    requires b != [] && !Strips(chars, b[0])
    ensures LStrip(a + b, chars) == b
  {
    var ab := a + b;
    assert ab[|a|] == b[0];
    assert forall i :: 0 <= i < |a| ==> ab[i] == a[i];
    assert ab[|a|..] == b;
  }

  /** `rstrip` removes a trailing run of stripped characters and stops at
      the last character it keeps. */
  lemma RStripRun(a: string, b: string, chars: Option<string>)
    requires a != [] && !Strips(chars, a[|a| - 1])
    requires forall i :: 0 <= i < |b| ==> Strips(chars, b[i])
    ensures RStrip(a + b, chars) == a
  {
    var ab := a + b;
    assert ab[|a| - 1] == a[|a| - 1];
    assert forall i :: 0 <= i < |b| ==> ab[|a| + i] == b[i];
    assert ab[..|a|] == a;
  }

  /** Text that starts and ends with a non-whitespace character has no
      whitespace to strip. */
  lemma StripUntouched(raw: string)
    requires raw != [] && !IsSpace(raw[0]) && !IsSpace(raw[|raw| - 1])
    ensures Strip(raw) == raw
  {
    KeptAtBack(raw, None);
    KeptAtFront(raw, None);
  }

  /** A reply fenced as `open` … `` ``` ``, where `open` starts with a
      backtick and is made of fence characters only (`` ```json ``, the fence
      the cleaning expects, or a plain `` ``` ``), comes out as exactly the text
      between the fences, provided that text neither starts with a fence
      character nor ends with a backtick. */
  lemma CleanRemovesFence(open: string, body: string)
    requires open != [] && open[0] == '`'
    requires forall i :: 0 <= i < |open| ==> open[i] in FenceChars
    requires body != [] && body[0] !in FenceChars && body[|body| - 1] != '`'
    ensures Clean(open + body + "```") == body
  {
    var raw := open + body + "```";
    assert Strip(raw) == raw by {
      assert raw[0] == '`' && raw[|raw| - 1] == '`';
      StripUntouched(raw);
    }
    assert LStrip(raw, Some(FenceChars)) == body + "```" by {
      assert raw == open + (body + "```");
      LStripRun(open, body + "```", Some(FenceChars));
    }
    assert RStrip(body + "```", Some(TickChars)) == body by {
      RStripRun(body, "```", Some(TickChars));
    }
  }

  /** The fence the cleaning expects: `` ```json `` … `` ``` ``. */
  lemma CleanRemovesJsonFence(body: string)
    requires body != [] && body[0] !in FenceChars && body[|body| - 1] != '`'
    ensures Clean("```json" + body + "```") == body
  {
    CleanRemovesFence(FenceChars, body);
  }

  /** Cleaning is idempotent on its results that carry no surrounding
      whitespace. */
  lemma CleanIdempotentWhenTrimmed(raw: string)
    requires Strip(Clean(raw)) == Clean(raw)
    ensures Clean(Clean(raw)) == Clean(raw)
  {
  }

  /** `lstrip` takes a character set, not a prefix: a plain `` ``` `` fence
      is removed as well, leaving the newlines inside it. */
  lemma CleanStripsPlainFence(plain: string)
    requires plain == "```\n{}\n```"
    ensures Clean(plain) == "\n{}\n"
  {
    assert plain == "```" + "\n{}\n" + "```";
    CleanRemovesFence("```", "\n{}\n");
  }

  /** `lstrip` takes a character set, not a prefix: the leading `n` of a
      bare `null` is removed. */
  lemma CleanStripsNull(bare: string)
    requires bare == "null"
    ensures Clean(bare) == "ull"
  {
    assert Strip(bare) == bare by {
      StripUntouched(bare);
    }
    assert LStrip(bare, Some(FenceChars)) == "ull" by {
      assert bare == "n" + "ull";
      LStripRun("n", "ull", Some(FenceChars));
    }
    assert RStrip("ull", Some(TickChars)) == "ull" by {
      KeptAtBack("ull", Some(TickChars));
    }
  }

  /** A second strip removes the newlines a fenced reply leaves behind. */
  lemma StripNewlines(once: string)
    requires once == "\n{}\n"
    ensures Strip(once) == "{}"
  {
    assert RStrip(once, None) == "\n{}" by {
      assert once == "\n{}" + "\n";
      RStripRun("\n{}", "\n", None);
    }
    assert LStrip("\n{}", None) == "{}" by {
      assert "\n{}" == "\n" + "{}";
      LStripRun("\n", "{}", None);
    }
  }

  /** Cleaning is not idempotent in general: the whitespace left inside
      the fences is stripped on a second pass. */
  lemma CleanNotIdempotent(raw: string)
    requires raw == "```json\n{}\n```"
    ensures Clean(raw) == "\n{}\n"
    ensures Clean(Clean(raw)) == "{}"
  {
    assert Clean(raw) == "\n{}\n" by {
      assert raw == "```json" + "\n{}\n" + "```";
      CleanRemovesJsonFence("\n{}\n");
    }
    StripNewlines("\n{}\n");
    BracedUntouched("{}");
  }

  /** What the function returns, and how many times it called the model. */
  datatype Reply<J> = Reply(value: Option<J>, modelCalls: nat)

  /** `os.getenv("GEMINI_API_KEY")` is set and not empty. */
  predicate HasKey(apiKey: Option<string>) {
    apiKey.Some? && apiKey.value != ""
  }

  /** `generate_knowledge_and_quiz(text)`. `apiKey` is the environment
      variable, `model` the Gemini call on the prompt built around `text`
      (`None` when it raises) and `decode` is `json.loads` (`None` when it
      raises). Empty or whitespace-only text and a missing key return
      `None` before any call; otherwise the model is called exactly once,
      and a value comes back only from decoding its cleaned reply. */
  function GenerateKnowledgeAndQuiz<J>(text: string, apiKey: Option<string>,
                                       model: string -> Option<string>,
                                       decode: string -> Option<J>): (r: Reply<J>)
    ensures r.modelCalls <= 1
    ensures r.modelCalls == 1 <==> Strip(text) != "" && HasKey(apiKey)
    ensures r.modelCalls == 0 ==> r.value.None?
    ensures r.value.Some? ==> model(text).Some? && r.value == decode(Clean(model(text).value))
    ensures Strip(text) != "" && HasKey(apiKey) && model(text).Some? ==>
      r.value == decode(Clean(model(text).value))
  {
    if Strip(text) == "" then Reply(None, 0)
    else if !HasKey(apiKey) then Reply(None, 0)
    else match model(text)
         case None => Reply(None, 1)
         case Some(raw) => Reply(decode(Clean(raw)), 1)
  }

  /** Blank input (empty, or nothing but whitespace) is answered with
      `None` without a model call, whatever the model would have said. */
  lemma BlankTextMakesNoCall<J>(text: string, apiKey: Option<string>,
                                model: string -> Option<string>, decode: string -> Option<J>)
    requires forall i :: 0 <= i < |text| ==> IsSpace(text[i])
    ensures GenerateKnowledgeAndQuiz(text, apiKey, model, decode) == Reply(None, 0)
  {
    StripEmptyIffBlank(text);
  }

  /** With no key configured the answer is `None`, with no model call,
      whatever the text. */
  lemma MissingKeyMakesNoCall<J>(text: string, apiKey: Option<string>,
                                 model: string -> Option<string>, decode: string -> Option<J>)
    requires !HasKey(apiKey)
    ensures GenerateKnowledgeAndQuiz(text, apiKey, model, decode) == Reply(None, 0)
  {
  }

  /** Any failure after the guards, of the call or of decoding, is `None`
      and does not propagate. */
  lemma CallFailureIsNone<J>(text: string, apiKey: Option<string>,
                             model: string -> Option<string>, decode: string -> Option<J>)
    requires Strip(text) != "" && HasKey(apiKey)
    requires model(text).None? || decode(Clean(model(text).value)).None?
    ensures GenerateKnowledgeAndQuiz(text, apiKey, model, decode) == Reply(None, 1)
  {
  }

  /** When the guards pass and the call answers, the result is whatever
      `json.loads` makes of the cleaned reply, after exactly one call. */
  lemma CallSuccessIsDecoded<J>(text: string, apiKey: Option<string>,
                                model: string -> Option<string>, decode: string -> Option<J>)
    requires Strip(text) != "" && HasKey(apiKey) && model(text).Some?
    ensures GenerateKnowledgeAndQuiz(text, apiKey, model, decode)
            == Reply(decode(Clean(model(text).value)), 1)
  {
  }
}
