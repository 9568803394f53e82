/** Building the candidate word of a committed selection: the selected cells'
    values in selection order, with every wildcard cell replaced, left to
    right, by the answer to one prompt. The prompts are an oracle: the i-th
    wildcard reads the i-th answer, `None` is a cancelled prompt, and an
    oracle that has run out reads as cancelled. One missing or invalid answer
    rejects the whole word. */
module Wildcards {
  import opened Common
  import opened Chars

  /** `join('')`. */
  function Join(parts: seq<string>): (w: string)
    ensures |parts| > 0 ==> w == parts[0] + Join(parts[1..])
  {
    if |parts| == 0 then "" else parts[0] + Join(parts[1..])
  }

  /** The character one prompt answer yields: `None` for a cancelled or blank
      answer, or one whose first character after `toKatakana` and upper case
      is not a game character. */
  function Answer(input: Option<string>): (a: Option<string>)
    ensures a.Some? ==> IsValidGameChar(a.value) && |a.value| == 1
    ensures a.Some? ==> input.Some? && Trim(input.value) != ""
  {
    match input
    case None => None
    case Some(s) =>
      if Trim(s) == "" then None
      else
        var ch := FirstChar(ToUpper(ToKatakana(s)));
        if IsValidGameChar(ch) then Some(ch) else None
  }

  /** The whole rule for a present reply: it is accepted exactly when its
      first character is a hiragana or katakana letter or `f`/`F`, and the
      accepted character is that first character converted to katakana and
      upper-cased. Anything after the first character is ignored. */
  lemma AnswerFirstChar(s: string)
    ensures Answer(Some(s)).Some? <==>
      |s| > 0 && (IsHiragana(s[0]) || IsKatakana(s[0]) || s[0] == 'f' || s[0] == 'F')
    ensures Answer(Some(s)).Some? ==> Answer(Some(s)).value == [UpperOf(KanaOf(s[0]))]
  {
    if |s| > 0 {
      ConvertedFirstChar(s[0]);
      if IsWhitespace(s[0]) {
        LeadingSpaceRefused(s);
      } else {
        NonBlankAnswer(s);
      }
    } else {
      TrimEmptyIffBlank(s);
    }
  }

  /** A reply whose first character is not white space is judged by that
      character alone. */
  lemma NonBlankAnswer(s: string)
    requires |s| > 0 && !IsWhitespace(s[0])
    ensures var ch := [UpperOf(KanaOf(s[0]))];
      Answer(Some(s)) == if IsValidGameChar(ch) then Some(ch) else None
  {
    TrimEmptyIffBlank(s);
    assert FirstChar(ToUpper(ToKatakana(s))) == [UpperOf(KanaOf(s[0]))];
  }

  /** Which first characters survive conversion as a game character. */
  lemma ConvertedFirstChar(c: char)
    ensures IsValidGameChar([UpperOf(KanaOf(c))]) <==>
      IsHiragana(c) || IsKatakana(c) || c == 'f' || c == 'F'
    ensures IsWhitespace(c) ==> !IsValidGameChar([UpperOf(KanaOf(c))])
  {
  }

  /** A hiragana or katakana answer yields its katakana letter; the rest of
      the answer is ignored. */
  lemma KanaAnswer(s: string)
    requires |s| > 0 && (IsHiragana(s[0]) || IsKatakana(s[0]))
    ensures Answer(Some(s)) == Some([KanaOf(s[0])])
  {
    assert !IsWhitespace(s[0]);
    TrimEmptyIffBlank(s);
    assert ToUpper(ToKatakana(s))[0] == KanaOf(s[0]);
  }

  /** A blank answer is refused whatever else is typed. */
  lemma BlankAnswerRefused(s: string)
    requires forall i :: 0 <= i < |s| ==> IsWhitespace(s[i])
    ensures Answer(Some(s)) == None
  {
    TrimEmptyIffBlank(s);
  }

  /** Leading white space is not trimmed before the first character is
      taken, so " ア" is refused. */
  lemma LeadingSpaceRefused(s: string)
    requires |s| > 0 && IsWhitespace(s[0])
    ensures Answer(Some(s)) == None
  {
  }

  /** An answer starting with `f` or `F` is accepted and leaves the wildcard
      marker in the word, since the marker itself counts as a game character. */
  lemma WildcardAnswerKeepsMarker(s: string)
    requires |s| > 0 && (s[0] == 'f' || s[0] == 'F')
    ensures Answer(Some(s)) == Some(Wildcard)
  {
    assert !IsWhitespace(s[0]);
    TrimEmptyIffBlank(s);
    assert ToKatakana(s)[0] == s[0];
    assert ToUpper(ToKatakana(s))[0] == 'F';
  }

  /** The answer read for the `k`-th wildcard; a spent oracle is a cancel. */
  function PromptAt(prompts: seq<Option<string>>, k: nat): Option<string>
  {
    if k < |prompts| then prompts[k] else None
  }

  /** The number of wildcard cells before position `i`. */
  function WildcardsBefore(cells: seq<string>, i: nat): nat
    requires i <= |cells|
  {
    if i == 0 then 0
    else WildcardsBefore(cells, i - 1) + (if cells[i - 1] == Wildcard then 1 else 0)
  }

  /** The loop over the wildcard positions, in left-to-right order, stopping
      at the first refused answer. `answer` turns one prompt reply into the
      cell's character; the handler uses `Answer`, and the lemmas below hold
      for any rule that refuses a cancelled prompt. */
  function Resolve(cells: seq<string>, prompts: seq<Option<string>>,
                   answer: Option<string> -> Option<string>): (r: Option<seq<string>>)
    ensures r.Some? ==> |r.value| == |cells|
    decreases |cells|
  {
    if |cells| == 0 then Some([])
    else if cells[0] == Wildcard then
      if |prompts| == 0 then None
      else match answer(prompts[0])
        case None => None
        case Some(ch) =>
          match Resolve(cells[1..], prompts[1..], answer)
          case None => None
          case Some(rest) => Some([ch] + rest)
    else
      match Resolve(cells[1..], prompts, answer)
      case None => None
      case Some(rest) => Some([cells[0]] + rest)
  }

  /** Every wildcard cell gets an accepted answer. */
  predicate AllAnswered(cells: seq<string>, prompts: seq<Option<string>>,
                        answer: Option<string> -> Option<string>)
  {
    forall i :: 0 <= i < |cells| && cells[i] == Wildcard ==>
      answer(PromptAt(prompts, WildcardsBefore(cells, i))).Some?
  }

  /** The cells with each wildcard replaced by its own answer. */
  function Substituted(cells: seq<string>, prompts: seq<Option<string>>,
                       answer: Option<string> -> Option<string>): (t: seq<string>)
    requires AllAnswered(cells, prompts, answer)
    ensures |t| == |cells|
  {
    seq(|cells|, i requires 0 <= i < |cells| && AllAnswered(cells, prompts, answer) =>
      if cells[i] == Wildcard then answer(PromptAt(prompts, WildcardsBefore(cells, i))).value
      else cells[i])
  }

  lemma WildcardsBeforeShift(cells: seq<string>, i: nat)
    requires 0 < i <= |cells|
    ensures WildcardsBefore(cells, i)
      == WildcardsBefore(cells[1..], i - 1) + (if cells[0] == Wildcard then 1 else 0)
  {
    if i > 1 {
      WildcardsBeforeShift(cells, i - 1);
    }
  }

  /** The oracle left for the cells after the first one. */
  function RestPrompts(cells: seq<string>, prompts: seq<Option<string>>): seq<Option<string>>
    requires |cells| > 0
  {
    if cells[0] == Wildcard && |prompts| > 0 then prompts[1..] else prompts
  }

  /** The answer read for the first cell when it is a wildcard. */
  function HeadCell(cells: seq<string>, prompts: seq<Option<string>>,
                    answer: Option<string> -> Option<string>): Option<string>
    requires |cells| > 0
  {
    if cells[0] == Wildcard then answer(PromptAt(prompts, 0)) else Some(cells[0])
  }

  lemma PromptShift(cells: seq<string>, prompts: seq<Option<string>>, i: nat)
    requires 0 < i < |cells|
    requires cells[0] == Wildcard ==> |prompts| > 0
    ensures PromptAt(prompts, WildcardsBefore(cells, i))
         == PromptAt(RestPrompts(cells, prompts), WildcardsBefore(cells[1..], i - 1))
  {
    WildcardsBeforeShift(cells, i);
  }

  lemma AnsweredCons(cells: seq<string>, prompts: seq<Option<string>>,
                     answer: Option<string> -> Option<string>)
    requires |cells| > 0
    requires cells[0] == Wildcard ==> |prompts| > 0
    ensures AllAnswered(cells, prompts, answer)
        <==> && HeadCell(cells, prompts, answer).Some?
             && AllAnswered(cells[1..], RestPrompts(cells, prompts), answer)
  {
    var tail, rest := cells[1..], RestPrompts(cells, prompts);
    assert WildcardsBefore(cells, 0) == 0;
    if AllAnswered(cells, prompts, answer) {
      forall j | 0 <= j < |tail| && tail[j] == Wildcard
        ensures answer(PromptAt(rest, WildcardsBefore(tail, j))).Some?
      {
        assert cells[j + 1] == Wildcard;
        PromptShift(cells, prompts, j + 1);
      }
    }
    if HeadCell(cells, prompts, answer).Some? && AllAnswered(tail, rest, answer) {
      forall i | 0 <= i < |cells| && cells[i] == Wildcard
        ensures answer(PromptAt(prompts, WildcardsBefore(cells, i))).Some?
      {
        if i > 0 {
          assert tail[i - 1] == Wildcard;
          PromptShift(cells, prompts, i);
        }
      }
    }
  }

  lemma SubstitutedCons(cells: seq<string>, prompts: seq<Option<string>>,
                        answer: Option<string> -> Option<string>)
    requires |cells| > 0 && AllAnswered(cells, prompts, answer)
    requires cells[0] == Wildcard ==> |prompts| > 0
    ensures HeadCell(cells, prompts, answer).Some?
    ensures AllAnswered(cells[1..], RestPrompts(cells, prompts), answer)
    ensures Substituted(cells, prompts, answer)
         == [HeadCell(cells, prompts, answer).value]
          + Substituted(cells[1..], RestPrompts(cells, prompts), answer)
  {
    AnsweredCons(cells, prompts, answer);
    var t := Substituted(cells, prompts, answer);
    var u := Substituted(cells[1..], RestPrompts(cells, prompts), answer);
    assert WildcardsBefore(cells, 0) == 0;
    forall j | 0 <= j < |u|
      ensures t[j + 1] == u[j]
    {
      PromptShift(cells, prompts, j + 1);
    }
    assert t == [t[0]] + t[1..];
  }

  /** The loop is all-or-nothing: it yields a word exactly when every wildcard
      gets an accepted answer, and then the i-th wildcard holds the i-th answer
      and every other cell keeps its value. */
  lemma {:induction false} ResolveMeetsSpec(cells: seq<string>, prompts: seq<Option<string>>,
                                            answer: Option<string> -> Option<string>)
    requires answer(None) == None
    ensures Resolve(cells, prompts, answer).Some? <==> AllAnswered(cells, prompts, answer)
    ensures AllAnswered(cells, prompts, answer) ==>
      Resolve(cells, prompts, answer) == Some(Substituted(cells, prompts, answer))
    decreases |cells|
  {
    if |cells| == 0 {
    } else if cells[0] == Wildcard && |prompts| == 0 {
      assert WildcardsBefore(cells, 0) == 0;
      assert !AllAnswered(cells, prompts, answer);
    } else {
      ResolveMeetsSpec(cells[1..], RestPrompts(cells, prompts), answer);
      AnsweredCons(cells, prompts, answer);
      if AllAnswered(cells, prompts, answer) {
        SubstitutedCons(cells, prompts, answer);
      }
    }
  }

  /** Without a wildcard no prompt is read and the cells are the word. */
  lemma NoWildcardNoPrompt(cells: seq<string>, prompts: seq<Option<string>>,
                           answer: Option<string> -> Option<string>)
    requires Wildcard !in cells
    ensures AllAnswered(cells, prompts, answer)
    ensures Substituted(cells, prompts, answer) == cells
  {
  }

  /** A wildcard cell puts its marker into the joined word. */
  lemma {:induction false} WildcardShowsInJoin(cells: seq<string>)
    requires Wildcard in cells
    ensures 'F' in Join(cells)
    decreases |cells|
  {
    if cells[0] == Wildcard {
      assert Join(cells)[0] == 'F';
    } else {
      assert Wildcard in cells[1..];
      WildcardShowsInJoin(cells[1..]);
      var w := Join(cells[1..]);
      var k :| 0 <= k < |w| && w[k] == 'F';
      assert Join(cells)[|cells[0]| + k] == 'F';
    }
  }

  /** The erase handler's word: the joined cells when the joined word holds no
      `F`, otherwise the result of the wildcard loop. */
  function CandidateWord(cells: seq<string>, prompts: seq<Option<string>>,
                         answer: Option<string> -> Option<string>): Option<string>
  {
    var raw := Join(cells);
    if 'F' in raw then
      match Resolve(cells, prompts, answer)
      case None => None
      case Some(t) => Some(Join(t))
    else Some(raw)
  }

  /** The candidate word exists exactly when every wildcard is answered, and
      it is then the join of the cells with each wildcard replaced by its own
      answer. The handler's `includes('F')` shortcut changes nothing. */
  lemma CandidateMeetsSpec(cells: seq<string>, prompts: seq<Option<string>>,
                           answer: Option<string> -> Option<string>)
    requires answer(None) == None
    ensures CandidateWord(cells, prompts, answer).Some? <==> AllAnswered(cells, prompts, answer)
    ensures AllAnswered(cells, prompts, answer) ==>
      CandidateWord(cells, prompts, answer) == Some(Join(Substituted(cells, prompts, answer)))
  {
    ResolveMeetsSpec(cells, prompts, answer);
    if 'F' !in Join(cells) {
      if Wildcard in cells {
        WildcardShowsInJoin(cells);
      }
      NoWildcardNoPrompt(cells, prompts, answer);
    }
  }
}
