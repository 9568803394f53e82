/** Character helpers of the client: hiragana-to-katakana conversion, the
    test for a character a board cell may hold, and the small pieces of
    JavaScript string behaviour the wildcard prompt relies on (trim, upper case,
    first character). */
module Chars {

  /** First and last code point of the hiragana block that `toKatakana` rewrites. */
  const HiraganaFirst: int := 0x3041
  const HiraganaLast: int := 0x3096
  /** Distance from a hiragana letter to its katakana counterpart. */
  const KanaShift: int := 0x60
  /** The katakana block accepted as a game character. */
  const KatakanaFirst: int := 0x30A0
  const KatakanaLast: int := 0x30FF

  /** The wildcard marker a board cell may hold. */
  const Wildcard: string := "F"

  predicate IsHiragana(ch: char)
  {
    HiraganaFirst <= ch as int <= HiraganaLast
  }

  predicate IsKatakana(ch: char)
  {
    KatakanaFirst <= ch as int <= KatakanaLast
  }

  /** One character through `toKatakana`. */
  function KanaOf(ch: char): char
  {
    if IsHiragana(ch) then (ch as int + KanaShift) as char else ch
  }

  /** `toKatakana`: every hiragana letter is shifted into the katakana block,
      every other character is kept. */
  function ToKatakana(s: string): (r: string)
    ensures |r| == |s|
    ensures forall i :: 0 <= i < |s| && IsHiragana(s[i]) ==> r[i] as int == s[i] as int + KanaShift
    ensures forall i :: 0 <= i < |s| && !IsHiragana(s[i]) ==> r[i] == s[i]
  {
    seq(|s|, i requires 0 <= i < |s| => KanaOf(s[i]))
  }

  /** No hiragana letter survives the conversion. */
  lemma ToKatakanaLeavesNoHiragana(s: string)
    ensures forall i :: 0 <= i < |s| ==> !IsHiragana(ToKatakana(s)[i])
  {
  }

  /** Converting twice is converting once. */
  lemma ToKatakanaIdempotent(s: string)
    ensures ToKatakana(ToKatakana(s)) == ToKatakana(s)
  {
    ToKatakanaLeavesNoHiragana(s);
  }

  /** The conversion changes a string exactly when it holds a hiragana letter. */
  lemma ToKatakanaFixesExactly(s: string)
    ensures ToKatakana(s) == s <==> forall i :: 0 <= i < |s| ==> !IsHiragana(s[i])
  {
    if ToKatakana(s) == s {
      forall i | 0 <= i < |s|
        ensures !IsHiragana(s[i])
      {
        ToKatakanaLeavesNoHiragana(s);
        assert ToKatakana(s)[i] == s[i];
      }
    }
  }

  /** Every hiragana letter becomes a katakana letter, so a hiragana answer to
      a wildcard prompt always yields a game character. */
  lemma HiraganaBecomesKatakana(ch: char)
    requires IsHiragana(ch)
    ensures IsKatakana(KanaOf(ch))
  {
  }

  /** `isValidGameChar`: the wildcard marker itself, or exactly one character
      of the katakana block. */
  predicate IsValidGameChar(s: string)
    ensures IsValidGameChar(s) <==> |s| == 1 && (s[0] == 'F' || IsKatakana(s[0]))
    ensures IsValidGameChar(s) ==> ToUpper(ToKatakana(s)) == s
  {
    s == Wildcard || (|s| == 1 && IsKatakana(s[0]))
  }

  /** The characters JavaScript's `String.prototype.trim` removes: the
      white-space and line-terminator code points of ECMAScript. */
  predicate IsWhitespace(ch: char)
  {
    ch == '\t' || ch == '\n' || ch == '\U{000B}' || ch == '\U{000C}' || ch == '\r'
    || ch == ' ' || ch == '\U{00A0}' || ch == '\U{1680}'
    || ('\U{2000}' <= ch <= '\U{200A}')
    || ch == '\U{2028}' || ch == '\U{2029}' || ch == '\U{202F}' || ch == '\U{205F}'
    || ch == '\U{3000}' || ch == '\U{FEFF}'
  }

  /** Drops leading white space. */
  function TrimStart(s: string): (r: string)
    ensures |r| <= |s| && r == s[|s| - |r|..]
    ensures |r| > 0 ==> !IsWhitespace(r[0])
    ensures forall i :: 0 <= i < |s| - |r| ==> IsWhitespace(s[i])
  {
    if |s| > 0 && IsWhitespace(s[0]) then TrimStart(s[1..]) else s
  }

  /** Drops trailing white space. */
  function TrimEnd(s: string): (r: string)
    ensures |r| <= |s| && r == s[..|r|]
    ensures |r| > 0 ==> !IsWhitespace(r[|r| - 1])
    ensures forall i :: |r| <= i < |s| ==> IsWhitespace(s[i])
  {
    if |s| > 0 && IsWhitespace(s[|s| - 1]) then TrimEnd(s[..|s| - 1]) else s
  }

  /** `trim`: drops white space at both ends. */
  function Trim(s: string): string
  {
    TrimEnd(TrimStart(s))
  }

  /** A string trims to nothing exactly when all of it is white space; this is
      the prompt's "blank answer" test. */
  lemma TrimEmptyIffBlank(s: string)
    ensures Trim(s) == "" <==> forall i :: 0 <= i < |s| ==> IsWhitespace(s[i])
  {
    var t := TrimStart(s);
    if Trim(s) == "" {
      assert |t| == 0;
    } else {
      assert !IsWhitespace(Trim(s)[0]);
      assert Trim(s)[0] == t[0];
      assert t[0] == s[|s| - |t|];
    }
  }

  /** Upper case on the ASCII letters; every other character is kept. */
  function UpperOf(ch: char): char
  {
    if 'a' <= ch <= 'z' then (ch as int - 32) as char else ch
  }

  function ToUpper(s: string): (r: string)
    ensures |r| == |s|
    ensures forall i :: 0 <= i < |s| && 'a' <= s[i] <= 'z' ==> r[i] as int == s[i] as int - 32
    ensures forall i :: 0 <= i < |s| && !('a' <= s[i] <= 'z') ==> r[i] == s[i]
  {
    seq(|s|, i requires 0 <= i < |s| => UpperOf(s[i]))
  }

  /** `slice(0, 1)`: the first character, or nothing for an empty string. */
  function FirstChar(s: string): (r: string)
    ensures |s| > 0 ==> r == [s[0]]
    ensures |s| == 0 ==> r == ""
  {
    s[..if |s| > 0 then 1 else 0]
  }
}
