/** The two constraint primitives every rewriter and checker is built on:
    folding katakana into hiragana, and the banned-entry test. */
module Utils {
  import opened Text

  /** 'ァ' (U+30A1) through 'ン' (U+30F3): the characters the conversion shifts. */
  predicate IsShiftedKatakana(c: char)
  {
    'ァ' <= c <= 'ン'
  }

  /** The hiragana block the shifted range lands in: 'ぁ' (U+3041) through 'ん' (U+3093). */
  predicate IsShiftedHiragana(c: char)
  {
    'ぁ' <= c <= 'ん'
  }

  function KanaChar(c: char): char
  {
    if IsShiftedKatakana(c) then (c as int - 0x60) as char else c
  }

  /** Converts katakana to hiragana one character at a time: every character
      of 'ァ'..'ン' moves down by 0x60 code points, every other one is kept. */
  function KatakanaToHiragana(katakana: string): (r: string)
    ensures |r| == |katakana|
    ensures forall i :: 0 <= i < |r| && IsShiftedKatakana(katakana[i]) ==>
              r[i] as int == katakana[i] as int - 0x60 && IsShiftedHiragana(r[i])
    ensures forall i :: 0 <= i < |r| && !IsShiftedKatakana(katakana[i]) ==> r[i] == katakana[i]
  {
    seq(|katakana|, i requires 0 <= i < |katakana| => KanaChar(katakana[i]))
  }

  /** The output holds no character of the shifted katakana range. */
  lemma KatakanaToHiraganaLeavesNoKatakana(s: string)
    ensures forall i :: 0 <= i < |s| ==> !IsShiftedKatakana(KatakanaToHiragana(s)[i])
  {
  }

  /** Converting twice is converting once. */
  lemma KatakanaToHiraganaIdempotent(s: string)
    ensures KatakanaToHiragana(KatakanaToHiragana(s)) == KatakanaToHiragana(s)
  {
    KatakanaToHiraganaLeavesNoKatakana(s);
  }

  /** The prolonged sound mark 'ー' (U+30FC) and 'ヴ' (U+30F4) lie outside the range. */
  lemma LongVowelAndVuUnchanged()
    ensures KatakanaToHiragana("ー") == "ー"
    ensures KatakanaToHiragana("ヴ") == "ヴ"
  {
  }

  /** Python's `any(char in text for char in banned_chars)`, entry by entry. */
  function ContainsBanned(text: string, banned: seq<string>): bool
  {
    banned != [] && (IsSubstring(banned[0], text) || ContainsBanned(text, banned[1..]))
  }

  /** The test holds exactly when some entry of the banned list occurs as a
      substring of the text. */
  lemma {:induction false} ContainsBannedIff(text: string, banned: seq<string>)
    ensures ContainsBanned(text, banned) <==> exists i :: 0 <= i < |banned| && IsSubstring(banned[i], text)
  {
    if banned != [] {
      ContainsBannedIff(text, banned[1..]);
      assert forall i :: 1 <= i < |banned| ==> banned[i] == banned[1..][i - 1];
      if exists i :: 0 <= i < |banned| && IsSubstring(banned[i], text) {
        var i :| 0 <= i < |banned| && IsSubstring(banned[i], text);
        if i > 0 {
          assert IsSubstring(banned[1..][i - 1], text);
        }
      }
    }
  }

  /** An empty entry occurs in every text, so it bans everything. */
  lemma EmptyEntryBansEverything(text: string, banned: seq<string>)
    requires [] in banned
    ensures ContainsBanned(text, banned)
  {
    EmptyIsSubstring(text);
    ContainsBannedIff(text, banned);
    var i :| 0 <= i < |banned| && banned[i] == [];
  }

  /** Adding entries to the banned list never turns a violation into a pass. */
  lemma ContainsBannedMonotone(text: string, banned: seq<string>, more: seq<string>)
    requires forall x :: x in banned ==> x in more
    ensures ContainsBanned(text, banned) ==> ContainsBanned(text, more)
  {
    ContainsBannedIff(text, banned);
    ContainsBannedIff(text, more);
    if ContainsBanned(text, banned) {
      var i :| 0 <= i < |banned| && IsSubstring(banned[i], text);
      assert banned[i] in banned;
      var j :| 0 <= j < |more| && more[j] == banned[i];
    }
  }

  /** A list of single characters: the usual shape of a banned set. */
  predicate AllSingleChars(banned: seq<string>)
  {
    forall i :: 0 <= i < |banned| ==> |banned[i]| == 1
  }

  /** With single-character entries, the test is "some character of the text
      is banned". */
  lemma ContainsBannedChars(text: string, banned: seq<string>)
    requires AllSingleChars(banned)
    ensures ContainsBanned(text, banned) <==> exists k :: 0 <= k < |text| && [text[k]] in banned
  {
    ContainsBannedIff(text, banned);
    if ContainsBanned(text, banned) {
      var i :| 0 <= i < |banned| && IsSubstring(banned[i], text);
      assert banned[i] == [banned[i][0]];
      CharSubstring(banned[i][0], text);
      var k :| 0 <= k < |text| && text[k] == banned[i][0];
      assert [text[k]] == banned[i];
    }
    if exists k :: 0 <= k < |text| && [text[k]] in banned {
      var k :| 0 <= k < |text| && [text[k]] in banned;
      var i :| 0 <= i < |banned| && banned[i] == [text[k]];
      CharSubstring(text[k], text);
    }
  }

  /** The documented example: "サル" reads "さる", which contains the banned "さ". */
  lemma MonkeyExample()
    ensures KatakanaToHiragana("サル") == "さる"
    ensures ContainsBanned("さる", ["さ", "い"])
  {
    assert OccursAt("さ", "さる", 0);
    ContainsBannedIff("さる", ["さ", "い"]);
  }
}
