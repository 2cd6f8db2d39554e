/** The English tokenizer helpers: the phonetic form of a word, the mapping
    of a part-of-speech tag to a WordNet category, the synonym post-filter,
    and the token filters of the two analysis back ends.

    spaCy, NLTK and WordNet are oracles: a back end is a function from a
    sentence to its analysed tokens, and WordNet is a function from a word
    and an optional category to the lemma names of its synsets. */
module EnTokenizer {
  import opened Wrappers
  import opened Text

  // ---------------------------------------------------------------------------
  // Phonetic form
  // ---------------------------------------------------------------------------

  /** The "phonetic" form of an English word is the word in lower case. */
  function GetPhoneticRepresentation(word: string): (r: string)
    ensures |r| == |word|
    ensures forall i :: 0 <= i < |r| ==> !('A' <= r[i] <= 'Z')
    ensures forall i :: 0 <= i < |r| ==> r[i] == word[i] || ('A' <= word[i] <= 'Z' && r[i] as int == word[i] as int + 32)
  {
    Lower(word)
  }

  /** Taking the phonetic form of a phonetic form changes nothing. */
  lemma PhoneticIdempotent(word: string)
    ensures GetPhoneticRepresentation(GetPhoneticRepresentation(word)) == GetPhoneticRepresentation(word)
  {
    LowerIdempotent(word);
  }

  // ---------------------------------------------------------------------------
  // Part of speech to WordNet category
  // ---------------------------------------------------------------------------

  datatype WnPos = Noun | Verb | Adj | Adv

  predicate StartsWith(s: string, c: char)
  {
    |s| > 0 && s[0] == c
  }

  /** Maps a spaCy or Penn tag, in any case, to a WordNet category: a tag
      starting with N, V, J or R, or equal to ADJ or ADV, picks its category,
      and everything else, the empty tag included, is a noun. */
  function ConvertPosToWordnet(posTag: string): (p: WnPos)
    ensures posTag == [] ==> p == Noun
    ensures StartsWith(Upper(posTag), 'N') ==> p == Noun
    ensures StartsWith(Upper(posTag), 'V') ==> p == Verb
    ensures StartsWith(Upper(posTag), 'J') || Upper(posTag) == "ADJ" ==> p == Adj
    ensures StartsWith(Upper(posTag), 'R') || Upper(posTag) == "ADV" ==> p == Adv
    ensures p == Verb ==> StartsWith(Upper(posTag), 'V')
    ensures p == Adj ==> StartsWith(Upper(posTag), 'J') || Upper(posTag) == "ADJ"
    ensures p == Adv ==> StartsWith(Upper(posTag), 'R') || Upper(posTag) == "ADV"
  {
    if posTag == [] then Noun
    else
      var tag := Upper(posTag);
      if StartsWith(tag, 'N') || tag == "NOUN" then Noun
      else if StartsWith(tag, 'V') || tag == "VERB" then Verb
      else if StartsWith(tag, 'J') || tag == "ADJ" then Adj
      else if StartsWith(tag, 'R') || tag == "ADV" then Adv
      else Noun
  }

  /** The mapping ignores case. */
  lemma ConvertPosIgnoresCase(a: string, b: string)
    requires Upper(a) == Upper(b)
    ensures ConvertPosToWordnet(a) == ConvertPosToWordnet(b)
  {
  }

  /** Tags of both taggers: Penn tags by their first letter, spaCy's
      universal tags by name; ADP and PROPN fall through to noun. */
  lemma ConvertPosExamples()
    ensures ConvertPosToWordnet("NN") == Noun && ConvertPosToWordnet("VBD") == Verb
    ensures ConvertPosToWordnet("JJ") == Adj && ConvertPosToWordnet("RB") == Adv
    ensures ConvertPosToWordnet("ADJ") == Adj && ConvertPosToWordnet("adv") == Adv
    ensures ConvertPosToWordnet("ADP") == Noun && ConvertPosToWordnet("PROPN") == Noun
  {
    assert Upper("adv") == "ADV";
    assert Upper("ADP") == "ADP";
    assert Upper("PROPN") == "PROPN";
  }

  // ---------------------------------------------------------------------------
  // Synonyms
  // ---------------------------------------------------------------------------

  /** WordNet: the lemma names of every synset of a word, per synset. */
  type Synsets = (string, Option<WnPos>) -> seq<seq<string>>

  /** A lemma name as a synonym: underscores become spaces. */
  function Rename(name: string): (r: string)
    ensures |r| == |name| && '_' !in r
  {
    ReplaceChar(name, '_', ' ')
  }

  /** The category the synonym lookup uses: none for an empty tag. */
  function LookupPos(posTag: string): Option<WnPos>
  {
    if posTag != [] then Some(ConvertPosToWordnet(posTag)) else None
  }

  function Flatten(groups: seq<seq<string>>): seq<string>
  {
    if groups == [] then [] else Flatten(groups[..|groups| - 1]) + groups[|groups| - 1]
  }

  /** The synonyms a list of lemma names yields for `word`: every renamed
      lemma that differs from the word once both are lower-cased. */
  ghost function SynonymSet(lemmas: seq<string>, word: string): set<string>
  {
    set k | 0 <= k < |lemmas| && Lower(Rename(lemmas[k])) != Lower(word) :: Rename(lemmas[k])
  }

  /** The word itself, in any case, is never among its synonyms, and no
      synonym holds an underscore. */
  lemma SynonymSetExcludesWord(lemmas: seq<string>, word: string, s: string)
    requires s in SynonymSet(lemmas, word)
    ensures Lower(s) != Lower(word) && '_' !in s
  {
  }

  lemma SynonymSetAppend(lemmas: seq<string>, name: string, word: string)
    ensures SynonymSet(lemmas + [name], word)
            == SynonymSet(lemmas, word) + (if Lower(Rename(name)) != Lower(word) then {Rename(name)} else {})
  {
    var xs := lemmas + [name];
    assert forall k :: 0 <= k < |lemmas| ==> xs[k] == lemmas[k];
    assert xs[|lemmas|] == name;
  }

  lemma FlattenAppend(groups: seq<seq<string>>, i: nat)
    requires i < |groups|
    ensures Flatten(groups[..i + 1]) == Flatten(groups[..i]) + groups[i]
  {
    assert groups[..i + 1][..i] == groups[..i];
  }

  predicate NoDuplicates(xs: seq<string>)
  {
    forall i, j :: 0 <= i < j < |xs| ==> xs[i] != xs[j]
  }

  /** WordNet synonyms of `word`: every lemma of every synset, with
      underscores turned into spaces, except the word itself compared without
      case; each synonym once. The order of the returned list is that of
      first occurrence. */
  method GetSynonyms(word: string, posTag: string, synsets: Synsets) returns (synonyms: seq<string>)
    ensures NoDuplicates(synonyms)
    ensures (set s | s in synonyms) == SynonymSet(Flatten(synsets(word, LookupPos(posTag))), word)
  {
    var groups := synsets(word, LookupPos(posTag));
    synonyms := [];
    for i := 0 to |groups|
      invariant NoDuplicates(synonyms)
      invariant (set s | s in synonyms) == SynonymSet(Flatten(groups[..i]), word)
    {
      FlattenAppend(groups, i);
      synonyms := AddLemmas(synonyms, Flatten(groups[..i]), groups[i], word);
    }
    assert groups[..|groups|] == groups;
  }

  /** The inner loop of the synonym lookup: the lemmas of one synset appended
      to the list built so far from the lemmas `seen`. */
  method AddLemmas(synonyms: seq<string>, seen: seq<string>, lemmas: seq<string>, word: string)
    returns (result: seq<string>)
    requires NoDuplicates(synonyms)
    requires (set s | s in synonyms) == SynonymSet(seen, word)
    ensures NoDuplicates(result)
    ensures (set s | s in result) == SynonymSet(seen + lemmas, word)
  {
    result := synonyms;
    assert seen + lemmas[..0] == seen;
    for j := 0 to |lemmas|
      invariant NoDuplicates(result)
      invariant (set s | s in result) == SynonymSet(seen + lemmas[..j], word)
    {
      var synonym := Rename(lemmas[j]);
      SynonymSetAppend(seen + lemmas[..j], lemmas[j], word);
      assert seen + lemmas[..j + 1] == seen + lemmas[..j] + [lemmas[j]];
      if Lower(synonym) != Lower(word) && synonym !in result {
        result := result + [synonym];
      }
    }
    assert lemmas[..|lemmas|] == lemmas;
  }

  // ---------------------------------------------------------------------------
  // Tokenization
  // ---------------------------------------------------------------------------

  /** A token of the result: surface, phonetic form, tag and lemma. */
  datatype EnToken = EnToken(surface: string, phonetic: string, pos: string, lemmaName: string)

  /** A spaCy token with the attributes the filter reads. */
  datatype SpacyToken = SpacyToken(text: string, pos: string, lemmaName: string, isSpace: bool, isPunct: bool)

  /** The two analysis back ends: spaCy when its model is loaded, otherwise
      NLTK's word tokenizer followed by its tagger (word, tag pairs). */
  datatype Backend =
    | Spacy(nlp: string -> seq<SpacyToken>)
    | Nltk(tagged: string -> seq<(string, string)>)

  /** The tokens spaCy yields: those that are neither space nor punctuation. */
  function SpacyTokens(doc: seq<SpacyToken>): (r: seq<EnToken>)
    ensures |r| <= |doc|
  {
    if doc == [] then []
    else
      var rest := SpacyTokens(doc[1..]);
      var t := doc[0];
      if !t.isSpace && !t.isPunct then
        [EnToken(t.text, GetPhoneticRepresentation(t.text), t.pos, t.lemmaName)] + rest
      else rest
  }

  /** `t` is the text of a word of `doc` that is neither space nor punctuation. */
  predicate FromWord(t: EnToken, doc: seq<SpacyToken>)
  {
    exists d :: d in doc && !d.isSpace && !d.isPunct && t.surface == d.text
  }

  /** Every spaCy token kept is a word of the document that is neither
      space nor punctuation, with its lower case as phonetic form. */
  lemma {:induction false} SpacyTokensFiltered(doc: seq<SpacyToken>)
    ensures forall k :: 0 <= k < |SpacyTokens(doc)| ==>
              SpacyTokens(doc)[k].phonetic == GetPhoneticRepresentation(SpacyTokens(doc)[k].surface)
              && FromWord(SpacyTokens(doc)[k], doc)
  {
    if doc != [] {
      SpacyTokensFiltered(doc[1..]);
      var r, rest := SpacyTokens(doc), SpacyTokens(doc[1..]);
      forall k | 0 <= k < |r|
        ensures r[k].phonetic == GetPhoneticRepresentation(r[k].surface) && FromWord(r[k], doc)
      {
        if !doc[0].isSpace && !doc[0].isPunct && k == 0 {
          assert doc[0] in doc;
        } else {
          var j := if !doc[0].isSpace && !doc[0].isPunct then k - 1 else k;
          assert r[k] == rest[j];
          assert FromWord(rest[j], doc[1..]);
          var d :| d in doc[1..] && !d.isSpace && !d.isPunct && rest[j].surface == d.text;
          assert d in doc;
        }
      }
    }
  }

  /** The tokens NLTK yields: the alphabetic words, with their own lower
      case as lemma. */
  function NltkTokens(tagged: seq<(string, string)>): (r: seq<EnToken>)
    ensures |r| <= |tagged|
  {
    if tagged == [] then []
    else
      var rest := NltkTokens(tagged[1..]);
      var (word, pos) := tagged[0];
      if IsAlpha(word) then [EnToken(word, GetPhoneticRepresentation(word), pos, Lower(word))] + rest
      else rest
  }

  /** Every NLTK token kept is alphabetic, with its lower case as both
      phonetic form and lemma. */
  lemma {:induction false} NltkTokensFiltered(tagged: seq<(string, string)>)
    ensures forall k :: 0 <= k < |NltkTokens(tagged)| ==>
              IsAlpha(NltkTokens(tagged)[k].surface)
              && NltkTokens(tagged)[k].phonetic == GetPhoneticRepresentation(NltkTokens(tagged)[k].surface)
              && NltkTokens(tagged)[k].lemmaName == Lower(NltkTokens(tagged)[k].surface)
  {
    if tagged != [] {
      NltkTokensFiltered(tagged[1..]);
    }
  }

  /** The filtered tokens of a sentence under a back end. */
  function Analyse(sentence: string, backend: Backend): seq<EnToken>
  {
    match backend
    case Spacy(nlp) => SpacyTokens(nlp(sentence))
    case Nltk(tagged) => NltkTokens(tagged(sentence))
  }

  /** Tokenizes a sentence with the available back end, keeping the tokens
      its filter lets through, in order. */
  method Tokenize(sentence: string, backend: Backend) returns (tokens: seq<EnToken>)
    ensures tokens == Analyse(sentence, backend)
    ensures forall k :: 0 <= k < |tokens| ==> tokens[k].phonetic == GetPhoneticRepresentation(tokens[k].surface)
    ensures backend.Nltk? ==> forall k :: 0 <= k < |tokens| ==> IsAlpha(tokens[k].surface)
  {
    tokens := [];
    match backend
    case Spacy(nlp) =>
      var doc := nlp(sentence);
      var i := |doc|;
      while i > 0
        invariant 0 <= i <= |doc|
        invariant tokens == SpacyTokens(doc[i..])
      {
        i := i - 1;
        assert doc[i..][1..] == doc[i + 1..];
        var t := doc[i];
        if !t.isSpace && !t.isPunct {
          tokens := [EnToken(t.text, GetPhoneticRepresentation(t.text), t.pos, t.lemmaName)] + tokens;
        }
      }
      assert doc[0..] == doc;
      SpacyTokensFiltered(doc);
    case Nltk(tagged) =>
      var pairs := tagged(sentence);
      var i := |pairs|;
      while i > 0
        invariant 0 <= i <= |pairs|
        invariant tokens == NltkTokens(pairs[i..])
      {
        i := i - 1;
        assert pairs[i..][1..] == pairs[i + 1..];
        var (word, pos) := pairs[i];
        if IsAlpha(word) {
          tokens := [EnToken(word, GetPhoneticRepresentation(word), pos, Lower(word))] + tokens;
        }
      }
      assert pairs[0..] == pairs;
      NltkTokensFiltered(pairs);
  }
}
