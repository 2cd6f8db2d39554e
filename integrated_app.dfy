/** The checks of the interactive application: its own reading of the
    banned-character field, the lipogram verdict with the entries found,
    and the split of a text's tokens into those free of every banned entry
    and those holding one. Both checks compare lower-cased forms. */
module IntegratedApp {
  import opened Text
  import opened Utils
  import Cli
  import opened EnTokenizer
  import opened EnRewriter

  // ---------------------------------------------------------------------------
  // The banned-character field
  // ---------------------------------------------------------------------------

  /** Blank input bans nothing; input holding a comma is split on every
      comma with each field stripped; other input is split on whitespace. */
  function ParseBannedChars(s: string): seq<string>
  {
    if IsBlank(s) then []
    else if ',' in s then Cli.ParseBannedChars(s)
    else Words(s)
  }

  /** Blank input yields no entry here, so every text passes, while the
      command line reads the same input as one empty entry that bans every
      text. */
  lemma BlankFieldBansNothing(s: string, text: string)
    requires IsBlank(s)
    ensures ParseBannedChars(s) == []
    ensures !Violates(text, ParseBannedChars(s))
    ensures Cli.ParseBannedChars(s) == [[]] && ContainsBanned(text, Cli.ParseBannedChars(s))
  {
    Cli.BlankInputBansEverything(s, text);
  }

  /** A comma is never whitespace, so input holding one is not blank. */
  lemma CommaNotBlank(s: string)
    requires ',' in s
    ensures !IsBlank(s)
  {
    var i :| 0 <= i < |s| && s[i] == ',';
    assert !IsSpace(s[i]);
  }

  /** Input with a comma gives one stripped, comma-free entry per field. */
  lemma CommaFieldsShape(s: string)
    requires ',' in s
    ensures |ParseBannedChars(s)| == multiset(s)[','] + 1
    ensures forall i :: 0 <= i < |ParseBannedChars(s)| ==>
              IsStripped(ParseBannedChars(s)[i]) && ',' !in ParseBannedChars(s)[i]
  {
    CommaNotBlank(s);
    Cli.ParseBannedCharsShape(s);
  }

  /** Non-blank input without a comma gives at least one entry, and every
      entry is a non-empty run of non-whitespace characters of the input. */
  lemma SpaceSeparatedShape(s: string)
    requires !IsBlank(s) && ',' !in s
    ensures ParseBannedChars(s) != []
    ensures forall i :: 0 <= i < |ParseBannedChars(s)| ==>
              ParseBannedChars(s)[i] != [] && NoSpace(ParseBannedChars(s)[i])
              && forall c :: c in ParseBannedChars(s)[i] ==> c in s
  {
    WordsChars(s);
  }

  /** Two or more stripped, comma-free entries joined with commas read back
      as the same entries. */
  lemma CommaRoundTrip(xs: seq<string>)
    requires |xs| >= 2
    requires forall i :: 0 <= i < |xs| ==> IsStripped(xs[i]) && ',' !in xs[i]
    ensures ParseBannedChars(Join([','], xs)) == xs
  {
    var joined := Join([','], xs);
    assert joined == xs[0] + [','] + Join([','], xs[1..]);
    assert joined[|xs[0]|] == ',';
    CommaNotBlank(joined);
    Cli.ParseBannedCharsRoundTrip(xs);
  }

  // ---------------------------------------------------------------------------
  // Keeping the elements a test accepts
  // ---------------------------------------------------------------------------

  /** The elements among the first `n` that `p` accepts, in order. */
  function Kept<T>(xs: seq<T>, p: T -> bool, n: nat): (r: seq<T>)
    requires n <= |xs|
    ensures |r| <= n
  {
    if n == 0 then []
    else if p(xs[n - 1]) then Kept(xs, p, n - 1) + [xs[n - 1]]
    else Kept(xs, p, n - 1)
  }

  /** An element is kept exactly when it is among the first `n` and `p`
      accepts it. */
  lemma {:induction false} KeptExactly<T>(xs: seq<T>, p: T -> bool, n: nat)
    requires n <= |xs|
    ensures forall x :: x in Kept(xs, p, n) <==> (exists k :: 0 <= k < n && xs[k] == x) && p(x)
  {
    if n > 0 {
      KeptExactly(xs, p, n - 1);
    }
  }

  /** What a test keeps and what its negation keeps together make up the
      first `n` elements, each as often as it occurs. */
  lemma {:induction false} KeptPartition<T>(xs: seq<T>, p: T -> bool, q: T -> bool, n: nat)
    requires n <= |xs|
    requires forall x :: q(x) == !p(x)
    ensures multiset(Kept(xs, p, n)) + multiset(Kept(xs, q, n)) == multiset(xs[..n])
  {
    if n > 0 {
      KeptPartition(xs, p, q, n - 1);
      assert xs[..n] == xs[..n - 1] + [xs[n - 1]];
    }
  }

  // ---------------------------------------------------------------------------
  // The lipogram verdict
  // ---------------------------------------------------------------------------

  /** The lower case of entry `c` occurs in the lower case of `text`. */
  function FoundIn(text: string): string -> bool
  {
    c => IsSubstring(Lower(c), Lower(text))
  }

  /** The banned entries found in the text, in the order of the list. */
  function FoundBanned(text: string, banned: seq<string>): seq<string>
  {
    Kept(banned, FoundIn(text), |banned|)
  }

  /** Walks the banned list and collects every entry whose lower case occurs
      in the lower-cased text; the text is a lipogram when none is found. */
  method VerifyLipogram(text: string, banned: seq<string>) returns (isValid: bool, found: seq<string>)
    ensures found == FoundBanned(text, banned)
    ensures isValid <==> found == []
  {
    found := [];
    for i := 0 to |banned|
      invariant found == Kept(banned, FoundIn(text), i)
    {
      if IsSubstring(Lower(banned[i]), Lower(text)) {
        found := found + [banned[i]];
      }
    }
    isValid := |found| == 0;
  }

  /** An entry is reported exactly when it is on the list and its lower case
      occurs in the lower-cased text. */
  lemma FoundBannedExactly(text: string, banned: seq<string>)
    ensures forall c :: c in FoundBanned(text, banned) <==> c in banned && IsSubstring(Lower(c), Lower(text))
  {
    KeptExactly(banned, FoundIn(text), |banned|);
    forall c
      ensures c in FoundBanned(text, banned) <==> c in banned && IsSubstring(Lower(c), Lower(text))
    {
      if c in banned {
        var k :| 0 <= k < |banned| && banned[k] == c;
      }
    }
  }

  /** The verdict agrees with the rewriters' violation test: nothing is
      found exactly when the text does not violate the list. */
  lemma VerdictIffNoViolation(text: string, banned: seq<string>)
    ensures FoundBanned(text, banned) == [] <==> !Violates(text, banned)
  {
    FoundBannedExactly(text, banned);
    var lowered := LowerAll(banned);
    ContainsBannedIff(Lower(text), lowered);
    if FoundBanned(text, banned) != [] {
      var c := FoundBanned(text, banned)[0];
      assert c in FoundBanned(text, banned);
      var k :| 0 <= k < |banned| && banned[k] == c;
      assert IsSubstring(lowered[k], Lower(text));
    }
    if Violates(text, banned) {
      var k :| 0 <= k < |lowered| && IsSubstring(lowered[k], Lower(text));
      assert banned[k] in banned;
    }
  }

  // ---------------------------------------------------------------------------
  // Token analysis
  // ---------------------------------------------------------------------------

  /** The one-character tokens of a Japanese text: every character that is
      not whitespace, in order. */
  function CharTokens(text: string): seq<string>
  {
    if text == [] then []
    else (if IsSpace(text[0]) then [] else [[text[0]]]) + CharTokens(text[1..])
  }

  /** Each token is a single non-whitespace character of the text, and each
      such character gives a token. */
  lemma {:induction false} CharTokensExactly(text: string)
    ensures forall t :: t in CharTokens(text) <==> |t| == 1 && t[0] in text && !IsSpace(t[0])
  {
    if text != [] {
      CharTokensExactly(text[1..]);
      assert text == [text[0]] + text[1..];
      forall t | |t| == 1 && t[0] in text && !IsSpace(t[0])
        ensures t in CharTokens(text)
      {
        assert t == [t[0]];
      }
    }
  }

  /** The surfaces analysed: the English tokenizer's for English, the
      characters otherwise. */
  function AnalysedSurfaces(text: string, isEnglish: bool, backend: Backend): seq<string>
  {
    if isEnglish then Surfaces(Analyse(text, backend)) else CharTokens(text)
  }

  /** A surface free of every banned entry, compared in lower case. */
  function CleanIn(banned: seq<string>): string -> bool
  {
    s => !Violates(s, banned)
  }

  /** A surface holding some banned entry, compared in lower case. */
  function ViolatingIn(banned: seq<string>): string -> bool
  {
    s => Violates(s, banned)
  }

  /** The two passes of the analysis: the surfaces free of every banned
      entry, then the surfaces holding one, each in token order. */
  method PartitionTokens(surfaces: seq<string>, banned: seq<string>) returns (valid: seq<string>, invalid: seq<string>)
    ensures valid == Kept(surfaces, CleanIn(banned), |surfaces|)
    ensures invalid == Kept(surfaces, ViolatingIn(banned), |surfaces|)
  {
    valid := [];
    for i := 0 to |surfaces|
      invariant valid == Kept(surfaces, CleanIn(banned), i)
    {
      if !Violates(surfaces[i], banned) {
        valid := valid + [surfaces[i]];
      }
    }
    invalid := [];
    for i := 0 to |surfaces|
      invariant invalid == Kept(surfaces, ViolatingIn(banned), i)
    {
      if Violates(surfaces[i], banned) {
        invalid := invalid + [surfaces[i]];
      }
    }
  }

  /** Every token lands in exactly one of the two lists: together they hold
      each surface as often as the text does, the first only clean ones and
      the second only violating ones. */
  lemma TokensPartitioned(surfaces: seq<string>, banned: seq<string>)
    ensures var valid := Kept(surfaces, CleanIn(banned), |surfaces|);
            var invalid := Kept(surfaces, ViolatingIn(banned), |surfaces|);
            multiset(valid) + multiset(invalid) == multiset(surfaces)
            && (forall s :: s in valid ==> !Violates(s, banned))
            && (forall s :: s in invalid ==> Violates(s, banned))
  {
    KeptPartition(surfaces, CleanIn(banned), ViolatingIn(banned), |surfaces|);
    assert surfaces[..|surfaces|] == surfaces;
    KeptExactly(surfaces, CleanIn(banned), |surfaces|);
    KeptExactly(surfaces, ViolatingIn(banned), |surfaces|);
  }
}
