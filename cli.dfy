/** The banned-character argument of the command-line interface: a
    comma-separated list, split on every comma and stripped field by field. */
module Cli {
  import opened Text
  import opened Utils

  /** `[c.strip() for c in s.split(",")]`: no field is dropped, so blank
      input gives a single empty entry. */
  function ParseBannedChars(bannedChars: string): seq<string>
  {
    StripEach(SplitOn(bannedChars, ','))
  }

  /** One entry per comma-separated field, each stripped and comma-free. */
  lemma ParseBannedCharsShape(s: string)
    ensures |ParseBannedChars(s)| == multiset(s)[','] + 1
    ensures forall i :: 0 <= i < |ParseBannedChars(s)| ==>
              IsStripped(ParseBannedChars(s)[i]) && ',' !in ParseBannedChars(s)[i]
  {
    SplitOnCount(s, ',');
    var fields := SplitOn(s, ',');
    forall i | 0 <= i < |fields|
      ensures ',' !in Strip(fields[i])
    {
      assert ',' !in fields[i];
    }
  }

  /** Blank input yields the single empty entry, and that entry bans every
      text. */
  lemma BlankInputBansEverything(s: string, text: string)
    requires IsBlank(s)
    ensures ParseBannedChars(s) == [[]]
    ensures ContainsBanned(text, ParseBannedChars(s))
  {
    assert ',' !in s;
    SplitOnFree(s, ',');
    assert Strip(s) == [];
    assert ParseBannedChars(s)[0] == [];
    EmptyEntryBansEverything(text, ParseBannedChars(s));
  }

  /** Joining stripped, comma-free entries with commas and parsing the result
      gives the entries back. */
  lemma ParseBannedCharsRoundTrip(xs: seq<string>)
    requires |xs| >= 1
    requires forall i :: 0 <= i < |xs| ==> IsStripped(xs[i]) && ',' !in xs[i]
    ensures ParseBannedChars(Join([','], xs)) == xs
  {
    SplitOnJoin(xs, ',');
    forall i | 0 <= i < |xs|
      ensures Strip(xs[i]) == xs[i]
    {
      StripStripped(xs[i]);
    }
  }
}
