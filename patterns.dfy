/** The regular expressions of the region locator, as recognisers.

    Every pattern the locator uses is anchored with `^` and `$` and is applied
    with Python's `re.match`. Python's `$` matches at the end of the string and
    also just before a newline that ends the string; `Matches` models both. */
module Patterns {

  /** The class `[ \t]`. */
  predicate IsBlankChar(ch: char) {
    ch == ' ' || ch == '\t'
  }

  predicate AllBlank(s: string) {
    forall i :: 0 <= i < |s| ==> IsBlankChar(s[i])
  }

  /** Length of the longest prefix of `s` made of spaces and tabs. */
  function LeadingBlanks(s: string): (n: nat)
    ensures n <= |s| && AllBlank(s[..n])
    ensures n < |s| ==> !IsBlankChar(s[n])
  {
    if s == [] || !IsBlankChar(s[0]) then 0
    else
      var rest := LeadingBlanks(s[1..]);
      assert s[..1 + rest] == [s[0]] + s[1..][..rest];
      1 + rest
  }

  /** Index where the longest suffix of `s` made of spaces and tabs starts. */
  function TrailingBlanksStart(s: string): (n: nat)
    ensures n <= |s| && AllBlank(s[n..])
    ensures 0 < n ==> !IsBlankChar(s[n - 1])
  {
    if s == [] || !IsBlankChar(s[|s| - 1]) then |s|
    else
      var n := TrailingBlanksStart(s[..|s| - 1]);
      assert s[n..] == s[..|s| - 1][n..] + [s[|s| - 1]];
      n
  }

  /** A blank prefix ended by a non-blank character is the longest one. */
  lemma LeadingBlanksAt(s: string, a: nat)
    requires a < |s| && AllBlank(s[..a]) && !IsBlankChar(s[a])
    ensures LeadingBlanks(s) == a
  {
  }

  /** A blank suffix preceded by a non-blank character is the longest one. */
  lemma TrailingBlanksAt(s: string, e: nat)
    requires 0 < e <= |s| && AllBlank(s[e..]) && !IsBlankChar(s[e - 1])
    ensures TrailingBlanksStart(s) == e
  {
  }

  /** The body of `^[ \t]*N[ \t]*\.[ \t]*$` for the numeral N, read left to right:
      the blanks before the numeral and before the period are the longest ones,
      because neither the numeral nor the period starts with a blank. */
  predicate RomanCore(numeral: string, t: string) {
    var a := LeadingBlanks(t);
    a + |numeral| <= |t| && t[a..a + |numeral|] == numeral
    && var b := a + |numeral| + LeadingBlanks(t[a + |numeral|..]);
    b < |t| && t[b] == '.' && AllBlank(t[b + 1..])
  }

  /** The language of `[ \t]*N[ \t]*\.[ \t]*`, stated by its split points. */
  ghost predicate InRomanLanguage(numeral: string, t: string) {
    exists a: nat, b: nat :: RomanSplit(numeral, t, a, b)
  }

  /** `t` is blanks up to `a`, the numeral, blanks up to `b`, the period at `b`, blanks. */
  predicate RomanSplit(numeral: string, t: string, a: nat, b: nat) {
    a + |numeral| <= b < |t|
    && AllBlank(t[..a]) && t[a..a + |numeral|] == numeral
    && AllBlank(t[a + |numeral|..b]) && t[b] == '.' && AllBlank(t[b + 1..])
  }

  /** The body of `^[ \t]*[Nn][Oo](.*)[Uu][Rr][Uu][Tt][ \t]*$`: `.` matches any
      character except a newline. */
  predicate PartyCore(t: string) {
    var a := LeadingBlanks(t);
    var e := TrailingBlanksStart(t);
    a + 6 <= e
    && t[a] in "Nn" && t[a + 1] in "Oo"
    && NoNewline(t[a + 2..e - 4])
    && t[e - 4] in "Uu" && t[e - 3] in "Rr" && t[e - 2] in "Uu" && t[e - 1] in "Tt"
  }

  predicate NoNewline(s: string) {
    forall i :: 0 <= i < |s| ==> s[i] != '\n'
  }

  /** The language of the party-table anchor, stated by its split points. */
  ghost predicate InPartyLanguage(t: string) {
    exists a: nat, e: nat :: PartySplit(t, a, e)
  }

  /** `t` is blanks up to `a`, "No", any line up to `e - 4`, "Urut" ending at `e`, blanks. */
  predicate PartySplit(t: string, a: nat, e: nat) {
    a + 6 <= e <= |t|
    && AllBlank(t[..a]) && t[a] in "Nn" && t[a + 1] in "Oo"
    && NoNewline(t[a + 2..e - 4])
    && t[e - 4] in "Uu" && t[e - 3] in "Rr" && t[e - 2] in "Uu" && t[e - 1] in "Tt"
    && AllBlank(t[e..])
  }

  /** The patterns the locator passes to `re.match`. */
  datatype Pattern =
    | Anything        // "" (get_range_cells)
    | BlankOnly       // ^[ \t]*$ (is_cell_empty)
    | TableIAnchor    // ^[ \t]*I[ \t]*\.[ \t]*$
    | TableIIAnchor   // ^[ \t]*II[ \t]*\.[ \t]*$
    | TableIIIAnchor  // ^[ \t]*III[ \t]*\.[ \t]*$
    | PartyAnchor     // ^[ \t]*[Nn][Oo](.*)[Uu][Rr][Uu][Tt][ \t]*$

  /** The pattern between its `^` and `$`, matched against the whole of `t`. */
  predicate CoreMatches(p: Pattern, t: string) {
    match p
    case Anything => true
    case BlankOnly => AllBlank(t)
    case TableIAnchor => RomanCore("I", t)
    case TableIIAnchor => RomanCore("II", t)
    case TableIIIAnchor => RomanCore("III", t)
    case PartyAnchor => PartyCore(t)
  }

  /** `re.match(p, s)` succeeds. */
  predicate Matches(p: Pattern, s: string) {
    CoreMatches(p, s) || (0 < |s| && s[|s| - 1] == '\n' && CoreMatches(p, s[..|s| - 1]))
  }

  /** `is_cell_empty`: the value is spaces and tabs only. Its first disjunct
      compares a cell object with the empty string and is never true. */
  predicate IsCellEmpty(value: string) {
    Matches(BlankOnly, value)
  }

  /** The recogniser of `p` as a predicate on cell values. */
  function Matcher(p: Pattern): string -> bool {
    v => Matches(p, v)
  }

  /** `s` without one final newline, if it has one. */
  function Chomp(s: string): string {
    if 0 < |s| && s[|s| - 1] == '\n' then s[..|s| - 1] else s
  }

  /** The recogniser for a Roman-numeral anchor accepts exactly the language of its regex. */
  lemma RomanCoreIsLanguage(numeral: string, t: string)
    requires numeral != [] && !IsBlankChar(numeral[0])
    ensures RomanCore(numeral, t) <==> InRomanLanguage(numeral, t)
  {
    if RomanCore(numeral, t) {
      var a := LeadingBlanks(t);
      var u := t[a + |numeral|..];
      var b := a + |numeral| + LeadingBlanks(u);
      assert t[a + |numeral|..b] == u[..b - a - |numeral|];
      assert t[b + 1..] == u[b - a - |numeral| + 1..];
      assert RomanSplit(numeral, t, a, b);
    }
    if InRomanLanguage(numeral, t) {
      var a: nat, b: nat :| RomanSplit(numeral, t, a, b);
      RomanSplitIsRead(numeral, t, a, b);
    }
  }

  /** The split points of a Roman-numeral anchor are the ones `RomanCore` reads. */
  lemma RomanSplitIsRead(numeral: string, t: string, a: nat, b: nat)
    requires numeral != [] && !IsBlankChar(numeral[0]) && RomanSplit(numeral, t, a, b)
    ensures LeadingBlanks(t) == a
    ensures a + |numeral| + LeadingBlanks(t[a + |numeral|..]) == b
    ensures RomanCore(numeral, t)
  {
    assert t[a] == t[a..a + |numeral|][0];
    LeadingBlanksAt(t, a);
    var u := t[a + |numeral|..];
    assert u[..b - a - |numeral|] == t[a + |numeral|..b];
    assert u[b - a - |numeral|] == t[b];
    LeadingBlanksAt(u, b - a - |numeral|);
  }

  /** The recogniser for the party-table anchor accepts exactly the language of its regex. */
  lemma PartyCoreIsLanguage(t: string)
    ensures PartyCore(t) <==> InPartyLanguage(t)
  {
    if PartyCore(t) {
      assert PartySplit(t, LeadingBlanks(t), TrailingBlanksStart(t));
    }
    if InPartyLanguage(t) {
      var a: nat, e: nat :| PartySplit(t, a, e);
      PartySplitIsRead(t, a, e);
    }
  }

  /** The split points of a party-table anchor are the ones `PartyCore` reads. */
  lemma PartySplitIsRead(t: string, a: nat, e: nat)
    requires PartySplit(t, a, e)
    ensures PartyCore(t)
  {
    assert !IsBlankChar(t[a]) && !IsBlankChar(t[e - 1]);
    LeadingBlanksAt(t, a);
    TrailingBlanksAt(t, e);
  }

  /** A core match of a pattern other than `Anything` never ends in a newline. */
  lemma CoreMatchLastChar(p: Pattern, t: string)
    requires p != Anything && 0 < |t|
    ensures CoreMatches(p, t) ==> t[|t| - 1] != '\n'
  {
    if CoreMatches(p, t) {
      match p
      case BlankOnly =>
        assert IsBlankChar(t[|t| - 1]);
      case TableIAnchor => RomanCoreLastChar("I", t);
      case TableIIAnchor => RomanCoreLastChar("II", t);
      case TableIIIAnchor => RomanCoreLastChar("III", t);
      case PartyAnchor => PartyCoreLastChar(t);
    }
  }

  /** So `re.match` of such a pattern is a core match of the chomped string. */
  lemma MatchesChomped(p: Pattern, s: string)
    requires p != Anything
    ensures Matches(p, s) <==> CoreMatches(p, Chomp(s))
  {
    if 0 < |s| && s[|s| - 1] == '\n' {
      CoreMatchLastChar(p, s);
    }
  }

  lemma PartyCoreLastChar(t: string)
    requires PartyCore(t)
    ensures t[|t| - 1] in "Tt" || IsBlankChar(t[|t| - 1])
  {
    var e := TrailingBlanksStart(t);
    if e < |t| {
      assert t[e..][|t| - 1 - e] == t[|t| - 1];
    }
  }

  lemma RomanCoreLastChar(numeral: string, t: string)
    requires RomanCore(numeral, t)
    ensures t[|t| - 1] == '.' || IsBlankChar(t[|t| - 1])
  {
    var a := LeadingBlanks(t);
    var b := a + |numeral| + LeadingBlanks(t[a + |numeral|..]);
    if b < |t| - 1 {
      assert t[b + 1..][|t| - 2 - b] == t[|t| - 1];
    }
  }

  /** After its leading blanks a Roman-numeral anchor starts with the numeral,
      and the character right after the numeral is a blank or the period. */
  lemma RomanCoreShape(numeral: string, t: string)
    requires numeral != [] && RomanCore(numeral, t)
    ensures var a := LeadingBlanks(t);
      a + |numeral| < |t| && t[a..a + |numeral|] == numeral
      && (t[a + |numeral|] == '.' || IsBlankChar(t[a + |numeral|]))
  {
    var m := LeadingBlanks(t) + |numeral|;
    var u := t[m..];
    assert 0 < |u| && u[0] == t[m];
    LeadingBlanksHead(u);
    if LeadingBlanks(u) == 0 {
      assert t[m] == '.';
    }
  }

  /** A string starts with a blank exactly when its blank prefix is not empty. */
  lemma LeadingBlanksHead(u: string)
    requires 0 < |u|
    ensures LeadingBlanks(u) == 0 <==> !IsBlankChar(u[0])
  {
  }

  /** "I." and "II." cannot both be read from the same string, nor can a longer
      numeral whose prefix is a shorter one. */
  lemma RomanPrefixExcludes(short: string, long: string, t: string)
    requires 0 < |short| < |long| && long[..|short|] == short && long[|short|] == 'I'
    requires RomanCore(short, t)
    ensures !RomanCore(long, t)
  {
    RomanCoreShape(short, t);
    var a := LeadingBlanks(t);
    if RomanCore(long, t) {
      RomanCoreShape(long, t);
    }
  }

  /** A party-table anchor starts with `N` or `n`, a Roman-numeral anchor with `I`. */
  lemma PartyExcludesRoman(numeral: string, t: string)
    requires numeral != [] && numeral[0] == 'I' && PartyCore(t)
    ensures !RomanCore(numeral, t)
  {
    if RomanCore(numeral, t) {
      RomanCoreShape(numeral, t);
    }
  }

  /** No anchor pattern matches a blank-only string. */
  lemma AnchorIsNotBlank(p: Pattern, t: string)
    requires IsAnchor(p) && CoreMatches(p, t)
    ensures !AllBlank(t)
  {
    var a := LeadingBlanks(t);
    match p
    case PartyAnchor =>
    case TableIAnchor => RomanCoreShape("I", t);
    case TableIIAnchor => RomanCoreShape("II", t);
    case TableIIIAnchor => RomanCoreShape("III", t);
  }

  /** The four anchor patterns are pairwise disjoint, and an anchor is never an
      empty cell, in either sense of empty. */
  lemma AnchorPatternsDisjoint(s: string)
    ensures !(Matches(TableIAnchor, s) && Matches(TableIIAnchor, s))
    ensures !(Matches(TableIAnchor, s) && Matches(TableIIIAnchor, s))
    ensures !(Matches(TableIIAnchor, s) && Matches(TableIIIAnchor, s))
    ensures !(Matches(PartyAnchor, s) && Matches(TableIAnchor, s))
    ensures !(Matches(PartyAnchor, s) && Matches(TableIIAnchor, s))
    ensures !(Matches(PartyAnchor, s) && Matches(TableIIIAnchor, s))
    ensures forall p :: IsAnchor(p) && Matches(p, s) ==> s != "" && !IsCellEmpty(s)
  {
    var t := Chomp(s);
    MatchesChomped(TableIAnchor, s);
    MatchesChomped(TableIIAnchor, s);
    MatchesChomped(TableIIIAnchor, s);
    MatchesChomped(PartyAnchor, s);
    MatchesChomped(BlankOnly, s);
    if RomanCore("I", t) {
      RomanPrefixExcludes("I", "II", t);
      RomanPrefixExcludes("I", "III", t);
    }
    if RomanCore("II", t) {
      RomanPrefixExcludes("II", "III", t);
    }
    if PartyCore(t) {
      PartyExcludesRoman("I", t);
      PartyExcludesRoman("II", t);
      PartyExcludesRoman("III", t);
    }
    forall p | IsAnchor(p) && Matches(p, s)
      ensures s != "" && !IsCellEmpty(s)
    {
      MatchesChomped(p, s);
      AnchorIsNotBlank(p, t);
    }
  }

  predicate IsAnchor(p: Pattern) {
    p in {TableIAnchor, TableIIAnchor, TableIIIAnchor, PartyAnchor}
  }

  /** The Table-I pattern accepts "I.", also with a trailing blank. */
  lemma TableIAnchorAccepts()
    ensures Matches(TableIAnchor, "I.") && Matches(TableIAnchor, "I. ")
  {
    RomanSplitIsRead("I", "I.", 0, 1);
    RomanSplitIsRead("I", "I. ", 0, 1);
  }

  /** The Table-I pattern accepts blanks around the numeral and the period. */
  lemma TableIAnchorAcceptsSpaced()
    ensures Matches(TableIAnchor, " I . ")
  {
    assert RomanSplit("I", " I . ", 1, 3);
    RomanSplitIsRead("I", " I . ", 1, 3);
  }

  /** The table-II pattern accepts "II.". */
  lemma TableIIAnchorAccepts()
    ensures Matches(TableIIAnchor, "II.")
  {
    RomanSplitIsRead("II", "II.", 0, 2);
  }

  /** The table-III pattern accepts "III.", also after a tab. */
  lemma TableIIIAnchorAccepts()
    ensures Matches(TableIIIAnchor, "III.") && Matches(TableIIIAnchor, "\tIII.")
  {
    RomanSplitIsRead("III", "III.", 0, 3);
    assert RomanSplit("III", "\tIII.", 1, 4);
    RomanSplitIsRead("III", "\tIII.", 1, 4);
  }

  /** Each Roman-numeral pattern rejects the other two numerals, so the three
      anchor groups never share a cell. */
  lemma RomanAnchorsSeparate()
    ensures !Matches(TableIAnchor, "II.") && !Matches(TableIAnchor, "III.")
    ensures !Matches(TableIIAnchor, "I.") && !Matches(TableIIAnchor, "III.")
  {
    TableIAnchorAccepts();
    TableIIAnchorAccepts();
    TableIIIAnchorAccepts();
    AnchorPatternsDisjoint("II.");
    AnchorPatternsDisjoint("III.");
    AnchorPatternsDisjoint("I.");
  }

  /** The party-table pattern accepts the usual "No. Urut" header. */
  lemma PartyAnchorAccepts()
    ensures Matches(PartyAnchor, "No. Urut")
  {
    var t := "No. Urut";
    LeadingBlanksAt(t, 0);
    TrailingBlanksAt(t, 8);
    assert t[2..4] == ". ";
  }

  /** The two notions of empty differ: a value equal to "" is an empty cell,
      but a blank-only value is an empty cell without being "". */
  lemma EmptinessNotions(s: string)
    ensures s == "" ==> IsCellEmpty(s)
    ensures IsCellEmpty(" \t") && IsCellEmpty("\n") && !IsCellEmpty(" x")
  {
    assert " x"[1] == 'x';
  }
}
