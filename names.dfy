/**
 * Reviewer anonymisation: `to_initials` (feed source) and the two
 * `anonymize_name_*` variants (store source and web source).
 */
module Names {

  import opened Records
  import opened Text

  /** `re.search(r"[A-Za-z]", p)`. */
  predicate HasLetter(p: string)
  {
    exists i :: 0 <= i < |p| && IsAsciiLetter(p[i])
  }

  /** The tokens kept by `[p for p in tokens if re.search(r"[A-Za-z]", p)]` (a letter implies `p` is non-empty). */
  function LetterTokens(ts: seq<string>): (ps: seq<string>)
    ensures |ps| <= |ts|
    ensures forall i :: 0 <= i < |ps| ==> HasLetter(ps[i]) && ps[i] != []
  {
    if ts == [] then []
    else (if HasLetter(ts[0]) then [ts[0]] else []) + LetterTokens(ts[1..])
  }

  /**
   * The initials of the first and last token, upper-cased, each followed by
   * a dot and joined by `sep`; "A." when there is no token.
   */
  function Initials(parts: seq<string>, sep: string): string
    requires forall i :: 0 <= i < |parts| ==> parts[i] != []
  {
    if |parts| == 0 then "A."
    else if |parts| == 1 then [Upper(parts[0][0]), '.']
    else [Upper(parts[0][0]), '.'] + sep + [Upper(parts[|parts| - 1][0]), '.']
  }

  /** Whether `s` has the shape of initials: "X." or "X.<sep>Y.". */
  predicate InitialsShape(s: string, sep: string)
  {
    (|s| == 2 && s[1] == '.')
    || (|s| == 4 + |sep| && s[1] == '.' && s[2..2 + |sep|] == sep && s[|s| - 1] == '.')
  }

  /** `to_initials`: "A." for a missing or empty name; otherwise the initials of the letter-bearing tokens, with no separator. */
  function ToInitials(name: Option<string>): (r: string)
    ensures InitialsShape(r, "")
    ensures r[0] == 'A' || (name.Some? && Upper(r[0]) == r[0])
  {
    if name.None? || name.value == [] then "A."
    else Initials(LetterTokens(Split(Strip(name.value))), "")
  }

  /** The placeholder patterns of `anonymize_name_google`, in the order of its regular expression. */
  const GooglePlaceholders: seq<string> := ["anonymous", "anon", "google user", "a google user"]

  /** The placeholder patterns of `anonymize_name_trustpilot`. */
  const TrustpilotPlaceholders: seq<string> := ["anonymous", "anon", "trustpilot user"]

  /** `re.search("p1|p2|...", name, re.I)` for literal alternatives. */
  predicate MentionsAny(name: string, patterns: seq<string>)
  {
    exists j :: 0 <= j < |patterns| && ContainsCI(name, patterns[j])
  }

  /**
   * The shared body of the two `anonymize_name_*` functions: "A." for an
   * empty name or one that mentions a placeholder (after whitespace
   * normalisation); otherwise the initials of the letter-bearing tokens
   * separated by a space.
   */
  function AnonymizeWith(fullName: string, placeholders: seq<string>): (r: string)
    ensures InitialsShape(r, " ")
  {
    if fullName == [] then "A."
    else
      var name := Strip(Collapse(fullName));
      if MentionsAny(name, placeholders) then "A."
      else Initials(LetterTokens(Split(name)), " ")
  }

  /** `anonymize_name_google`. */
  function AnonymizeNameGoogle(fullName: string): (r: string)
    ensures InitialsShape(r, " ")
  {
    AnonymizeWith(fullName, GooglePlaceholders)
  }

  /** `anonymize_name_trustpilot`. */
  function AnonymizeNameTrustpilot(fullName: string): (r: string)
    ensures InitialsShape(r, " ")
  {
    AnonymizeWith(fullName, TrustpilotPlaceholders)
  }

  /** Any name containing "anon", in any case and wherever it occurs, becomes "A." in both variants. */
  lemma AnonMeansA(fullName: string)
    requires ContainsCI(fullName, "anon")
    ensures AnonymizeNameGoogle(fullName) == "A."
    ensures AnonymizeNameTrustpilot(fullName) == "A."
  {
    assert GooglePlaceholders[1] == "anon" && TrustpilotPlaceholders[1] == "anon";
    assert LowerPhrase("anon");
    PlaceholderAnywhere(fullName, GooglePlaceholders, 1);
    PlaceholderAnywhere(fullName, TrustpilotPlaceholders, 1);
  }

  /** A name containing "google user", in any case and wherever it occurs, becomes "A." in the store variant. */
  lemma GoogleUserMeansA(fullName: string)
    requires ContainsCI(fullName, "google user")
    ensures AnonymizeNameGoogle(fullName) == "A."
  {
    assert GooglePlaceholders[2] == "google user";
    assert LowerPhrase("google user");
    PlaceholderAnywhere(fullName, GooglePlaceholders, 2);
  }

  /** A name containing "trustpilot user", in any case and wherever it occurs, becomes "A." in the web variant. */
  lemma TrustpilotUserMeansA(fullName: string)
    requires ContainsCI(fullName, "trustpilot user")
    ensures AnonymizeNameTrustpilot(fullName) == "A."
  {
    assert TrustpilotPlaceholders[2] == "trustpilot user";
    assert LowerPhrase("trustpilot user");
    PlaceholderAnywhere(fullName, TrustpilotPlaceholders, 2);
  }

  /** A placeholder of lower-case words anywhere in the raw name survives normalisation, so the name becomes "A.". */
  lemma PlaceholderAnywhere(fullName: string, placeholders: seq<string>, j: int)
    requires 0 <= j < |placeholders| && LowerPhrase(placeholders[j]) && |placeholders[j]| > 0
    requires ContainsCI(fullName, placeholders[j])
    ensures AnonymizeWith(fullName, placeholders) == "A."
  {
    NormalizeKeepsMatch(fullName, placeholders[j]);
  }

  /** The four alternatives of the store-source expression reduce to "anon" or "google user". */
  lemma GooglePlaceholdersReduce(name: string)
    ensures MentionsAny(name, GooglePlaceholders) <==> ContainsCI(name, "anon") || ContainsCI(name, "google user")
  {
    if ContainsCI(name, "anonymous") {
      ContainsSlice(name, "anonymous", 0, 4);
      assert "anonymous"[0..4] == "anon";
    }
    if ContainsCI(name, "a google user") {
      ContainsSlice(name, "a google user", 2, 13);
      assert "a google user"[2..13] == "google user";
    }
    if ContainsCI(name, "anon") {
      assert ContainsCI(name, GooglePlaceholders[1]);
    }
    if ContainsCI(name, "google user") {
      assert ContainsCI(name, GooglePlaceholders[2]);
    }
  }

  /** The three alternatives of the web-source expression reduce to "anon" or "trustpilot user". */
  lemma TrustpilotPlaceholdersReduce(name: string)
    ensures MentionsAny(name, TrustpilotPlaceholders) <==> ContainsCI(name, "anon") || ContainsCI(name, "trustpilot user")
  {
    if ContainsCI(name, "anonymous") {
      ContainsSlice(name, "anonymous", 0, 4);
      assert "anonymous"[0..4] == "anon";
    }
    if ContainsCI(name, "anon") {
      assert ContainsCI(name, TrustpilotPlaceholders[1]);
    }
    if ContainsCI(name, "trustpilot user") {
      assert ContainsCI(name, TrustpilotPlaceholders[2]);
    }
  }

  /**
   * For a name made of words separated by any whitespace runs, with any
   * whitespace around it, `to_initials` reads the first and last
   * letter-bearing word.
   */
  lemma ToInitialsOfWords(ws: seq<string>, gaps: seq<string>, lead: string, trail: string)
    requires WellSpaced(ws, gaps, lead, trail)
    ensures ToInitials(Some(lead + JoinGaps(ws, gaps) + trail)) == Initials(LetterTokens(ws), "")
  {
    StripSplitSpaced(ws, gaps, lead, trail);
    JoinGapsEnds(ws, gaps);
  }

  /**
   * The same for the anonymisers, when the normalised name
   * `" ".join(full_name.split())` mentions no placeholder.
   */
  lemma AnonymizeOfWords(ws: seq<string>, gaps: seq<string>, lead: string, trail: string, placeholders: seq<string>)
    requires WellSpaced(ws, gaps, lead, trail)
    requires !MentionsAny(Join(ws, " "), placeholders)
    ensures Strip(Collapse(lead + JoinGaps(ws, gaps) + trail)) == Join(ws, " ")
    ensures AnonymizeWith(lead + JoinGaps(ws, gaps) + trail, placeholders) == Initials(LetterTokens(ws), " ")
  {
    NormalizeSpaced(ws, gaps, lead, trail);
    JoinGapsEnds(ws, gaps);
    assert forall i :: 0 <= i < |ws| ==> IsWord(ws[i]);
    SplitJoin(ws);
  }

  // ---------------------------------------------------------------------
  // Names without letters, and names made of lettered words

  /** No character of `s` is in `[A-Za-z]`. */
  predicate LetterFree(s: string)
  {
    forall i :: 0 <= i < |s| ==> !IsAsciiLetter(s[i])
  }

  lemma StripLetterFree(s: string)
    requires LetterFree(s)
    ensures LetterFree(Strip(s))
  {
    StripIsSlice(s);
    var a := LeadCount(s);
    forall i | 0 <= i < |Strip(s)| ensures !IsAsciiLetter(Strip(s)[i]) {
      assert Strip(s)[i] == s[a + i];
    }
  }

  lemma {:induction false} CollapseLetterFree(s: string)
    requires LetterFree(s)
    ensures LetterFree(Collapse(s))
    decreases |s|
  {
    if s != [] {
      var rest := if IsSpace(s[0]) then s[LeadCount(s)..] else s[1..];
      assert LetterFree(rest) by {
        var d := |s| - |rest|;
        forall i | 0 <= i < |rest| ensures !IsAsciiLetter(rest[i]) {
          assert rest[i] == s[d + i];
        }
      }
      CollapseLetterFree(rest);
      var head := if IsSpace(s[0]) then " " else [s[0]];
      assert Collapse(s) == head + Collapse(rest);
    }
  }

  lemma {:induction false} SplitLetterFree(s: string)
    requires LetterFree(s)
    ensures forall i :: 0 <= i < |Split(s)| ==> LetterFree(Split(s)[i])
    decreases |s|
  {
    var k := FirstSpace(s);
    if k < |s| {
      var m := k + LeadCount(s[k..]);
      var rest := s[m..];
      assert LetterFree(rest) by {
        forall i | 0 <= i < |rest| ensures !IsAsciiLetter(rest[i]) {
          assert rest[i] == s[m + i];
        }
      }
      SplitLetterFree(rest);
      assert Split(s) == [s[..k]] + Split(rest);
      assert LetterFree(s[..k]) by {
        forall i | 0 <= i < k ensures !IsAsciiLetter(s[..k][i]) {
          assert s[..k][i] == s[i];
        }
      }
    }
  }

  lemma {:induction false} NoLetterTokens(ts: seq<string>)
    requires forall i :: 0 <= i < |ts| ==> LetterFree(ts[i])
    ensures LetterTokens(ts) == []
  {
    if ts != [] {
      assert !HasLetter(ts[0]);
      NoLetterTokens(ts[1..]);
    }
  }

  /** A name with no letter in `[A-Za-z]` has no alphabetic token, so every variant gives "A.". */
  lemma LetterFreeNameGivesA(name: string)
    requires LetterFree(name)
    ensures ToInitials(Some(name)) == "A."
    ensures AnonymizeNameGoogle(name) == "A."
    ensures AnonymizeNameTrustpilot(name) == "A."
  {
    StripLetterFree(name);
    SplitLetterFree(Strip(name));
    NoLetterTokens(Split(Strip(name)));
    CollapseLetterFree(name);
    StripLetterFree(Collapse(name));
    SplitLetterFree(Strip(Collapse(name)));
    NoLetterTokens(Split(Strip(Collapse(name))));
  }

  lemma {:induction false} LetterTokensKeepsLettered(ws: seq<string>)
    requires forall i :: 0 <= i < |ws| ==> HasLetter(ws[i])
    ensures LetterTokens(ws) == ws
  {
    if ws != [] {
      LetterTokensKeepsLettered(ws[1..]);
    }
  }

  /**
   * For a name made of words that each hold a letter, separated by any
   * whitespace runs, every word counts: one word gives "X.", several give
   * the initials of the first and the last word ("X.Y." from `to_initials`,
   * "X. Y." from the anonymisers when the normalised name holds no
   * placeholder).
   */
  lemma InitialsOfLetteredWords(ws: seq<string>, gaps: seq<string>, lead: string, trail: string)
    requires WellSpaced(ws, gaps, lead, trail)
    requires forall i :: 0 <= i < |ws| ==> HasLetter(ws[i])
    ensures var raw := lead + JoinGaps(ws, gaps) + trail;
      ToInitials(Some(raw)) == Initials(ws, "")
      && (!MentionsAny(Join(ws, " "), GooglePlaceholders) ==> AnonymizeNameGoogle(raw) == Initials(ws, " "))
      && (!MentionsAny(Join(ws, " "), TrustpilotPlaceholders) ==> AnonymizeNameTrustpilot(raw) == Initials(ws, " "))
  {
    LetterTokensKeepsLettered(ws);
    ToInitialsOfWords(ws, gaps, lead, trail);
    if !MentionsAny(Join(ws, " "), GooglePlaceholders) {
      AnonymizeOfWords(ws, gaps, lead, trail, GooglePlaceholders);
    }
    if !MentionsAny(Join(ws, " "), TrustpilotPlaceholders) {
      AnonymizeOfWords(ws, gaps, lead, trail, TrustpilotPlaceholders);
    }
  }

  /** The words "Jane" and "Doe", however spaced, have the initials "J.D.". */
  lemma JaneDoeWords(gap: string, lead: string, trail: string)
    requires IsGap(gap) && AllSpace(lead) && AllSpace(trail)
    ensures ToInitials(Some(lead + JoinGaps(["Jane", "Doe"], [gap]) + trail)) == "J.D."
  {
    var ws := ["Jane", "Doe"];
    forall i | 0 <= i < |ws| ensures IsWord(ws[i]) && HasLetter(ws[i]) {
      forall k | 0 <= k < |ws[i]| ensures !IsSpace(ws[i][k]) {
        assert 'A' <= ws[i][k] <= 'z';
      }
      assert IsAsciiLetter(ws[i][0]);
    }
    assert WellSpaced(ws, [gap], lead, trail);
    LetterTokensKeepsLettered(ws);
    ToInitialsOfWords(ws, [gap], lead, trail);
  }

  /** "Jane Doe" is the words "Jane" and "Doe" with one space between them. */
  lemma JaneDoeText()
    ensures [] + JoinGaps(["Jane", "Doe"], [" "]) + [] == "Jane Doe"
  {
    var ws, gaps := ["Jane", "Doe"], [" "];
    assert ws[1..] == ["Doe"] && gaps[1..] == [];
    assert JoinGaps(ws, gaps) == "Jane" + " " + "Doe";
  }

  /** " Jane\t\tDoe\n" is the same words with two tabs between them, a space before and a newline after. */
  lemma JaneDoeSpacedText()
    ensures " " + JoinGaps(["Jane", "Doe"], ["\t\t"]) + "\n" == " Jane\t\tDoe\n"
  {
    var ws, gaps := ["Jane", "Doe"], ["\t\t"];
    assert ws[1..] == ["Doe"] && gaps[1..] == [];
    assert JoinGaps(ws, gaps) == "Jane" + "\t\t" + "Doe";
  }

  /** "Jane Doe" has the initials "J.D.". */
  lemma JaneDoeInitials()
    ensures ToInitials(Some("Jane Doe")) == "J.D."
  {
    assert IsGap(" ");
    JaneDoeWords(" ", [], []);
    JaneDoeText();
  }

  /** So has " Jane\t\tDoe\n": the whitespace around and between the words does not matter. */
  lemma JaneDoeSpacedInitials()
    ensures ToInitials(Some(" Jane\t\tDoe\n")) == "J.D."
  {
    assert IsGap("\t\t") && AllSpace(" ") && AllSpace("\n");
    JaneDoeWords("\t\t", " ", "\n");
    JaneDoeSpacedText();
  }

  /** "Anonymous User" is anonymised to "A." by both variants. */
  lemma AnonymousUser()
    ensures AnonymizeNameGoogle("Anonymous User") == "A."
    ensures AnonymizeNameTrustpilot("Anonymous User") == "A."
  {
    var s := "Anonymous User";
    assert MatchesAt(s, "anon", 0) by {
      forall k | 0 <= k < 4 ensures FoldsTo(s[0 + k], "anon"[k]) {
      }
    }
    AnonMeansA(s);
  }
}
