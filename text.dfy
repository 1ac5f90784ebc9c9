/**
 * Whitespace handling behind `clean_text`, `str.strip`, `str.split` and
 * `re.split(r"\s+", ...)`, and the case-insensitive substring search of
 * `re.search(..., re.I)`.
 */
module Text {

  import opened Records

  /** Python's `str.isspace` (also the `\s` class of `re` on str patterns). */
  predicate IsSpace(c: char)
  {
    var n := c as int;
    (9 <= n <= 13) || (0x1C <= n <= 0x20) || n == 0x85 || n == 0xA0 || n == 0x1680
    || (0x2000 <= n <= 0x200A) || n == 0x2028 || n == 0x2029 || n == 0x202F
    || n == 0x205F || n == 0x3000
  }

  /** The class `[A-Za-z]`. */
  predicate IsAsciiLetter(c: char)
  {
    ('A' <= c <= 'Z') || ('a' <= c <= 'z')
  }

  predicate IsDigit(c: char)
  {
    '0' <= c <= '9'
  }

  /** `str.upper()` of one character, for ASCII letters; other characters are unchanged. */
  function Upper(c: char): char
  {
    if 'a' <= c <= 'z' then (c as int - 32) as char else c
  }

  predicate AllSpace(s: string)
  {
    forall i :: 0 <= i < |s| ==> IsSpace(s[i])
  }

  predicate NoSpace(s: string)
  {
    forall i :: 0 <= i < |s| ==> !IsSpace(s[i])
  }

  /** Number of leading whitespace characters. */
  function LeadCount(s: string): (k: nat)
    ensures k <= |s|
    ensures forall i :: 0 <= i < k ==> IsSpace(s[i])
    ensures k < |s| ==> !IsSpace(s[k])
  {
    if s != [] && IsSpace(s[0]) then 1 + LeadCount(s[1..]) else 0
  }

  /** Number of trailing whitespace characters. */
  function TrailCount(s: string): (k: nat)
    ensures k <= |s|
    ensures forall i :: |s| - k <= i < |s| ==> IsSpace(s[i])
    ensures k < |s| ==> !IsSpace(s[|s| - 1 - k])
  {
    if s != [] && IsSpace(s[|s| - 1]) then 1 + TrailCount(s[..|s| - 1]) else 0
  }

  /** Index of the first whitespace character, or |s| when there is none. */
  function FirstSpace(s: string): (k: nat)
    ensures k <= |s|
    ensures forall i :: 0 <= i < k ==> !IsSpace(s[i])
    ensures k < |s| ==> IsSpace(s[k])
  {
    if s == [] || IsSpace(s[0]) then 0 else 1 + FirstSpace(s[1..])
  }

  /** `str.strip()`: the slice of `s` between its leading and its trailing whitespace. */
  function Strip(s: string): (r: string)
    ensures r == [] || (!IsSpace(r[0]) && !IsSpace(r[|r| - 1]))
    ensures |r| <= |s|
  {
    var t := s[LeadCount(s)..];
    t[..|t| - TrailCount(t)]
  }

  /** `re.sub(r"\s+", " ", s)`: every maximal whitespace run becomes one space. */
  function Collapse(s: string): string
    decreases |s|
  {
    if s == [] then []
    else if IsSpace(s[0]) then " " + Collapse(s[LeadCount(s)..])
    else [s[0]] + Collapse(s[1..])
  }

  /** Every whitespace character is a plain space and is never followed by whitespace. */
  predicate Collapsed(t: string)
  {
    forall i :: 0 <= i < |t| && IsSpace(t[i]) ==> t[i] == ' ' && (i + 1 == |t| || !IsSpace(t[i + 1]))
  }

  /** What `clean_text` promises of a text it returns. */
  predicate IsClean(t: string)
  {
    t != [] && !IsSpace(t[0]) && !IsSpace(t[|t| - 1]) && Collapsed(t)
  }

  /** The non-whitespace characters of `s`, in order. */
  function NonSpace(s: string): string
  {
    if s == [] then [] else (if IsSpace(s[0]) then [] else [s[0]]) + NonSpace(s[1..])
  }

  /**
   * `clean_text`: `None` for a missing or empty text, otherwise the whitespace
   * collapsed and stripped text, or `None` when nothing is left.
   */
  function CleanText(s: Option<string>): (r: Option<string>)
    ensures r.Some? ==> IsClean(r.value)
    ensures r.None? <==> (s.None? || AllSpace(s.value))
    ensures r.Some? ==> NonSpace(r.value) == NonSpace(s.value)
  {
    if s.None? || s.value == [] then None
    else
      var t := Strip(Collapse(s.value));
      CollapseKeepsContent(s.value);
      StripKeepsContent(Collapse(s.value));
      CollapseIsCollapsed(s.value);
      StripKeepsCollapsed(Collapse(s.value));
      NoContentIffAllSpace(s.value);
      StrippedEmptyIffNoContent(t);
      if t == [] then None else Some(t)
  }

  /** `clean_text` is idempotent. */
  lemma CleanTextIdempotent(s: Option<string>)
    ensures CleanText(s).Some? ==> CleanText(CleanText(s)) == CleanText(s)
  {
    if CleanText(s).Some? {
      var t := CleanText(s).value;
      CollapseFixesCollapsed(t);
      StripFixesStripped(t);
    }
  }

  /** A clean text is its own cleaning. */
  lemma CleanTextFixesClean(t: string)
    requires IsClean(t)
    ensures CleanText(Some(t)) == Some(t)
  {
    CollapseFixesCollapsed(t);
    StripFixesStripped(t);
  }

  // ---------------------------------------------------------------------
  // Facts about NonSpace, Collapse and Strip

  lemma NonSpaceAppend(a: string, b: string)
    ensures NonSpace(a + b) == NonSpace(a) + NonSpace(b)
  {
    if a != [] {
      assert (a + b)[0] == a[0];
      assert (a + b)[1..] == a[1..] + b;
      NonSpaceAppend(a[1..], b);
    } else {
      assert a + b == b;
    }
  }

  lemma {:induction false} NoContentIffAllSpace(s: string)
    ensures NonSpace(s) == [] <==> AllSpace(s)
  {
    if s != [] {
      NoContentIffAllSpace(s[1..]);
      if AllSpace(s) {
        assert AllSpace(s[1..]) by {
          forall i | 0 <= i < |s[1..]| ensures IsSpace(s[1..][i]) { assert s[1..][i] == s[i + 1]; }
        }
      }
      if IsSpace(s[0]) && AllSpace(s[1..]) {
        forall i | 0 <= i < |s| ensures IsSpace(s[i]) {
          if i > 0 { assert s[i] == s[1..][i - 1]; }
        }
      }
    }
  }

  lemma AllSpaceNoContent(s: string)
    requires AllSpace(s)
    ensures NonSpace(s) == []
  {
    NoContentIffAllSpace(s);
  }

  lemma {:induction false} CollapseKeepsContent(s: string)
    ensures NonSpace(Collapse(s)) == NonSpace(s)
    decreases |s|
  {
    if s != [] {
      if IsSpace(s[0]) {
        var k := LeadCount(s);
        CollapseKeepsContent(s[k..]);
        assert s == s[..k] + s[k..];
        NonSpaceAppend(s[..k], s[k..]);
        assert AllSpace(s[..k]);
        AllSpaceNoContent(s[..k]);
        NonSpaceAppend(" ", Collapse(s[k..]));
      } else {
        CollapseKeepsContent(s[1..]);
        NonSpaceAppend([s[0]], Collapse(s[1..]));
      }
    }
  }

  lemma StripKeepsContent(s: string)
    ensures NonSpace(Strip(s)) == NonSpace(s)
  {
    var a := LeadCount(s);
    var t := s[a..];
    var b := |t| - TrailCount(t);
    assert s == s[..a] + t;
    assert t == t[..b] + t[b..];
    assert AllSpace(s[..a]);
    assert AllSpace(t[b..]);
    AllSpaceNoContent(s[..a]);
    AllSpaceNoContent(t[b..]);
    NonSpaceAppend(s[..a], t);
    NonSpaceAppend(t[..b], t[b..]);
  }

  /** A string that starts with a non-space character has content. */
  lemma StrippedEmptyIffNoContent(t: string)
    requires t == [] || !IsSpace(t[0])
    ensures t == [] <==> NonSpace(t) == []
  {
  }

  /** The first character of a collapsed string. */
  lemma CollapseHead(s: string)
    requires s != []
    ensures Collapse(s) != [] && Collapse(s)[0] == (if IsSpace(s[0]) then ' ' else s[0])
  {
  }

  lemma {:induction false} CollapseIsCollapsed(s: string)
    ensures Collapsed(Collapse(s))
    decreases |s|
  {
    if s != [] {
      if IsSpace(s[0]) {
        var rest := s[LeadCount(s)..];
        CollapseIsCollapsed(rest);
        var c := Collapse(rest);
        if rest != [] { CollapseHead(rest); }
        var r := " " + c;
        forall i | 0 <= i < |r| && IsSpace(r[i])
          ensures r[i] == ' ' && (i + 1 == |r| || !IsSpace(r[i + 1]))
        {
          if i > 0 { assert r[i] == c[i - 1]; if i + 1 < |r| { assert r[i + 1] == c[i]; } }
        }
      } else {
        CollapseIsCollapsed(s[1..]);
        var c := Collapse(s[1..]);
        var r := [s[0]] + c;
        forall i | 0 <= i < |r| && IsSpace(r[i])
          ensures r[i] == ' ' && (i + 1 == |r| || !IsSpace(r[i + 1]))
        {
          assert i > 0;
          assert r[i] == c[i - 1];
          if i + 1 < |r| { assert r[i + 1] == c[i]; }
        }
      }
    }
  }

  lemma StripIsSlice(s: string)
    ensures LeadCount(s) + |Strip(s)| <= |s|
    ensures Strip(s) == s[LeadCount(s)..LeadCount(s) + |Strip(s)|]
  {
  }

  lemma StripKeepsCollapsed(s: string)
    requires Collapsed(s)
    ensures Collapsed(Strip(s))
  {
    StripIsSlice(s);
    var a := LeadCount(s);
    var r := Strip(s);
    forall i | 0 <= i < |r| && IsSpace(r[i])
      ensures r[i] == ' ' && (i + 1 == |r| || !IsSpace(r[i + 1]))
    {
      assert r[i] == s[a + i];
      if i + 1 < |r| { assert r[i + 1] == s[a + i + 1]; }
    }
  }

  lemma {:induction false} CollapseFixesCollapsed(t: string)
    requires Collapsed(t)
    ensures Collapse(t) == t
    decreases |t|
  {
    if t != [] {
      var tail := t[1..];
      assert Collapsed(tail) by {
        forall i | 0 <= i < |tail| && IsSpace(tail[i])
          ensures tail[i] == ' ' && (i + 1 == |tail| || !IsSpace(tail[i + 1]))
        {
          assert tail[i] == t[i + 1];
          if i + 1 < |tail| {
            assert tail[i + 1] == t[i + 2];
          }
        }
      }
      CollapseFixesCollapsed(tail);
      if IsSpace(t[0]) {
        assert LeadCount(t) == 1 by {
          if tail != [] {
            assert !IsSpace(tail[0]);
          }
        }
        assert Collapse(t) == " " + Collapse(tail);
      } else {
        assert Collapse(t) == [t[0]] + Collapse(tail);
      }
      assert t == [t[0]] + tail;
    }
  }

  lemma StripFixesStripped(t: string)
    requires t == [] || (!IsSpace(t[0]) && !IsSpace(t[|t| - 1]))
    ensures Strip(t) == t
  {
  }

  // ---------------------------------------------------------------------
  // Splitting on whitespace runs

  /**
   * `re.split(r"\s+", s)`: the pieces between maximal whitespace runs; a
   * leading or trailing run gives an empty first or last piece.
   */
  function Split(s: string): (parts: seq<string>)
    ensures |parts| >= 1
    ensures forall i :: 0 <= i < |parts| ==> NoSpace(parts[i])
    decreases |s|
  {
    var k := FirstSpace(s);
    if k == |s| then [s]
    else [s[..k]] + Split(s[k + LeadCount(s[k..])..])
  }

  /** Words joined by a separator, as `sep.join(ws)`. */
  function Join(ws: seq<string>, sep: string): string
  {
    if ws == [] then [] else if |ws| == 1 then ws[0] else ws[0] + sep + Join(ws[1..], sep)
  }

  /** A non-empty word without whitespace. */
  predicate IsWord(w: string)
  {
    w != [] && NoSpace(w)
  }

  lemma JoinHead(ws: seq<string>, sep: string)
    requires |ws| >= 1 && ws[0] != []
    ensures Join(ws, sep) != [] && Join(ws, sep)[0] == ws[0][0]
  {
  }

  lemma {:induction false} JoinLast(ws: seq<string>, sep: string)
    requires |ws| >= 1 && ws[|ws| - 1] != []
    ensures Join(ws, sep) != [] && Join(ws, sep)[|Join(ws, sep)| - 1] == ws[|ws| - 1][|ws[|ws| - 1]| - 1]
    decreases |ws|
  {
    if |ws| > 1 {
      var tail := ws[1..];
      assert tail[|tail| - 1] == ws[|ws| - 1];
      JoinLast(tail, sep);
      var j := Join(tail, sep);
      var s := ws[0] + sep + j;
      assert Join(ws, sep) == s;
      assert s[|s| - 1] == j[|j| - 1];
    }
  }

  lemma {:induction false} FirstSpaceAfterWord(w: string, b: string)
    requires NoSpace(w) && b != [] && IsSpace(b[0])
    ensures FirstSpace(w + b) == |w|
    decreases |w|
  {
    if w == [] {
      assert w + b == b;
    } else {
      assert (w + b)[0] == w[0];
      assert (w + b)[1..] == w[1..] + b;
      FirstSpaceAfterWord(w[1..], b);
    }
  }

  /** Splitting a single-space join of words gives the words back. */
  lemma {:induction false} SplitJoin(ws: seq<string>)
    requires |ws| >= 1
    requires forall i :: 0 <= i < |ws| ==> IsWord(ws[i])
    ensures Split(Join(ws, " ")) == ws
    decreases |ws|
  {
    var w := ws[0];
    if |ws| == 1 {
      assert FirstSpace(w) == |w|;
    } else {
      var rest := Join(ws[1..], " ");
      var s := w + " " + rest;
      assert Join(ws, " ") == s;
      JoinHead(ws[1..], " ");
      FirstSpaceAfterWord(w, " " + rest);
      assert s == w + (" " + rest);
      assert s[|w|..] == " " + rest;
      assert LeadCount(" " + rest) == 1 by {
        assert (" " + rest)[1..] == rest;
        assert !IsSpace(rest[0]);
      }
      assert s[|w| + 1..] == rest;
      assert s[..|w|] == w;
      assert Split(s) == [w] + Split(rest);
      assert forall i :: 0 <= i < |ws[1..]| ==> IsWord(ws[1..][i]) by {
        forall i | 0 <= i < |ws[1..]| ensures IsWord(ws[1..][i]) {
          assert ws[1..][i] == ws[i + 1];
        }
      }
      SplitJoin(ws[1..]);
      assert ws == [w] + ws[1..];
    }
  }

  /** The string joined from clean words is collapsed and stripped. */
  lemma {:induction false} JoinIsClean(ws: seq<string>)
    requires |ws| >= 1
    requires forall i :: 0 <= i < |ws| ==> IsWord(ws[i])
    ensures IsClean(Join(ws, " "))
    decreases |ws|
  {
    JoinHead(ws, " ");
    JoinLast(ws, " ");
    if |ws| > 1 {
      JoinIsClean(ws[1..]);
      var w := ws[0];
      var rest := Join(ws[1..], " ");
      var s := w + " " + rest;
      assert Join(ws, " ") == s;
      forall i | 0 <= i < |s| && IsSpace(s[i])
        ensures s[i] == ' ' && (i + 1 == |s| || !IsSpace(s[i + 1]))
      {
        if i == |w| { assert s[i + 1] == rest[0]; }
        else {
          assert s[i] == rest[i - |w| - 1];
          if i + 1 < |s| { assert s[i + 1] == rest[i - |w|]; }
        }
      }
    }
  }

  // ---------------------------------------------------------------------
  // Words separated by arbitrary whitespace runs

  /** A non-empty run of whitespace. */
  predicate IsGap(g: string)
  {
    g != [] && AllSpace(g)
  }

  /** The words `ws` with the whitespace run `gaps[i]` between `ws[i]` and `ws[i + 1]`. */
  function JoinGaps(ws: seq<string>, gaps: seq<string>): string
    requires |ws| >= 1 && |gaps| == |ws| - 1
    decreases |ws|
  {
    if |ws| == 1 then ws[0] else ws[0] + gaps[0] + JoinGaps(ws[1..], gaps[1..])
  }

  /**
   * `lead + JoinGaps(ws, gaps) + trail` is a text made of the words `ws`:
   * whitespace runs between them, and optional whitespace at either end.
   */
  predicate WellSpaced(ws: seq<string>, gaps: seq<string>, lead: string, trail: string)
  {
    |ws| >= 1 && |gaps| == |ws| - 1
    && (forall i :: 0 <= i < |ws| ==> IsWord(ws[i]))
    && (forall i :: 0 <= i < |gaps| ==> IsGap(gaps[i]))
    && AllSpace(lead) && AllSpace(trail)
  }

  /** The first word, the first run, and the rest of a well-spaced text. */
  lemma WellSpacedTail(ws: seq<string>, gaps: seq<string>, trail: string)
    requires WellSpaced(ws, gaps, [], trail) && |ws| > 1
    ensures IsWord(ws[0]) && IsGap(gaps[0]) && ws == [ws[0]] + ws[1..]
    ensures WellSpaced(ws[1..], gaps[1..], [], trail) && WellSpaced(ws[1..], gaps[1..], [], [])
    ensures JoinGaps(ws, gaps) == ws[0] + gaps[0] + JoinGaps(ws[1..], gaps[1..])
  {
    assert forall i :: 0 <= i < |ws| - 1 ==> ws[1..][i] == ws[i + 1];
    assert forall i :: 0 <= i < |gaps| - 1 ==> gaps[1..][i] == gaps[i + 1];
  }

  lemma {:induction false} JoinGapsEnds(ws: seq<string>, gaps: seq<string>)
    requires WellSpaced(ws, gaps, [], [])
    ensures var m := JoinGaps(ws, gaps); m != [] && !IsSpace(m[0]) && !IsSpace(m[|m| - 1])
    decreases |ws|
  {
    if |ws| > 1 {
      WellSpacedTail(ws, gaps, []);
      JoinGapsEnds(ws[1..], gaps[1..]);
      var r := JoinGaps(ws[1..], gaps[1..]);
      var m := ws[0] + gaps[0] + r;
      assert m[0] == ws[0][0] && m[|m| - 1] == r[|r| - 1];
    } else {
      assert IsWord(ws[0]);
    }
  }

  /** The leading whitespace of `g + r` is `g`, when `r` does not start with whitespace. */
  lemma {:induction false} LeadCountOver(g: string, r: string)
    requires AllSpace(g) && (r == [] || !IsSpace(r[0]))
    ensures LeadCount(g + r) == |g|
    decreases |g|
  {
    if g == [] {
      assert g + r == r;
    } else {
      assert (g + r)[0] == g[0];
      assert (g + r)[1..] == g[1..] + r;
      LeadCountOver(g[1..], r);
    }
  }

  /** The trailing whitespace of `m + t` is `t`, when `m` does not end with whitespace. */
  lemma {:induction false} TrailCountOver(m: string, t: string)
    requires AllSpace(t) && (m == [] || !IsSpace(m[|m| - 1]))
    ensures TrailCount(m + t) == |t|
    decreases |t|
  {
    if t == [] {
      assert m + t == m;
    } else {
      var u := m + t;
      assert u[|u| - 1] == t[|t| - 1];
      assert u[..|u| - 1] == m + t[..|t| - 1];
      TrailCountOver(m, t[..|t| - 1]);
    }
  }

  /** Stripping removes exactly the whitespace around a text with non-whitespace ends. */
  lemma StripSpaced(lead: string, m: string, trail: string)
    requires AllSpace(lead) && AllSpace(trail)
    requires m != [] && !IsSpace(m[0]) && !IsSpace(m[|m| - 1])
    ensures Strip(lead + m + trail) == m
  {
    var s := lead + m + trail;
    assert s == lead + (m + trail);
    LeadCountOver(lead, m + trail);
    assert s[|lead|..] == m + trail;
    TrailCountOver(m, trail);
    assert (m + trail)[..|m|] == m;
  }

  /** Splitting cuts a word off at the whitespace run after it. */
  lemma SplitWordGap(w: string, g: string, r: string)
    requires NoSpace(w) && IsGap(g) && r != [] && !IsSpace(r[0])
    ensures Split(w + g + r) == [w] + Split(r)
  {
    var s := w + (g + r);
    assert w + g + r == s;
    FirstSpaceAfterWord(w, g + r);
    LeadCountOver(g, r);
    assert s[|w|..] == g + r;
    assert s[|w| + |g|..] == r;
    assert s[..|w|] == w;
  }

  /** `re.split(r"\s+", ...)` gives back the words, whatever whitespace runs separate them. */
  lemma {:induction false} SplitJoinGaps(ws: seq<string>, gaps: seq<string>)
    requires WellSpaced(ws, gaps, [], [])
    ensures Split(JoinGaps(ws, gaps)) == ws
    decreases |ws|
  {
    var w := ws[0];
    assert IsWord(w);
    if |ws| == 1 {
      assert FirstSpace(w) == |w|;
    } else {
      WellSpacedTail(ws, gaps, []);
      var rest := JoinGaps(ws[1..], gaps[1..]);
      JoinGapsEnds(ws[1..], gaps[1..]);
      SplitWordGap(w, gaps[0], rest);
      SplitJoinGaps(ws[1..], gaps[1..]);
    }
  }

  /** Collapsing passes over a word unchanged. */
  lemma {:induction false} CollapseWord(w: string, x: string)
    requires NoSpace(w)
    ensures Collapse(w + x) == w + Collapse(x)
    decreases |w|
  {
    if w != [] {
      assert (w + x)[0] == w[0];
      assert (w + x)[1..] == w[1..] + x;
      CollapseWord(w[1..], x);
      assert w == [w[0]] + w[1..];
    } else {
      assert w + x == x;
    }
  }

  /** Collapsing turns a whitespace run into one space. */
  lemma CollapseGap(g: string, r: string)
    requires IsGap(g) && (r == [] || !IsSpace(r[0]))
    ensures Collapse(g + r) == " " + Collapse(r)
  {
    LeadCountOver(g, r);
    assert (g + r)[0] == g[0];
    assert (g + r)[|g|..] == r;
  }

  /** Collapsing trailing whitespace leaves one space, or nothing. */
  lemma CollapseTrail(trail: string)
    requires AllSpace(trail)
    ensures Collapse(trail) == if trail == [] then [] else " "
  {
    if trail != [] {
      CollapseGap(trail, []);
      assert trail + [] == trail;
    }
  }

  /** Collapsing a word and the whitespace run after it. */
  lemma CollapseWordGap(w: string, g: string, r: string)
    requires NoSpace(w) && IsGap(g) && (r == [] || !IsSpace(r[0]))
    ensures Collapse(w + g + r) == w + " " + Collapse(r)
  {
    assert w + g + r == w + (g + r);
    CollapseWord(w, g + r);
    CollapseGap(g, r);
  }

  /** Collapsing the words and their runs, and optional trailing whitespace, gives the single-space join. */
  lemma {:induction false} CollapseJoinGaps(ws: seq<string>, gaps: seq<string>, trail: string)
    requires WellSpaced(ws, gaps, [], trail)
    ensures Collapse(JoinGaps(ws, gaps) + trail) == Join(ws, " ") + (if trail == [] then [] else " ")
    decreases |ws|
  {
    var w := ws[0];
    assert IsWord(w);
    CollapseTrail(trail);
    if |ws| == 1 {
      CollapseWord(w, trail);
    } else {
      var g := gaps[0];
      WellSpacedTail(ws, gaps, trail);
      var rest := JoinGaps(ws[1..], gaps[1..]);
      JoinGapsEnds(ws[1..], gaps[1..]);
      var r := rest + trail;
      assert r[0] == rest[0];
      assert JoinGaps(ws, gaps) + trail == w + g + r;
      CollapseWordGap(w, g, r);
      CollapseJoinGaps(ws[1..], gaps[1..], trail);
      var t := if trail == [] then [] else " ";
      var jt := Join(ws[1..], " ");
      var c := Collapse(JoinGaps(ws, gaps) + trail);
      assert c == w + " " + (jt + t);
      assert w + " " + (jt + t) == (w + " " + jt) + t;
      assert Join(ws, " ") == w + " " + jt;
    }
  }

  /**
   * `" ".join(raw.split())` of a text made of the words `ws` is their
   * single-space join, whatever the whitespace between and around them.
   */
  lemma NormalizeSpaced(ws: seq<string>, gaps: seq<string>, lead: string, trail: string)
    requires WellSpaced(ws, gaps, lead, trail)
    ensures Strip(Collapse(lead + JoinGaps(ws, gaps) + trail)) == Join(ws, " ")
  {
    var m := JoinGaps(ws, gaps);
    JoinGapsEnds(ws, gaps);
    CollapseJoinGaps(ws, gaps, trail);
    var x := m + trail;
    var j := Join(ws, " ");
    var t := if trail == [] then [] else " ";
    assert Collapse(x) == j + t;
    assert lead + m + trail == lead + x;
    var l := if lead == [] then [] else " ";
    assert Collapse(lead + x) == l + Collapse(x) by {
      if lead != [] {
        assert x[0] == m[0];
        CollapseGap(lead, x);
      } else {
        assert lead + x == x;
      }
    }
    var c := Collapse(lead + m + trail);
    assert c == l + (j + t);
    assert l + (j + t) == l + j + t;
    JoinIsClean(ws);
    StripSpaced(l, j, t);
    assert Strip(c) == j;
  }

  /** `re.split(r"\s+", raw.strip())` of a text made of the words `ws` gives the words. */
  lemma StripSplitSpaced(ws: seq<string>, gaps: seq<string>, lead: string, trail: string)
    requires WellSpaced(ws, gaps, lead, trail)
    ensures Strip(lead + JoinGaps(ws, gaps) + trail) == JoinGaps(ws, gaps)
    ensures Split(Strip(lead + JoinGaps(ws, gaps) + trail)) == ws
  {
    JoinGapsEnds(ws, gaps);
    StripSpaced(lead, JoinGaps(ws, gaps), trail);
    SplitJoinGaps(ws, gaps);
  }

  // ---------------------------------------------------------------------
  // Case-insensitive search, as `re.search(pattern, s, re.I)`

  /**
   * Character `c` matches the pattern character `p` (a lower-case ASCII
   * letter or a space) under `re.IGNORECASE`: `p` itself, its upper-case
   * form, and the non-ASCII characters that simple case folding sends to it
   * (long s for `s`, dotless i and dotted capital I for `i`, the Kelvin sign for `k`).
   */
  predicate FoldsTo(c: char, p: char)
  {
    c == p
    || ('a' <= p <= 'z' && c == Upper(p))
    || (p == 's' && c == '\U{017F}')
    || (p == 'i' && (c == '\U{0130}' || c == '\U{0131}'))
    || (p == 'k' && c == '\U{212A}')
  }

  /**
   * A pattern made of lower-case ASCII letters and single spaces, each
   * space between two letters ("anon", "google user").
   */
  predicate LowerPhrase(p: string)
  {
    forall k {:trigger p[k]} :: 0 <= k < |p| ==> ('a' <= p[k] <= 'z') || (p[k] == ' ' && 0 < k < |p| - 1 && p[k + 1] != ' ')
  }

  /** One position of a lower-case phrase: a letter, or a space with a letter after it; the ends are letters. */
  lemma PhraseAt(p: string, k: int)
    requires LowerPhrase(p) && 0 <= k < |p|
    ensures ('a' <= p[k] <= 'z') || (p[k] == ' ' && 0 < k < |p| - 1 && 'a' <= p[k + 1] <= 'z')
    ensures 'a' <= p[0] <= 'z' && 'a' <= p[|p| - 1] <= 'z'
  {
  }

  /** Every whitespace character is a plain space followed by a non-whitespace character. */
  predicate LoneSpaces(t: string)
  {
    forall k :: 0 <= k < |t| && IsSpace(t[k]) ==> t[k] == ' ' && k + 1 < |t| && !IsSpace(t[k + 1])
  }

  predicate MatchesAt(s: string, p: string, i: int)
  {
    0 <= i && i + |p| <= |s| && forall k :: 0 <= k < |p| ==> FoldsTo(s[i + k], p[k])
  }

  /** `re.search(p, s, re.I)` for a literal pattern `p`. */
  predicate ContainsCI(s: string, p: string)
  {
    exists i :: 0 <= i <= |s| - |p| && MatchesAt(s, p, i)
  }

  /** A match of a longer pattern contains a match of each of its slices. */
  lemma ContainsSlice(s: string, p: string, a: nat, b: nat)
    requires a <= b <= |p|
    requires ContainsCI(s, p)
    ensures ContainsCI(s, p[a..b])
  {
    var i :| 0 <= i <= |s| - |p| && MatchesAt(s, p, i);
    assert MatchesAt(s, p[a..b], i + a) by {
      forall k | 0 <= k < b - a ensures FoldsTo(s[i + a + k], p[a..b][k]) {
        assert p[a..b][k] == p[a + k];
        assert FoldsTo(s[i + (a + k)], p[a + k]);
      }
    }
  }

  /** A character that matches a lower-case letter is not whitespace. */
  lemma FoldsToLetterNotSpace(c: char, p: char)
    requires 'a' <= p <= 'z' && FoldsTo(c, p)
    ensures !IsSpace(c)
  {
  }

  /** A space a pattern character matches is the space of the pattern. */
  lemma FoldsToSpace(c: char, p: char)
    requires ('a' <= p <= 'z' || p == ' ') && FoldsTo(c, p) && IsSpace(c)
    ensures p == ' ' && c == ' '
  {
  }

  /** Collapsing keeps in place a prefix whose whitespace is lone plain spaces. */
  lemma {:induction false} CollapseKeepsPrefix(s: string, n: nat)
    requires n <= |s| && LoneSpaces(s[..n])
    ensures n <= |Collapse(s)| && Collapse(s)[..n] == s[..n]
    decreases n
  {
    if n > 0 {
      var u := s[..n];
      var t := s[1..][..n - 1];
      assert LoneSpaces(t) by {
        forall k | 0 <= k < |t| && IsSpace(t[k]) ensures t[k] == ' ' && k + 1 < |t| && !IsSpace(t[k + 1]) {
          assert t[k] == u[k + 1];
          assert k + 2 < n;
          assert t[k + 1] == u[k + 2];
        }
      }
      CollapseKeepsPrefix(s[1..], n - 1);
      if IsSpace(s[0]) {
        assert u[0] == s[0] && u[1] == s[1];
        assert LeadCount(s[1..]) == 0;
        assert Collapse(s) == " " + Collapse(s[1..]);
      } else {
        assert Collapse(s) == [s[0]] + Collapse(s[1..]);
      }
      assert s[..n] == [s[0]] + s[1..][..n - 1];
    }
  }

  /** A match survives dropping a prefix that ends before it. */
  lemma MatchInSuffix(s: string, p: string, i: int, l: nat)
    requires MatchesAt(s, p, i) && l <= i
    ensures MatchesAt(s[l..], p, i - l)
  {
    var rest := s[l..];
    forall k | 0 <= k < |p| ensures FoldsTo(rest[i - l + k], p[k]) {
      assert rest[i - l + k] == s[i + k];
    }
  }

  /** A match survives putting text in front. */
  lemma MatchAfter(pre: string, d: string, p: string)
    requires ContainsCI(d, p)
    ensures ContainsCI(pre + d, p)
  {
    var j :| 0 <= j <= |d| - |p| && MatchesAt(d, p, j);
    var c := pre + d;
    forall k | 0 <= k < |p| ensures FoldsTo(c[|pre| + j + k], p[k]) {
      assert c[|pre| + j + k] == d[j + k];
    }
    assert MatchesAt(c, p, |pre| + j);
  }

  /** A match at the very start survives collapsing: its whitespace is lone plain spaces. */
  lemma CollapseKeepsLeadingMatch(s: string, p: string)
    requires LowerPhrase(p) && MatchesAt(s, p, 0)
    ensures ContainsCI(Collapse(s), p)
  {
    var u := s[..|p|];
    assert LoneSpaces(u) by {
      forall k | 0 <= k < |u| && IsSpace(u[k]) ensures u[k] == ' ' && k + 1 < |u| && !IsSpace(u[k + 1]) {
        assert u[k] == s[0 + k];
        PhraseAt(p, k);
        FoldsToSpace(s[0 + k], p[k]);
        assert u[k + 1] == s[0 + (k + 1)];
        FoldsToLetterNotSpace(s[0 + (k + 1)], p[k + 1]);
      }
    }
    CollapseKeepsPrefix(s, |p|);
    var c := Collapse(s);
    forall k | 0 <= k < |p| ensures FoldsTo(c[0 + k], p[k]) {
      assert c[k] == c[..|p|][k] == s[..|p|][k] == s[0 + k];
    }
    assert MatchesAt(c, p, 0);
  }

  /** Collapsing whitespace keeps every match of a lower-case phrase. */
  lemma {:induction false} CollapseKeepsMatch(s: string, p: string, i: int)
    requires LowerPhrase(p) && MatchesAt(s, p, i)
    ensures ContainsCI(Collapse(s), p)
    decreases |s|
  {
    if i == 0 {
      CollapseKeepsLeadingMatch(s, p);
    } else if |p| == 0 {
      assert MatchesAt(Collapse(s), p, 0);
    } else if IsSpace(s[0]) {
      var l := LeadCount(s);
      PhraseAt(p, 0);
      FoldsToLetterNotSpace(s[i + 0], p[0]);
      assert l <= i;
      MatchInSuffix(s, p, i, l);
      CollapseKeepsMatch(s[l..], p, i - l);
      assert Collapse(s) == " " + Collapse(s[l..]);
      MatchAfter(" ", Collapse(s[l..]), p);
    } else {
      MatchInSuffix(s, p, i, 1);
      CollapseKeepsMatch(s[1..], p, i - 1);
      assert Collapse(s) == [s[0]] + Collapse(s[1..]);
      MatchAfter([s[0]], Collapse(s[1..]), p);
    }
  }

  /** A match survives dropping a suffix that starts after it. */
  lemma MatchInPrefix(s: string, p: string, i: int, n: nat)
    requires MatchesAt(s, p, i) && i + |p| <= n <= |s|
    ensures MatchesAt(s[..n], p, i)
  {
    forall k | 0 <= k < |p| ensures FoldsTo(s[..n][i + k], p[k]) {
      assert s[..n][i + k] == s[i + k];
    }
  }

  /** Stripping keeps every match of a lower-case phrase. */
  lemma StripKeepsMatch(s: string, p: string, i: int)
    requires LowerPhrase(p) && |p| > 0 && MatchesAt(s, p, i)
    ensures ContainsCI(Strip(s), p)
  {
    var a := LeadCount(s);
    PhraseAt(p, 0);
    FoldsToLetterNotSpace(s[i + 0], p[0]);
    assert a <= i;
    MatchInSuffix(s, p, i, a);
    var t := s[a..];
    var j := i - a;
    FoldsToLetterNotSpace(t[j + (|p| - 1)], p[|p| - 1]);
    var n := |t| - TrailCount(t);
    assert j + |p| <= n;
    MatchInPrefix(t, p, j, n);
    assert Strip(s) == t[..n];
    assert MatchesAt(Strip(s), p, j);
  }

  /** `" ".join(s.split())` (the same string as `clean_text` computes) still contains every match of a lower-case phrase in `s`. */
  lemma NormalizeKeepsMatch(s: string, p: string)
    requires LowerPhrase(p) && |p| > 0 && ContainsCI(s, p)
    ensures ContainsCI(Strip(Collapse(s)), p)
  {
    var i :| 0 <= i <= |s| - |p| && MatchesAt(s, p, i);
    CollapseKeepsMatch(s, p, i);
    var j :| 0 <= j <= |Collapse(s)| - |p| && MatchesAt(Collapse(s), p, j);
    StripKeepsMatch(Collapse(s), p, j);
  }
}
