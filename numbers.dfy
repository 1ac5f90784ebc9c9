/** Decimal integers as text: `str(n)`, `int(s)` and `clamp_star_rating`. */
module Numbers {

  import opened Records
  import opened Text

  function DigitValue(c: char): nat
    requires IsDigit(c)
  {
    c as int - '0' as int
  }

  function DigitChar(d: nat): (c: char)
    requires d < 10
    ensures IsDigit(c) && DigitValue(c) == d
  {
    ('0' as int + d) as char
  }

  /** `str(n)` for a natural number: its decimal digits, most significant first. */
  function ShowNat(n: nat): (s: string)
    ensures |s| >= 1
    ensures forall i :: 0 <= i < |s| ==> IsDigit(s[i])
  {
    if n < 10 then [DigitChar(n)] else ShowNat(n / 10) + [DigitChar(n % 10)]
  }

  /** `str(n)` for any integer. */
  function ShowInt(n: int): string
  {
    if n < 0 then "-" + ShowNat(-n) else ShowNat(n)
  }

  /** What `int()` accepts after the sign: decimal digits, with single underscores only between digits. */
  predicate DigitGroups(d: string)
  {
    |d| > 0 && IsDigit(d[0]) && IsDigit(d[|d| - 1])
    && (forall i :: 0 <= i < |d| ==> IsDigit(d[i]) || d[i] == '_')
    && (forall i :: 0 <= i < |d| - 1 && d[i] == '_' ==> IsDigit(d[i + 1]))
  }

  /** The number the digits of `d` spell, underscores ignored. */
  function DigitsValue(d: string): nat
    requires forall i :: 0 <= i < |d| ==> IsDigit(d[i]) || d[i] == '_'
  {
    if d == [] then 0
    else if d[|d| - 1] == '_' then DigitsValue(d[..|d| - 1])
    else 10 * DigitsValue(d[..|d| - 1]) + DigitValue(d[|d| - 1])
  }

  /** `int(s)` for a string, in base 10: surrounding whitespace, an optional sign, then digit groups; None where Python raises. */
  function ParseInt(s: string): Option<int>
  {
    var t := Strip(s);
    if |t| > 0 && (t[0] == '+' || t[0] == '-') then
      if DigitGroups(t[1..]) then
        var v: int := DigitsValue(t[1..]);
        Some(if t[0] == '-' then -v else v)
      else None
    else if DigitGroups(t) then Some(DigitsValue(t))
    else None
  }

  /**
   * `clamp_star_rating(val)` for `val` given as its text `str(val)` (a
   * missing value is the text "None"): None when the text is not an
   * integer, otherwise the integer forced into 1..5.
   */
  function ClampStarRating(val: string): (r: Option<int>)
    ensures r.None? <==> ParseInt(Strip(val)).None?
    ensures r.Some? ==> 1 <= r.value <= 5
    ensures r.Some? && 1 <= ParseInt(Strip(val)).value <= 5 ==> r.value == ParseInt(Strip(val)).value
    ensures r.Some? && ParseInt(Strip(val)).value < 1 ==> r.value == 1
    ensures r.Some? && ParseInt(Strip(val)).value > 5 ==> r.value == 5
  {
    match ParseInt(Strip(val))
    case None => None
    case Some(i) => Some(if i < 1 then 1 else if i > 5 then 5 else i)
  }

  // ---------------------------------------------------------------------
  // Round trips

  lemma {:induction false} ShowNatValue(n: nat)
    ensures DigitsValue(ShowNat(n)) == n
  {
    if n >= 10 {
      var s := ShowNat(n);
      assert s[..|s| - 1] == ShowNat(n / 10);
      ShowNatValue(n / 10);
    }
  }

  /** `str` is injective on naturals. */
  lemma ShowNatInjective(m: nat, n: nat)
    requires ShowNat(m) == ShowNat(n)
    ensures m == n
  {
    ShowNatValue(m);
    ShowNatValue(n);
  }

  /** The digits of `str(n)` form one digit group. */
  lemma ShowNatGroups(n: nat)
    ensures DigitGroups(ShowNat(n)) && !IsSpace(ShowNat(n)[0]) && !IsSpace(ShowNat(n)[|ShowNat(n)| - 1])
  {
    var s := ShowNat(n);
    assert IsDigit(s[0]) && IsDigit(s[|s| - 1]);
  }

  /** `int(str(n)) == n`. */
  lemma ParseShowInt(n: int)
    ensures ParseInt(ShowInt(n)) == Some(n)
  {
    var s := ShowInt(n);
    var d := if n < 0 then -n else n;
    ShowNatValue(d);
    ShowNatGroups(d);
    if n < 0 {
      assert s == "-" + ShowNat(d);
      assert s[1..] == ShowNat(d);
      StripFixesStripped(s);
      assert Strip(s) == s;
    } else {
      assert s == ShowNat(d);
      StripFixesStripped(s);
      assert s[0] != '+' && s[0] != '-';
    }
  }

  /** Clamping is idempotent: clamping the text of a clamped rating gives it back. */
  lemma ClampIdempotent(val: string)
    requires ClampStarRating(val).Some?
    ensures ClampStarRating(ShowInt(ClampStarRating(val).value)) == ClampStarRating(val)
  {
    var n := ClampStarRating(val).value;
    ParseShowInt(n);
    StripFixesStripped(ShowInt(n));
  }

  /** A rating already in range comes back unchanged, whatever whitespace surrounds it. */
  lemma ClampKeepsRange(n: int, pre: string, post: string)
    requires 1 <= n <= 5
    requires AllSpace(pre) && AllSpace(post)
    ensures ClampStarRating(pre + ShowInt(n) + post) == Some(n)
  {
    ParseShowInt(n);
    StripAroundSpace(pre, ShowInt(n), post);
    StripFixesStripped(ShowInt(n));
  }

  lemma StripAroundSpace(pre: string, t: string, post: string)
    requires AllSpace(pre) && AllSpace(post)
    requires t != [] && !IsSpace(t[0]) && !IsSpace(t[|t| - 1])
    ensures Strip(pre + t + post) == t
  {
    var s := pre + t + post;
    LeadCountOf(pre, t + post);
    assert s == pre + (t + post);
    assert s[|pre|..] == t + post;
    TrailCountOf(t, post);
  }

  lemma {:induction false} LeadCountOf(pre: string, rest: string)
    requires AllSpace(pre)
    requires rest != [] && !IsSpace(rest[0])
    ensures LeadCount(pre + rest) == |pre|
  {
    if pre != [] {
      assert (pre + rest)[1..] == pre[1..] + rest;
      LeadCountOf(pre[1..], rest);
    }
  }

  lemma {:induction false} TrailCountOf(t: string, post: string)
    requires AllSpace(post)
    requires t != [] && !IsSpace(t[|t| - 1])
    ensures TrailCount(t + post) == |post|
  {
    if post != [] {
      var s := t + post;
      assert s[..|s| - 1] == t + post[..|post| - 1];
      TrailCountOf(t, post[..|post| - 1]);
    }
  }

  /** A missing rating is the text "None", which is not an integer. */
  lemma MissingRatingIsSkipped()
    ensures ClampStarRating("None") == None
  {
    StripFixesStripped("None");
  }
}
