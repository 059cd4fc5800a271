/**
 `_price_re`, the free-text price pattern
     (?:\$|CAD\s*\$?)\s*([0-9]{1,3}(?:[, ][0-9]{3})*(?:\.[0-9]{2})?)
 compiled with IGNORECASE. The pattern is given twice: as a recogniser that
 follows its grammar piece by piece over a span `text[i..j]`, and as a
 deterministic left-to-right scanner with the leftmost-start, greedy
 semantics of `re.search`. The scanner is proved to find exactly the
 leftmost match, and at that start the longest number the pattern allows,
 which is what the greedy quantifiers choose.
 */
module PricePattern {
  import opened Wrappers
  import opened Text

  // ---------------------------------------------------------------------
  // The grammar

  /** `[, ]`: a comma or an ASCII space, nothing else. */
  predicate IsSep(c: char) {
    c == ',' || c == ' '
  }

  /** Every character of `text[i..j]` is whitespace (`\s`). */
  predicate SpacesIn(text: string, i: nat, j: nat)
    requires i <= j <= |text|
  {
    forall n :: i <= n < j ==> IsSpace(text[n])
  }

  /** Every character of `text[i..j]` is a digit (`[0-9]`). */
  predicate DigitsIn(text: string, i: nat, j: nat)
    requires i <= j <= |text|
  {
    forall n :: i <= n < j ==> IsDigit(text[n])
  }

  /** `text[i..j]` is `(?:[, ][0-9]{3})*`: zero or more groups of a separator and exactly three digits. */
  predicate GroupsSpan(text: string, i: nat, j: nat)
    requires i <= j <= |text|
    decreases j - i
  {
    i == j || (i + 4 <= j && IsSep(text[i]) && DigitsIn(text, i + 1, i + 4) && GroupsSpan(text, i + 4, j))
  }

  /** `text[i..j]` is `[0-9]{1,3}(?:[, ][0-9]{3})*`: one to three digits, then groups. */
  ghost predicate IntegerSpan(text: string, i: nat, j: nat)
    requires i <= j <= |text|
  {
    exists h :: i < h <= i + 3 && h <= j && DigitsIn(text, i, h) && GroupsSpan(text, h, j)
  }

  /** `text[i..j]` is `(?:\.[0-9]{2})?`: nothing, or a dot and exactly two digits. */
  predicate FractionSpan(text: string, i: nat, j: nat)
    requires i <= j <= |text|
  {
    i == j || (j == i + 3 && text[i] == '.' && DigitsIn(text, i + 1, j))
  }

  /** `text[i..j]` is the captured group: an integer part followed by an optional fraction. */
  ghost predicate NumberSpan(text: string, i: nat, j: nat)
    requires i <= j <= |text|
  {
    exists k :: i <= k <= j && IntegerSpan(text, i, k) && FractionSpan(text, k, j)
  }

  /** A whole string is a number the pattern captures. */
  ghost predicate IsNumber(s: string) {
    NumberSpan(s, 0, |s|)
  }

  /** `CAD` under IGNORECASE starts at `p`. */
  predicate CadAt(text: string, p: nat) {
    p + 3 <= |text| && LowerChar(text[p]) == 'c' && LowerChar(text[p + 1]) == 'a' && LowerChar(text[p + 2]) == 'd'
  }

  /** `text[i..j]` is `\s*\$?\s*`: whitespace around at most one dollar sign. */
  ghost predicate SpacedDollarSpan(text: string, i: nat, j: nat)
    requires i <= j <= |text|
  {
    || SpacesIn(text, i, j)
    || exists k :: i <= k < j && text[k] == '$' && SpacesIn(text, i, k) && SpacesIn(text, k + 1, j)
  }

  /** `text[p..q]` is `(?:\$|CAD\s*\$?)\s*`: the mandatory currency marker and the whitespace after it. */
  ghost predicate LeadSpan(text: string, p: nat, q: nat)
    requires p <= q <= |text|
  {
    || (p < q && text[p] == '$' && SpacesIn(text, p + 1, q))
    || (p + 3 <= q && CadAt(text, p) && SpacedDollarSpan(text, p + 3, q))
  }

  /** The pattern matches `text[p..e]`, with the captured number `text[q..e]`. */
  ghost predicate MatchAt(text: string, p: int, q: int, e: int) {
    0 <= p <= q <= e <= |text| && LeadSpan(text, p, q) && NumberSpan(text, q, e)
  }

  /** A match: where it starts, where the captured number starts, and where both end. */
  datatype PriceMatch = PriceMatch(start: nat, numStart: nat, end: nat)

  // ---------------------------------------------------------------------
  // The scanner

  /** The end of the run of whitespace starting at `i`. */
  function SkipSpace(text: string, i: nat): (j: nat)
    requires i <= |text|
    ensures i <= j <= |text| && SpacesIn(text, i, j)
    ensures j == |text| || !IsSpace(text[j])
    decreases |text| - i
  {
    if i < |text| && IsSpace(text[i]) then SkipSpace(text, i + 1) else i
  }

  /** A run of whitespace followed by a non-space ends where `SkipSpace` stops. */
  lemma {:induction false} SkipSpaceUnique(text: string, i: nat, j: nat)
    requires i <= j < |text| && SpacesIn(text, i, j) && !IsSpace(text[j])
    ensures SkipSpace(text, i) == j
    decreases j - i
  {
    if i < j {
      SkipSpaceUnique(text, i + 1, j);
    }
  }

  /**
   Where the captured number starts if the pattern is to match at `p`: past
   the marker and the greedily taken whitespace and dollar sign, provided a
   digit is there.
   */
  function LeadEnd(text: string, p: nat): (r: Option<nat>)
    requires p <= |text|
    ensures r.Some? ==> p < r.value < |text| && LeadSpan(text, p, r.value) && IsDigit(text[r.value])
  {
    if p < |text| && text[p] == '$' then
      var c := SkipSpace(text, p + 1);
      if c < |text| && IsDigit(text[c]) then Some(c) else None
    else if CadAt(text, p) then
      var a := SkipSpace(text, p + 3);
      if a < |text| && text[a] == '$' then
        var c := SkipSpace(text, a + 1);
        if c < |text| && IsDigit(text[c]) then
          assert text[a] == '$' && SpacesIn(text, p + 3, a) && SpacesIn(text, a + 1, c);
          Some(c)
        else None
      else
        var c := SkipSpace(text, a);
        if c < |text| && IsDigit(text[c]) then
          assert SpacesIn(text, p + 3, c);
          Some(c)
        else None
    else None
  }

  /** In `\s*\$\s*` before a digit, the dollar sign sits where the first whitespace run stops. */
  lemma SpacedDollarPosition(text: string, i: nat, q: nat) returns (a: nat)
    requires i <= q < |text| && IsDigit(text[q]) && SpacedDollarSpan(text, i, q) && !SpacesIn(text, i, q)
    ensures a < q && SkipSpace(text, i) == a && text[a] == '$' && SkipSpace(text, a + 1) == q
  {
    var k :| i <= k < q && text[k] == '$' && SpacesIn(text, i, k) && SpacesIn(text, k + 1, q);
    a := k;
    SkipSpaceUnique(text, i, a);
    SkipSpaceUnique(text, a + 1, q);
  }

  /**
   The lead is determined by where it starts: any lead from `p` that is
   followed by a digit ends exactly where `LeadEnd` says, so no alternative
   the regex engine could backtrack into starts the number elsewhere.
   */
  lemma LeadEndComplete(text: string, p: nat, q: nat)
    requires p < q < |text| && LeadSpan(text, p, q) && IsDigit(text[q])
    ensures LeadEnd(text, p) == Some(q)
  {
    if text[p] == '$' {
      SkipSpaceUnique(text, p + 1, q);
    } else if SpacesIn(text, p + 3, q) {
      SkipSpaceUnique(text, p + 3, q);
      SkipSpaceUnique(text, q, q);
    } else {
      var a := SpacedDollarPosition(text, p + 3, q);
    }
  }

  /** `[0-9]{1,3}` taken greedily: the end of up to three digits from `q`. */
  function HeadEnd(text: string, q: nat): (h: nat)
    requires q < |text| && IsDigit(text[q])
    ensures q < h <= q + 3 && h <= |text| && DigitsIn(text, q, h)
    ensures h == q + 3 || h == |text| || !IsDigit(text[h])
  {
    if q + 1 < |text| && IsDigit(text[q + 1]) then
      if q + 2 < |text| && IsDigit(text[q + 2]) then q + 3 else q + 2
    else q + 1
  }

  /** A whole group `[, ][0-9]{3}` starts at `g`. */
  predicate GroupAt(text: string, g: nat) {
    g + 4 <= |text| && IsSep(text[g]) && IsDigit(text[g + 1]) && IsDigit(text[g + 2]) && IsDigit(text[g + 3])
  }

  /** `(?:[, ][0-9]{3})*` taken greedily: the end of the run of whole groups from `g`. */
  function GroupsEnd(text: string, g: nat): (r: nat)
    requires g <= |text|
    ensures g <= r <= |text| && GroupsSpan(text, g, r) && !GroupAt(text, r)
    decreases |text| - g
  {
    if GroupAt(text, g) then
      var r := GroupsEnd(text, g + 4);
      assert DigitsIn(text, g + 1, g + 4);
      r
    else g
  }

  /** A fraction `\.[0-9]{2}` starts at `f`. */
  predicate FractionAt(text: string, f: nat) {
    f + 3 <= |text| && text[f] == '.' && IsDigit(text[f + 1]) && IsDigit(text[f + 2])
  }

  /** The end of the number the greedy quantifiers capture from the digit at `q`. */
  function NumberEnd(text: string, q: nat): (e: nat)
    requires q < |text| && IsDigit(text[q])
    ensures q < e <= |text| && NumberSpan(text, q, e)
  {
    var h := HeadEnd(text, q);
    var g := GroupsEnd(text, h);
    var e := if FractionAt(text, g) then g + 3 else g;
    assert IntegerSpan(text, q, g);
    assert FractionSpan(text, g, e);
    e
  }

  /** A run of whole groups from `g` never reaches past the greedy run, and stops on a group boundary. */
  lemma {:induction false} GroupsWithinGreedy(text: string, g: nat, r: nat)
    requires g <= r <= |text| && GroupsSpan(text, g, r)
    ensures r <= GroupsEnd(text, g)
    ensures r < GroupsEnd(text, g) ==> GroupAt(text, r)
    decreases r - g
  {
    if r > g {
      assert GroupAt(text, g);
      GroupsWithinGreedy(text, g + 4, r);
    }
  }

  /** The pieces of a number span: head digits up to `h`, groups up to `k`, fraction up to `e`. */
  lemma NumberParts(text: string, q: nat, e: nat) returns (h: nat, k: nat)
    requires q <= e <= |text| && NumberSpan(text, q, e)
    ensures q < h <= q + 3 && h <= k <= e
    ensures DigitsIn(text, q, h) && GroupsSpan(text, h, k) && FractionSpan(text, k, e)
  {
    k :| q <= k <= e && IntegerSpan(text, q, k) && FractionSpan(text, k, e);
    h :| q < h <= q + 3 && h <= k && DigitsIn(text, q, h) && GroupsSpan(text, h, k);
  }

  /** The greedy number is the longest: no number from `q` ends later. */
  lemma NumberEndLongest(text: string, q: nat, e: nat)
    requires q < |text| && IsDigit(text[q])
    requires q <= e <= |text| && NumberSpan(text, q, e)
    ensures e <= NumberEnd(text, q)
  {
    var h, k := NumberParts(text, q, e);
    var H := HeadEnd(text, q);
    if h > H {
      assert false;
    } else if h < H {
      assert IsDigit(text[h]);
      if k > h {
        assert false;
      }
      if e > k {
        assert false;
      }
    } else {
      GroupsWithinGreedy(text, H, k);
      if e > k {
        assert FractionAt(text, k);
      }
    }
  }

  /** A number span starts with a digit. */
  lemma NumberStartsWithDigit(text: string, q: nat, e: nat)
    requires q <= e <= |text| && NumberSpan(text, q, e)
    ensures q < e && IsDigit(text[q])
  {
    var h, k := NumberParts(text, q, e);
  }

  /** If `LeadEnd` fails at `p`, the pattern does not match at `p` at all. */
  lemma NoMatchWithoutLead(text: string, p: nat)
    requires p <= |text| && LeadEnd(text, p).None?
    ensures forall q, e :: !MatchAt(text, p, q, e)
  {
    forall q, e | MatchAt(text, p, q, e)
      ensures false
    {
      NumberStartsWithDigit(text, q, e);
      LeadEndComplete(text, p, q);
    }
  }

  /** At a start where `LeadEnd` succeeds, every match has the scanner's number start and ends no later. */
  lemma ScannerMatchIsLongest(text: string, p: nat, q: nat)
    requires p <= |text| && LeadEnd(text, p) == Some(q)
    ensures forall q', e' :: MatchAt(text, p, q', e') ==> q' == q && e' <= NumberEnd(text, q)
  {
    forall q', e' | MatchAt(text, p, q', e')
      ensures q' == q && e' <= NumberEnd(text, q)
    {
      NumberStartsWithDigit(text, q', e');
      LeadEndComplete(text, p, q');
      NumberEndLongest(text, q, e');
    }
  }

  /**
   `re.search` from position `p`: the first position at which the pattern
   matches, with the number the greedy quantifiers capture there.
   */
  function SearchFrom(text: string, p: nat): (r: Option<PriceMatch>)
    requires p <= |text|
    ensures r.Some? ==> p <= r.value.start && MatchAt(text, r.value.start, r.value.numStart, r.value.end)
    ensures r.Some? ==> forall p', q, e :: p <= p' < r.value.start ==> !MatchAt(text, p', q, e)
    ensures r.Some? ==> forall q, e :: MatchAt(text, r.value.start, q, e) ==> q == r.value.numStart && e <= r.value.end
    ensures r.None? ==> forall p', q, e :: p <= p' ==> !MatchAt(text, p', q, e)
    decreases |text| - p
  {
    if p == |text| then
      None
    else
      match LeadEnd(text, p)
      case Some(q) =>
        ScannerMatchIsLongest(text, p, q);
        Some(PriceMatch(p, q, NumberEnd(text, q)))
      case None =>
        NoMatchWithoutLead(text, p);
        SearchFrom(text, p + 1)
  }

  /**
   The first match in `text`, as `_price_re.search(text)` finds it: it
   starts at the leftmost position where the pattern matches at all, and its
   captured number is the longest one the pattern allows there. No match
   means the pattern matches nowhere in `text`.
   */
  function FindPrice(text: string): (r: Option<PriceMatch>)
    ensures r.Some? ==> MatchAt(text, r.value.start, r.value.numStart, r.value.end)
    ensures r.Some? ==> forall p, q, e :: 0 <= p < r.value.start ==> !MatchAt(text, p, q, e)
    ensures r.Some? ==> forall q, e :: MatchAt(text, r.value.start, q, e) ==> q == r.value.numStart && e <= r.value.end
    ensures r.None? ==> forall p, q, e :: !MatchAt(text, p, q, e)
  {
    SearchFrom(text, 0)
  }

  lemma {:induction false} GroupsShift(text: string, q: nat, e: nat, i: nat, j: nat)
    requires q <= i <= j <= e <= |text| && GroupsSpan(text, i, j)
    ensures GroupsSpan(text[q..e], i - q, j - q)
    decreases j - i
  {
    if i < j {
      assert DigitsIn(text[q..e], i + 1 - q, i + 4 - q);
      GroupsShift(text, q, e, i + 4, j);
    }
  }

  /** A number span of `text`, cut out, is a number on its own. */
  lemma NumberShift(text: string, q: nat, e: nat)
    requires q <= e <= |text| && NumberSpan(text, q, e)
    ensures IsNumber(text[q..e])
  {
    var s := text[q..e];
    var h, k := NumberParts(text, q, e);
    GroupsShift(text, q, e, h, k);
    assert DigitsIn(s, 0, h - q);
    assert IntegerSpan(s, 0, k - q);
    assert FractionSpan(s, k - q, e - q);
  }

  /** The text of the captured group of the first match, if any. */
  function CapturedPrice(text: string): (r: Option<string>)
    ensures r.Some? <==> FindPrice(text).Some?
    ensures r.Some? ==> r.value == text[FindPrice(text).value.numStart..FindPrice(text).value.end]
    ensures r.Some? ==> IsNumber(r.value)
    ensures r.None? ==> forall p, q, e :: !MatchAt(text, p, q, e)
  {
    match FindPrice(text)
    case Some(m) =>
      NumberShift(text, m.numStart, m.end);
      Some(text[m.numStart..m.end])
    case None => None
  }

  // ---------------------------------------------------------------------
  // Properties of the pattern

  /** Every match starts with a currency marker: `$`, or `CAD` in any case. */
  lemma MarkerRequired(text: string, p: int, q: int, e: int)
    requires MatchAt(text, p, q, e)
    ensures text[p] == '$' || CadAt(text, p)
  {
    NumberStartsWithDigit(text, q, e);
  }

  /** Text with no `$`, `c` or `C` anywhere holds no price. */
  lemma NoMarkerNoPrice(text: string)
    requires forall i :: 0 <= i < |text| ==> text[i] != '$' && text[i] != 'c' && text[i] != 'C'
    ensures CapturedPrice(text) == None
  {
    var r := FindPrice(text);
    if r.Some? {
      MarkerRequired(text, r.value.start, r.value.numStart, r.value.end);
    }
  }

  lemma {:induction false} GroupsHaveNoDot(text: string, i: nat, j: nat)
    requires i <= j <= |text| && GroupsSpan(text, i, j)
    ensures forall n :: i <= n < j ==> text[n] != '.'
    decreases j - i
  {
    if i < j {
      GroupsHaveNoDot(text, i + 4, j);
    }
  }

  /**
   A dot in a captured number is the start of its fraction: it is the third
   character from the end and exactly two digits follow it.
   */
  lemma FractionHasTwoDigits(s: string, i: int)
    requires IsNumber(s) && 0 <= i < |s| && s[i] == '.'
    ensures i == |s| - 3 && IsDigit(s[|s| - 2]) && IsDigit(s[|s| - 1])
  {
    var h, k := NumberParts(s, 0, |s|);
    GroupsHaveNoDot(s, h, k);
  }

  /** `$1,234.56` captures `1,234.56`. */
  lemma ThousandsSeparatedPrice()
    ensures CapturedPrice("$1,234.56") == Some("1,234.56")
  {
    var t := "$1,234.56";
    assert LeadSpan(t, 0, 1);
    assert GroupsSpan(t, 6, 6);
    assert GroupsSpan(t, 2, 6);
    assert IntegerSpan(t, 1, 6);
    assert FractionSpan(t, 6, 9);
    assert MatchAt(t, 0, 1, 9);
    assert t[1..9] == "1,234.56";
  }

  /** `CAD $19.99` captures `19.99`. */
  lemma CadPrice()
    ensures CapturedPrice("CAD $19.99") == Some("19.99")
  {
    var t := "CAD $19.99";
    assert CadAt(t, 0);
    assert SkipSpace(t, 4) == 4;
    assert SkipSpace(t, 3) == 4;
    assert SkipSpace(t, 5) == 5;
    assert LeadEnd(t, 0) == Some(5);
    assert HeadEnd(t, 5) == 7;
    assert GroupsEnd(t, 7) == 7;
    assert NumberEnd(t, 5) == 10;
    assert SearchFrom(t, 0) == Some(PriceMatch(0, 5, 10));
    assert t[5..10] == "19.99";
  }

  /**
   Four digits in a row are not a number the pattern knows: `$1234.56`
   captures only `123`, since a fourth digit can neither extend the head
   nor start a group.
   */
  lemma UngroupedThousandsTruncated()
    ensures CapturedPrice("$1234.56") == Some("123")
  {
    var t := "$1234.56";
    assert LeadEnd(t, 0) == Some(1);
    assert HeadEnd(t, 1) == 4;
    assert GroupsEnd(t, 4) == 4;
    assert NumberEnd(t, 1) == 4;
    assert SearchFrom(t, 0) == Some(PriceMatch(0, 1, 4));
    assert t[1..4] == "123";
  }
}
