/** The window of a text shown for a search result. */
module Snippet {
  import opened Common

  const ELLIPSIS := '\U{2026}'

  /** Unicode's case tables: a rune's lowercase, a representative of the runes it's the same as but for case, and the
      length of its UTF-8 encoding. Nothing is assumed of how they hang together but where it's said. */
  datatype Casing = Casing(lower: char -> char, fold: char -> char, bytes: char -> nat)

  function Lowered(c: Casing, s: string): (r: string)
    ensures |r| == |s| && forall i :: 0 <= i < |s| ==> r[i] == c.lower(s[i])
  {
    if s == "" then "" else [c.lower(s[0])] + Lowered(c, s[1..])
  }

  /** The terms a text is searched for: lowercased, less empty ones. */
  function LowerTerms(c: Casing, terms: seq<string>): (r: seq<string>)
    ensures forall t :: t in r ==> t != ""
  {
    if terms == [] then []
    else
      var last := terms[|terms| - 1];
      LowerTerms(c, terms[..|terms| - 1]) + if last != "" then [Lowered(c, last)] else []
  }

  predicate IsLower(c: Casing, low: string, s: string) {
    |low| == |s| && forall i :: 0 <= i < |s| ==> low[i] == c.lower(s[i])
  }

  /** Every term that isn't empty, in lowercase, in order and as often as it's there: `at` says where each is. */
  ghost predicate AreLowered(c: Casing, lowered: seq<string>, terms: seq<string>, at: seq<nat>) {
    && |at| == |lowered|
    && (forall i, j :: 0 <= i < j < |at| ==> at[i] < at[j])
    && (forall i :: 0 <= i < |at| ==> at[i] < |terms| && terms[at[i]] != "" && IsLower(c, lowered[i], terms[at[i]]))
    && forall k :: 0 <= k < |terms| && terms[k] != "" ==> k in at
  }

  lemma LoweredMore(c: Casing, lowered: seq<string>, terms: seq<string>, at: seq<nat>, t: string)
    requires AreLowered(c, lowered, terms, at)
    ensures if t == "" then AreLowered(c, lowered, terms + [t], at)
            else AreLowered(c, lowered + [Lowered(c, t)], terms + [t], at + [|terms|])
  {
    if t != "" {
      var at' := at + [|terms|];
      assert at'[|at|] == |terms|;
      assert forall k :: k in at ==> k in at';
    }
  }

  lemma {:induction false} LowerTermsAre(c: Casing, terms: seq<string>) returns (at: seq<nat>)
    ensures AreLowered(c, LowerTerms(c, terms), terms, at)
  {
    if terms == [] {
      at := [];
    } else {
      var init, last := terms[..|terms| - 1], terms[|terms| - 1];
      assert terms == init + [last];
      at := LowerTermsAre(c, init);
      LoweredMore(c, LowerTerms(c, init), init, at, last);
      at := if last == "" then at else at + [|init|];
    }
  }

  /** Which strings those are. */
  lemma LowerTermIs(c: Casing, terms: seq<string>, low: string)
    ensures low in LowerTerms(c, terms) <==> exists t :: t in terms && t != "" && IsLower(c, low, t)
  {
    var r := LowerTerms(c, terms);
    var at := LowerTermsAre(c, terms);
    if low in r {
      var i :| 0 <= i < |r| && r[i] == low;
      assert terms[at[i]] in terms;
    }
    if t :| t in terms && t != "" && IsLower(c, low, t) {
      var k :| 0 <= k < |terms| && terms[k] == t;
      var i :| 0 <= i < |at| && at[i] == k;
      assert r[i] == low;
    }
  }

  predicate OccursAt(hay: string, needle: string, i: int) {
    0 <= i && i + |needle| <= |hay| && hay[i..i + |needle|] == needle
  }

  /** Where a needle first occurs from a position on, or -1. */
  function IndexFrom(hay: string, needle: string, i: nat): int
    decreases |hay| - i
  {
    if needle == "" || i + |needle| > |hay| then -1
    else if OccursAt(hay, needle, i) then i
    else IndexFrom(hay, needle, i + 1)
  }

  lemma {:induction false} IndexIsFirst(hay: string, needle: string, i: nat)
    ensures var r := IndexFrom(hay, needle, i);
            && (r >= 0 ==> needle != "" && r >= i && OccursAt(hay, needle, r)
                           && forall j :: i <= j < r ==> !OccursAt(hay, needle, j))
            && (r < 0 ==> r == -1 && (needle != "" ==> forall j :: i <= j ==> !OccursAt(hay, needle, j)))
    decreases |hay| - i
  {
    if needle != "" && i + |needle| <= |hay| && !OccursAt(hay, needle, i) {
      IndexIsFirst(hay, needle, i + 1);
    }
  }

  /** The earliest place any of the terms occurs, or -1. */
  function EarliestHit(lowered: string, terms: seq<string>): (first: int) {
    if terms == [] then -1
    else
      var before, hit := EarliestHit(lowered, terms[..|terms| - 1]), IndexFrom(lowered, terms[|terms| - 1], 0);
      if hit >= 0 && (before < 0 || hit < before) then hit else before
  }

  lemma {:induction false} EarliestHitIsEarliest(lowered: string, terms: seq<string>)
    requires forall t :: t in terms ==> t != ""
    ensures var first := EarliestHit(lowered, terms);
            && -1 <= first <= |lowered|
            && (first >= 0 ==> exists t :: t in terms && OccursAt(lowered, t, first))
            && forall t, j :: t in terms && OccursAt(lowered, t, j) ==> 0 <= first <= j
  {
    if terms != [] {
      var init, last := terms[..|terms| - 1], terms[|terms| - 1];
      assert terms == init + [last];
      assert forall t :: t in terms <==> t in init || t == last;
      EarliestHitIsEarliest(lowered, init);
      IndexIsFirst(lowered, last, 0);
      assert last in terms;
    }
  }

  /** A term occurs here but for what lowercasing takes away. */
  predicate LowerOccursAt(c: Casing, text: string, t: string, i: int) {
    0 <= i && i + |t| <= |text| && forall k :: 0 <= k < |t| ==> c.lower(text[i + k]) == c.lower(t[k])
  }

  lemma OccursInLower(c: Casing, text: string, t: string, low: string, i: int)
    requires IsLower(c, low, t)
    ensures OccursAt(Lowered(c, text), low, i) <==> LowerOccursAt(c, text, t, i)
  {
    var lowered := Lowered(c, text);
    if 0 <= i && i + |t| <= |text| {
      var here := lowered[i..i + |t|];
      assert forall k :: 0 <= k < |t| ==> here[k] == c.lower(text[i + k]);
    }
  }

  /** The earliest place any of the terms that aren't empty occurs, or -1. */
  ghost predicate IsEarliest(c: Casing, text: string, terms: seq<string>, first: int) {
    && -1 <= first <= |text|
    && (first >= 0 ==> exists t :: t in terms && t != "" && LowerOccursAt(c, text, t, first))
    && forall t, i :: t in terms && t != "" && LowerOccursAt(c, text, t, i) ==> 0 <= first <= i
  }

  lemma HitIsEarliest(c: Casing, text: string, terms: seq<string>)
    ensures IsEarliest(c, text, terms, EarliestHit(Lowered(c, text), LowerTerms(c, terms)))
  {
    var lowered, lowerTerms := Lowered(c, text), LowerTerms(c, terms);
    var first := EarliestHit(lowered, lowerTerms);
    EarliestHitIsEarliest(lowered, lowerTerms);
    if first >= 0 {
      var low :| low in lowerTerms && OccursAt(lowered, low, first);
      LowerTermIs(c, terms, low);
      var t :| t in terms && t != "" && IsLower(c, low, t);
      OccursInLower(c, text, t, low, first);
    }
    forall t, i | t in terms && t != "" && LowerOccursAt(c, text, t, i) ensures 0 <= first <= i {
      LowerTermIs(c, terms, Lowered(c, t));
      OccursInLower(c, text, t, Lowered(c, t), i);
    }
  }

  function LastSpace(s: string): (i: int)
    ensures -1 <= i < |s|
    ensures i >= 0 ==> s[i] == ' '
    ensures forall j :: i < j < |s| ==> s[j] != ' '
  {
    if s == "" then -1 else if s[|s| - 1] == ' ' then |s| - 1 else LastSpace(s[..|s| - 1])
  }

  // The window.

  /** Where the lead-in to a hit begins, before it's moved to a word boundary. */
  function LeadIn(first: int, length: nat): nat {
    Max(0, first - length / 4)
  }

  function Start(text: string, first: int, length: nat): (start: nat)
    requires -1 <= first <= |text|
    ensures start <= LeadIn(first, length) <= |text|
  {
    var lead := LeadIn(first, length);
    if first >= 0 && lead > 0 && LastSpace(text[..lead]) >= 0 then LastSpace(text[..lead]) + 1
    else if first >= 0 then lead
    else 0
  }

  /** Where the text shown ends: at the length asked for, or, if there's more, at a word boundary past halfway. */
  function Stop(text: string, start: nat, length: nat): (stop: nat)
    requires start <= |text|
    ensures start <= stop <= Min(|text|, start + length)
  {
    var end := Min(|text|, start + length);
    var space := LastSpace(text[start..end]);
    if end < |text| && space > length / 2 then start + space else end
  }

  /** The text shown, with an ellipsis on each side it's cut on. */
  function Window(text: string, start: nat, length: nat): string
    requires start <= |text|
  {
    (if start > 0 then [ELLIPSIS] else [])
    + text[start..Stop(text, start, length)]
    + (if start + length < |text| then [ELLIPSIS] else [])
  }

  function WindowFor(c: Casing, text: string, terms: seq<string>, length: nat): string {
    var lowered, lowerTerms := Lowered(c, text), LowerTerms(c, terms);
    EarliestHitIsEarliest(lowered, lowerTerms);
    Window(text, Start(text, EarliestHit(lowered, lowerTerms), length), length)
  }

  /** The window is the one around the earliest of the terms. */
  lemma WindowIsAroundEarliest(c: Casing, text: string, terms: seq<string>, length: nat) returns (first: int)
    ensures IsEarliest(c, text, terms, first)
    ensures WindowFor(c, text, terms, length) == Window(text, Start(text, first, length), length)
  {
    first := EarliestHit(Lowered(c, text), LowerTerms(c, terms));
    HitIsEarliest(c, text, terms);
  }

  lemma WindowLength(text: string, start: nat, length: nat)
    requires start <= |text|
    ensures |Window(text, start, length)| <= length + 2
  {
  }

  /** The window is the text between two cuts, with an ellipsis in place of exactly what's cut off. */
  lemma EllipsisWhereCut(text: string, start: nat, length: nat)
    requires start <= |text|
    ensures var stop := Stop(text, start, length);
            Window(text, start, length)
            == (if start > 0 then [ELLIPSIS] else []) + text[start..stop] + (if stop < |text| then [ELLIPSIS] else [])
  {
  }

  /** A window with a hit starts at the lead-in, or, if there's a space before that, just after the last one. */
  lemma StartsOnWord(text: string, first: nat, length: nat)
    requires first <= |text|
    ensures var start, lead := Start(text, first, length), LeadIn(first, length);
            && start <= lead && first - length / 4 <= lead && (lead > 0 ==> lead == first - length / 4)
            && (forall j :: start <= j < lead ==> text[j] != ' ')
            && (if start > 0 && text[start - 1] == ' ' then true
                else start == lead && forall j :: 0 <= j < lead ==> text[j] != ' ')
  {
    var lead := LeadIn(first, length);
    var before := text[..lead];
    assert forall j :: 0 <= j < lead ==> before[j] == text[j];
  }

  /** It shows as much as was asked for, or up to the last space of that if it's cut and that's past halfway. */
  lemma StopsOnWord(text: string, start: nat, length: nat)
    requires start <= |text|
    ensures var stop, end := Stop(text, start, length), Min(|text|, start + length);
            if stop < end then end < |text| && stop > start + length / 2 && text[stop] == ' '
                               && forall j :: stop < j < end ==> text[j] != ' '
            else stop == end && (end < |text| ==> forall j :: start + length / 2 < j < end ==> text[j] != ' ')
  {
    var end := Min(|text|, start + length);
    var shown := text[start..end];
    assert forall j :: start <= j < end ==> text[j] == shown[j - start];
  }

  /** A hit is shown whole exactly when it fits the length asked for and moving back to a word doesn't cut it off. */
  lemma HitShownExactly(text: string, first: nat, size: nat, length: nat)
    requires first + size <= |text| && size > 0
    ensures var start := Start(text, first, length);
            var end := Min(|text|, start + length);
            var space := LastSpace(text[start..end]);
            start <= first
            && (first + size <= Stop(text, start, length) <==>
                first + size <= start + length && !(end < |text| && length / 2 < space < first + size - start))
  {
  }

  /** So it is whenever it is no longer, with the way back from the lead-in to a space, than the lead-in itself. */
  lemma ShortHitIsShown(text: string, first: nat, size: nat, length: nat)
    requires first + size <= |text| && size > 0
    requires size + (LeadIn(first, length) - Start(text, first, length)) <= length / 4
    ensures Start(text, first, length) <= first
    ensures first + size <= Stop(text, Start(text, first, length), length)
  {
    HitShownExactly(text, first, size, length);
  }

  /** A hit far into a long word isn't shown at all, at any length: the window starts with the word, and ends where the
      hit starts. */
  lemma HitCanBeMissed(length: nat, word: string, term: string)
    requires |word| == length && ' ' !in word && term != "" && term[0] != 'a' && term[0] != ' ' && term[0] !in word
    ensures var text, hit := "a " + word + term, length + 2;
            IndexFrom(text, term, 0) == hit && Start(text, hit, length) == 2 && Stop(text, 2, length) == hit
  {
    var text, hit := "a " + word + term, length + 2;
    FirstAt(text, term, hit);
    StartAfterSpace(text, hit, length);
    assert text[2..hit] == word;
  }

  lemma FirstAt(text: string, term: string, hit: nat)
    requires term != "" && OccursAt(text, term, hit) && forall j :: 0 <= j < hit ==> text[j] != term[0]
    ensures IndexFrom(text, term, 0) == hit
  {
    IndexIsFirst(text, term, 0);
    forall j | 0 <= j < hit ensures !OccursAt(text, term, j) {
    }
  }

  lemma StartAfterSpace(text: string, hit: nat, length: nat)
    requires 2 <= LeadIn(hit, length) && hit <= |text|
    requires text[1] == ' ' && forall j :: 2 <= j < hit ==> text[j] != ' '
    ensures Start(text, hit, length) == 2
  {
    var lead := LeadIn(hit, length);
    assert text[..lead][1] == ' ' && forall j :: 2 <= j < lead ==> text[..lead][j] == text[j];
  }

  // Methods.

  method IndexRunes(hay: string, needle: string) returns (r: int)
    ensures r == IndexFrom(hay, needle, 0)
  {
    if |needle| == 0 || |needle| > |hay| {
      return -1;
    }
    var i := 0;
    while i + |needle| <= |hay|
      invariant 0 <= i <= |hay| && IndexFrom(hay, needle, 0) == IndexFrom(hay, needle, i)
    {
      var matched := true;
      var j := 0;
      while j < |needle|
        invariant 0 <= j <= |needle| && matched
        invariant hay[i..i + j] == needle[..j]
      {
        if hay[i + j] != needle[j] {
          matched := false;
          assert hay[i..i + |needle|][j] != needle[j];
          break;
        }
        assert hay[i..i + j + 1] == hay[i..i + j] + [hay[i + j]];
        j := j + 1;
      }
      if matched {
        assert needle[..j] == needle;
        return i;
      }
      i := i + 1;
    }
    return -1;
  }

  method LastIndexRune(rs: string, r: char) returns (i: int)
    ensures -1 <= i < |rs|
    ensures i >= 0 ==> rs[i] == r
    ensures forall j :: i < j < |rs| ==> rs[j] != r
  {
    i := |rs| - 1;
    while i >= 0
      invariant -1 <= i < |rs|
      invariant forall j :: i < j < |rs| ==> rs[j] != r
    {
      if rs[i] == r {
        return;
      }
      i := i - 1;
    }
  }

  /** The part of MakeSnippet that lowercases terms. */
  method LowerEach(c: Casing, terms: seq<string>) returns (lowerTerms: seq<string>)
    ensures lowerTerms == LowerTerms(c, terms)
  {
    lowerTerms := [];
    for i := 0 to |terms|
      invariant lowerTerms == LowerTerms(c, terms[..i])
    {
      assert terms[..i + 1][..i] == terms[..i];
      if terms[i] != "" {
        lowerTerms := lowerTerms + [Lowered(c, terms[i])];
      }
    }
    assert terms[..|terms|] == terms;
  }

  /** The part of MakeSnippet that finds the earliest hit. */
  method FindFirst(lowered: string, lowerTerms: seq<string>) returns (first: int)
    ensures first == EarliestHit(lowered, lowerTerms)
  {
    first := -1;
    var i := 0;
    while i < |lowerTerms|
      invariant 0 <= i <= |lowerTerms| && first == EarliestHit(lowered, lowerTerms[..i])
    {
      var hit := IndexRunes(lowered, lowerTerms[i]);
      assert lowerTerms[..i + 1][..i] == lowerTerms[..i];
      if hit >= 0 && (first < 0 || hit < first) {
        first := hit;
      }
      i := i + 1;
    }
    assert lowerTerms[..i] == lowerTerms;
  }

  /** The part of MakeSnippet that cuts the window. */
  method CutWindow(text: string, first: int, length: nat) returns (window: string)
    requires -1 <= first <= |text|
    ensures window == Window(text, Start(text, first, length), length)
  {
    var start := 0;
    if first >= 0 {
      start := Max(0, first - length / 4);
      if start > 0 {
        var space := LastIndexRune(text[..start], ' ');
        if space >= 0 {
          start := space + 1;
        }
      }
    }
    assert start == Start(text, first, length);
    window := CutEnd(text, start, length);
  }

  method CutEnd(text: string, start: nat, length: nat) returns (window: string)
    requires start <= |text|
    ensures window == Window(text, start, length)
  {
    var end := Min(|text|, start + length);
    window := text[start..end];
    if end < |text| {
      var space := LastIndexRune(window, ' ');
      if space > length / 2 {
        window := window[..space];
      }
      assert window == text[start..Stop(text, start, length)];
      window := window + [ELLIPSIS];
    }
    if start > 0 {
      window := [ELLIPSIS] + window;
    }
  }
}
