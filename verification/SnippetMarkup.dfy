/** The HTML of a snippet: its window is escaped first, and terms are looked for and marked in that. */
module SnippetMarkup {
  import opened Common
  import opened Snippet

  // Escaping.

  const LT := "&lt;"
  const GT := "&gt;"
  const AMP := "&amp;"
  const APOS := "&#39;"
  const QUOT := "&#34;"

  function EscapeChar(c: char): string {
    match c
    case '<' => LT
    case '>' => GT
    case '&' => AMP
    case '\'' => APOS
    case '"' => QUOT
    case _ => [c]
  }

  function Escape(s: string): string {
    if s == "" then "" else EscapeChar(s[0]) + Escape(s[1..])
  }

  /** Decodes the five entities that escaping makes; a decoder of all entities agrees on what escaping makes. */
  function Unescape(s: string): string {
    if s == "" then ""
    else if LT <= s then "<" + Unescape(s[4..])
    else if GT <= s then ">" + Unescape(s[4..])
    else if AMP <= s then "&" + Unescape(s[5..])
    else if APOS <= s then "'" + Unescape(s[5..])
    else if QUOT <= s then "\"" + Unescape(s[5..])
    else [s[0]] + Unescape(s[1..])
  }

  lemma EscapedCharDecodes(c: char, rest: string)
    ensures Unescape(EscapeChar(c) + rest) == [c] + Unescape(rest)
  {
    var s := EscapeChar(c) + rest;
    assert s[|EscapeChar(c)|..] == rest;
    if EscapeChar(c) == [c] {
      assert s[0] == c != '&';
    } else {
      assert EscapeChar(c) <= s;
      assert s[1] == EscapeChar(c)[1] && s[2] == EscapeChar(c)[2] && s[3] == EscapeChar(c)[3];
    }
  }

  lemma {:induction false} UnescapeEscape(s: string)
    ensures Unescape(Escape(s)) == s
  {
    if s != "" {
      UnescapeEscape(s[1..]);
      EscapedCharDecodes(s[0], Escape(s[1..]));
    }
  }

  predicate NoAngles(s: string) {
    '<' !in s && '>' !in s
  }

  lemma {:induction false} EscapedHasNoAngles(s: string)
    ensures NoAngles(Escape(s))
  {
    if s != "" {
      EscapedHasNoAngles(s[1..]);
      assert NoAngles(EscapeChar(s[0]));
    }
  }

  lemma {:induction false} EscapedHasNoQuotes(s: string)
    ensures '"' !in Escape(s) && '\'' !in Escape(s)
  {
    if s != "" {
      EscapedHasNoQuotes(s[1..]);
      assert '"' !in EscapeChar(s[0]) && '\'' !in EscapeChar(s[0]);
    }
  }

  // Marking: the replacement of every match of (?i)a|b|c, left to right, by the match in tags.

  datatype Tags = Tags(open: string, close: string)

  const MARK := Tags("<mark>", "</mark>")

  /** What's needed of tags to tell them from text without angles, and from each other. */
  predicate Distinctive(tags: Tags) {
    && tags.open != "" && tags.open[0] == '<' && tags.close != "" && tags.close[0] == '<'
    && !(tags.open <= tags.close) && !(tags.close <= tags.open)
  }

  lemma MarkIsDistinctive()
    ensures Distinctive(MARK)
  {
    assert MARK.open[1] == 'm' && MARK.close[1] == '/';
  }

  function InTags(tags: Tags, s: string): string {
    tags.open + s + tags.close
  }

  lemma ConcatAssociates(a: string, b: string, c: string)
    ensures (a + b) + c == a + (b + c)
    ensures "" + c == c
  {
  }

  /** A term matches at a position, but for case. */
  predicate MatchesAt(c: Casing, s: string, term: string, i: int) {
    0 <= i && i + |term| <= |s| && forall j :: 0 <= j < |term| ==> c.fold(s[i + j]) == c.fold(term[j])
  }

  /** Two terms that are the same but for case match at the same places. */
  lemma MatchesIgnoreCase(c: Casing, s: string, t: string, u: string, i: int)
    requires |t| == |u| && forall j :: 0 <= j < |t| ==> c.fold(t[j]) == c.fold(u[j])
    ensures MatchesAt(c, s, t, i) <==> MatchesAt(c, s, u, i)
    ensures 0 <= i && i + |t| <= |s| && s[i..i + |t|] == t ==> MatchesAt(c, s, u, i)
  {
    if 0 <= i && i + |t| <= |s| && s[i..i + |t|] == t {
      forall j | 0 <= j < |u| ensures c.fold(s[i + j]) == c.fold(u[j]) {
        assert s[i..i + |t|][j] == t[j];
      }
    }
  }

  /** The first of the alternatives to match at a position is the one that's taken. */
  function FirstMatch(c: Casing, s: string, terms: seq<string>, i: nat): (t: Option<string>)
    ensures t.Some? ==> t.value in terms && MatchesAt(c, s, t.value, i)
    ensures t.None? ==> forall u :: u in terms ==> !MatchesAt(c, s, u, i)
  {
    if terms == [] then None
    else if MatchesAt(c, s, terms[0], i) then Some(terms[0])
    else FirstMatch(c, s, terms[1..], i)
  }

  function Mark(tags: Tags, c: Casing, s: string, terms: seq<string>, i: nat): string
    requires i <= |s| && forall t :: t in terms ==> t != ""
    decreases |s| - i
  {
    if i == |s| then ""
    else
      match FirstMatch(c, s, terms, i)
      case Some(t) => InTags(tags, s[i..i + |t|]) + Mark(tags, c, s, terms, i + |t|)
      case None => [s[i]] + Mark(tags, c, s, terms, i + 1)
  }

  /** The text less every tag in it. */
  function StripMarks(tags: Tags, s: string): string
    requires Distinctive(tags)
  {
    if s == "" then ""
    else if tags.open <= s then StripMarks(tags, s[|tags.open|..])
    else if tags.close <= s then StripMarks(tags, s[|tags.close|..])
    else [s[0]] + StripMarks(tags, s[1..])
  }

  lemma {:induction false} StripText(tags: Tags, text: string, rest: string)
    requires Distinctive(tags) && NoAngles(text)
    ensures StripMarks(tags, text + rest) == text + StripMarks(tags, rest)
  {
    if text == "" {
      ConcatAssociates("", "", rest);
      ConcatAssociates("", "", StripMarks(tags, rest));
    } else {
      assert (text + rest)[0] == text[0] && text[0] in text;
      assert (text + rest)[1..] == text[1..] + rest;
      StripText(tags, text[1..], rest);
      assert [text[0]] + text[1..] == text;
      ConcatAssociates([text[0]], text[1..], StripMarks(tags, rest));
    }
  }

  lemma StripTag(tags: Tags, tag: string, rest: string)
    requires Distinctive(tags) && (tag == tags.open || tag == tags.close)
    ensures StripMarks(tags, tag + rest) == StripMarks(tags, rest)
  {
    var s := tag + rest;
    assert s[|tag|..] == rest && tag <= s;
    if tag == tags.close && tags.open <= s {
      PrefixesCompare(tags.open, tags.close, rest);
    }
  }

  lemma PrefixesCompare(a: string, b: string, rest: string)
    requires a <= b + rest
    ensures a <= b || b <= a
  {
    if |a| <= |b| {
      assert (b + rest)[..|a|] == b[..|a|];
    } else {
      assert (b + rest)[..|b|] == b;
    }
  }

  lemma StripTags(tags: Tags, text: string, rest: string)
    requires Distinctive(tags) && NoAngles(text)
    ensures StripMarks(tags, InTags(tags, text) + rest) == text + StripMarks(tags, rest)
  {
    ConcatAssociates(tags.open + text, tags.close, rest);
    ConcatAssociates(tags.open, text, tags.close + rest);
    StripTag(tags, tags.open, text + (tags.close + rest));
    StripText(tags, text, tags.close + rest);
    StripTag(tags, tags.close, rest);
  }

  lemma StripRun(tags: Tags, s: string, i: nat, j: nat, rest: string)
    requires Distinctive(tags) && i <= j <= |s| && NoAngles(s) && StripMarks(tags, rest) == s[j..]
    ensures StripMarks(tags, InTags(tags, s[i..j]) + rest) == s[i..]
  {
    StripTags(tags, s[i..j], rest);
    assert s[i..] == s[i..j] + s[j..];
  }

  // What's marked, as runs of the text.

  datatype Run = Run(at: nat, term: string)

  function Runs(c: Casing, s: string, terms: seq<string>, i: nat): seq<Run>
    requires i <= |s| && forall t :: t in terms ==> t != ""
    decreases |s| - i
  {
    if i == |s| then []
    else
      match FirstMatch(c, s, terms, i)
      case Some(t) => [Run(i, t)] + Runs(c, s, terms, i + |t|)
      case None => Runs(c, s, terms, i + 1)
  }

  predicate Covers(r: Run, at: int) {
    r.at <= at < r.at + |r.term|
  }

  /** Runs in order, from a position on, that don't overlap and stay inside a text of the given length. */
  predicate InOrder(runs: seq<Run>, from: nat, size: nat) {
    from <= size &&
    (runs != [] ==>
       from <= runs[0].at && runs[0].at + |runs[0].term| <= size
       && InOrder(runs[1..], runs[0].at + |runs[0].term|, size))
  }

  /** The text with tags put around the given runs. */
  function Tagged(tags: Tags, s: string, from: nat, runs: seq<Run>): string
    requires InOrder(runs, from, |s|)
    decreases |runs|
  {
    if runs == [] then s[from..]
    else
      var r, end := runs[0], runs[0].at + |runs[0].term|;
      s[from..r.at] + (InTags(tags, s[r.at..end]) + Tagged(tags, s, end, runs[1..]))
  }

  ghost predicate IsTagged(tags: Tags, s: string, i: nat, marked: string, runs: seq<Run>) {
    InOrder(runs, i, |s|) && marked == Tagged(tags, s, i, runs)
  }

  /** Marking is putting tags around its runs, which are in order and don't overlap. */
  lemma {:induction false} MarkTagsRuns(tags: Tags, c: Casing, s: string, terms: seq<string>, i: nat)
    requires i <= |s| && forall t :: t in terms ==> t != ""
    ensures IsTagged(tags, s, i, Mark(tags, c, s, terms, i), Runs(c, s, terms, i))
    decreases |s| - i
  {
    if i < |s| {
      var first := FirstMatch(c, s, terms, i);
      var j := if first.Some? then i + |first.value| else i + 1;
      MarkTagsRuns(tags, c, s, terms, j);
      MarkOnce(tags, c, s, terms, i);
      TagOne(tags, s, i, first, Mark(tags, c, s, terms, j), Runs(c, s, terms, j));
    }
  }

  lemma TagOne(tags: Tags, s: string, i: nat, first: Option<string>, marked: string, rest: seq<Run>)
    requires i < |s| && (first.Some? ==> i + |first.value| <= |s|)
    requires IsTagged(tags, s, if first.Some? then i + |first.value| else i + 1, marked, rest)
    ensures first.Some? ==>
              IsTagged(tags, s, i, InTags(tags, s[i..i + |first.value|]) + marked, [Run(i, first.value)] + rest)
    ensures first.None? ==> IsTagged(tags, s, i, [s[i]] + marked, rest)
  {
    if first.Some? {
      TagNow(tags, s, i, first.value, rest);
    } else {
      TagLater(tags, s, i, rest);
    }
  }

  /** What marking does at a position. */
  lemma MarkOnce(tags: Tags, c: Casing, s: string, terms: seq<string>, i: nat)
    requires i < |s| && forall t :: t in terms ==> t != ""
    ensures var first := FirstMatch(c, s, terms, i);
            if first.Some?
            then Mark(tags, c, s, terms, i)
                 == InTags(tags, s[i..i + |first.value|]) + Mark(tags, c, s, terms, i + |first.value|)
                 && Runs(c, s, terms, i) == [Run(i, first.value)] + Runs(c, s, terms, i + |first.value|)
            else Mark(tags, c, s, terms, i) == [s[i]] + Mark(tags, c, s, terms, i + 1)
                 && Runs(c, s, terms, i) == Runs(c, s, terms, i + 1)
  {
  }

  lemma TagNow(tags: Tags, s: string, i: nat, t: string, rest: seq<Run>)
    requires i + |t| <= |s| && InOrder(rest, i + |t|, |s|)
    ensures InOrder([Run(i, t)] + rest, i, |s|)
    ensures Tagged(tags, s, i, [Run(i, t)] + rest) == InTags(tags, s[i..i + |t|]) + Tagged(tags, s, i + |t|, rest)
  {
    var runs := [Run(i, t)] + rest;
    assert runs[0] == Run(i, t) && runs[1..] == rest;
    var tail := InTags(tags, s[i..i + |t|]) + Tagged(tags, s, i + |t|, rest);
    assert s[i..i] == "";
    ConcatAssociates("", "", tail);
  }

  /** Each run is a match of its term, which comes before any other alternative that matches there. */
  lemma {:induction false} RunsAreMatches(c: Casing, s: string, terms: seq<string>, i: nat)
    requires i <= |s| && forall t :: t in terms ==> t != ""
    ensures forall r :: r in Runs(c, s, terms, i) ==> FirstMatch(c, s, terms, r.at) == Some(r.term)
    decreases |s| - i
  {
    if i < |s| {
      match FirstMatch(c, s, terms, i)
      case Some(t) => RunsAreMatches(c, s, terms, i + |t|);
      case None => RunsAreMatches(c, s, terms, i + 1);
    }
  }

  /** No term matches at a position that isn't in a run. */
  lemma {:induction false} MatchesAreInRuns(c: Casing, s: string, terms: seq<string>, i: nat, at: nat, t: string)
    returns (r: Run)
    requires i <= at < |s| && (forall t :: t in terms ==> t != "") && t in terms && MatchesAt(c, s, t, at)
    ensures r in Runs(c, s, terms, i) && Covers(r, at)
    decreases |s| - i
  {
    match FirstMatch(c, s, terms, i)
    case Some(u) =>
      if at < i + |u| {
        r := Run(i, u);
      } else {
        r := MatchesAreInRuns(c, s, terms, i + |u|, at, t);
      }
    case None =>
      r := MatchesAreInRuns(c, s, terms, i + 1, at, t);
  }

  lemma TagLater(tags: Tags, s: string, i: nat, runs: seq<Run>)
    requires i < |s| && InOrder(runs, i + 1, |s|)
    ensures InOrder(runs, i, |s|) && Tagged(tags, s, i, runs) == [s[i]] + Tagged(tags, s, i + 1, runs)
  {
    if runs == [] {
      assert s[i..] == [s[i]] + s[i + 1..];
    } else {
      var at, end := runs[0].at, runs[0].at + |runs[0].term|;
      var head, tail := s[i + 1..at], InTags(tags, s[at..end]) + Tagged(tags, s, end, runs[1..]);
      assert s[i..at] == [s[i]] + head;
      ConcatAssociates([s[i]], head, tail);
    }
  }

  lemma StripHead(tags: Tags, s: string, from: nat, at: nat, rest: string)
    requires Distinctive(tags) && NoAngles(s) && from <= at <= |s| && StripMarks(tags, rest) == s[at..]
    ensures StripMarks(tags, s[from..at] + rest) == s[from..]
  {
    StripText(tags, s[from..at], rest);
    assert s[from..] == s[from..at] + s[at..];
  }

  lemma StripOnce(tags: Tags, s: string, from: nat, at: nat, end: nat, rest: string)
    requires Distinctive(tags) && NoAngles(s) && from <= at <= end <= |s| && StripMarks(tags, rest) == s[end..]
    ensures StripMarks(tags, s[from..at] + (InTags(tags, s[at..end]) + rest)) == s[from..]
  {
    StripRun(tags, s, at, end, rest);
    StripHead(tags, s, from, at, InTags(tags, s[at..end]) + rest);
  }

  lemma StripEnd(tags: Tags, s: string, from: nat)
    requires Distinctive(tags) && NoAngles(s) && from <= |s|
    ensures StripMarks(tags, s[from..]) == s[from..]
  {
    StripText(tags, s[from..], "");
    assert s[from..] + "" == s[from..];
  }

  /** Anything that takes the tags off one run at a time takes them off all. */
  lemma {:induction false} UntagEach(strip: string -> string, tags: Tags, s: string, from: nat, runs: seq<Run>)
    requires InOrder(runs, from, |s|)
    requires forall i: nat :: i <= |s| ==> strip(s[i..]) == s[i..]
    requires forall i: nat, at: nat, end: nat, rest: string :: (i <= at <= end <= |s| && strip(rest) == s[end..]) ==>
               strip(s[i..at] + (InTags(tags, s[at..end]) + rest)) == s[i..]
    ensures strip(Tagged(tags, s, from, runs)) == s[from..]
    decreases |runs|
  {
    if runs != [] {
      UntagEach(strip, tags, s, runs[0].at + |runs[0].term|, runs[1..]);
    }
  }

  /** Taking the tags away again leaves the text. */
  lemma StripTagged(tags: Tags, s: string, from: nat, runs: seq<Run>)
    requires Distinctive(tags) && NoAngles(s) && InOrder(runs, from, |s|)
    ensures StripMarks(tags, Tagged(tags, s, from, runs)) == s[from..]
  {
    var strip := (html: string) => StripMarks(tags, html);
    forall i: nat | i <= |s| ensures strip(s[i..]) == s[i..] {
      StripEnd(tags, s, i);
    }
    forall i: nat, at: nat, end: nat, rest: string | i <= at <= end <= |s| && strip(rest) == s[end..]
      ensures strip(s[i..at] + (InTags(tags, s[at..end]) + rest)) == s[i..]
    {
      StripOnce(tags, s, i, at, end, rest);
    }
    UntagEach(strip, tags, s, from, runs);
  }

  /** A snippet's HTML less its marks. */
  function Unmarked(html: string): string {
    MarkIsDistinctive();
    StripMarks(MARK, html)
  }

  /** A snippet is its window: less the marks and unescaped it's exactly that, and there's no other markup in it. */
  lemma SnippetShowsWindow(c: Casing, window: string, alternatives: seq<string>)
    requires forall t :: t in alternatives ==> t != ""
    ensures var html := Mark(MARK, c, Escape(window), alternatives, 0);
            NoAngles(Unmarked(html)) && Unescape(Unmarked(html)) == window
  {
    MarkIsDistinctive();
    EscapedHasNoAngles(window);
    MarkTagsRuns(MARK, c, Escape(window), alternatives, 0);
    StripTagged(MARK, Escape(window), 0, Runs(c, Escape(window), alternatives, 0));
    UnescapeEscape(window);
    assert Escape(window)[0..] == Escape(window);
  }

  // Longest first.

  /** The length of a string's UTF-8 encoding, which is what terms are ordered by. */
  function Bytes(c: Casing, s: string): nat {
    if s == "" then 0 else c.bytes(s[0]) + Bytes(c, s[1..])
  }

  /** Some order a sort by length may leave the terms in: it isn't stable. */
  ghost predicate LongestFirst(c: Casing, sorted: seq<string>, terms: seq<string>) {
    multiset(sorted) == multiset(terms) && Descending(c, sorted)
  }

  ghost predicate Descending(c: Casing, sorted: seq<string>) {
    forall i, j :: 0 <= i < j < |sorted| ==> Bytes(c, sorted[i]) >= Bytes(c, sorted[j])
  }

  lemma SortedHas(c: Casing, sorted: seq<string>, terms: seq<string>, t: string)
    requires LongestFirst(c, sorted, terms)
    ensures t in sorted <==> t in terms
  {
    assert t in sorted <==> t in multiset(sorted);
    assert t in terms <==> t in multiset(terms);
  }

  /** The alternative taken is one with the longest encoding of all that match. */
  lemma {:induction false} LongestEncodingTaken(c: Casing, s: string, sorted: seq<string>, i: nat, t: string)
    requires Descending(c, sorted) && t in sorted && MatchesAt(c, s, t, i)
    ensures FirstMatch(c, s, sorted, i).Some? && Bytes(c, FirstMatch(c, s, sorted, i).value) >= Bytes(c, t)
  {
    if MatchesAt(c, s, sorted[0], i) {
      var k :| 0 <= k < |sorted| && sorted[k] == t;
    } else {
      assert sorted == [sorted[0]] + sorted[1..];
      LongestEncodingTaken(c, s, sorted[1..], i, t);
    }
  }

  // Inside an entity.

  lemma AmpMatches(c: Casing, e: string, terms: seq<string>)
    requires c.fold('&') != c.fold('a') && e == "&amp;" && terms == ["amp"]
    ensures FirstMatch(c, e, terms, 0) == None && FirstMatch(c, e, terms, 1) == Some("amp")
            && FirstMatch(c, e, terms, 4) == None
  {
    assert terms[0] == "amp" && terms[1..] == [];
    assert e[0 + 0] == '&' && terms[0][0] == 'a';
    assert !MatchesAt(c, e, "amp", 0) && MatchesAt(c, e, "amp", 1) && !MatchesAt(c, e, "amp", 4);
  }

  /** Terms are looked for in the escaped text, so one can match inside an entity. */
  lemma EntityCanBeSplit(c: Casing)
    requires c.fold('&') != c.fold('a')
    ensures Mark(MARK, c, Escape("&"), ["amp"], 0) == "&" + InTags(MARK, "amp") + ";"
  {
    var e, terms := "&amp;", ["amp"];
    assert Escape("&") == e by {
      assert "&"[1..] == "";
    }
    AmpMatches(c, e, terms);
    var end := Mark(MARK, c, e, terms, 4);
    assert end == [e[4]] + Mark(MARK, c, e, terms, 5) && end == ";";
    assert e[1..4] == "amp";
    assert Mark(MARK, c, e, terms, 1) == InTags(MARK, "amp") + end;
    ConcatAssociates("&", InTags(MARK, "amp"), end);
  }

  // Methods.

  lemma InsertedInOrder(c: Casing, sorted: seq<string>, t: string, i: nat)
    requires Descending(c, sorted) && i <= |sorted|
    requires forall j :: 0 <= j < i ==> Bytes(c, sorted[j]) >= Bytes(c, t)
    requires i < |sorted| ==> Bytes(c, sorted[i]) <= Bytes(c, t)
    ensures Descending(c, sorted[..i] + [t] + sorted[i..])
  {
    var r := sorted[..i] + [t] + sorted[i..];
    forall j, k | 0 <= j < k < |r| ensures Bytes(c, r[j]) >= Bytes(c, r[k]) {
      if j < i {
        assert r[j] == sorted[j];
      } else if j > i {
        assert r[j] == sorted[j - 1];
      }
      if k < i {
        assert r[k] == sorted[k];
      } else if k > i {
        assert r[k] == sorted[k - 1];
        assert Bytes(c, sorted[i]) >= Bytes(c, sorted[k - 1]);
      }
    }
  }

  /** Puts a term where it belongs among terms in order. */
  method Insert(c: Casing, sorted: seq<string>, t: string) returns (r: seq<string>)
    requires Descending(c, sorted)
    ensures Descending(c, r) && multiset(r) == multiset(sorted) + multiset{t}
  {
    var i := 0;
    while i < |sorted| && Bytes(c, sorted[i]) >= Bytes(c, t)
      invariant 0 <= i <= |sorted|
      invariant forall j :: 0 <= j < i ==> Bytes(c, sorted[j]) >= Bytes(c, t)
    {
      i := i + 1;
    }
    r := sorted[..i] + [t] + sorted[i..];
    InsertedInOrder(c, sorted, t, i);
    assert sorted == sorted[..i] + sorted[i..];
  }

  /** Sorts terms longest first. */
  method SortTerms(c: Casing, terms: seq<string>) returns (sorted: seq<string>)
    ensures LongestFirst(c, sorted, terms)
  {
    sorted := [];
    var i := 0;
    while i < |terms|
      invariant 0 <= i <= |terms| && LongestFirst(c, sorted, terms[..i])
    {
      sorted := Insert(c, sorted, terms[i]);
      assert terms[..i + 1] == terms[..i] + [terms[i]];
      i := i + 1;
    }
    assert terms[..i] == terms;
  }

  /** What's marked of a text: nothing but matches of terms, less empty ones, in lowercase, and every place one of those
      matches. */
  ghost predicate AreMarksOf(c: Casing, s: string, terms: seq<string>, runs: seq<Run>) {
    && (forall r :: r in runs ==>
          MatchesAt(c, s, r.term, r.at) && exists t :: t in terms && t != "" && IsLower(c, r.term, t))
    && forall t, low, i :: t in terms && t != "" && IsLower(c, low, t) && MatchesAt(c, s, low, i) ==>
         exists r :: r in runs && Covers(r, i)
  }

  lemma RunsAreMarks(c: Casing, s: string, terms: seq<string>, sorted: seq<string>)
    requires LongestFirst(c, sorted, LowerTerms(c, terms)) && forall t :: t in sorted ==> t != ""
    ensures AreMarksOf(c, s, terms, Runs(c, s, sorted, 0))
  {
    var runs := Runs(c, s, sorted, 0);
    RunsAreMatches(c, s, sorted, 0);
    forall r | r in runs
      ensures MatchesAt(c, s, r.term, r.at) && exists t :: t in terms && t != "" && IsLower(c, r.term, t)
    {
      SortedHas(c, sorted, LowerTerms(c, terms), r.term);
      LowerTermIs(c, terms, r.term);
    }
    forall t, low, i | t in terms && t != "" && IsLower(c, low, t) && MatchesAt(c, s, low, i)
      ensures exists r :: r in runs && Covers(r, i)
    {
      LowerTermIs(c, terms, low);
      SortedHas(c, sorted, LowerTerms(c, terms), low);
      var r := MatchesAreInRuns(c, s, sorted, 0, i, low);
    }
  }

  /** The tags are around what's marked of the escaped window around the earliest of the terms. */
  ghost predicate IsSnippet(c: Casing, text: string, terms: seq<string>, length: nat, html: string, first: int,
                            runs: seq<Run>)
  {
    IsEarliest(c, text, terms, first) &&
    var escaped := Escape(Window(text, Start(text, first, length), length));
    IsTagged(MARK, escaped, 0, html, runs) && AreMarksOf(c, escaped, terms, runs)
  }

  lemma MarkedIsSnippet(c: Casing, text: string, terms: seq<string>, length: nat, sorted: seq<string>)
    returns (first: int, runs: seq<Run>)
    requires LongestFirst(c, sorted, LowerTerms(c, terms)) && forall t :: t in sorted ==> t != ""
    ensures var html := Mark(MARK, c, Escape(WindowFor(c, text, terms, length)), sorted, 0);
            IsSnippet(c, text, terms, length, html, first, runs)
  {
    first := WindowIsAroundEarliest(c, text, terms, length);
    var escaped := Escape(WindowFor(c, text, terms, length));
    runs := Runs(c, escaped, sorted, 0);
    MarkTagsRuns(MARK, c, escaped, sorted, 0);
    RunsAreMarks(c, escaped, terms, sorted);
  }

  method MakeSnippet(c: Casing, text: string, terms: seq<string>, length: nat) returns (html: string)
    ensures exists sorted :: LongestFirst(c, sorted, LowerTerms(c, terms)) && (forall t :: t in sorted ==> t != "")
              && html == Mark(MARK, c, Escape(WindowFor(c, text, terms, length)), sorted, 0)
    ensures exists first, runs :: IsSnippet(c, text, terms, length, html, first, runs)
    ensures NoAngles(Unmarked(html)) && Unescape(Unmarked(html)) == WindowFor(c, text, terms, length)
  {
    var lowered := Lowered(c, text);
    var lowerTerms := LowerEach(c, terms);
    EarliestHitIsEarliest(lowered, lowerTerms);
    var first := FindFirst(lowered, lowerTerms);
    var window := CutWindow(text, first, length);
    var escaped := Escape(window);
    var sorted: seq<string> := [];
    if |lowerTerms| > 0 {
      sorted := SortTerms(c, lowerTerms);
      forall t | t in sorted ensures t != "" {
        SortedHas(c, sorted, lowerTerms, t);
      }
      html := Mark(MARK, c, escaped, sorted, 0);
    } else {
      html := escaped;
      NothingToMark(MARK, c, escaped, 0);
      assert escaped[0..] == escaped;
    }
    assert LongestFirst(c, sorted, lowerTerms);
    SnippetShowsWindow(c, window, sorted);
    var f, runs := MarkedIsSnippet(c, text, terms, length, sorted);
  }

  lemma {:induction false} NothingToMark(tags: Tags, c: Casing, s: string, i: nat)
    requires i <= |s|
    ensures Mark(tags, c, s, [], i) == s[i..]
    decreases |s| - i
  {
    if i < |s| {
      NothingToMark(tags, c, s, i + 1);
    }
  }
}
