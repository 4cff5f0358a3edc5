/** When a tag inside an entity shows, for any terms and for a search's. */
module SnippetEntities {
  import opened Common
  import opened Snippet
  import opened SnippetLongest
  import opened SnippetMarkup
  import opened Text

  // Entities. A browser decodes them piece by piece between tags, so one with a tag inside isn't decoded.

  /** The size of the entity a text begins with, of those that escaping makes, or 0. */
  function EntitySize(s: string): (n: nat)
    ensures n <= |s| && (n > 0 ==> 4 <= n <= 5 && s[0] == '&')
    ensures forall i :: 0 < i < n ==> s[i] != '&'
  {
    if LT <= s || GT <= s then 4
    else if AMP <= s || APOS <= s || QUOT <= s then 5
    else 0
  }

  /** What decodes to one character. */
  function Unit(s: string): (n: nat)
    requires s != ""
    ensures 1 <= n <= |s|
  {
    if EntitySize(s) > 0 then EntitySize(s) else 1
  }

  /** A position strictly inside an entity. */
  predicate InEntity(s: string, i: int)
    decreases |s|
  {
    s != "" && i > 0 && (i < Unit(s) || InEntity(s[Unit(s)..], i - Unit(s)))
  }

  lemma UnescapeUnit(s: string)
    requires s != ""
    ensures |Unescape(s)| == 1 + |Unescape(s[Unit(s)..])| && Unescape(s)[1..] == Unescape(s[Unit(s)..])
    ensures Unit(s) == 1 && s[0] != '&' ==> Unescape(s)[0] == s[0]
  {
  }

  /** The first character of what a text decodes to is its first unit's. */
  lemma SameFirst(a: string, s: string)
    requires a != "" && a <= s && Unit(s) <= |a|
    ensures Unit(a) == Unit(s) && Unescape(a)[0] == Unescape(s)[0]
  {
    PrefixOf(LT, a, s);
    PrefixOf(GT, a, s);
    PrefixOf(AMP, a, s);
    PrefixOf(APOS, a, s);
    PrefixOf(QUOT, a, s);
  }

  lemma PrefixOf(entity: string, a: string, s: string)
    requires a <= s
    ensures entity <= a ==> entity <= s
    ensures entity <= s && |entity| <= |a| ==> entity <= a
  {
  }

  lemma PlainFirst(s: string)
    requires s != "" && s[0] != '&'
    ensures Unescape(s) == [s[0]] + Unescape(s[1..])
  {
  }

  lemma {:induction false} PlainDecodes(x: string, rest: string)
    requires forall i :: 0 <= i < |x| ==> x[i] != '&'
    ensures Unescape(x + rest) == x + Unescape(rest)
  {
    if x == "" {
      ConcatAssociates("", "", rest);
      ConcatAssociates("", "", Unescape(rest));
    } else {
      var s := x + rest;
      assert s[1..] == x[1..] + rest && s[0] == x[0];
      PlainFirst(s);
      PlainDecodes(x[1..], rest);
      ConcatAssociates([x[0]], x[1..], Unescape(rest));
      assert [x[0]] + x[1..] == x;
    }
  }

  // Cutting a text in two.

  lemma Rest(s: string, a: string, b: string, n: nat)
    requires s == a + b && n <= |a|
    ensures s[n..] == a[n..] + b && (a == "" ==> s == b)
  {
  }

  lemma SplitAfter(a: string, b: string, n: nat)
    requires |a| <= n <= |a + b|
    ensures b == (a + b)[|a|..n] + (a + b)[n..]
  {
    assert b == (a + b)[|a|..];
  }

  /** Cut inside its first entity, a text decodes to more. */
  lemma CutUnit(a: string, b: string)
    requires a != "" && |a| < Unit(a + b)
    ensures InEntity(a + b, |a|) && |Unescape(a)| + |Unescape(b)| > |Unescape(a + b)|
  {
    var s := a + b;
    var tail := s[Unit(s)..];
    var x := s[|a|..Unit(s)];
    UnescapeUnit(s);
    UnescapeUnit(a);
    SplitAfter(a, b, Unit(s));
    forall i | 0 <= i < |x| ensures x[i] != '&' {
      assert x[i] == s[|a| + i];
    }
    PlainDecodes(x, tail);
  }

  /** Cut inside an entity, a text decodes to more; anywhere else, to the same. */
  lemma {:induction false} CutDecodes(s: string, a: string, b: string)
    requires s == a + b
    ensures InEntity(s, |a|) ==> |Unescape(a)| + |Unescape(b)| > |Unescape(s)|
    ensures !InEntity(s, |a|) ==> Unescape(a) + Unescape(b) == Unescape(s)
    decreases |a|
  {
    Rest(s, a, b, 0);
    if a == "" {
      ConcatAssociates("", "", Unescape(b));
    } else if |a| < Unit(s) {
      CutUnit(a, b);
    } else {
      var n := Unit(s);
      SameFirst(a, s);
      Rest(s, a, b, n);
      CutDecodes(s[n..], a[n..], b);
      UnescapeUnit(s);
      UnescapeUnit(a);
      CutRest(Unescape(a), Unescape(b), Unescape(s));
    }
  }

  lemma CutRest(a: string, b: string, s: string)
    requires a != "" && s != "" && a[0] == s[0]
    ensures a[1..] + b == s[1..] ==> a + b == s
  {
    assert a == [a[0]] + a[1..] && s == [s[0]] + s[1..];
    ConcatAssociates([a[0]], a[1..], b);
  }

  /** Past a cut that's not in an entity, entities are where they were. */
  lemma {:induction false} EntitiesAfter(s: string, a: string, b: string, i: nat)
    requires s == a + b && !InEntity(s, |a|)
    ensures InEntity(s, |a| + i) == InEntity(b, i)
    decreases |a|
  {
    Rest(s, a, b, 0);
    if a != "" {
      var n := Unit(s);
      Rest(s, a, b, n);
      EntitiesAfter(s[n..], a[n..], b, i);
    }
  }

  // What's seen between tags.

  /** The text between the tags of runs, decoded a piece at a time. */
  function Decoded(decode: string -> string, s: string, from: nat, runs: seq<Run>): string
    requires InOrder(runs, from, |s|)
    decreases |runs|
  {
    if runs == [] then decode(s[from..])
    else
      var at, end := runs[0].at, runs[0].at + |runs[0].term|;
      decode(s[from..at]) + (decode(s[at..end]) + Decoded(decode, s, end, runs[1..]))
  }

  function End(r: Run): nat {
    r.at + |r.term|
  }

  lemma SuffixEntities(s: string, from: nat, i: nat, a: string, b: string)
    requires from <= |s| && !InEntity(s, from) && a == s[..from] && b == s[from..]
    ensures InEntity(s, from + i) == InEntity(b, i)
  {
    EntitiesAfter(s, a, b, i);
  }

  /** Some run, or what comes before it, ends inside something of what's left at that point. */
  predicate CutsWhatIsLeft(inside: (string, int) -> bool, s: string, from: nat, runs: seq<Run>)
    requires InOrder(runs, from, |s|)
    decreases |runs|
  {
    runs != [] &&
    (inside(s[from..], runs[0].at - from) || inside(s[runs[0].at..], |runs[0].term|)
     || CutsWhatIsLeft(inside, s, End(runs[0]), runs[1..]))
  }

  /** No less than the whole decodes to: just that when nothing's cut, and more when something is. */
  predicate IsCutTo(decoded: string, whole: string, cuts: bool) {
    if cuts then |decoded| > |whole| else decoded == whole
  }

  /** Cutting a piece off the front, and another off what's left. */
  lemma CutInThree(whole: string, p: string, left: string, x: string, y: string, rest: string, cuts: bool)
    requires whole == p + left && left == x + y && IsCutTo(rest, Unescape(y), cuts)
    ensures IsCutTo(Unescape(p) + (Unescape(x) + rest), Unescape(whole),
                    InEntity(whole, |p|) || InEntity(left, |x|) || cuts)
  {
    CutDecodes(whole, p, left);
    CutDecodes(left, x, y);
  }

  /** What decodes to more when it's cut in one place does when it's cut by runs. */
  lemma {:induction false} DecodedUncut(decode: string -> string, inside: (string, int) -> bool, s: string, from: nat,
                                        runs: seq<Run>)
    requires InOrder(runs, from, |s|)
    requires forall i: nat, at: nat, end: nat, rest: string, cuts: bool ::
               (i <= at <= end <= |s| && IsCutTo(rest, decode(s[end..]), cuts)) ==>
               IsCutTo(decode(s[i..at]) + (decode(s[at..end]) + rest), decode(s[i..]),
                       inside(s[i..], at - i) || inside(s[at..], end - at) || cuts)
    ensures IsCutTo(Decoded(decode, s, from, runs), decode(s[from..]), CutsWhatIsLeft(inside, s, from, runs))
    decreases |runs|
  {
    if runs != [] {
      var at, end := runs[0].at, End(runs[0]);
      DecodedUncut(decode, inside, s, end, runs[1..]);
      var rest, cuts := Decoded(decode, s, end, runs[1..]), CutsWhatIsLeft(inside, s, end, runs[1..]);
      assert IsCutTo(rest, decode(s[end..]), cuts);
      assert IsCutTo(decode(s[from..at]) + (decode(s[at..end]) + rest), decode(s[from..]),
                     inside(s[from..], at - from) || inside(s[at..], end - at) || cuts);
    }
  }

  predicate SomeCuts(inside: (string, int) -> bool, s: string, runs: seq<Run>) {
    exists r :: r in runs && (inside(s, r.at) || inside(s, End(r)))
  }

  lemma SomeCutsOnce(inside: (string, int) -> bool, s: string, runs: seq<Run>)
    requires runs != []
    ensures SomeCuts(inside, s, runs)
            <==> inside(s, runs[0].at) || inside(s, End(runs[0])) || SomeCuts(inside, s, runs[1..])
  {
    assert runs == [runs[0]] + runs[1..];
  }

  /** Cuts of what's left are cuts of the whole, up to the first. */
  lemma {:induction false} CutsAreInWhole(inside: (string, int) -> bool, s: string, from: nat, runs: seq<Run>)
    requires InOrder(runs, from, |s|) && !inside(s, from)
    requires forall i: nat, n: nat :: (i + n <= |s| && !inside(s, i)) ==> inside(s[i..], n) == inside(s, i + n)
    ensures CutsWhatIsLeft(inside, s, from, runs) <==> SomeCuts(inside, s, runs)
    decreases |runs|
  {
    if runs != [] {
      var r := runs[0];
      SomeCutsOnce(inside, s, runs);
      assert inside(s[from..], r.at - from) == inside(s, from + (r.at - from));
      if !inside(s, r.at) {
        assert inside(s[r.at..], |r.term|) == inside(s, r.at + |r.term|);
        if !inside(s, End(r)) {
          CutsAreInWhole(inside, s, End(r), runs[1..]);
        }
      }
    }
  }

  lemma Slices(s: string, i: nat, at: nat, end: nat)
    requires i <= at <= end <= |s|
    ensures s[i..] == s[i..at] + s[at..] && s[at..] == s[at..end] + s[end..]
  {
  }

  lemma CutSlices(s: string, i: nat, at: nat, end: nat, rest: string, cuts: bool, whole: string, p: string,
                  left: string, x: string)
    requires i <= at <= end <= |s| && IsCutTo(rest, Unescape(s[end..]), cuts)
    requires whole == s[i..] && p == s[i..at] && left == s[at..] && x == s[at..end]
    ensures IsCutTo(Unescape(p) + (Unescape(x) + rest), Unescape(whole),
                    InEntity(whole, at - i) || InEntity(left, end - at) || cuts)
  {
    Slices(s, i, at, end);
    CutInThree(whole, p, left, x, s[end..], rest, cuts);
  }

  lemma EntitiesDecode(s: string, runs: seq<Run>)
    requires InOrder(runs, 0, |s|)
    ensures IsCutTo(Decoded(Unescape, s, 0, runs), Unescape(s[0..]), CutsWhatIsLeft(InEntity, s, 0, runs))
  {
    forall i: nat, at: nat, end: nat, rest: string, cuts: bool
      | i <= at <= end <= |s| && IsCutTo(rest, Unescape(s[end..]), cuts)
      ensures IsCutTo(Unescape(s[i..at]) + (Unescape(s[at..end]) + rest), Unescape(s[i..]),
                      InEntity(s[i..], at - i) || InEntity(s[at..], end - at) || cuts)
    {
      CutSlices(s, i, at, end, rest, cuts, s[i..], s[i..at], s[at..], s[at..end]);
    }
    DecodedUncut(Unescape, InEntity, s, 0, runs);
  }

  lemma EntitiesInWhole(s: string, runs: seq<Run>)
    requires InOrder(runs, 0, |s|)
    ensures CutsWhatIsLeft(InEntity, s, 0, runs) <==> SomeCuts(InEntity, s, runs)
  {
    forall i: nat, n: nat | i + n <= |s| && !InEntity(s, i) ensures InEntity(s[i..], n) == InEntity(s, i + n) {
      SuffixEntities(s, i, n, s[..i], s[i..]);
    }
    CutsAreInWhole(InEntity, s, 0, runs);
  }

  /** Whether some run starts or ends strictly inside an entity. */
  predicate CutsEntity(s: string, runs: seq<Run>) {
    exists r :: r in runs && (InEntity(s, r.at) || InEntity(s, End(r)))
  }

  /** What's between tags decodes, a piece at a time, to what the whole does exactly when no run cuts an entity. */
  lemma DecodedIff(s: string, runs: seq<Run>)
    requires InOrder(runs, 0, |s|)
    ensures Decoded(Unescape, s, 0, runs) == Unescape(s) <==> !CutsEntity(s, runs)
  {
    EntitiesDecode(s, runs);
    EntitiesInWhole(s, runs);
    assert s[0..] == s;
  }

  // What a reader sees.

  /** The text of HTML with these tags and no other: decoded piece by piece, given the piece since the last tag. */
  function Shown(tags: Tags, html: string, piece: string): string
    requires Distinctive(tags)
    decreases |html|
  {
    if html == "" then Unescape(piece)
    else if tags.open <= html then Unescape(piece) + Shown(tags, html[|tags.open|..], "")
    else if tags.close <= html then Unescape(piece) + Shown(tags, html[|tags.close|..], "")
    else Shown(tags, html[1..], piece + [html[0]])
  }

  lemma {:induction false} ShownText(tags: Tags, text: string, rest: string, piece: string)
    requires Distinctive(tags) && NoAngles(text)
    ensures Shown(tags, text + rest, piece) == Shown(tags, rest, piece + text)
    decreases |text|
  {
    if text == "" {
      assert text + rest == rest && piece + text == piece;
    } else {
      var html := text + rest;
      assert html[0] == text[0] && text[0] in text && html[1..] == text[1..] + rest;
      ShownText(tags, text[1..], rest, piece + [text[0]]);
      ConcatAssociates(piece, [text[0]], text[1..]);
      assert [text[0]] + text[1..] == text;
    }
  }

  lemma ShownTag(tags: Tags, tag: string, rest: string, piece: string)
    requires Distinctive(tags) && (tag == tags.open || tag == tags.close)
    ensures Shown(tags, tag + rest, piece) == Unescape(piece) + Shown(tags, rest, "")
  {
    var html := tag + rest;
    assert html[|tag|..] == rest && tag <= html;
    if tag == tags.close && tags.open <= html {
      PrefixesCompare(tags.open, tags.close, rest);
    }
  }

  lemma ShownRun(tags: Tags, before: string, text: string, rest: string)
    requires Distinctive(tags) && NoAngles(before) && NoAngles(text)
    ensures Shown(tags, before + (InTags(tags, text) + rest), "")
            == Unescape(before) + (Unescape(text) + Shown(tags, rest, ""))
  {
    ConcatAssociates(tags.open + text, tags.close, rest);
    ConcatAssociates(tags.open, text, tags.close + rest);
    ShownText(tags, before, tags.open + (text + (tags.close + rest)), "");
    ConcatAssociates("", "", before);
    ShownTag(tags, tags.open, text + (tags.close + rest), before);
    ShownText(tags, text, tags.close + rest, "");
    ConcatAssociates("", "", text);
    ShownTag(tags, tags.close, rest, text);
  }

  lemma ShownOnce(tags: Tags, s: string, from: nat, at: nat, end: nat, rest: string)
    requires Distinctive(tags) && NoAngles(s) && from <= at <= end <= |s|
    ensures Shown(tags, s[from..at] + (InTags(tags, s[at..end]) + rest), "")
         == Unescape(s[from..at]) + (Unescape(s[at..end]) + Shown(tags, rest, ""))
  {
    ShownRun(tags, s[from..at], s[at..end], rest);
  }

  lemma ShownEnd(tags: Tags, text: string)
    requires Distinctive(tags) && NoAngles(text)
    ensures Shown(tags, text, "") == Unescape(text)
  {
    ShownText(tags, text, "", "");
    assert text + "" == text && "" + text == text;
  }

  lemma ShownFirst(shown: string -> string, decode: string -> string, tags: Tags, s: string, from: nat, runs: seq<Run>)
    requires InOrder(runs, from, |s|) && runs != []
    requires shown(Tagged(tags, s, End(runs[0]), runs[1..])) == Decoded(decode, s, End(runs[0]), runs[1..])
    requires var at, end := runs[0].at, End(runs[0]);
             var rest := Tagged(tags, s, end, runs[1..]);
             shown(s[from..at] + (InTags(tags, s[at..end]) + rest))
               == decode(s[from..at]) + (decode(s[at..end]) + shown(rest))
    ensures shown(Tagged(tags, s, from, runs)) == Decoded(decode, s, from, runs)
  {
  }

  /** What shows a run's text in pieces shows every run's. */
  lemma {:induction false} ShownEach(shown: string -> string, decode: string -> string, tags: Tags, s: string,
                                     from: nat, runs: seq<Run>)
    requires InOrder(runs, from, |s|)
    requires forall i: nat :: i <= |s| ==> shown(s[i..]) == decode(s[i..])
    requires forall i: nat, at: nat, end: nat, rest: string :: i <= at <= end <= |s| ==>
               shown(s[i..at] + (InTags(tags, s[at..end]) + rest))
                 == decode(s[i..at]) + (decode(s[at..end]) + shown(rest))
    ensures shown(Tagged(tags, s, from, runs)) == Decoded(decode, s, from, runs)
    decreases |runs|
  {
    if runs != [] {
      ShownEach(shown, decode, tags, s, End(runs[0]), runs[1..]);
      ShownFirst(shown, decode, tags, s, from, runs);
    }
  }

  lemma ShownIsDecoded(tags: Tags, s: string, runs: seq<Run>)
    requires Distinctive(tags) && NoAngles(s) && InOrder(runs, 0, |s|)
    ensures Shown(tags, Tagged(tags, s, 0, runs), "") == Decoded(Unescape, s, 0, runs)
  {
    var shown := (html: string) => Shown(tags, html, "");
    forall i: nat | i <= |s| ensures shown(s[i..]) == Unescape(s[i..]) {
      ShownEnd(tags, s[i..]);
    }
    forall i: nat, at: nat, end: nat, rest: string | i <= at <= end <= |s|
      ensures shown(s[i..at] + (InTags(tags, s[at..end]) + rest))
              == Unescape(s[i..at]) + (Unescape(s[at..end]) + shown(rest))
    {
      ShownOnce(tags, s, i, at, end, rest);
    }
    ShownEach(shown, Unescape, tags, s, 0, runs);
  }

  /** What a reader sees of a snippet. */
  function Seen(html: string): string {
    MarkIsDistinctive();
    Shown(MARK, html, "")
  }

  /** Whatever the terms, a reader sees the window exactly when no marked run starts or ends inside an entity. */
  lemma SeenIffUncut(c: Casing, window: string, terms: seq<string>)
    requires forall t :: t in terms ==> t != ""
    ensures Seen(Mark(MARK, c, Escape(window), terms, 0)) == window
            <==> !CutsEntity(Escape(window), Runs(c, Escape(window), terms, 0))
  {
    var e := Escape(window);
    MarkIsDistinctive();
    EscapedHasNoAngles(window);
    MarkTagsRuns(MARK, c, e, terms, 0);
    ShownIsDecoded(MARK, e, Runs(c, e, terms, 0));
    DecodedIff(e, Runs(c, e, terms, 0));
    UnescapeEscape(window);
  }

  // The terms of a search.

  /** A search looks for words of more than two characters. */
  predicate IsSearchTerm(t: string) {
    |t| > 2 && forall i :: 0 <= i < |t| ==> IsWordChar(t[i])
  }

  predicate AreSearchTerms(terms: seq<string>) {
    forall t :: t in terms ==> IsSearchTerm(t)
  }

  /** What's between characters that aren't a word's. */
  function Words(query: string): (words: seq<string>)
    ensures words != []
  {
    if query == "" then [""]
    else
      var before, c := Words(query[..|query| - 1]), query[|query| - 1];
      var last := |before| - 1;
      if IsWordChar(c) then before[last := before[last] + [c]] else before + [""]
  }

  lemma {:induction false} WordsAreWords(query: string, w: string)
    requires w in Words(query)
    ensures forall i :: 0 <= i < |w| ==> IsWordChar(w[i])
  {
    if query != "" {
      var before := Words(query[..|query| - 1]);
      if w in before {
        WordsAreWords(query[..|query| - 1], w);
      } else {
        WordsAreWords(query[..|query| - 1], before[|before| - 1]);
      }
    }
  }

  /** A run of a word's characters with none of them next to it, or nothing where there's none. */
  predicate IsWordAt(query: string, w: string, i: int) {
    && 0 <= i && i + |w| <= |query| && query[i..i + |w|] == w && (forall j :: 0 <= j < |w| ==> IsWordChar(w[j]))
    && (i == 0 || !IsWordChar(query[i - 1])) && (i + |w| == |query| || !IsWordChar(query[i + |w|]))
  }

  /** The words of a query in order, with where each is, and every character of one in one. */
  ghost predicate AreWordsAt(query: string, words: seq<string>, at: seq<nat>) {
    && |at| == |words| && (forall n :: 0 <= n < |at| ==> IsWordAt(query, words[n], at[n]))
    && AreOrdered(words, at) && forall i :: 0 <= i < |query| && IsWordChar(query[i]) ==> IsInWord(words, at, i)
  }

  predicate AreOrdered(words: seq<string>, at: seq<nat>)
    requires |at| == |words|
  {
    forall m, n :: 0 <= m < n < |at| ==> at[m] + |words[m]| < at[n]
  }

  ghost predicate IsInWord(words: seq<string>, at: seq<nat>, i: int)
    requires |at| == |words|
  {
    exists n :: 0 <= n < |at| && at[n] <= i < at[n] + |words[n]|
  }

  lemma WordStays(query: string, c: char, w: string, i: int)
    requires IsWordAt(query, w, i) && (i + |w| < |query| || !IsWordChar(c))
    ensures IsWordAt(query + [c], w, i)
  {
    var more := query + [c];
    assert more[i..i + |w|] == query[i..i + |w|];
  }

  lemma WordGrows(query: string, c: char, w: string, i: int)
    requires IsWordAt(query, w, i) && i + |w| == |query| && IsWordChar(c)
    ensures IsWordAt(query + [c], w + [c], i)
  {
    var more := query + [c];
    assert more[i..i + |w + [c]|] == query[i..i + |w|] + [c];
  }

  /** The words so far, the last of which reaches to the end. */
  ghost predicate AreWordsTo(query: string, words: seq<string>, at: seq<nat>) {
    words != [] && AreWordsAt(query, words, at) && at[|at| - 1] + |words[|at| - 1]| == |query|
  }

  lemma StaysInWord(words: seq<string>, at: seq<nat>, words': seq<string>, at': seq<nat>, i: int)
    requires |at| == |words| && |at'| == |words'| >= |at| && IsInWord(words, at, i)
    requires forall n :: 0 <= n < |at| ==> at'[n] == at[n] && |words'[n]| >= |words[n]|
    ensures IsInWord(words', at', i)
  {
    var n :| 0 <= n < |at| && at[n] <= i < at[n] + |words[n]|;
    assert at'[n] <= i < at'[n] + |words'[n]|;
  }

  lemma CoveredTo(query: string, words: seq<string>, at: seq<nat>, i: int)
    requires AreWordsTo(query, words, at) && 0 <= i < |query| && IsWordChar(query[i])
    ensures IsInWord(words, at, i)
  {
  }

  lemma EndsBefore(query: string, words: seq<string>, at: seq<nat>, n: int)
    requires AreWordsTo(query, words, at) && 0 <= n < |words| - 1
    ensures at[n] + |words[n]| < at[|at| - 1] <= |query| && IsWordAt(query, words[n], at[n])
  {
  }

  lemma NextIsWord(query: string, words: seq<string>, at: seq<nat>, c: char, words': seq<string>, n: int)
    requires AreWordsTo(query, words, at) && IsWordChar(c) && 0 <= n < |words|
    requires words' == words[|words| - 1 := words[|words| - 1] + [c]]
    ensures IsWordAt(query + [c], words'[n], at[n])
  {
    if n < |words| - 1 {
      EndsBefore(query, words, at, n);
      WordStays(query, c, words[n], at[n]);
    } else {
      WordGrows(query, c, words[n], at[n]);
    }
  }

  lemma NextIsCovered(query: string, words: seq<string>, at: seq<nat>, c: char, words': seq<string>, i: int)
    requires AreWordsTo(query, words, at) && words' == words[|words| - 1 := words[|words| - 1] + [c]]
    requires 0 <= i <= |query| && IsWordChar((query + [c])[i])
    ensures IsInWord(words', at, i)
  {
    if i < |query| {
      CoveredTo(query, words, at, i);
      StaysInWord(words, at, words', at, i);
    } else {
      var last := |words| - 1;
      assert at[last] <= i < at[last] + |words'[last]|;
    }
  }

  lemma NextAreWords(query: string, words: seq<string>, at: seq<nat>, c: char, words': seq<string>, more: string)
    requires AreWordsTo(query, words, at) && IsWordChar(c) && more == query + [c]
    requires words' == words[|words| - 1 := words[|words| - 1] + [c]]
    ensures forall n :: 0 <= n < |at| ==> IsWordAt(more, words'[n], at[n])
  {
    forall n | 0 <= n < |at| ensures IsWordAt(more, words'[n], at[n]) {
      NextIsWord(query, words, at, c, words', n);
    }
  }

  lemma NextAreCovered(query: string, words: seq<string>, at: seq<nat>, c: char, words': seq<string>, more: string)
    requires AreWordsTo(query, words, at) && IsWordChar(c) && more == query + [c]
    requires words' == words[|words| - 1 := words[|words| - 1] + [c]]
    ensures forall i :: 0 <= i < |more| && IsWordChar(more[i]) ==> IsInWord(words', at, i)
  {
    forall i | 0 <= i < |more| && IsWordChar(more[i]) ensures IsInWord(words', at, i) {
      NextIsCovered(query, words, at, c, words', i);
    }
  }

  lemma NextInWord(query: string, words: seq<string>, at: seq<nat>, c: char)
    requires AreWordsTo(query, words, at) && IsWordChar(c)
    ensures AreWordsTo(query + [c], words[|words| - 1 := words[|words| - 1] + [c]], at)
  {
    var last := |words| - 1;
    var words' := words[last := words[last] + [c]];
    NextAreWords(query, words, at, c, words', query + [c]);
    NextAreCovered(query, words, at, c, words', query + [c]);
    NextIsOrdered(words, at, words[last] + [c]);
  }

  lemma NextIsOrdered(words: seq<string>, at: seq<nat>, w: string)
    requires |at| == |words| > 0 && AreOrdered(words, at)
    ensures AreOrdered(words[|words| - 1 := w], at)
  {
  }

  lemma OffIsCovered(query: string, words: seq<string>, at: seq<nat>, c: char, words': seq<string>, at': seq<nat>,
                     i: int)
    requires AreWordsTo(query, words, at) && !IsWordChar(c)
    requires words' == words + [""] && at' == at + [|query| + 1]
    requires 0 <= i <= |query| && IsWordChar((query + [c])[i])
    ensures IsInWord(words', at', i)
  {
    CoveredTo(query, words, at, i);
    StaysInWord(words, at, words', at', i);
  }

  lemma OffIsWord(query: string, words: seq<string>, at: seq<nat>, c: char, n: int)
    requires AreWordsTo(query, words, at) && !IsWordChar(c) && 0 <= n < |words|
    ensures IsWordAt(query + [c], words[n], at[n]) && at[n] + |words[n]| <= |query|
  {
    WordStays(query, c, words[n], at[n]);
  }

  lemma NextOffWord(query: string, words: seq<string>, at: seq<nat>, c: char)
    requires AreWordsTo(query, words, at) && !IsWordChar(c)
    ensures AreWordsTo(query + [c], words + [""], at + [|query| + 1])
  {
    var more, words', at' := query + [c], words + [""], at + [|query| + 1];
    forall n | 0 <= n < |at| ensures IsWordAt(more, words'[n], at'[n]) && at[n] + |words[n]| <= |query| {
      OffIsWord(query, words, at, c, n);
    }
    forall i | 0 <= i < |more| && IsWordChar(more[i]) ensures IsInWord(words', at', i) {
      OffIsCovered(query, words, at, c, words', at', i);
    }
  }

  /** Words are split at what isn't one's, and none is lost. */
  lemma {:induction false} WordsAreSplit(query: string) returns (at: seq<nat>)
    ensures AreWordsTo(query, Words(query), at)
    decreases |query|
  {
    if query == "" {
      at := [0];
    } else {
      var init, c := query[..|query| - 1], query[|query| - 1];
      assert query == init + [c];
      at := WordsAreSplit(init);
      at := SplitNext(init, Words(init), at, c);
    }
  }

  lemma SplitNext(query: string, words: seq<string>, at: seq<nat>, c: char) returns (at': seq<nat>)
    requires AreWordsTo(query, words, at)
    ensures var last := |words| - 1;
            AreWordsTo(query + [c], if IsWordChar(c) then words[last := words[last] + [c]] else words + [""], at')
  {
    if IsWordChar(c) {
      NextInWord(query, words, at, c);
      at' := at;
    } else {
      NextOffWord(query, words, at, c);
      at' := at + [|query| + 1];
    }
  }

  /** Of the words, those long enough, in order. */
  function LongWords(words: seq<string>): seq<string> {
    if words == [] then []
    else
      var last := words[|words| - 1];
      LongWords(words[..|words| - 1]) + if |last| > 2 then [last] else []
  }

  /** These are the words that are long enough, in order and as often as they're there: `at` says where each is. */
  ghost predicate AreLong(long: seq<string>, words: seq<string>, at: seq<nat>) {
    && |at| == |long| && (forall i, j :: 0 <= i < j < |at| ==> at[i] < at[j])
    && (forall i :: 0 <= i < |at| ==> at[i] < |words| && words[at[i]] == long[i] && |long[i]| > 2)
    && forall k :: 0 <= k < |words| && |words[k]| > 2 ==> k in at
  }

  lemma LongMore(long: seq<string>, words: seq<string>, at: seq<nat>, w: string)
    requires AreLong(long, words, at)
    ensures if |w| > 2 then AreLong(long + [w], words + [w], at + [|words|]) else AreLong(long, words + [w], at)
  {
    var at' := at + [|words|];
    assert at'[|at|] == |words|;
    assert forall k :: k in at ==> k in at';
  }

  lemma {:induction false} LongWordsAre(words: seq<string>) returns (at: seq<nat>)
    ensures AreLong(LongWords(words), words, at)
  {
    if words == [] {
      at := [];
    } else {
      var init, last := words[..|words| - 1], words[|words| - 1];
      assert words == init + [last];
      at := LongWordsAre(init);
      LongMore(LongWords(init), init, at, last);
      at := if |last| > 2 then at + [|init|] else at;
    }
  }

  /** The terms of a query worth marking. */
  method SearchTerms(query: string) returns (terms: seq<string>)
    ensures AreSearchTerms(terms)
    ensures terms == LongWords(Words(query))
  {
    terms := [];
    var words := Words(query);
    for i := 0 to |words|
      invariant AreSearchTerms(terms)
      invariant terms == LongWords(words[..i])
    {
      assert words[..i + 1][..i] == words[..i];
      if |words[i]| > 2 {
        WordsAreWords(query, words[i]);
        terms := terms + [words[i]];
      }
    }
    assert words[..|words|] == words;
  }

  /** Letters, digits and underscores stay such in lowercase, take a byte each, and are never the same as what entities
      begin and end with but for case. */
  ghost predicate IsPlainOfWords(c: Casing) {
    forall w :: IsWordChar(w) ==>
      && IsWordChar(c.lower(w)) && c.bytes(w) == 1
      && c.fold(w) != c.fold('&') && c.fold(w) != c.fold('#') && c.fold(w) != c.fold(';')
  }

  lemma {:induction false} LoweredAreSearchTerms(c: Casing, terms: seq<string>)
    requires IsPlainOfWords(c) && AreSearchTerms(terms)
    ensures AreSearchTerms(LowerTerms(c, terms))
  {
    if terms != [] {
      LoweredAreSearchTerms(c, terms[..|terms| - 1]);
      assert IsSearchTerm(terms[|terms| - 1]);
    }
  }

  /** So of a search's terms it's always the longest that's marked. */
  lemma SearchMarksLongest(c: Casing, s: string, terms: seq<string>, sorted: seq<string>, r: Run, t: string)
    requires IsPlainOfWords(c) && AreSearchTerms(terms) && LongestFirst(c, sorted, terms)
    requires forall u :: u in sorted ==> u != ""
    requires r in Runs(c, s, sorted, 0) && t in terms && MatchesAt(c, s, t, r.at)
    ensures r.term in terms && MatchesAt(c, s, r.term, r.at) && |t| <= |r.term|
  {
    forall a | a in Runes(terms) ensures IsWordChar(a) {
      var u, i :| u in terms && 0 <= i < |u| && a == u[i];
      assert IsSearchTerm(u);
    }
    RunsAreLongest(c, s, terms, sorted, r, t);
  }

  // Which of them cut entities.

  /** A term that's the name of the one entity it could be inside, but for case. */
  predicate IsAmp(c: Casing, t: string) {
    |t| == 3 && c.fold(t[0]) == c.fold('a') && c.fold(t[1]) == c.fold('m') && c.fold(t[2]) == c.fold('p')
  }

  predicate IsMark(c: char) {
    c == '&' || c == '#' || c == ';'
  }

  lemma RunIsMatch(c: Casing, s: string, terms: seq<string>, r: Run)
    requires (forall t :: t in terms ==> t != "") && r in Runs(c, s, terms, 0)
    ensures r.term in terms && MatchesAt(c, s, r.term, r.at)
  {
    RunsAreMatches(c, s, terms, 0);
  }

  lemma WordIsNoMark(c: Casing, w: char, x: char)
    requires IsPlainOfWords(c) && IsWordChar(w) && c.fold(x) == c.fold(w)
    ensures !IsMark(x)
  {
  }

  /** A match of a search's term has nothing in it that entities begin or end with. */
  lemma MatchHasNoMarks(c: Casing, s: string, t: string, at: nat, i: nat)
    requires IsPlainOfWords(c) && IsSearchTerm(t) && MatchesAt(c, s, t, at) && at <= i < at + |t|
    ensures !IsMark(s[i])
  {
    var j := i - at;
    assert c.fold(s[at + j]) == c.fold(t[j]);
    WordIsNoMark(c, t[j], s[i]);
  }

  /** Each character's escape is one unit of an escaped text. */
  lemma EscapedUnit(c: char, rest: string)
    ensures var e := EscapeChar(c) + rest; Unit(e) == |EscapeChar(c)| && e[Unit(e)..] == rest
  {
    var e := EscapeChar(c) + rest;
    if |EscapeChar(c)| == 1 {
      assert e[0] == c != '&';
    } else {
      assert EscapeChar(c) <= e;
      assert e[1] == EscapeChar(c)[1] && e[2] == EscapeChar(c)[2] && e[3] == EscapeChar(c)[3];
    }
  }

  /** Entities past the first unit are those of the rest. */
  lemma InRest(e: string, n: nat, rest: string, i: nat)
    requires e != "" && n == Unit(e) && rest == e[n..]
    ensures InEntity(e, n + i) == InEntity(rest, i)
  {
  }

  /** The escape of a character of a text is at this place in the escaped text. */
  predicate IsEscapeAt(e: string, q: nat, c: char) {
    q + |EscapeChar(c)| <= |e| && forall j :: 0 <= j < |EscapeChar(c)| ==> e[q + j] == EscapeChar(c)[j]
  }

  lemma EscapeFirst(w: string, rest: string)
    requires w != "" && rest == Escape(w[1..])
    ensures var e := Escape(w);
            e != "" && Unit(e) == |EscapeChar(w[0])| && e[Unit(e)..] == rest && IsEscapeAt(e, 0, w[0])
  {
    EscapedUnit(w[0], rest);
  }

  lemma EscapeLater(e: string, n: nat, rest: string, q: nat, c: char)
    requires n <= |e| && rest == e[n..] && IsEscapeAt(rest, q, c)
    ensures IsEscapeAt(e, n + q, c)
  {
    forall j | 0 <= j < |EscapeChar(c)| ensures e[n + q + j] == EscapeChar(c)[j] {
      assert rest[q + j] == e[n + (q + j)];
    }
  }

  /** A position inside an entity of an escaped text is inside the escape of one of its characters. */
  lemma {:induction false} EntityOf(w: string, i: nat) returns (q: nat, c: char)
    requires InEntity(Escape(w), i)
    ensures c in w && IsEscapeAt(Escape(w), q, c) && q < i < q + |EscapeChar(c)|
    decreases |w|
  {
    var rest := Escape(w[1..]);
    EscapeFirst(w, rest);
    var n := Unit(Escape(w));
    if i < n {
      q, c := 0, w[0];
    } else {
      InRest(Escape(w), n, rest, i - n);
      var p;
      p, c := EntityOf(w[1..], i - n);
      EscapeLater(Escape(w), n, rest, p, c);
      q := n + p;
    }
  }

  lemma {:induction false} AmpIsEscaped(w: string) returns (q: nat)
    requires '&' in w
    ensures IsEscapeAt(Escape(w), q, '&') && InEntity(Escape(w), q + 1)
    decreases |w|
  {
    var rest := Escape(w[1..]);
    EscapeFirst(w, rest);
    if w[0] == '&' {
      q := 0;
    } else {
      var n := Unit(Escape(w));
      q := AmpIsEscaped(w[1..]);
      InRest(Escape(w), n, rest, q + 1);
      EscapeLater(Escape(w), n, rest, q, '&');
      q := n + q;
    }
  }

  /** An escape that isn't just its character begins and ends with marks. */
  lemma EscapeEnds(e: string, q: nat, x: char)
    requires IsEscapeAt(e, q, x) && |EscapeChar(x)| > 1
    ensures IsMark(e[q]) && IsMark(e[q + |EscapeChar(x)| - 1])
  {
    var n := |EscapeChar(x)|;
    assert e[q + 0] == EscapeChar(x)[0] && e[q + (n - 1)] == EscapeChar(x)[n - 1];
  }

  lemma MatchIsInside(c: Casing, e: string, t: string, at: nat, q: nat, x: char)
    requires IsPlainOfWords(c) && IsSearchTerm(t) && MatchesAt(c, e, t, at) && IsEscapeAt(e, q, x)
    requires q < at < q + |EscapeChar(x)| || q < at + |t| < q + |EscapeChar(x)|
    ensures q < at && at + |t| < q + |EscapeChar(x)|
  {
    var n := |EscapeChar(x)|;
    EscapeEnds(e, q, x);
    if at <= q {
      MatchHasNoMarks(c, e, t, at, q);
    }
    if q + n - 1 < at + |t| {
      MatchHasNoMarks(c, e, t, at, q + n - 1);
    }
  }

  lemma LongEscapeIs(e: string, q: nat, x: char)
    requires IsEscapeAt(e, q, x) && |EscapeChar(x)| == 5
    ensures if x == '&' then e[q + 1] == 'a' && e[q + 2] == 'm' && e[q + 3] == 'p' else e[q + 1] == '#'
  {
    assert e[q + 1] == EscapeChar(x)[1] && e[q + 2] == EscapeChar(x)[2] && e[q + 3] == EscapeChar(x)[3];
  }

  /** A match of a search's term that touches the inside of an escape is the whole inside of an ampersand's. */
  lemma MatchInEscape(c: Casing, e: string, t: string, at: nat, q: nat, x: char)
    requires IsPlainOfWords(c) && IsSearchTerm(t) && MatchesAt(c, e, t, at) && IsEscapeAt(e, q, x)
    requires q < at && at + |t| < q + |EscapeChar(x)|
    ensures x == '&' && IsAmp(c, t)
  {
    assert |EscapeChar(x)| == 5 && at == q + 1 && |t| == 3;
    LongEscapeIs(e, q, x);
    MatchHasNoMarks(c, e, t, at, at);
    assert c.fold(e[at + 0]) == c.fold(t[0]) && c.fold(e[at + 1]) == c.fold(t[1]) && c.fold(e[at + 2]) == c.fold(t[2]);
  }

  predicate SomeAmp(c: Casing, terms: seq<string>) {
    exists t :: t in terms && IsAmp(c, t)
  }

  lemma CutMeansAmp(c: Casing, w: string, terms: seq<string>, r: Run, i: nat)
    requires IsPlainOfWords(c) && AreSearchTerms(terms) && (forall t :: t in terms ==> t != "")
    requires r in Runs(c, Escape(w), terms, 0) && (i == r.at || i == End(r)) && InEntity(Escape(w), i)
    ensures '&' in w && SomeAmp(c, terms)
  {
    RunIsMatch(c, Escape(w), terms, r);
    var q, x := EntityOf(w, i);
    MatchIsInside(c, Escape(w), r.term, r.at, q, x);
    MatchInEscape(c, Escape(w), r.term, r.at, q, x);
  }

  lemma AmpMatchesEscape(c: Casing, e: string, t: string, q: nat)
    requires IsAmp(c, t) && IsEscapeAt(e, q, '&')
    ensures MatchesAt(c, e, t, q + 1) && e[q] == '&'
  {
    assert e[q + 0] == AMP[0] && e[q + 1] == AMP[1] && e[q + 2] == AMP[2] && e[q + 3] == AMP[3];
    forall j | 0 <= j < 3 ensures c.fold(e[q + 1 + j]) == c.fold(t[j]) {
      assert e[q + (j + 1)] == AMP[j + 1];
    }
  }

  lemma RunStartsInside(c: Casing, e: string, terms: seq<string>, t: string, q: nat) returns (r: Run)
    requires IsPlainOfWords(c) && AreSearchTerms(terms) && (forall u :: u in terms ==> u != "")
    requires t in terms && MatchesAt(c, e, t, q + 1) && q + 1 < |e| && e[q] == '&'
    ensures r in Runs(c, e, terms, 0) && r.at == q + 1
  {
    r := MatchesAreInRuns(c, e, terms, 0, q + 1, t);
    RunIsMatch(c, e, terms, r);
    if r.at <= q {
      MatchHasNoMarks(c, e, r.term, r.at, q);
    }
  }

  lemma AmpMeansCut(c: Casing, w: string, terms: seq<string>, t: string)
    requires IsPlainOfWords(c) && AreSearchTerms(terms) && (forall u :: u in terms ==> u != "")
    requires '&' in w && t in terms && IsAmp(c, t)
    ensures CutsEntity(Escape(w), Runs(c, Escape(w), terms, 0))
  {
    var q := AmpIsEscaped(w);
    AmpMatchesEscape(c, Escape(w), t, q);
    var r := RunStartsInside(c, Escape(w), terms, t, q);
  }

  /** One of a search's terms cuts an entity exactly when the window has an ampersand and one is amp but for case. */
  lemma SearchCutsIffAmp(c: Casing, w: string, terms: seq<string>)
    requires IsPlainOfWords(c) && AreSearchTerms(terms) && (forall t :: t in terms ==> t != "")
    ensures CutsEntity(Escape(w), Runs(c, Escape(w), terms, 0)) <==> '&' in w && SomeAmp(c, terms)
  {
    var runs := Runs(c, Escape(w), terms, 0);
    if CutsEntity(Escape(w), runs) {
      var r :| r in runs && (InEntity(Escape(w), r.at) || InEntity(Escape(w), End(r)));
      CutMeansAmp(c, w, terms, r, if InEntity(Escape(w), r.at) then r.at else End(r));
    }
    if '&' in w && SomeAmp(c, terms) {
      var t :| t in terms && IsAmp(c, t);
      AmpMeansCut(c, w, terms, t);
    }
  }

  /** So what a reader of a search's snippet sees is the window but in that case. */
  lemma SearchSeenIffNoAmp(c: Casing, w: string, terms: seq<string>)
    requires IsPlainOfWords(c) && AreSearchTerms(terms) && (forall t :: t in terms ==> t != "")
    ensures Seen(Mark(MARK, c, Escape(w), terms, 0)) == w <==> !('&' in w && SomeAmp(c, terms))
  {
    SeenIffUncut(c, w, terms);
    SearchCutsIffAmp(c, w, terms);
  }

  lemma SortedAreTerms(c: Casing, sorted: seq<string>, terms: seq<string>)
    requires LongestFirst(c, sorted, terms)
    ensures forall t :: t in sorted <==> t in terms
  {
    forall t ensures t in sorted <==> t in terms {
      SortedHas(c, sorted, terms, t);
    }
  }

  /** And of what it makes of any text with a search's terms, however their sort leaves those of one length. */
  lemma SnippetOfSearchSeen(c: Casing, text: string, terms: seq<string>, length: nat, sorted: seq<string>)
    requires IsPlainOfWords(c) && AreSearchTerms(terms) && LongestFirst(c, sorted, LowerTerms(c, terms))
    ensures forall t :: t in sorted ==> t != ""
    ensures var window := WindowFor(c, text, terms, length);
            Seen(Mark(MARK, c, Escape(window), sorted, 0)) == window
            <==> !('&' in window && SomeAmp(c, LowerTerms(c, terms)))
  {
    LoweredAreSearchTerms(c, terms);
    SortedAreTerms(c, sorted, LowerTerms(c, terms));
    SearchSeenIffNoAmp(c, WindowFor(c, text, terms, length), sorted);
  }
}
