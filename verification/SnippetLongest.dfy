/** Whether the term that's marked is the longest of those that match. */
module SnippetLongest {
  import opened Common
  import opened Snippet
  import opened SnippetMarkup

  /** Whatever the text, and however the sort leaves terms whose encodings have one length, every run is as long as the
      longest term that matches where it starts. */
  ghost predicate MarksLongest(c: Casing, terms: seq<string>) {
    forall s, sorted, r, t :: IsMarked(c, s, sorted, terms, r) && t in terms && MatchesAt(c, s, t, r.at) ==>
      |t| <= |r.term|
  }

  /** A run marked in a text for the terms, after a sort. */
  ghost predicate IsMarked(c: Casing, s: string, sorted: seq<string>, terms: seq<string>, r: Run) {
    LongestFirst(c, sorted, terms) && (forall u :: u in sorted ==> u != "") && r in Runs(c, s, sorted, 0)
  }

  /** Whenever a term begins as a shorter one does, but for case, a term that's the whole of it but for case has a
      longer encoding than the shorter one's. */
  ghost predicate NoneOvertaken(c: Casing, terms: seq<string>) {
    forall t, u :: t in terms && u in terms && |t| < |u| && MatchesAt(c, u, t, 0) ==> IsAhead(c, terms, u, t)
  }

  /** Some term is this one but for case, with a longer encoding than the other's. */
  ghost predicate IsAhead(c: Casing, terms: seq<string>, u: string, t: string) {
    exists v :: v in terms && |v| == |u| && MatchesAt(c, u, v, 0) && Bytes(c, v) > Bytes(c, t)
  }

  /** What matches in one place matches in what matches there. */
  lemma MatchesCompose(c: Casing, s: string, t: string, u: string, i: nat)
    requires MatchesAt(c, s, u, i) && |t| <= |u|
    ensures MatchesAt(c, s, t, i) <==> MatchesAt(c, u, t, 0)
  {
    if MatchesAt(c, s, t, i) {
      forall j | 0 <= j < |t| ensures c.fold(u[0 + j]) == c.fold(t[j]) {
        assert c.fold(s[i + j]) == c.fold(u[j]);
      }
    }
    if MatchesAt(c, u, t, 0) {
      forall j | 0 <= j < |t| ensures c.fold(s[i + j]) == c.fold(t[j]) {
        assert c.fold(u[0 + j]) == c.fold(t[j]);
      }
    }
  }

  lemma NotOvertaken(c: Casing, s: string, sorted: seq<string>, terms: seq<string>, i: nat, u: string)
    requires NoneOvertaken(c, terms) && LongestFirst(c, sorted, terms) && u in terms && MatchesAt(c, s, u, i)
    ensures var first := FirstMatch(c, s, sorted, i); first.Some? && |u| <= |first.value|
  {
    SortedHas(c, sorted, terms, u);
    LongestEncodingTaken(c, s, sorted, i, u);
    var t := FirstMatch(c, s, sorted, i).value;
    if |t| < |u| {
      SortedHas(c, sorted, terms, t);
      MatchesCompose(c, s, t, u, i);
      var v :| v in terms && |v| == |u| && MatchesAt(c, u, v, 0) && Bytes(c, v) > Bytes(c, t);
      MatchesCompose(c, s, v, u, i);
      SortedHas(c, sorted, terms, v);
      LongestEncodingTaken(c, s, sorted, i, v);
    }
  }

  // Otherwise some sort has a shorter one ahead.

  /** Where in an order a term is ahead of all whose encodings are no longer. */
  function PlaceAhead(c: Casing, sorted: seq<string>, t: string): (i: nat)
    ensures i <= |sorted| && forall j :: 0 <= j < i ==> Bytes(c, sorted[j]) > Bytes(c, t)
    ensures i < |sorted| ==> Bytes(c, sorted[i]) <= Bytes(c, t)
  {
    if sorted == [] || Bytes(c, sorted[0]) <= Bytes(c, t) then 0 else PlaceAhead(c, sorted[1..], t) + 1
  }

  lemma InsertedOnce(s: seq<string>, t: string, i: nat)
    requires i <= |s|
    ensures multiset(s[..i] + [t] + s[i..]) == multiset(s) + multiset{t}
  {
    assert s == s[..i] + s[i..];
  }

  lemma PutAhead(c: Casing, sorted: seq<string>, t: string) returns (r: seq<string>, i: nat)
    requires Descending(c, sorted)
    ensures Descending(c, r) && multiset(r) == multiset(sorted) + multiset{t}
    ensures i < |r| && r[i] == t && forall j :: 0 <= j < i ==> Bytes(c, r[j]) > Bytes(c, t)
  {
    i := PlaceAhead(c, sorted, t);
    r := sorted[..i] + [t] + sorted[i..];
    InsertedInOrder(c, sorted, t, i);
    InsertedOnce(sorted, t, i);
    forall j | 0 <= j < i ensures Bytes(c, r[j]) > Bytes(c, t) {
      assert r[j] == sorted[j];
    }
  }

  lemma {:induction false} CanSort(c: Casing, terms: seq<string>) returns (sorted: seq<string>)
    ensures LongestFirst(c, sorted, terms)
  {
    if terms == [] {
      sorted := [];
    } else {
      var rest := CanSort(c, terms[1..]);
      var i;
      sorted, i := PutAhead(c, rest, terms[0]);
      assert terms == [terms[0]] + terms[1..];
    }
  }

  lemma SortWithAhead(c: Casing, terms: seq<string>, t: string) returns (sorted: seq<string>, i: nat)
    requires t in terms
    ensures LongestFirst(c, sorted, terms) && i < |sorted| && sorted[i] == t
    ensures forall j :: 0 <= j < i ==> Bytes(c, sorted[j]) > Bytes(c, t)
  {
    var k :| 0 <= k < |terms| && terms[k] == t;
    var rest := CanSort(c, terms[..k] + terms[k + 1..]);
    sorted, i := PutAhead(c, rest, t);
    assert terms == terms[..k] + [t] + terms[k + 1..];
  }

  /** The alternative taken comes no later than one that matches. */
  lemma {:induction false} FirstIsEarly(c: Casing, s: string, sorted: seq<string>, at: nat, i: nat) returns (j: nat)
    requires i < |sorted| && MatchesAt(c, s, sorted[i], at)
    ensures j <= i && FirstMatch(c, s, sorted, at) == Some(sorted[j])
  {
    if MatchesAt(c, s, sorted[0], at) {
      j := 0;
    } else {
      var k := FirstIsEarly(c, s, sorted[1..], at, i - 1);
      j := k + 1;
    }
  }

  /** A term that's overtaken is: in the text that's just that term, by some sort. */
  lemma Overtaken(c: Casing, terms: seq<string>, t: string, u: string)
    requires (forall x :: x in terms ==> x != "") && t in terms && u in terms
    requires |t| < |u| && MatchesAt(c, u, t, 0) && !IsAhead(c, terms, u, t)
    ensures !MarksLongest(c, terms)
  {
    var sorted, i := SortWithAhead(c, terms, t);
    forall x | x in sorted ensures x != "" {
      SortedHas(c, sorted, terms, x);
    }
    var j := FirstIsEarly(c, u, sorted, 0, i);
    SortedHas(c, sorted, terms, sorted[j]);
    assert |sorted[j]| < |u|;
    var r := Run(0, sorted[j]);
    assert IsMarked(c, u, sorted, terms, r) && MatchesAt(c, u, u, r.at);
  }

  /** The longest term is marked, in every text and after every sort, exactly when no term is overtaken. */
  lemma MarksLongestIff(c: Casing, terms: seq<string>)
    requires forall t :: t in terms ==> t != ""
    ensures MarksLongest(c, terms) <==> NoneOvertaken(c, terms)
  {
    if NoneOvertaken(c, terms) {
      forall s, sorted, r, t | IsMarked(c, s, sorted, terms, r) && t in terms && MatchesAt(c, s, t, r.at)
        ensures |t| <= |r.term|
      {
        RunsAreMatches(c, s, sorted, 0);
        NotOvertaken(c, s, sorted, terms, r.at, t);
      }
    } else {
      var t, u :| t in terms && u in terms && |t| < |u| && MatchesAt(c, u, t, 0) && !IsAhead(c, terms, u, t);
      Overtaken(c, terms, t, u);
    }
  }

  // Terms of which none is overtaken.

  function Runes(terms: seq<string>): set<char> {
    set t, i | t in terms && 0 <= i < |t| :: t[i]
  }

  /** Of these runes, those that are the same but for case have encodings of the same length. */
  ghost predicate FoldingKeepsLength(c: Casing, runes: set<char>) {
    && (forall a, b :: a in runes && b in runes && c.fold(a) == c.fold(b) ==> c.bytes(a) == c.bytes(b))
    && forall a :: a in runes ==> c.bytes(a) > 0
  }

  predicate IsOf(t: string, runes: set<char>) {
    forall i :: 0 <= i < |t| ==> t[i] in runes
  }

  lemma {:induction false} MatchesHaveSameEncoding(c: Casing, runes: set<char>, s: string, t: string, u: string, i: nat)
    requires FoldingKeepsLength(c, runes) && IsOf(t, runes) && IsOf(u, runes)
    requires MatchesAt(c, s, t, i) && MatchesAt(c, s, u, i) && |t| <= |u|
    ensures Bytes(c, t) <= Bytes(c, u) && (|t| < |u| ==> Bytes(c, t) < Bytes(c, u))
    decreases |u|
  {
    if t != "" {
      assert c.fold(t[0]) == c.fold(s[i + 0]) == c.fold(u[0]);
      forall v | v == t || v == u ensures MatchesAt(c, s, v[1..], i + 1) {
        forall j | 0 <= j < |v[1..]| ensures c.fold(s[i + 1 + j]) == c.fold(v[1..][j]) {
          assert c.fold(s[i + (j + 1)]) == c.fold(v[j + 1]);
        }
      }
      MatchesHaveSameEncoding(c, runes, s, t[1..], u[1..], i + 1);
    } else if u != "" {
      assert c.bytes(u[0]) > 0;
      MatchesHaveSameEncoding(c, runes, s, "", u[1..], i + 1);
    }
  }

  /** If folding keeps the lengths of the terms' own runes, none is overtaken. */
  lemma KeptLengthsSuffice(c: Casing, terms: seq<string>)
    requires FoldingKeepsLength(c, Runes(terms))
    ensures NoneOvertaken(c, terms)
  {
    forall t, u | t in terms && u in terms && |t| < |u| && MatchesAt(c, u, t, 0) ensures IsAhead(c, terms, u, t) {
      assert MatchesAt(c, u, u, 0);
      MatchesHaveSameEncoding(c, Runes(terms), u, t, u, 0);
    }
  }

  /** So each run is the longest term that matches at its start. */
  lemma RunsAreLongest(c: Casing, s: string, terms: seq<string>, sorted: seq<string>, r: Run, t: string)
    requires FoldingKeepsLength(c, Runes(terms)) && LongestFirst(c, sorted, terms)
    requires forall u :: u in sorted ==> u != ""
    requires r in Runs(c, s, sorted, 0) && t in terms && MatchesAt(c, s, t, r.at)
    ensures r.term in terms && MatchesAt(c, s, r.term, r.at) && |t| <= |r.term|
  {
    KeptLengthsSuffice(c, terms);
    RunsAreMatches(c, s, sorted, 0);
    SortedHas(c, sorted, terms, r.term);
    NotOvertaken(c, s, sorted, terms, r.at, t);
  }

  /** If it doesn't, a run can stop short: the long s is the same as s but for case, and has a longer encoding. */
  lemma LongestCanBeMissed()
    ensures var c := Casing(r => r, r => if r == '\U{17F}' then 's' else r, r => if r == '\U{17F}' then 2 else 1);
            var terms := ["\U{17F}\U{17F}\U{17F}", "ssss"];
            LongestFirst(c, terms, terms) && Runs(c, "ssss", terms, 0) == [Run(0, terms[0])]
  {
    var c := Casing(r => r, r => if r == '\U{17F}' then 's' else r, r => if r == '\U{17F}' then 2 else 1);
    var terms := ["\U{17F}\U{17F}\U{17F}", "ssss"];
    assert terms[0][1..][1..] == "\U{17F}" && Bytes(c, "\U{17F}") == 2;
    assert Bytes(c, terms[0]) == 6;
    assert "ssss"[1..] == "sss" && "sss"[1..] == "ss" && "ss"[1..] == "s";
    assert Bytes(c, "s") == 1 && Bytes(c, "ss") == 2 && Bytes(c, "sss") == 3;
    assert Bytes(c, terms[1]) == 4;
    assert FirstMatch(c, "ssss", terms, 0) == Some(terms[0]);
    assert !MatchesAt(c, "ssss", terms[0], 3) && !MatchesAt(c, "ssss", terms[1], 3);
    assert FirstMatch(c, "ssss", terms, 3).None?;
    assert Runs(c, "ssss", terms, 4) == [];
    assert Runs(c, "ssss", terms, 3) == [];
  }

}
