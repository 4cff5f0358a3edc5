/** Characters and numbers as text: digits and the numbers they spell, letters and their lowercase, what's a space or
    part of a word, and what trimming takes off the ends of a string. */
module Text {

  function DigitChar(d: nat): (c: char)
    requires d < 10
    ensures '0' <= c <= '9'
  {
    '0' + d as char
  }

  predicate IsDigit(c: char) {
    '0' <= c <= '9'
  }

  function DigitValue(c: char): (d: nat)
    requires IsDigit(c)
    ensures d < 10
  {
    (c - '0') as nat
  }

  /** strconv.Itoa of a number that isn't negative. */
  function Decimal(n: nat): (s: string)
    ensures s != "" && forall c :: c in s ==> IsDigit(c)
  {
    if n < 10 then [DigitChar(n)] else Decimal(n / 10) + [DigitChar(n % 10)]
  }

  /** The number a run of digits spells. */
  function Spelled(s: string): nat
    requires forall c :: c in s ==> IsDigit(c)
  {
    if s == "" then 0 else 10 * Spelled(s[..|s| - 1]) + DigitValue(s[|s| - 1])
  }

  lemma {:induction false} SpelledDecimal(n: nat)
    ensures Spelled(Decimal(n)) == n
  {
    if n < 10 {
      assert [DigitChar(n)][..0] == "";
    } else {
      SpelledDecimal(n / 10);
      assert Decimal(n)[..|Decimal(n)| - 1] == Decimal(n / 10);
    }
  }

  lemma DecimalInjective(m: nat, n: nat)
    requires Decimal(m) == Decimal(n)
    ensures m == n
  {
    SpelledDecimal(m);
    SpelledDecimal(n);
  }

  // Case and trimming.

  /** Lowercase, of ASCII letters. */
  function LowerChar(c: char): char {
    if 'A' <= c <= 'Z' then (c as int + 32) as char else c
  }

  function Lower(s: string): (r: string)
    ensures |r| == |s| && forall i :: 0 <= i < |s| ==> r[i] == LowerChar(s[i])
  {
    seq(|s|, i requires 0 <= i < |s| => LowerChar(s[i]))
  }

  predicate IsSpace(c: char) {
    '\t' <= c <= '\r' || c == ' ' || c == '\U{85}' || c == '\U{A0}' || c == '\U{1680}' || '\U{2000}' <= c <= '\U{200A}'
    || c == '\U{2028}' || c == '\U{2029}' || c == '\U{202F}' || c == '\U{205F}' || c == '\U{3000}'
  }

  lemma AlphabetLower()
    ensures Lower("ABCDEFGHIJKLMNOPQRSTUVWXYZ") == "abcdefghijklmnopqrstuvwxyz"
  {
  }

  /** What \w matches. */
  predicate IsWordChar(c: char) {
    IsDigit(c) || 'A' <= c <= 'Z' || 'a' <= c <= 'z' || c == '_'
  }

  predicate IsSlash(c: char) {
    c == '/'
  }

  function TrimLeft(s: string, drop: char -> bool): (r: string)
    ensures |r| <= |s| && r == s[|s| - |r|..]
    ensures r != "" ==> !drop(r[0])
    ensures |r| < |s| <==> s != "" && drop(s[0])
  {
    if s != "" && drop(s[0]) then TrimLeft(s[1..], drop) else s
  }

  function TrimRight(s: string, drop: char -> bool): (r: string)
    ensures |r| <= |s| && r == s[..|r|]
    ensures r != "" ==> !drop(r[|r| - 1])
    ensures |r| < |s| <==> s != "" && drop(s[|s| - 1])
  {
    if s != "" && drop(s[|s| - 1]) then TrimRight(s[..|s| - 1], drop) else s
  }

  /** strings.Trim and its kind: a run of the dropped characters off each end. */
  function Trim(s: string, drop: char -> bool): string {
    TrimRight(TrimLeft(s, drop), drop)
  }

  lemma TrimFacts(s: string, drop: char -> bool)
    ensures var r := Trim(s, drop);
            && |r| <= |s|
            && (forall c :: c in r ==> c in s)
            && (r != "" ==> !drop(r[0]) && !drop(r[|r| - 1]))
            && (r == s <==> s == "" || (!drop(s[0]) && !drop(s[|s| - 1])))
            && (s != "" && drop(s[0]) ==> |r| < |s|)
  {
  }

  /** Trimming takes exactly a run of dropped characters off the start... */
  lemma {:induction false} TrimLeftAt(s: string, drop: char -> bool, start: nat)
    requires start <= |s| && (forall i :: 0 <= i < start ==> drop(s[i])) && (start < |s| ==> !drop(s[start]))
    ensures TrimLeft(s, drop) == s[start..]
  {
    if start > 0 {
      TrimLeftAt(s[1..], drop, start - 1);
    }
  }

  /** ...and off the end. */
  lemma {:induction false} TrimRightAt(s: string, drop: char -> bool, size: nat)
    requires size <= |s| && (size > 0 ==> !drop(s[size - 1])) && forall i :: size <= i < |s| ==> drop(s[i])
    ensures TrimRight(s, drop) == s[..size]
  {
    if size < |s| {
      TrimRightAt(s[..|s| - 1], drop, size);
    } else {
      assert s[..size] == s;
    }
  }

  lemma TrimIgnoresStart(s: string, c: char, drop: char -> bool)
    requires drop(c)
    ensures Trim([c] + s, drop) == Trim(s, drop)
  {
    assert ([c] + s)[1..] == s;
  }

  lemma {:induction false} TrimIgnoresEnd(s: string, c: char, drop: char -> bool)
    requires drop(c)
    ensures Trim(s + [c], drop) == Trim(s, drop)
  {
    if s != "" && drop(s[0]) {
      assert (s + [c])[1..] == s[1..] + [c];
      TrimIgnoresEnd(s[1..], c, drop);
    } else if s == "" {
      assert s + [c] == [c] + s;
      TrimIgnoresStart(s, c, drop);
    } else {
      assert (s + [c])[..|s|] == s;
    }
  }

  /** One more at either end makes no difference. */
  lemma TrimIgnoresEdge(s: string, c: char, drop: char -> bool)
    requires drop(c)
    ensures Trim([c] + s, drop) == Trim(s, drop) && Trim(s + [c], drop) == Trim(s, drop)
  {
    TrimIgnoresStart(s, c, drop);
    TrimIgnoresEnd(s, c, drop);
  }

  lemma {:induction false} TrimLeftLower(s: string, drop: char -> bool)
    requires forall c :: drop(LowerChar(c)) == drop(c)
    ensures TrimLeft(Lower(s), drop) == Lower(TrimLeft(s, drop))
  {
    if s != "" && drop(s[0]) {
      assert Lower(s)[1..] == Lower(s[1..]);
      TrimLeftLower(s[1..], drop);
    }
  }

  lemma {:induction false} TrimRightLower(s: string, drop: char -> bool)
    requires forall c :: drop(LowerChar(c)) == drop(c)
    ensures TrimRight(Lower(s), drop) == Lower(TrimRight(s, drop))
  {
    if s != "" && drop(s[|s| - 1]) {
      assert Lower(s)[..|s| - 1] == Lower(s[..|s| - 1]);
      TrimRightLower(s[..|s| - 1], drop);
    }
  }

  lemma TrimLower(s: string)
    ensures Trim(Lower(s), IsSpace) == Lower(Trim(s, IsSpace))
  {
    TrimLeftLower(s, IsSpace);
    TrimRightLower(TrimLeft(s, IsSpace), IsSpace);
  }

  /** What comes before the first character that's one to stop at, and whether there was one. */
  function Before(s: string, stop: char -> bool): (r: string)
    ensures |r| <= |s| && r == s[..|r|]
    ensures forall c :: c in r ==> !stop(c)
    ensures |r| < |s| ==> stop(s[|r|])
  {
    if s == "" || stop(s[0]) then "" else [s[0]] + Before(s[1..], stop)
  }

  lemma LowerTwice(s: string)
    ensures Lower(Lower(s)) == Lower(s)
  {
    forall i | 0 <= i < |s| ensures Lower(Lower(s))[i] == Lower(s)[i] {
      assert Lower(Lower(s))[i] == LowerChar(Lower(s)[i]);
    }
  }
}
