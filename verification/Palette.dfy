/** Which entries of a palette reach a stylesheet, and in what order: those whose keys are indexes as they're printed
    and whose colors are colors, by index, however the map they're in is iterated; so nothing else can get in. */
module Palette {
  import opened Common
  import opened Text

  datatype ColorStyle = ColorStyle(fill: string, text: string, border: string)

  datatype ColumnColor = ColumnColor(index: int, style: ColorStyle)

  const MAX_INT := 0x7fff_ffff_ffff_ffff

  /** strconv.Atoi: a sign, digits, and a number that fits in 64 bits. */
  function Atoi(s: string): Option<int> {
    var signed := s != "" && (s[0] == '-' || s[0] == '+');
    var digits := if signed then s[1..] else s;
    if digits == "" || exists c :: c in digits && !IsDigit(c) then None
    else
      var size: int := Spelled(digits);
      var value := if signed && s[0] == '-' then -size else size;
      if -MAX_INT - 1 <= value <= MAX_INT then Some(value) else None
  }

  function Itoa(n: int): string {
    if n >= 0 then Decimal(n) else "-" + Decimal(-n)
  }

  lemma ItoaAtoi(n: int)
    requires -MAX_INT - 1 <= n <= MAX_INT
    ensures Atoi(Itoa(n)) == Some(n)
  {
    if n >= 0 {
      SpelledDecimal(n);
      assert Decimal(n)[0] in Decimal(n);
    } else {
      SpelledDecimal(-n);
      assert Itoa(n)[1..] == Decimal(-n);
    }
  }

  predicate IsHexDigit(c: char) {
    IsDigit(c) || 'a' <= c <= 'f' || 'A' <= c <= 'F'
  }

  /** Matches ^#[0-9a-fA-F]{3,8}$. */
  predicate IsHexColor(s: string) {
    4 <= |s| <= 9 && s[0] == '#' && forall i :: 1 <= i < |s| ==> IsHexDigit(s[i])
  }

  predicate IsColors(style: ColorStyle) {
    IsHexColor(style.fill) && IsHexColor(style.text) && IsHexColor(style.border)
  }

  /** A number as it's written: digits, with no zero in front unless it's all there is. */
  predicate IsCanonical(key: string) {
    && key != "" && (forall c :: c in key ==> IsDigit(c))
    && (key[0] == '0' ==> key == "0")
    && Spelled(key) <= MAX_INT
  }

  /** The test the loop makes of a key. */
  predicate IsIndex(key: string) {
    Atoi(key).Some? && Atoi(key).value >= 0 && Itoa(Atoi(key).value) == key
  }

  lemma {:induction false} DecimalSpelled(s: string)
    requires s != "" && (forall c :: c in s ==> IsDigit(c)) && (s[0] == '0' ==> s == "0")
    ensures Decimal(Spelled(s)) == s
    ensures |s| > 1 ==> Spelled(s) >= 10
  {
    var init, last := s[..|s| - 1], s[|s| - 1];
    assert s == init + [last] && last in s;
    if init != "" {
      assert init[0] == s[0];
      DecimalSpelled(init);
      if |init| == 1 {
        assert init[..0] == "" && init[0] in s && init != "0";
      }
      assert Spelled(s) / 10 == Spelled(init) && Spelled(s) % 10 == DigitValue(last);
    }
  }

  lemma {:induction false} DecimalIsCanonical(n: nat)
    ensures Decimal(n)[0] == '0' ==> n == 0
  {
    if n >= 10 {
      DecimalIsCanonical(n / 10);
      assert Decimal(n)[0] == Decimal(n / 10)[0];
    }
  }

  /** Printing and parsing undo each other on exactly the keys that are kept. */
  lemma IndexesAreCanonical(key: string)
    ensures IsIndex(key) <==> IsCanonical(key)
    ensures IsIndex(key) ==> Atoi(key).value == Spelled(key) && Decimal(Spelled(key)) == key
  {
    if IsCanonical(key) {
      assert key[0] in key;
      DecimalSpelled(key);
    }
    if IsIndex(key) {
      var n := Atoi(key).value;
      DecimalIsCanonical(n);
      SpelledDecimal(n);
      assert key == Decimal(n);
    }
  }

  /** An entry the page gets, which an index and colors make it. */
  predicate IsWanted(key: string, styles: map<string, ColorStyle>) {
    key in styles && IsCanonical(key) && IsColors(styles[key])
  }

  function Entry(key: string, styles: map<string, ColorStyle>): ColumnColor
    requires IsWanted(key, styles)
  {
    ColumnColor(Spelled(key), styles[key])
  }

  predicate IsEntry(c: ColumnColor, styles: map<string, ColorStyle>) {
    c.index >= 0 && IsWanted(Decimal(c.index), styles) && c.style == styles[Decimal(c.index)]
  }

  ghost predicate Increasing(colors: seq<ColumnColor>) {
    forall i, j :: 0 <= i < j < |colors| ==> colors[i].index < colors[j].index
  }

  /** Exactly the wanted entries, in strictly increasing order of index. */
  ghost predicate IsPaletteOf(colors: seq<ColumnColor>, styles: map<string, ColorStyle>) {
    && Increasing(colors)
    && (forall c :: c in colors ==> IsEntry(c, styles))
    && (forall key :: IsWanted(key, styles) ==> Entry(key, styles) in colors)
  }

  /** There's only one such list, so the order the map is iterated in can't show. */
  lemma {:induction false} PaletteIsUnique(a: seq<ColumnColor>, b: seq<ColumnColor>, styles: map<string, ColorStyle>)
    requires IsPaletteOf(a, styles) && IsPaletteOf(b, styles)
    ensures a == b
  {
    forall c ensures c in a <==> c in b {
      if c in a {
        SpelledDecimal(c.index);
        assert IsEntry(c, styles) && Entry(Decimal(c.index), styles) in b;
      }
      if c in b {
        SpelledDecimal(c.index);
        assert IsEntry(c, styles) && Entry(Decimal(c.index), styles) in a;
      }
    }
    IncreasingIsUnique(a, b);
  }

  lemma {:induction false} IncreasingIsUnique(a: seq<ColumnColor>, b: seq<ColumnColor>)
    requires Increasing(a) && Increasing(b)
    requires forall c :: c in a <==> c in b
    ensures a == b
  {
    assert (a != [] ==> a[0] in b) && (b != [] ==> b[0] in a);
    if a != [] && b != [] {
      var i :| 0 <= i < |b| && b[i] == a[0];
      var j :| 0 <= j < |a| && a[j] == b[0];
      assert a[0] == b[0];
      forall c ensures c in a[1..] <==> c in b[1..] {
        assert c in a <==> c == a[0] || c in a[1..];
        assert c in b <==> c == b[0] || c in b[1..];
      }
      IncreasingIsUnique(a[1..], b[1..]);
    }
  }

  lemma InsertedIsIncreasing(before: seq<ColumnColor>, c: ColumnColor, after: seq<ColumnColor>)
    requires Increasing(before) && Increasing(after)
    requires forall i :: 0 <= i < |before| ==> before[i].index < c.index
    requires forall i :: 0 <= i < |after| ==> c.index < after[i].index
    ensures Increasing(before + [c] + after)
  {
    var r := before + [c] + after;
    forall i, j | 0 <= i < j < |r| ensures r[i].index < r[j].index {
      assert i < |before| ==> r[i] == before[i];
      assert j > |before| ==> r[j] == after[j - |before| - 1];
    }
  }

  method Insert(sorted: seq<ColumnColor>, c: ColumnColor) returns (r: seq<ColumnColor>)
    requires Increasing(sorted) && forall i :: 0 <= i < |sorted| ==> sorted[i].index != c.index
    ensures Increasing(r) && forall o :: o in r <==> o in sorted || o == c
  {
    var at := 0;
    while at < |sorted| && sorted[at].index < c.index
      invariant 0 <= at <= |sorted|
      invariant forall i :: 0 <= i < at ==> sorted[i].index < c.index
    {
      at := at + 1;
    }
    InsertedIsIncreasing(sorted[..at], c, sorted[at..]);
    assert sorted == sorted[..at] + sorted[at..];
    r := sorted[..at] + [c] + sorted[at..];
  }

  /** Puts entries in index order. */
  method SortByIndex(colors: seq<ColumnColor>) returns (sorted: seq<ColumnColor>)
    requires forall i, j :: 0 <= i < j < |colors| ==> colors[i].index != colors[j].index
    ensures Increasing(sorted) && forall c :: c in sorted <==> c in colors
  {
    sorted := [];
    var n := 0;
    while n < |colors|
      invariant 0 <= n <= |colors|
      invariant Increasing(sorted) && forall c :: c in sorted <==> c in colors[..n]
    {
      assert colors[..n + 1] == colors[..n] + [colors[n]];
      forall i | 0 <= i < |sorted| ensures sorted[i].index != colors[n].index {
        assert sorted[i] in colors[..n];
      }
      sorted := Insert(sorted, colors[n]);
      n := n + 1;
    }
    assert colors[..n] == colors;
  }

  ghost predicate DistinctIndexes(colors: seq<ColumnColor>) {
    forall i, j :: 0 <= i < j < |colors| ==> colors[i].index != colors[j].index
  }

  ghost predicate AreEntries(colors: seq<ColumnColor>, styles: map<string, ColorStyle>, left: set<string>) {
    forall i :: 0 <= i < |colors| ==> IsEntry(colors[i], styles) && Decimal(colors[i].index) !in left
  }

  ghost predicate HasWanted(colors: seq<ColumnColor>, styles: map<string, ColorStyle>, left: set<string>) {
    forall key :: IsWanted(key, styles) && key !in left ==> Entry(key, styles) in colors
  }

  /** What the loop has made of the entries that aren't left. */
  ghost predicate IsCollected(colors: seq<ColumnColor>, styles: map<string, ColorStyle>, left: set<string>) {
    DistinctIndexes(colors) && AreEntries(colors, styles, left) && HasWanted(colors, styles, left)
  }

  lemma SkippingCollects(colors: seq<ColumnColor>, styles: map<string, ColorStyle>, left: set<string>, key: string)
    requires IsCollected(colors, styles, left) && !IsWanted(key, styles)
    ensures IsCollected(colors, styles, left - {key})
  {
  }

  lemma AddingKeepsWanted(colors: seq<ColumnColor>, styles: map<string, ColorStyle>, left: set<string>, key: string,
                          c: ColumnColor)
    requires HasWanted(colors, styles, left) && IsWanted(key, styles) && c == Entry(key, styles)
    ensures HasWanted(colors + [c], styles, left - {key})
  {
    forall k | IsWanted(k, styles) && k !in left - {key} ensures Entry(k, styles) in colors + [c] {
      assert k != key ==> Entry(k, styles) in colors;
    }
  }

  lemma AddingKeepsEntries(colors: seq<ColumnColor>, styles: map<string, ColorStyle>, left: set<string>, key: string,
                           c: ColumnColor)
    requires AreEntries(colors, styles, left) && IsEntry(c, styles) && Decimal(c.index) == key && key in left
    ensures AreEntries(colors + [c], styles, left - {key})
    ensures DistinctIndexes(colors) ==> DistinctIndexes(colors + [c])
  {
  }

  lemma AddingCollects(colors: seq<ColumnColor>, styles: map<string, ColorStyle>, left: set<string>, key: string)
    requires IsCollected(colors, styles, left) && IsWanted(key, styles) && key in left
    ensures IsCollected(colors + [Entry(key, styles)], styles, left - {key})
  {
    IndexesAreCanonical(key);
    AddingKeepsWanted(colors, styles, left, key, Entry(key, styles));
    AddingKeepsEntries(colors, styles, left, key, Entry(key, styles));
  }

  const HEX_DIGITS := {'0', '1', '2', '3', '4', '5', '6', '7', '8', '9', 'a', 'b', 'c', 'd', 'e', 'f',
                       'A', 'B', 'C', 'D', 'E', 'F'}

  /** Nothing but colors goes into a page's stylesheet. */
  lemma ColorsAreSafe(s: string)
    ensures IsHexColor(s) <==> 4 <= |s| <= 9 && s[0] == '#' && forall i :: 1 <= i < |s| ==> s[i] in HEX_DIGITS
  {
    forall c: char ensures IsHexDigit(c) <==> c in HEX_DIGITS {
    }
  }

  /** A key's entry is in the palette exactly when it's an index's and all three of its colors are colors. */
  lemma PaletteHasIff(colors: seq<ColumnColor>, styles: map<string, ColorStyle>, key: string)
    requires IsPaletteOf(colors, styles)
    ensures (exists c :: c in colors && c.index >= 0 && Decimal(c.index) == key)
            <==> (key in styles && IsCanonical(key) && IsHexColor(styles[key].fill) && IsHexColor(styles[key].text)
                  && IsHexColor(styles[key].border))
  {
    IndexesAreCanonical(key);
    if IsWanted(key, styles) {
      assert Entry(key, styles) in colors;
    }
  }

  method ColumnColors(styles: map<string, ColorStyle>) returns (colors: seq<ColumnColor>)
    ensures IsPaletteOf(colors, styles)
  {
    colors := [];
    var keys := styles.Keys;
    while keys != {}
      invariant keys <= styles.Keys && IsCollected(colors, styles, keys)
    {
      var key :| key in keys;
      ghost var left := keys;
      keys := keys - {key};
      var style := styles[key];
      IndexesAreCanonical(key);
      var index := Atoi(key);
      if index.None? || index.value < 0 || Itoa(index.value) != key {
        SkippingCollects(colors, styles, left, key);
        continue;
      }
      if !IsHexColor(style.fill) || !IsHexColor(style.text) || !IsHexColor(style.border) {
        SkippingCollects(colors, styles, left, key);
        continue;
      }
      AddingCollects(colors, styles, left, key);
      colors := colors + [ColumnColor(index.value, style)];
    }
    colors := SortByIndex(colors);
  }
}
