/** Storage keys as paths: a slash-separated key is the sequence of its segments. */
module Paths {
  import opened Common

  type Path = seq<string>

  function Split(key: string): (p: Path)
    ensures p != []
  {
    if key == "" then [""] else Grow(key[0], Split(key[1..]))
  }

  /** The path of a key with one more character in front. */
  function Grow(c: char, p: Path): (p': Path)
    requires p != []
    ensures p' != []
  {
    if c == '/' then [""] + p else [[c] + p[0]] + p[1..]
  }

  function Join(p: Path): string
    requires p != []
  {
    if |p| == 1 then p[0] else p[0] + "/" + Join(p[1..])
  }

  /** Whether `key` is in the directory `dir`, at any depth. */
  predicate Under(dir: string, key: string) {
    dir + "/" <= key
  }

  lemma {:induction false} JoinSplit(key: string)
    ensures Join(Split(key)) == key
  {
    if key != "" {
      JoinSplit(key[1..]);
      var rest := Split(key[1..]);
      if key[0] == '/' {
        assert ([""] + rest)[1..] == rest;
        assert [key[0]] + key[1..] == key;
        assert "/" == [key[0]];
        assert "" + "/" + key[1..] == key;
      } else {
        var p := [[key[0]] + rest[0]] + rest[1..];
        assert p[1..] == rest[1..];
        if |p| == 1 {
          assert Join(p) == [key[0]] + rest[0] == [key[0]] + key[1..] == key;
        } else {
          assert Join(p) == ([key[0]] + rest[0]) + "/" + Join(rest[1..]);
          assert Join(p) == [key[0]] + (rest[0] + "/" + Join(rest[1..]));
        }
      }
    }
  }

  lemma SplitInjective(a: string, b: string)
    requires Split(a) == Split(b)
    ensures a == b
  {
    JoinSplit(a);
    JoinSplit(b);
  }

  lemma {:induction false} SplitConcat(a: string, b: string)
    ensures Split(a + "/" + b) == Split(a) + Split(b)
  {
    if a == "" {
      assert ("" + "/" + b)[1..] == b;
    } else {
      var key := a + "/" + b;
      assert key[0] == a[0] && key[1..] == a[1..] + "/" + b;
      SplitConcat(a[1..], b);
      GrowConcat(a[0], Split(a[1..]), Split(b));
    }
  }

  lemma GrowConcat(c: char, p: Path, q: Path)
    requires p != []
    ensures Grow(c, p + q) == Grow(c, p) + q
  {
    assert (p + q)[1..] == p[1..] + q;
  }

  lemma {:induction false} JoinConcat(p: Path, q: Path)
    requires p != [] && q != []
    ensures Join(p + q) == Join(p) + "/" + Join(q)
  {
    if |p| == 1 {
      assert (p + q)[1..] == q;
    } else {
      JoinConcat(p[1..], q);
      assert (p + q)[1..] == p[1..] + q;
    }
  }

  predicate NoSlash(s: string) {
    forall i :: 0 <= i < |s| ==> s[i] != '/'
  }

  lemma {:induction false} SplitSegment(s: string)
    requires NoSlash(s)
    ensures Split(s) == [s]
  {
    if s != "" {
      SplitSegment(s[1..]);
      assert [s[0]] + s[1..] == s;
    }
  }

  /** Splitting undoes joining too, of segments without slashes. */
  lemma {:induction false} SplitJoin(p: Path)
    requires p != [] && forall i :: 0 <= i < |p| ==> NoSlash(p[i])
    ensures Split(Join(p)) == p
  {
    SplitSegment(p[0]);
    if |p| > 1 {
      SplitJoin(p[1..]);
      SplitConcat(p[0], Join(p[1..]));
    }
  }

  /** A prefix of the key up to a slash is a proper prefix of the path, and the other way about. */
  lemma UnderIsProperPrefix(dir: string, key: string)
    ensures Under(dir, key) <==> Split(dir) < Split(key)
  {
    if Under(dir, key) {
      var rest := key[|dir| + 1..];
      assert key == dir + "/" + rest;
      SplitConcat(dir, rest);
    }
    if Split(dir) < Split(key) {
      var rest := Split(key)[|Split(dir)|..];
      assert Split(key) == Split(dir) + rest;
      JoinConcat(Split(dir), rest);
      JoinSplit(dir);
      JoinSplit(key);
      assert key == dir + "/" + Join(rest);
    }
  }

  /** strings.Index: where the first slash is, or -1. */
  method IndexSlash(s: string) returns (i: int)
    ensures -1 <= i < |s|
    ensures i >= 0 ==> s[i] == '/' && s[..i] == Split(s)[0]
    ensures i < 0 ==> s == Split(s)[0]
  {
    i := 0;
    while i < |s|
      invariant 0 <= i <= |s|
      invariant Split(s)[0] == s[..i] + Split(s[i..])[0]
    {
      if s[i] == '/' {
        assert s[..i] + "" == s[..i];
        return;
      }
      assert s[i..][1..] == s[i + 1..];
      assert s[..i] + [s[i]] == s[..i + 1];
      i := i + 1;
    }
    assert s[..|s|] == s && s + "" == s;
    i := -1;
  }

  lemma {:induction false} FirstSegmentIsPrefix(s: string)
    ensures Split(s)[0] <= s && '/' !in Split(s)[0]
    ensures |Split(s)| == 1 <==> Split(s)[0] == s
    ensures |Split(s)| > 1 ==> Split(s)[0] + "/" <= s
  {
    if s != "" {
      FirstSegmentIsPrefix(s[1..]);
    }
  }
}
