/** Addresses of the site a workspace moved from, each kept in one form so that ways of writing it that don't matter
    make no difference, and where each leads now: to a page of this site, to its home page, or nowhere at all. */
module Redirects {
  import opened Text
  import opened Paths

  predicate IsQuery(c: char) {
    c == '?' || c == '#'
  }

  function Slashed(s: string): string {
    "/" + Trim(s, IsSlash)
  }

  /** One form for the addresses of one page: without query, edge spaces and slashes, or capitals. */
  function NormalizePath(path: string): string {
    Slashed(Lower(Before(Trim(path, IsSpace), IsQuery)))
  }

  predicate IsNormalChar(c: char) {
    LowerChar(c) == c && !IsQuery(c)
  }

  lemma SlashedForm(s: string)
    requires forall c :: c in s ==> IsNormalChar(c)
    ensures var r := Slashed(s);
            && r[0] == '/' && (forall c :: c in r ==> IsNormalChar(c))
            && (r != "/" ==> !IsSlash(r[1]) && !IsSlash(r[|r| - 1]))
  {
    TrimFacts(s, IsSlash);
  }

  lemma LowerChars(s: string)
    requires forall c :: c in s ==> !IsQuery(c)
    ensures forall c :: c in Lower(s) ==> IsNormalChar(c)
  {
    forall c | c in Lower(s) ensures IsNormalChar(c) {
      var i :| 0 <= i < |s| && Lower(s)[i] == c;
      assert s[i] in s;
    }
  }

  /** A leading slash, no trailing one, nothing in uppercase and no query. */
  lemma NormalizedForm(path: string)
    ensures var r := NormalizePath(path);
            && r[0] == '/' && (forall c :: c in r ==> IsNormalChar(c))
            && (r != "/" ==> !IsSlash(r[1]) && !IsSlash(r[|r| - 1]))
  {
    var before := Before(Trim(path, IsSpace), IsQuery);
    LowerChars(before);
    SlashedForm(Lower(before));
  }

  lemma LowerFixed(s: string)
    requires forall c :: c in s ==> IsNormalChar(c)
    ensures Lower(s) == s
  {
    forall i | 0 <= i < |s| ensures Lower(s)[i] == s[i] {
      assert s[i] in s;
    }
  }

  lemma SlashedFixed(r: string)
    requires r != "" && r[0] == '/' && (r != "/" ==> !IsSlash(r[1]) && !IsSlash(r[|r| - 1]))
    ensures Slashed(r) == r
  {
    assert TrimLeft(r, IsSlash) == TrimLeft(r[1..], IsSlash);
    TrimNothing(r[1..], IsSlash);
    assert "/" + r[1..] == r;
  }

  /** Text with nothing to stop at is all before it. */
  lemma {:induction false} BeforeNothing(s: string, stop: char -> bool)
    requires forall c :: c in s ==> !stop(c)
    ensures Before(s, stop) == s
  {
    if s != "" {
      BeforeNothing(s[1..], stop);
    }
  }

  lemma {:induction false} BeforeStop(s: string, rest: string, stop: char -> bool)
    requires forall c :: c in s ==> !stop(c)
    requires rest != "" ==> stop(rest[0])
    ensures Before(s + rest, stop) == s
  {
    if s == "" {
      assert s + rest == rest;
    } else {
      assert (s + rest)[1..] == s[1..] + rest;
      BeforeStop(s[1..], rest, stop);
    }
  }

  lemma TrimNothing(s: string, drop: char -> bool)
    requires s != "" ==> !drop(s[0]) && !drop(s[|s| - 1])
    ensures Trim(s, drop) == s
  {
  }

  predicate EndsInSpace(s: string) {
    s != "" && IsSpace(s[|s| - 1])
  }

  /** Normalizing again changes an address exactly when what's before its query ends in a space, less its slashes. */
  lemma NormalizedTwice(path: string)
    ensures var r := NormalizePath(path);
            NormalizePath(r) == r <==> !EndsInSpace(TrimRight(Before(Trim(path, IsSpace), IsQuery), IsSlash))
  {
    NormalizedForm(path);
    NormalizedAgain(NormalizePath(path));
    SlashedEnd(Before(Trim(path, IsSpace), IsQuery));
  }

  lemma {:induction false} TrimRightDrops(s: string)
    ensures forall i :: |TrimRight(s, IsSlash)| <= i < |s| ==> IsSlash(s[i])
  {
    if s != "" && IsSlash(s[|s| - 1]) {
      TrimRightDrops(s[..|s| - 1]);
    }
  }

  lemma {:induction false} TrimSlashes(s: string)
    requires forall i :: 0 <= i < |s| ==> IsSlash(s[i])
    ensures Trim(s, IsSlash) == ""
  {
    if s != "" {
      TrimSlashes(s[1..]);
    }
  }

  lemma {:induction false} TrimLeftStops(s: string, i: nat)
    requires i < |s| && !IsSlash(s[i])
    ensures |TrimLeft(s, IsSlash)| >= |s| - i
  {
    if IsSlash(s[0]) {
      TrimLeftStops(s[1..], i - 1);
    }
  }

  lemma TrimRest(s: string, cut: nat, size: nat)
    requires cut < size <= |s| && !IsSlash(s[size - 1]) && forall i :: size <= i < |s| ==> IsSlash(s[i])
    ensures TrimRight(s[cut..], IsSlash) == s[cut..size]
  {
    var rest := s[cut..];
    forall i | size - cut <= i < |rest| ensures IsSlash(rest[i]) {
      assert rest[i] == s[cut + i];
    }
    TrimRightAt(rest, IsSlash, size - cut);
    assert rest[..size - cut] == s[cut..size];
  }

  /** Text with its slashes trimmed off both ends ends as it does with those trimmed off its end. */
  lemma TrimEnd(s: string, size: nat)
    requires 0 < size <= |s| && !IsSlash(s[size - 1]) && forall i :: size <= i < |s| ==> IsSlash(s[i])
    ensures var r := Trim(s, IsSlash); r != "" && r[|r| - 1] == s[size - 1]
  {
    TrimLeftStops(s, size - 1);
    TrimRest(s, |s| - |TrimLeft(s, IsSlash)|, size);
  }

  lemma LowerKeeps(s: string, i: nat)
    requires i < |s|
    ensures IsSlash(Lower(s)[i]) == IsSlash(s[i]) && IsSpace(Lower(s)[i]) == IsSpace(s[i])
  {
  }

  lemma LowerEnd(s: string, size: nat)
    requires size == |TrimRight(s, IsSlash)|
    ensures var r := Trim(Lower(s), IsSlash); if size == 0 then r == "" else r != "" && r[|r| - 1] == Lower(s)[size - 1]
  {
    TrimRightDrops(s);
    forall i | size <= i < |s| ensures IsSlash(Lower(s)[i]) {
      LowerKeeps(s, i);
    }
    if size == 0 {
      TrimSlashes(Lower(s));
    } else {
      LowerKeeps(s, size - 1);
      TrimEnd(Lower(s), size);
    }
  }

  lemma EndOfSlashed(s: string)
    ensures EndsInSpace("/" + s) == EndsInSpace(s)
  {
  }

  /** So the last character of an address is the last there was that's not a slash, in lowercase. */
  lemma SlashedEnd(s: string)
    ensures EndsInSpace(Slashed(Lower(s))) <==> EndsInSpace(TrimRight(s, IsSlash))
  {
    var size := |TrimRight(s, IsSlash)|;
    LowerEnd(s, size);
    EndOfSlashed(Trim(Lower(s), IsSlash));
    if size > 0 {
      LowerKeeps(s, size - 1);
    }
  }

  lemma NormalizedAgain(r: string)
    requires r != "" && r[0] == '/' && (forall c :: c in r ==> IsNormalChar(c))
    requires r != "/" ==> !IsSlash(r[1]) && !IsSlash(r[|r| - 1])
    ensures NormalizePath(r) == r <==> !IsSpace(r[|r| - 1])
  {
    var once := Trim(r, IsSpace);
    TrimFacts(r, IsSpace);
    BeforeNothing(once, IsQuery);
    LowerFixed(once);
    if IsSpace(r[|r| - 1]) {
      TrimLeftKeeps(r);
      assert |once| < |r| && once[0] == '/';
      TrimFacts(once, IsSlash);
    } else {
      SlashedFixed(r);
    }
  }

  lemma TrimLeftKeeps(r: string)
    requires r != "" && !IsSpace(r[0])
    ensures TrimLeft(r, IsSpace) == r && Trim(r, IsSpace) != "" && Trim(r, IsSpace)[0] == r[0]
  {
    TrimRightFirst(r);
  }

  lemma {:induction false} TrimRightFirst(r: string)
    requires r != "" && !IsSpace(r[0])
    ensures TrimRight(r, IsSpace) != "" && TrimRight(r, IsSpace)[0] == r[0]
  {
    if IsSpace(r[|r| - 1]) {
      TrimRightFirst(r[..|r| - 1]);
    }
  }

  lemma FormOfPlain(path: string)
    requires path != "" && !IsSpace(path[0]) && !IsSpace(path[|path| - 1]) && forall c :: c in path ==> IsNormalChar(c)
    ensures NormalizePath(path) == Slashed(path)
  {
    TrimNothing(path, IsSpace);
    BeforeNothing(path, IsQuery);
    LowerFixed(path);
  }

  predicate IsPlainPage(page: string) {
    && |page| > 1 && page[0] == '/' && page[1] != '/' && page[|page| - 1] != '/'
    && forall c :: c in page ==> IsNormalChar(c) && !IsSpace(c)
  }

  lemma SpaceKept(page: string, r: string)
    requires IsPlainPage(page) && r == page + [' ']
    ensures NormalizePath(r + "/") == r
  {
    assert page[0] in page;
    FormOfPlain(r + "/");
    TrimIgnoresEdge(r, '/', IsSlash);
    SlashedFixed(r);
  }

  lemma SpaceTrimmed(page: string, r: string)
    requires IsPlainPage(page) && r == page + [' ']
    ensures Trim(r, IsSpace) == page
  {
    assert r[..|r| - 1] == page;
    assert page[0] in page && page[|page| - 1] in page;
    TrimNothing(page, IsSpace);
  }

  /** As it does for any address like this one, a space before its last slash. */
  lemma NormalizedTwiceDiffers(page: string, r: string)
    requires IsPlainPage(page) && r == page + [' ']
    ensures NormalizePath(r + "/") == r && NormalizePath(r) == page
  {
    SpaceKept(page, r);
    SpaceTrimmed(page, r);
    BeforeNothing(page, IsQuery);
    LowerFixed(page);
    SlashedFixed(page);
  }

  /** Nor do spaces around it, or its case. */
  lemma EdgesAndCaseIgnored(path: string, c: char)
    requires IsSpace(c)
    ensures NormalizePath([c] + path) == NormalizePath(path) && NormalizePath(path + [c]) == NormalizePath(path)
    ensures NormalizePath(Lower(path)) == NormalizePath(path)
  {
    TrimIgnoresEdge(path, c, IsSpace);
    TrimLower(path);
    BeforeLower(Trim(path, IsSpace));
    LowerTwice(Before(Trim(path, IsSpace), IsQuery));
  }

  lemma {:induction false} BeforeLower(s: string)
    ensures Before(Lower(s), IsQuery) == Lower(Before(s, IsQuery))
  {
    if s != "" {
      assert Lower(s)[1..] == Lower(s[1..]);
      BeforeLower(s[1..]);
    }
  }

  lemma LowerSlash(path: string)
    ensures Lower(path + "/") == Lower(path) + "/"
  {
  }

  /** A page reached with its trailing slash, or with a query, is the same page. */
  lemma SlashIgnored(path: string)
    requires path != "" && !IsSpace(path[0]) && !IsSpace(path[|path| - 1])
    requires forall c :: c in path ==> !IsQuery(c)
    ensures NormalizePath(path + "/") == NormalizePath(path)
  {
    LowerSlash(path);
    TrimNothing(path, IsSpace);
    TrimNothing(path + "/", IsSpace);
    BeforeNothing(path, IsQuery);
    BeforeNothing(path + "/", IsQuery);
    TrimIgnoresEdge(Lower(path), '/', IsSlash);
  }

  lemma QueryIgnored(path: string, query: string)
    requires path != "" && !IsSpace(path[0]) && !IsSpace(path[|path| - 1])
    requires '?' !in path && '#' !in path && query != "" && (query[0] == '?' || query[0] == '#')
    ensures NormalizePath(path + query) == NormalizePath(path)
  {
    TrimNothing(path, IsSpace);
    TrimRightKeeps(path, query);
    BeforeNothing(path, IsQuery);
    BeforeStop(path, TrimRight(query, IsSpace), IsQuery);
  }

  lemma {:induction false} TrimRightKeeps(path: string, rest: string)
    requires path != "" && !IsSpace(path[|path| - 1])
    ensures TrimRight(path + rest, IsSpace) == path + TrimRight(rest, IsSpace)
    decreases |rest|
  {
    if rest == "" {
      assert path + rest == path;
    } else if IsSpace(rest[|rest| - 1]) {
      assert (path + rest)[..|path + rest| - 1] == path + rest[..|rest| - 1];
      TrimRightKeeps(path, rest[..|rest| - 1]);
    }
  }

  // Where an old address leads.

  const HOME := "home"

  function Mapped(redirects: map<string, string>, path: string): string {
    if path in redirects then redirects[path] else ""
  }

  function Target(targets: map<string, string>, uuid: string): string {
    if uuid in targets then targets[uuid] else ""
  }

  /** Where a normalized address leads now, or empty. */
  function Leads(redirects: map<string, string>, address: string, targets: map<string, string>, home: string): string {
    var uuid := Mapped(redirects, address);
    if uuid == HOME then home
    else if Target(targets, uuid) != "" then Target(targets, uuid)
    else if address != "/" && exists was :: was in redirects && Under(address, was) then home
    else ""
  }

  function Redirected(redirects: map<string, string>, path: string, targets: map<string, string>, home: string)
    : string
  {
    Leads(redirects, NormalizePath(path), targets, home)
  }

  method GetRedirect(redirects: map<string, string>, path: string, targets: map<string, string>, home: string)
    returns (address: string)
    ensures address == Redirected(redirects, path, targets, home)
  {
    var normal := NormalizePath(path);
    var uuid := Mapped(redirects, normal);
    if uuid == HOME {
      return home;
    } else if Target(targets, uuid) != "" {
      return Target(targets, uuid);
    }
    if normal != "/" {
      var found := HasUnder(redirects, normal);
      if found {
        return home;
      }
    }
    return "";
  }

  /** Whether there are old addresses under the given one. */
  method HasUnder(redirects: map<string, string>, address: string) returns (found: bool)
    ensures found <==> exists was :: was in redirects && Under(address, was)
  {
    var keys := redirects.Keys;
    while keys != {}
      invariant keys <= redirects.Keys
      invariant forall was :: was in redirects && was !in keys ==> !Under(address, was)
    {
      var was :| was in keys;
      if address + "/" <= was {
        return true;
      }
      keys := keys - {was};
    }
    return false;
  }

  /** It never leads anywhere but home or to a page. */
  lemma LeadsHomeOrToPage(redirects: map<string, string>, address: string, targets: map<string, string>, home: string)
    ensures var r := Leads(redirects, address, targets, home);
            r != "" && r != home ==> exists uuid :: uuid in targets && targets[uuid] == r
  {
  }

  /** The index of the old site above one of its addresses leads home, unless it's mapped to a page itself: it's the
      segments of the paths that count, so an address that only begins with the same letters doesn't. */
  lemma IndexLeadsHome(redirects: map<string, string>, address: string, targets: map<string, string>, home: string)
    requires address != "/" && Target(targets, Mapped(redirects, address)) == "" && home != ""
    ensures Leads(redirects, address, targets, home) == home
            <==> Mapped(redirects, address) == HOME || exists was :: was in redirects && Split(address) < Split(was)
    ensures Leads(redirects, address, targets, home) in {home, ""}
  {
    forall was | was in redirects ensures Under(address, was) <==> Split(address) < Split(was) {
      UnderIsProperPrefix(address, was);
    }
  }

  /** The old site had an address below this one, by segments. */
  predicate HasBelow(redirects: map<string, string>, address: string) {
    exists was :: was in redirects && Split(address) < Split(was)
  }

  /** What an address leads to, by what it's mapped to and what's below it, given that every target is an address. */
  lemma LeadsByMapping(redirects: map<string, string>, address: string, targets: map<string, string>, home: string)
    requires home != "" && forall uuid :: uuid in targets ==> targets[uuid] != ""
    ensures var uuid, r := Mapped(redirects, address), Leads(redirects, address, targets, home);
            && (uuid == HOME ==> r == home)
            && (uuid != HOME && uuid in targets ==> r == targets[uuid])
            && (uuid != HOME && uuid !in targets ==>
                r == if address != "/" && HasBelow(redirects, address) then home else "")
  {
    forall was | was in redirects ensures Under(address, was) <==> Split(address) < Split(was) {
      UnderIsProperPrefix(address, was);
    }
  }
}
