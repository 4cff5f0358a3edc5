/** Names a site is reached by: the one in a TLS handshake (server_name, section 3 of RFC 6066), the Host a request
    gives, and the domain the site is found by; and when each of them leads to the same site as the others. */
module Hosts {
  import opened Common
  import opened Text

  const WWW := "www."

  /** strings.LastIndex of a colon, or -1. */
  function LastColon(s: string): (i: int)
    ensures -1 <= i < |s|
    ensures if i < 0 then ':' !in s else s[i] == ':'
    ensures forall j :: i < j < |s| ==> s[j] != ':'
  {
    if s == "" then -1 else if s[|s| - 1] == ':' then |s| - 1 else LastColon(s[..|s| - 1])
  }

  predicate HasPort(host: string) {
    LastColon(host) >= 0 && ']' !in host[LastColon(host)..]
  }

  /** The host without its port. A colon inside the brackets of an IPv6 address doesn't begin one. */
  function StripPort(host: string): string {
    if HasPort(host) then host[..LastColon(host)] else host
  }

  function TrimWww(s: string): string {
    if WWW <= s then s[|WWW|..] else s
  }

  /** A host as sites' domains are looked up: trimmed, in lowercase, and less its port and one www. */
  function NormalizeDomain(host: string): string {
    TrimWww(StripPort(Lower(Trim(host, IsSpace))))
  }

  // Normalizing.

  lemma {:induction false} ColonIsLast(s: string, i: nat)
    requires i < |s| && s[i] == ':' && forall j :: i < j < |s| ==> s[j] != ':'
    ensures LastColon(s) == i
  {
  }

  lemma NoColonNoPort(s: string)
    requires ':' !in s
    ensures StripPort(s) == s && !HasPort(Lower(s))
  {
    forall i | 0 <= i < |s| ensures Lower(s)[i] != ':' {
      assert s[i] in s;
    }
  }

  lemma StripPortShortens(s: string)
    ensures |StripPort(s)| <= |s| && (StripPort(s) == s <==> !HasPort(s))
    ensures Lower(s) == s ==> Lower(StripPort(s)) == StripPort(s)
  {
    if Lower(s) == s {
      forall i | 0 <= i < |StripPort(s)| ensures LowerChar(StripPort(s)[i]) == StripPort(s)[i] {
        assert Lower(s)[i] == s[i];
      }
    }
  }

  lemma TrimWwwShortens(s: string)
    ensures |TrimWww(s)| <= |s| && (TrimWww(s) == s <==> !(WWW <= s))
    ensures Lower(s) == s ==> Lower(TrimWww(s)) == TrimWww(s)
  {
    if Lower(s) == s {
      forall i | 0 <= i < |TrimWww(s)| ensures LowerChar(TrimWww(s)[i]) == TrimWww(s)[i] {
        assert Lower(s)[i + |s| - |TrimWww(s)|] == s[i + |s| - |TrimWww(s)|];
      }
    }
  }

  lemma NormalizedIsLower(host: string)
    ensures Lower(NormalizeDomain(host)) == NormalizeDomain(host)
  {
    var trimmed := Trim(host, IsSpace);
    LowerTwice(trimmed);
    StripPortShortens(Lower(trimmed));
    TrimWwwShortens(StripPort(Lower(trimmed)));
  }

  predicate NoEdgeSpace(s: string) {
    s == "" || (!IsSpace(s[0]) && !IsSpace(s[|s| - 1]))
  }

  /** Nothing that normalizing would take away is left. */
  predicate IsBare(s: string) {
    NoEdgeSpace(s) && !HasPort(s) && !(WWW <= s)
  }

  predicate HasWww(s: string) {
    WWW <= Lower(s)
  }

  /** The part of a host that's kept, as it's written. */
  function Kept(host: string): string {
    var h := StripPort(Trim(host, IsSpace));
    if HasWww(h) then h[|WWW|..] else h
  }

  lemma LowerPort(s: string)
    ensures HasPort(Lower(s)) == HasPort(s) && StripPort(Lower(s)) == Lower(StripPort(s))
  {
    var l := Lower(s);
    if LastColon(s) >= 0 {
      ColonIsLast(l, LastColon(s));
      LowerBracket(s, LastColon(s));
    } else {
      NoColonNoPort(s);
    }
  }

  lemma LowerBracket(s: string, i: nat)
    requires i <= |s|
    ensures ']' in Lower(s)[i..] <==> ']' in s[i..]
  {
    if ']' in s[i..] {
      var j :| i <= j < |s| && s[j] == ']';
      assert Lower(s)[i..][j - i] == ']';
    }
    if ']' in Lower(s)[i..] {
      var j :| i <= j < |s| && Lower(s)[j] == ']';
      assert s[i..][j - i] == ']';
    }
  }

  lemma NormalizedIsKept(host: string)
    ensures NormalizeDomain(host) == Lower(Kept(host))
  {
    var trimmed := Trim(host, IsSpace);
    LowerPort(trimmed);
  }

  /** Normalizing again changes a name exactly when what's kept of it, in any case, has more of what's taken away. */
  lemma NormalizedTwice(host: string)
    ensures var r, kept := NormalizeDomain(host), Kept(host);
            NormalizeDomain(r) == r <==> NoEdgeSpace(kept) && !HasPort(kept) && !HasWww(kept)
  {
    NormalizedIsLower(host);
    BareIffFixed(NormalizeDomain(host));
    NormalizedIsKept(host);
    LowerIsBare(Kept(host));
  }

  lemma LowerIsBare(s: string)
    ensures IsBare(Lower(s)) <==> NoEdgeSpace(s) && !HasPort(s) && !HasWww(s)
  {
    LowerPort(s);
  }

  lemma BareIffFixed(r: string)
    requires Lower(r) == r
    ensures NormalizeDomain(r) == r <==> IsBare(r)
  {
    TrimFacts(r, IsSpace);
    StripPortShortens(Lower(Trim(r, IsSpace)));
    TrimWwwShortens(StripPort(Lower(Trim(r, IsSpace))));
  }

  /** As it does for any name with two of the prefix. */
  lemma NormalizedTwiceDiffers(name: string)
    requires Lower(name) == name && name != "" && IsBare(name)
    ensures NormalizeDomain(WWW + (WWW + name)) == WWW + name && NormalizeDomain(WWW + name) == name
  {
    WwwIsTaken(name);
    WwwPrefixed(name);
    WwwIsTaken(WWW + name);
  }

  lemma WwwPrefixed(name: string)
    requires Lower(name) == name && name != "" && IsBare(name)
    ensures var r := WWW + name; Lower(r) == r && NoEdgeSpace(r) && !HasPort(r)
  {
    WwwIsLower(name);
    PortKept(WWW, name);
    StripPortShortens(WWW + name);
  }

  lemma LowerConcat(a: string, b: string)
    ensures Lower(a + b) == Lower(a) + Lower(b)
  {
  }

  lemma WwwIsLower(s: string)
    ensures Lower(WWW + s) == WWW + Lower(s)
  {
    assert Lower(WWW) == WWW;
    LowerConcat(WWW, s);
  }

  lemma WwwTaken(s: string)
    ensures TrimWww(WWW + s) == s
  {
  }

  lemma {:induction false} PortKept(prefix: string, s: string)
    requires ':' !in prefix
    ensures StripPort(prefix + s) == prefix + StripPort(s)
  {
    var both := prefix + s;
    if LastColon(s) >= 0 {
      ColonIsLast(both, |prefix| + LastColon(s));
      assert both[LastColon(both)..] == s[LastColon(s)..];
      assert both[..LastColon(both)] == prefix + s[..LastColon(s)];
    } else {
      NoColonNoPort(both);
      NoColonNoPort(s);
    }
  }

  lemma WwwNotTrimmed(s: string)
    requires s != "" && NoEdgeSpace(s)
    ensures Trim(WWW + s, IsSpace) == WWW + s
  {
    TrimFacts(WWW + s, IsSpace);
  }

  lemma WwwIsTaken(s: string)
    requires Lower(s) == s && s != "" && NoEdgeSpace(s) && !HasPort(s)
    ensures NormalizeDomain(WWW + s) == s
  {
    WwwNotTrimmed(s);
    WwwIsLower(s);
    PortKept(WWW, s);
    StripPortShortens(s);
    WwwTaken(s);
  }

  /** A site answers for the www. form of its domain as well, and on any port. */
  lemma WwwAnswersToo(domain: string)
    requires domain != "" && NormalizeDomain(domain) == domain
    ensures NormalizeDomain(WWW + domain) == domain
    ensures IsBare(domain) && Lower(domain) == domain
  {
    NormalizedIsLower(domain);
    BareIffFixed(domain);
    WwwIsTaken(domain);
  }

  lemma PortStripped(domain: string, suffix: string)
    requires suffix != "" && suffix[0] == ':' && forall j :: 0 < j < |suffix| ==> suffix[j] != ':' && suffix[j] != ']'
    ensures StripPort(domain + suffix) == domain
  {
    var host := domain + suffix;
    forall j | |domain| < j < |host| ensures host[j] != ':' && host[j] != ']' {
      assert host[j] == suffix[j - |domain|];
    }
    ColonIsLast(host, |domain|);
    assert host[..|domain|] == domain;
  }

  /** An IPv6 address in brackets keeps its colons, and loses a port after them. */
  lemma BracketsKept(address: string, port: string)
    requires ']' !in address && ']' !in port && ':' !in port
    ensures StripPort("[" + address + "]") == "[" + address + "]"
    ensures StripPort("[" + address + "]:" + port) == "[" + address + "]"
  {
    var host := "[" + address + "]";
    var full := host + (":" + port);
    assert "[" + address + "]:" + port == full;
    if LastColon(host) >= 0 {
      assert host[LastColon(host)..][|host| - 1 - LastColon(host)] == ']';
    }
    forall j | 0 < j < |":" + port| ensures (":" + port)[j] != ':' && (":" + port)[j] != ']' {
      assert port[j - 1] in port;
    }
    PortStripped(host, ":" + port);
  }

  predicate IsPort(suffix: string) {
    suffix != "" && suffix[0] == ':' && forall i :: 0 < i < |suffix| ==> IsDigit(suffix[i])
  }

  lemma PortIsLower(port: string)
    requires IsPort(port)
    ensures Lower(port) == port && !IsSpace(port[|port| - 1])
  {
    forall i | 0 <= i < |port| ensures LowerChar(port[i]) == port[i] {
      assert i > 0 ==> IsDigit(port[i]);
    }
  }

  lemma PlainForm(host: string)
    requires NoEdgeSpace(host) && Lower(host) == host
    ensures NormalizeDomain(host) == TrimWww(StripPort(host))
  {
    TrimFacts(host, IsSpace);
  }

  lemma JoinedForm(domain: string, suffix: string)
    requires domain != "" && suffix != "" && NoEdgeSpace(domain) && !IsSpace(suffix[|suffix| - 1])
    requires Lower(domain) == domain && Lower(suffix) == suffix
    ensures NormalizeDomain(domain + suffix) == TrimWww(StripPort(domain + suffix))
  {
    LowerConcat(domain, suffix);
    PlainForm(domain + suffix);
  }

  lemma PortAnswersToo(domain: string, port: string)
    requires domain != "" && NormalizeDomain(domain) == domain && IsPort(port)
    ensures NormalizeDomain(domain + port) == domain
  {
    assert NoEdgeSpace(domain) && Lower(domain) == domain && TrimWww(domain) == domain by {
      WwwAnswersToo(domain);
    }
    PortIsLower(port);
    JoinedForm(domain, port);
    PortStripped(domain, port);
  }

  /** And spaces around a host or its case make no difference. */
  lemma EdgesAndCaseIgnored(host: string, c: char)
    requires IsSpace(c)
    ensures NormalizeDomain([c] + host) == NormalizeDomain(host) && NormalizeDomain(host + [c]) == NormalizeDomain(host)
    ensures NormalizeDomain(Lower(host)) == NormalizeDomain(host)
  {
    TrimIgnoresEdge(host, c, IsSpace);
    TrimLower(host);
    LowerTwice(Trim(host, IsSpace));
  }

  // Requests.

  /** Whether a request's Host is the name its handshake was for, if it was for one. */
  predicate HostMatchesSni(host: string, serverName: string) {
    serverName == "" || StripPort(Lower(host)) == Lower(serverName)
  }

  predicate NoSpaces(s: string) {
    forall i :: 0 <= i < |s| ==> !IsSpace(s[i])
  }

  lemma NoSpacesNotTrimmed(s: string)
    requires NoSpaces(s)
    ensures Trim(s, IsSpace) == s
  {
    TrimFacts(s, IsSpace);
  }

  lemma MatchHasNoSpaces(host: string, serverName: string)
    requires NoSpaces(host) && serverName != "" && HostMatchesSni(host, serverName)
    ensures NoSpaces(serverName)
  {
    forall i | 0 <= i < |serverName| ensures !IsSpace(serverName[i]) {
      assert Lower(serverName)[i] == Lower(host)[i];
    }
  }

  lemma PrefixSurvives(prefix: string, name: string)
    requires ':' !in prefix && HasPort(name)
    ensures prefix <= name <==> prefix <= StripPort(name)
  {
    if prefix <= name {
      PortKept(prefix, name[|prefix|..]);
      assert name == prefix + name[|prefix|..];
    }
  }

  lemma TrimWwwLength(name: string)
    requires HasPort(name) && (WWW <= name <==> WWW <= StripPort(name))
    ensures |TrimWww(StripPort(name))| < |TrimWww(name)|
  {
  }

  lemma PortShows(name: string)
    ensures TrimWww(StripPort(name)) == TrimWww(name) <==> !HasPort(name)
  {
    if HasPort(name) {
      PrefixSurvives(WWW, name);
      TrimWwwLength(name);
    }
  }

  lemma MatchForms(host: string, serverName: string)
    requires NoSpaces(host) && serverName != "" && HostMatchesSni(host, serverName)
    ensures NormalizeDomain(host) == TrimWww(Lower(serverName))
    ensures NormalizeDomain(serverName) == TrimWww(StripPort(Lower(serverName)))
  {
    MatchHasNoSpaces(host, serverName);
    NoSpacesNotTrimmed(host);
    NoSpacesNotTrimmed(serverName);
  }

  /** A Host that matches the handshake's name leads to the same site as the name, exactly when the name itself has
      nothing like a port. */
  lemma MatchNormalizesAlike(host: string, serverName: string)
    requires NoSpaces(host) && serverName != "" && HostMatchesSni(host, serverName)
    ensures NormalizeDomain(host) == NormalizeDomain(serverName) <==> !HasPort(Lower(serverName))
  {
    MatchForms(host, serverName);
    PortShows(Lower(serverName));
  }

  /** As none has that's without a colon. */
  lemma ColonFreeNormalizesAlike(host: string, serverName: string)
    requires NoSpaces(host) && serverName != "" && HostMatchesSni(host, serverName) && ':' !in serverName
    ensures NormalizeDomain(host) == NormalizeDomain(serverName)
  {
    MatchNormalizesAlike(host, serverName);
    NoColonNoPort(serverName);
  }

  // Sites.

  /** A site, as far as being found by its domain and served goes. */
  datatype Site = Site(id: int, domain: Option<string>, isVerified: bool, isEnabled: bool, sourceActive: bool,
                       orgActive: bool,
                       features: seq<string>)

  const FEATURE_AGENTS := "agents"

  /** The first site met with the verified domain. */
  function LoadSiteByDomain(sites: seq<Site>, domain: string): (r: Option<Site>)
    ensures r.Some? ==> r.value in sites && r.value.domain == Some(domain) && r.value.isVerified
    ensures r.None? ==> forall s :: s in sites && s.isVerified ==> s.domain != Some(domain)
  {
    if sites == [] then None
    else if sites[0].domain == Some(domain) && sites[0].isVerified then Some(sites[0])
    else LoadSiteByDomain(sites[1..], domain)
  }

  predicate IsAvailable(s: Site) {
    s.isEnabled && s.domain.Some? && s.domain.value != "" && s.isVerified && s.sourceActive && s.orgActive
    && FEATURE_AGENTS in s.features
  }

  datatype Reached = Misdirected | Unavailable | ReachedSite(site: Site)

  /** What a request over TLS reaches. */
  function Reach(sites: seq<Site>, host: string, serverName: string): Reached {
    if !HostMatchesSni(host, serverName) then Misdirected
    else
      var site := LoadSiteByDomain(sites, NormalizeDomain(host));
      if site.None? || !IsAvailable(site.value) then Unavailable else ReachedSite(site.value)
  }

  /** No two sites have one verified domain. */
  ghost predicate OnePerDomain(sites: seq<Site>) {
    forall s, t :: (s in sites && t in sites && s.isVerified && t.isVerified && s.domain.Some?
                    && s.domain == t.domain) ==> s == t
  }

  /** A site that's found by the Host and can be served. */
  predicate IsServedOn(s: Site, host: string) {
    && s.domain == Some(NormalizeDomain(host)) && NormalizeDomain(host) != "" && s.isVerified
    && s.isEnabled && s.sourceActive && s.orgActive && "agents" in s.features
  }

  /** A request is misdirected exactly when its handshake was for a name and its Host is another; otherwise it reaches
      the site that's served on its Host, if there's one. */
  lemma ReachedIff(sites: seq<Site>, host: string, serverName: string)
    requires OnePerDomain(sites)
    ensures var reached := Reach(sites, host, serverName);
            && (reached.Misdirected? <==> serverName != "" && StripPort(Lower(host)) != Lower(serverName))
            && (reached.Unavailable? <==>
                  !reached.Misdirected? && forall s :: s in sites ==> !IsServedOn(s, host))
            && (forall s :: reached == ReachedSite(s) <==>
                  !reached.Misdirected? && s in sites && IsServedOn(s, host))
  {
  }

  /** The Host of a request for a name is that name in any case, with or without a port. */
  lemma HostMatchesIff(name: string, port: string, serverName: string)
    requires serverName != "" && ':' !in name && (port == "" || IsPort(port))
    ensures HostMatchesSni(name + port, serverName) <==> Lower(name) == Lower(serverName)
  {
    LowerConcat(name, port);
    if port == "" {
      NoColonNoPort(name);
      assert name + port == name;
    } else {
      PortIsLower(port);
      PortStripped(Lower(name), port);
    }
  }

  // Names we'll obtain certificates for.

  predicate IsVerifiedDomain(sites: seq<Site>, domain: string) {
    exists s :: s in sites && s.isVerified && s.domain == Some(domain)
  }

  /** LoadVerifiedDomains. */
  function VerifiedDomains(sites: seq<Site>): (r: seq<string>)
    ensures forall d :: d in r <==> IsVerifiedDomain(sites, d)
  {
    if sites == [] then []
    else (if sites[0].isVerified && sites[0].domain.Some? then [sites[0].domain.value] else []) +
         VerifiedDomains(sites[1..])
  }

  /** What some domain normalizes to. */
  predicate IsFormOf(domains: seq<string>, form: string) {
    exists d :: d in domains && NormalizeDomain(d) == form
  }

  lemma FormOfNext(domains: seq<string>, i: nat, form: string)
    requires i < |domains|
    ensures IsFormOf(domains[..i + 1], form) <==> IsFormOf(domains[..i], form) || form == NormalizeDomain(domains[i])
  {
    assert domains[..i + 1] == domains[..i] + [domains[i]];
    if IsFormOf(domains[..i], form) {
      var d :| d in domains[..i] && NormalizeDomain(d) == form;
      assert d in domains[..i + 1];
    }
    if form == NormalizeDomain(domains[i]) {
      assert domains[i] in domains[..i + 1];
    }
  }

  lemma FormsOfNext(domains: seq<string>, i: nat, forms: set<string>)
    requires i < |domains| && forall n :: n in forms <==> IsFormOf(domains[..i], n)
    ensures forall n :: n in forms + {NormalizeDomain(domains[i])} <==> IsFormOf(domains[..i + 1], n)
  {
    forall n ensures n in forms + {NormalizeDomain(domains[i])} <==> IsFormOf(domains[..i + 1], n) {
      FormOfNext(domains, i, n);
    }
  }

  /** A name that normalizes as some verified domain does. */
  predicate IsAllowed(sites: seq<Site>, name: string) {
    IsFormOf(VerifiedDomains(sites), NormalizeDomain(name))
  }

  /** The certificate manager's set of domains, replaced whole whenever it's refreshed. */
  class Manager {
    var domains: set<string>

    /** The set is of the sites as they were when it was loaded. */
    ghost predicate IsLoadedFrom(sites: seq<Site>)
      reads this
    {
      forall n :: n in domains <==> IsFormOf(VerifiedDomains(sites), n)
    }

    method Refresh(sites: seq<Site>)
      modifies this
      ensures IsLoadedFrom(sites)
    {
      var loaded := VerifiedDomains(sites);
      var normalized := {};
      for i := 0 to |loaded|
        invariant forall n :: n in normalized <==> IsFormOf(loaded[..i], n)
      {
        FormsOfNext(loaded, i, normalized);
        normalized := normalized + {NormalizeDomain(loaded[i])};
      }
      assert loaded[..|loaded|] == loaded;
      domains := normalized;
    }

    method Allowed(name: string) returns (allowed: bool)
      ensures allowed == (NormalizeDomain(name) in domains)
      ensures forall sites :: IsLoadedFrom(sites) ==> allowed == IsAllowed(sites, name)
    {
      allowed := NormalizeDomain(name) in domains;
    }
  }

  /** Every verified domain is kept in the form it's looked up in. */
  ghost predicate StoredNormalized(sites: seq<Site>) {
    forall d :: d in VerifiedDomains(sites) ==> NormalizeDomain(d) == d
  }

  lemma FoundIffVerified(sites: seq<Site>, domain: string)
    ensures LoadSiteByDomain(sites, domain).Some? <==> domain in VerifiedDomains(sites)
  {
  }

  /** A name is one for a certificate exactly when a Host that matches it finds a verified site. */
  lemma AllowedIffFound(sites: seq<Site>, host: string, serverName: string)
    requires StoredNormalized(sites) && NoSpaces(host)
    requires serverName != "" && ':' !in serverName && HostMatchesSni(host, serverName)
    ensures IsAllowed(sites, serverName) <==> LoadSiteByDomain(sites, NormalizeDomain(host)).Some?
  {
    ColonFreeNormalizesAlike(host, serverName);
    FoundIffVerified(sites, NormalizeDomain(host));
  }

  /** So no site is reached through another's certificate: the site reached is the one the handshake's name is for. */
  lemma ReachedByOwnName(sites: seq<Site>, host: string, serverName: string)
    requires StoredNormalized(sites) && NoSpaces(host) && serverName != "" && ':' !in serverName
    requires Reach(sites, host, serverName).ReachedSite?
    ensures IsAllowed(sites, serverName)
    ensures var s := Reach(sites, host, serverName).site;
            && s in sites && s.domain == Some(NormalizeDomain(serverName))
            && s.isVerified && s.isEnabled && s.sourceActive && s.orgActive && FEATURE_AGENTS in s.features
  {
    AllowedIffFound(sites, host, serverName);
    ColonFreeNormalizesAlike(host, serverName);
  }

  // When names allowed and Hosts that find a site are the same.

  /** A form that some name without a colon normalizes to. */
  predicate IsForm(f: string) {
    Lower(f) == f && NoSpaces(f) && ':' !in f
  }

  lemma ColonFreeForm(name: string)
    requires NoSpaces(name) && ':' !in name
    ensures NormalizeDomain(name) == TrimWww(Lower(name)) && HostMatchesSni(name, name)
  {
    NoSpacesNotTrimmed(name);
    NoColonNoPort(name);
    StripPortShortens(Lower(name));
  }

  /** Every such form is of a name: of its www. form, at least. */
  lemma FormOfWww(f: string)
    requires IsForm(f)
    ensures var name := WWW + f;
            NoSpaces(name) && ':' !in name && NormalizeDomain(name) == f && HostMatchesSni(name, name)
  {
    ColonFreeForm(WWW + f);
    WwwIsLower(f);
    WwwTaken(f);
  }

  lemma LowerIsForm(name: string)
    requires NoSpaces(name) && ':' !in name
    ensures IsForm(Lower(name))
  {
    LowerTwice(name);
    forall i | 0 <= i < |name| ensures Lower(name)[i] != ':' && !IsSpace(Lower(name)[i]) {
      assert name[i] in name;
    }
  }

  lemma TrimmedIsForm(s: string)
    requires IsForm(s)
    ensures IsForm(TrimWww(s))
  {
    TrimWwwShortens(s);
  }

  lemma NameHasForm(name: string)
    requires NoSpaces(name) && ':' !in name
    ensures IsForm(NormalizeDomain(name))
  {
    ColonFreeForm(name);
    LowerIsForm(name);
    TrimmedIsForm(Lower(name));
  }

  /** What a handshake's name can be, and a Host that goes with it. */
  predicate IsRequest(host: string, serverName: string) {
    NoSpaces(host) && serverName != "" && ':' !in serverName && HostMatchesSni(host, serverName)
  }

  lemma RequestHasForm(host: string, serverName: string)
    requires IsRequest(host, serverName)
    ensures NormalizeDomain(host) == NormalizeDomain(serverName) && IsForm(NormalizeDomain(serverName))
  {
    ColonFreeNormalizesAlike(host, serverName);
    MatchHasNoSpaces(host, serverName);
    NameHasForm(serverName);
  }

  /** Each verified domain, if a name can find it, is what one normalizes to... */
  ghost predicate FoundAreForms(domains: seq<string>) {
    forall d :: d in domains && IsForm(d) ==> IsFormOf(domains, d)
  }

  /** ...and what each normalizes to, if a name can, is a verified domain. */
  ghost predicate FormsAreFound(domains: seq<string>) {
    forall d :: d in domains && IsForm(NormalizeDomain(d)) ==> NormalizeDomain(d) in domains
  }

  /** Every name allowed a certificate finds a site exactly when the normal form of every verified domain is one too. */
  lemma AllowedAreFoundIff(sites: seq<Site>)
    ensures FormsAreFound(VerifiedDomains(sites))
            <==> forall host, name :: IsRequest(host, name) && IsAllowed(sites, name) ==>
                   LoadSiteByDomain(sites, NormalizeDomain(host)).Some?
  {
    var domains := VerifiedDomains(sites);
    if FormsAreFound(domains) {
      forall host, name | IsRequest(host, name) && IsAllowed(sites, name)
        ensures LoadSiteByDomain(sites, NormalizeDomain(host)).Some?
      {
        RequestHasForm(host, name);
        FoundIffVerified(sites, NormalizeDomain(host));
      }
    } else {
      var d :| d in domains && IsForm(NormalizeDomain(d)) && NormalizeDomain(d) !in domains;
      FormOfWww(NormalizeDomain(d));
      var name := WWW + NormalizeDomain(d);
      FoundIffVerified(sites, NormalizeDomain(name));
      assert IsRequest(name, name) && IsAllowed(sites, name);
    }
  }

  /** And every name that finds a site is allowed a certificate exactly when every verified domain is a normal form of
      one. */
  lemma FoundAreAllowedIff(sites: seq<Site>)
    ensures FoundAreForms(VerifiedDomains(sites))
            <==> forall host, name :: IsRequest(host, name) && LoadSiteByDomain(sites, NormalizeDomain(host)).Some? ==>
                   IsAllowed(sites, name)
  {
    var domains := VerifiedDomains(sites);
    if FoundAreForms(domains) {
      forall host, name | IsRequest(host, name) && LoadSiteByDomain(sites, NormalizeDomain(host)).Some?
        ensures IsAllowed(sites, name)
      {
        RequestHasForm(host, name);
        FoundIffVerified(sites, NormalizeDomain(host));
      }
    } else {
      var d :| d in domains && IsForm(d) && !IsFormOf(domains, d);
      FormOfWww(d);
      FoundIffVerified(sites, d);
      assert IsRequest(WWW + d, WWW + d) && !IsAllowed(sites, WWW + d);
    }
  }

  /** A verified domain that isn't in lowercase has certificates obtained for it, and no Host ever finds it. */
  lemma UnnormalizedNeverFound(sites: seq<Site>, domain: string)
    requires domain in VerifiedDomains(sites) && Lower(domain) != domain
    ensures IsAllowed(sites, domain)
    ensures forall host :: NormalizeDomain(host) != domain
  {
    forall host ensures NormalizeDomain(host) != domain {
      NormalizedIsLower(host);
    }
  }

  /** With a site's domain kept with a capital letter, its own name is allowed a certificate and finds nothing. */
  lemma CapitalFindsNothing(capital: char, rest: string, domain: string, site: Site)
    requires 'A' <= capital <= 'Z' && domain == [capital] + rest && site.domain == Some(domain) && site.isVerified
    ensures IsAllowed([site], domain)
    ensures LoadSiteByDomain([site], NormalizeDomain(domain)).None?
  {
    assert Lower(domain)[0] != domain[0];
    assert VerifiedDomains([site]) == [domain] + VerifiedDomains([site][1..]);
    UnnormalizedNeverFound([site], domain);
    FoundIffVerified([site], NormalizeDomain(domain));
  }
}
