/** Typical proxy requests and what the resolver makes of them: a list in
    `x-forwarded-for`, a padded `x-client-ip` (not trimmed), `forwarded`
    tokens that are quoted, bracketed, capitalised or comma-separated (not
    split on commas, with quote and bracket runs removed rather than one
    pair). Each scenario is stated for any text in
    the place of an address that reads as one and is written the way an
    IPv4 address is displayed (`FormatIpv4IsAddressText` shows that the
    display form of every IPv4 address is such text). */
module Scenarios {
  import opened Prelude
  import opened Str
  import opened Net
  import opened Http
  import opened Resolver

  /** A request carrying the one header `name` with the given text. */
  function Only(name: string, text: string): (h: HeaderMap)
    requires IsVisibleText(text)
    ensures h.Keys == {name} && ToStr(h[name]) == Some(text)
  {
    ToStrEncode(text);
    map[name := Encode(text)]
  }

  lemma OnlyHasOneName(name: string, text: string, k: nat)
    requires IsVisibleText(text) && k < |Names| && name == Names[k]
    ensures forall j :: 0 <= j < |Names| && j != k ==> Names[j] !in Only(name, text)
  {
    assert Names[0] != Names[1] && Names[0] != Names[2] && Names[0] != Names[3];
    assert Names[1] != Names[2] && Names[1] != Names[3] && Names[2] != Names[3];
  }

  /** Text written as an IPv4 address is displayed: digits and dots with a
      digit at either end, hence visible and free of every separator the
      resolver looks for. */
  predicate IsAddressText(t: string) {
    IsDottedNumber(t, true) && IsVisibleText(t)
    && ',' !in t && ';' !in t && ':' !in t && '"' !in t && '[' !in t && ']' !in t
  }

  /** The display form of every IPv4 address is address text and reads back
      as that address. */
  lemma FormatIpv4IsAddressText(a: Ipv4Addr, v6: Ipv6Syntax)
    ensures IsAddressText(FormatIpv4(a))
    ensures ParseIp(FormatIpv4(a), v6) == Some(V4(a))
  {
    FormatIpv4Shape(a);
    DottedIsAddressText(FormatIpv4(a));
    ParseFormatIpv4(a, v6);
  }

  lemma DottedIsAddressText(t: string)
    requires IsDottedNumber(t, true)
    ensures IsAddressText(t)
  {
    forall k | 0 <= k < |t|
      ensures ' ' <= t[k] <= '~' && t[k] !in ",;:\"[]"
    {
      assert IsDigit(t[k]) || t[k] == '.';
    }
  }

  /** Text whose ends are not whitespace is its own trim. */
  lemma TrimKeeps(s: string)
    requires s != [] && !IsWhitespace(s[0]) && !IsWhitespace(s[|s| - 1])
    ensures Trim(s) == s
  {
    TrimMatchesKeeps(s, IsWhitespace);
  }

  /** A token without colon whose ends are no quote or bracket is its own
      cleaned token. */
  lemma CleanKeeps(t: string)
    requires t != [] && ':' !in t
    requires t[0] !in "\"[]" && t[|t| - 1] !in "\"[]"
    ensures CleanForToken(t) == t
  {
    TrimMatchesKeeps(t, IsChar('"'));
    SplitNoSeparator(t, ':');
    TrimMatchesKeeps(t, IsChar('['));
    TrimMatchesKeeps(t, IsChar(']'));
  }

  /** Address text survives both trimming and `for=` token cleaning. */
  lemma AddressTextKeeps(x: string)
    requires IsAddressText(x)
    ensures Trim(x) == x && CleanForToken(x) == x
  {
    TrimKeeps(x);
    CleanKeeps(x);
  }

  // ---------------------------------------------------------------------
  // x-forwarded-for

  lemma XffListShape(x: string, y: string)
    requires IsAddressText(x) && IsAddressText(y)
    ensures x + ", " + y == x + "," + (" " + y)
    ensures IsVisibleText(x + ", " + y)
  {
    VisibleConcat(x, ", ");
    VisibleConcat(x + ", ", y);
  }

  /** `x-forwarded-for: 198.51.100.1, 10.0.0.1` resolves to the first
      entry. */
  lemma XForwardedForList(fallbackIp: IpAddr, v6: Ipv6Syntax, x: string, y: string, ip: IpAddr)
    requires IsAddressText(x) && IsAddressText(y) && ParseIp(x, v6) == Some(ip)
    ensures IsVisibleText(x + ", " + y)
    ensures ExtractClientIp(Only(XForwardedFor, x + ", " + y), fallbackIp, v6) == ip
  {
    XffListShape(x, y);
    AddressTextKeeps(x);
    assert x + ", " + y == x + [','] + (" " + y);
    SplitAfterField(x, ',', " " + y);
    XForwardedForDecides(Only(XForwardedFor, x + ", " + y), fallbackIp, v6, x + ", " + y, ip);
  }

  /** A word that is no address: without colon, comma or surrounding
      whitespace, and not starting with a digit (`unknown`, say). */
  predicate IsPlainWord(w: string) {
    w != [] && !IsDigit(w[0]) && ':' !in w && ',' !in w && ';' !in w
    && !IsWhitespace(w[0]) && !IsWhitespace(w[|w| - 1]) && IsVisibleText(w)
  }

  /** A plain word in `x-forwarded-for` is no address. */
  lemma PlainWordXff(headers: HeaderMap, v6: Ipv6Syntax, w: string)
    requires WellFormed(v6) && IsPlainWord(w)
    requires XForwardedFor in headers && headers[XForwardedFor] == Encode(w)
    ensures FromXForwardedFor(headers, v6).None?
  {
    ToStrEncode(w);
    SplitNoSeparator(w, ',');
    TrimMatchesKeeps(w, IsWhitespace);
    NoLeadingOctetIsNotAddress(w, v6);
  }

  // ---------------------------------------------------------------------
  // x-real-ip and x-client-ip

  /** `x-real-ip` decides when `x-forwarded-for` is absent or is no
      address. */
  lemma XRealIpAfterXff(headers: HeaderMap, fallbackIp: IpAddr, v6: Ipv6Syntax, x: string, ip: IpAddr)
    requires FromXForwardedFor(headers, v6).None?
    requires XRealIp in headers && ToStr(headers[XRealIp]) == Some(x)
    requires ParseIp(x, v6) == Some(ip)
    ensures ExtractClientIp(headers, fallbackIp, v6) == ip
  {
    FirstSomeOfFour(Candidates(headers, v6), fallbackIp);
  }

  /** `x-forwarded-for: unknown` with `x-real-ip: 203.0.113.9`: the word is
      passed over and `x-real-ip` decides. */
  lemma XRealIpAfterWord(fallbackIp: IpAddr, v6: Ipv6Syntax, w: string, x: string, ip: IpAddr)
    requires WellFormed(v6) && IsPlainWord(w)
    requires IsAddressText(x) && ParseIp(x, v6) == Some(ip)
    ensures ExtractClientIp(map[XForwardedFor := Encode(w), XRealIp := Encode(x)], fallbackIp, v6) == ip
  {
    var h := map[XForwardedFor := Encode(w), XRealIp := Encode(x)];
    PlainWordXff(h, v6, w);
    ToStrEncode(x);
    XRealIpAfterXff(h, fallbackIp, v6, x, ip);
  }

  lemma PaddedShape(x: string)
    requires IsAddressText(x)
    ensures var text := "  " + x + "  ";
      IsVisibleText(text) && text != [] && IsWhitespace(text[0])
  {
    VisibleConcat("  ", x);
    VisibleConcat("  " + x, "  ");
  }

  /** `x-client-ip` is taken as sent, not trimmed: `"  192.0.2.5  "` alone
      is no address and the fallback is returned. */
  lemma PaddedXClientIp(fallbackIp: IpAddr, v6: Ipv6Syntax, x: string)
    requires WellFormed(v6) && IsAddressText(x)
    ensures IsVisibleText("  " + x + "  ")
    ensures ExtractClientIp(Only(XClientIp, "  " + x + "  "), fallbackIp, v6) == fallbackIp
  {
    var text := "  " + x + "  ";
    PaddedShape(x);
    var h := Only(XClientIp, text);
    OnlyHasOneName(XClientIp, text, 2);
    PaddedValueIsAbsent(h, fallbackIp, v6, XClientIp, text);
    NoHeadersGiveFallback(h - {XClientIp}, fallbackIp, v6);
  }

  // ---------------------------------------------------------------------
  // forwarded

  /** With `forwarded` as the only recognised header, its scan decides. */
  lemma ForwardedOnly(fallbackIp: IpAddr, v6: Ipv6Syntax, text: string)
    requires IsVisibleText(text)
    ensures ExtractClientIp(Only(Forwarded, text), fallbackIp, v6) ==
      if ScanForwarded(Split(text, ';'), v6).Some? then ScanForwarded(Split(text, ';'), v6).value else fallbackIp
  {
    OnlyHasOneName(Forwarded, text, 3);
    SingleHeader(Only(Forwarded, text), fallbackIp, v6, 3);
  }

  lemma OneSegment(s: string, v6: Ipv6Syntax)
    requires ';' !in s
    ensures ScanForwarded(Split(s, ';'), v6) == ForwardedCandidate(s, v6)
  {
    SplitNoSeparator(s, ';');
    if ForwardedCandidate(s, v6).Some? {
      ScanFindsFirst([s], v6, 0);
    } else {
      ScanNothing([s], v6);
    }
  }

  lemma SplitTwo(s1: string, s2: string)
    requires ';' !in s1 && ';' !in s2
    ensures Split(s1 + ";" + s2, ';') == [s1, s2]
  {
    assert s1 + ";" + s2 == s1 + [';'] + s2;
    SplitAfterField(s1, ';', s2);
    SplitNoSeparator(s2, ';');
  }

  lemma TwoSegments(s1: string, s2: string, v6: Ipv6Syntax)
    requires ';' !in s1 && ';' !in s2
    ensures ScanForwarded(Split(s1 + ";" + s2, ';'), v6) ==
      if ForwardedCandidate(s1, v6).Some? then ForwardedCandidate(s1, v6) else ForwardedCandidate(s2, v6)
  {
    SplitTwo(s1, s2);
    var segs := [s1, s2];
    if ForwardedCandidate(s1, v6).Some? {
      ScanFindsFirst(segs, v6, 0);
    } else if ForwardedCandidate(s2, v6).Some? {
      ScanFindsFirst(segs, v6, 1);
    } else {
      ScanNothing(segs, v6);
    }
  }

  lemma VisibleSegments(s1: string, s2: string)
    requires IsVisibleText(s1) && IsVisibleText(s2)
    ensures IsVisibleText(s1 + ";" + s2)
  {
    VisibleConcat(s1, ";");
    VisibleConcat(s1 + ";", s2);
  }

  /** A segment `for=` followed by a token whose cleaning leaves it as it
      is. */
  lemma ForSegment(token: string, v6: Ipv6Syntax)
    requires token != [] && !IsWhitespace(token[|token| - 1])
    ensures ForwardedCandidate("for=" + token, v6) == ParseIp(CleanForToken(token), v6)
  {
    TrimKeeps("for=" + token);
    assert ("for=" + token)[4..] == token;
  }

  /** `for=` and address text yields what that text reads as. */
  lemma AddressSegment(x: string, ip: IpAddr, v6: Ipv6Syntax)
    requires IsAddressText(x) && ParseIp(x, v6) == Some(ip)
    ensures ForwardedCandidate("for=" + x, v6) == Some(ip)
  {
    ForSegment(x, v6);
    AddressTextKeeps(x);
  }

  /** `for=` and a plain word without quotes or brackets at its ends yields
      nothing. */
  lemma WordSegment(w: string, v6: Ipv6Syntax)
    requires WellFormed(v6) && IsPlainWord(w)
    requires w[0] !in "\"[]" && w[|w| - 1] !in "\"[]"
    ensures ForwardedCandidate("for=" + w, v6).None?
  {
    ForSegment(w, v6);
    CleanKeeps(w);
    NoLeadingOctetIsNotAddress(w, v6);
  }

  /** Two segments of which only the second yields an address: that
      address is the result. */
  lemma SecondSegmentDecides(fallbackIp: IpAddr, v6: Ipv6Syntax, s1: string, s2: string, ip: IpAddr)
    requires ';' !in s1 && ';' !in s2 && IsVisibleText(s1 + ";" + s2)
    requires ForwardedCandidate(s1, v6).None? && ForwardedCandidate(s2, v6) == Some(ip)
    ensures ExtractClientIp(Only(Forwarded, s1 + ";" + s2), fallbackIp, v6) == ip
  {
    TwoSegments(s1, s2, v6);
    ForwardedOnly(fallbackIp, v6, s1 + ";" + s2);
  }

  /** Two segments neither of which yields an address: the fallback. */
  lemma TwoBarrenSegments(fallbackIp: IpAddr, v6: Ipv6Syntax, s1: string, s2: string)
    requires ';' !in s1 && ';' !in s2 && IsVisibleText(s1 + ";" + s2)
    requires ForwardedCandidate(s1, v6).None? && ForwardedCandidate(s2, v6).None?
    ensures ExtractClientIp(Only(Forwarded, s1 + ";" + s2), fallbackIp, v6) == fallbackIp
  {
    TwoSegments(s1, s2, v6);
    ForwardedOnly(fallbackIp, v6, s1 + ";" + s2);
  }

  /** A `forwarded` value of one segment that yields nothing resolves to
      the fallback. */
  lemma OneBarrenSegment(fallbackIp: IpAddr, v6: Ipv6Syntax, text: string)
    requires ';' !in text && IsVisibleText(text)
    requires ForwardedCandidate(text, v6).None?
    ensures ExtractClientIp(Only(Forwarded, text), fallbackIp, v6) == fallbackIp
  {
    OneSegment(text, v6);
    ForwardedOnly(fallbackIp, v6, text);
  }

  lemma TwoForShape(w: string, x: string)
    requires IsPlainWord(w) && IsAddressText(x)
    ensures IsVisibleText(("for=" + w) + ";" + ("for=" + x))
    ensures ';' !in "for=" + w && ';' !in "for=" + x
  {
    VisibleConcat("for=", w);
    VisibleConcat("for=", x);
    VisibleSegments("for=" + w, "for=" + x);
  }

  /** `forwarded: for=not-an-ip;for=192.0.2.60`: a first `for=` whose token
      is no address is passed over for the next. */
  lemma ForwardedSkipsBadToken(fallbackIp: IpAddr, v6: Ipv6Syntax, w: string, x: string, ip: IpAddr)
    requires WellFormed(v6) && IsPlainWord(w)
    requires w[0] !in "\"[]" && w[|w| - 1] !in "\"[]"
    requires IsAddressText(x) && ParseIp(x, v6) == Some(ip)
    ensures IsVisibleText(("for=" + w) + ";" + ("for=" + x))
    ensures ExtractClientIp(Only(Forwarded, ("for=" + w) + ";" + ("for=" + x)), fallbackIp, v6) == ip
  {
    TwoForShape(w, x);
    WordSegment(w, v6);
    AddressSegment(x, ip, v6);
    SecondSegmentDecides(fallbackIp, v6, "for=" + w, "for=" + x, ip);
  }

  /** The characters that matter in `198.51.100.1, for=10.0.0.1`: digits
      at both ends, no colon, no `;`, and all visible. */
  lemma CommaListShape(x: string, y: string)
    requires IsAddressText(x) && IsAddressText(y)
    ensures var token := x + (", for=" + y);
      && token != [] && IsDigit(token[0]) && IsDigit(token[|token| - 1])
      && ':' !in token && ';' !in "for=" + token && IsVisibleText("for=" + token)
  {
    var rest := ", for=" + y;
    var token := x + rest;
    VisibleConcat(", for=", y);
    VisibleConcat(x, rest);
    VisibleConcat("for=", token);
    assert token[0] == x[0];
    assert token[|token| - 1] == y[|y| - 1];
  }

  lemma CommaListSegment(x: string, y: string, ip: IpAddr, v6: Ipv6Syntax)
    requires IsAddressText(x) && IsAddressText(y) && ParseIp(x, v6) == Some(ip) && ip.V4?
    ensures ForwardedCandidate("for=" + (x + (", for=" + y)), v6).None?
  {
    var rest := ", for=" + y;
    var token := x + rest;
    CommaListShape(x, y);
    ForSegment(token, v6);
    CleanKeeps(token);
    AddressThenTextIsNotAddress(x, rest, v6);
  }

  /** `forwarded: for=192.0.2.60, for=198.51.100.17`: the header is split
      on `;` only, so the comma list is one token; its first address is
      followed by more text, and it is no address. */
  lemma ForwardedCommaList(fallbackIp: IpAddr, v6: Ipv6Syntax, x: string, y: string, ip: IpAddr)
    requires IsAddressText(x) && IsAddressText(y) && ParseIp(x, v6) == Some(ip) && ip.V4?
    ensures IsVisibleText("for=" + (x + (", for=" + y)))
    ensures ExtractClientIp(Only(Forwarded, "for=" + (x + (", for=" + y))), fallbackIp, v6) == fallbackIp
  {
    CommaListShape(x, y);
    CommaListSegment(x, y, ip, v6);
    OneBarrenSegment(fallbackIp, v6, "for=" + (x + (", for=" + y)));
  }

  /** `forwarded: For=192.0.2.60`: the `for=` test is case-sensitive, so
      the segment is passed over. */
  lemma ForwardedCapitalFor(fallbackIp: IpAddr, v6: Ipv6Syntax, x: string)
    requires IsAddressText(x)
    ensures IsVisibleText("For=" + x)
    ensures ExtractClientIp(Only(Forwarded, "For=" + x), fallbackIp, v6) == fallbackIp
  {
    VisibleConcat("For=", x);
    TrimKeeps("For=" + x);
    assert !("for=" <= "For=" + x);
    OneBarrenSegment(fallbackIp, v6, "For=" + x);
  }

  /** A quoted `host:port` token: the quotes go, and the host part is what
      precedes the colon. */
  lemma QuotedHostPart(h: string, p: string)
    requires h != [] && h[0] != '"' && ':' !in h
    requires p == [] || p[|p| - 1] != '"'
    ensures HostPart("\"" + h + ":" + p + "\"") == h
  {
    var t := "\"" + h + ":" + p + "\"";
    var u := h + ":" + p;
    assert t[1..] == u + "\"";
    assert TrimStartMatches(t, IsChar('"')) == TrimStartMatches(t[1..], IsChar('"'));
    assert TrimStartMatches(t[1..], IsChar('"')) == t[1..];
    assert (u + "\"")[..|u|] == u;
    assert TrimEndMatches(u + "\"", IsChar('"')) == TrimEndMatches(u, IsChar('"'));
    assert TrimEndMatches(u, IsChar('"')) == u;
    assert u == h + [':'] + p;
    SplitAfterField(h, ':', p);
  }

  /** A run of decimal digits: a port number as written. */
  predicate IsPort(p: string) {
    p != [] && forall k :: 0 <= k < |p| ==> IsDigit(p[k])
  }

  /** Decimal digits are visible text without a separator. */
  lemma DigitsVisible(p: string)
    requires IsPort(p)
    ensures IsVisibleText(p) && ';' !in p && '"' !in p
  {
    forall k | 0 <= k < |p|
      ensures ' ' <= p[k] <= '~' && p[k] != ';' && p[k] != '"'
    {
      assert IsDigit(p[k]);
    }
  }

  lemma QuotedAddressShape(x: string, p: string)
    requires IsAddressText(x) && IsPort(p)
    ensures var token := "\"" + x + ":" + p + "\"";
      && IsVisibleText("for=" + token) && ';' !in "for=" + token
      && !IsWhitespace(token[|token| - 1])
      && HostPart(token) == x
  {
    var token := "\"" + x + ":" + p + "\"";
    DigitsVisible(p);
    VisibleConcat("\"", x);
    VisibleConcat("\"" + x, ":");
    VisibleConcat("\"" + x + ":", p);
    VisibleConcat("\"" + x + ":" + p, "\"");
    VisibleConcat("for=", token);
    QuotedHostPart(x, p);
  }

  lemma QuotedAddressSegment(x: string, p: string, ip: IpAddr, v6: Ipv6Syntax)
    requires IsAddressText(x) && IsPort(p) && ParseIp(x, v6) == Some(ip)
    ensures ForwardedCandidate("for=" + ("\"" + x + ":" + p + "\""), v6) == Some(ip)
  {
    var token := "\"" + x + ":" + p + "\"";
    QuotedAddressShape(x, p);
    ForSegment(token, v6);
    TrimMatchesKeeps(x, IsChar('['));
    TrimMatchesKeeps(x, IsChar(']'));
  }

  /** `forwarded: for="192.0.2.60:8080"`: the quotes and the port are
      removed and the address is the result. */
  lemma ForwardedQuotedWithPort(fallbackIp: IpAddr, v6: Ipv6Syntax, x: string, p: string, ip: IpAddr)
    requires IsAddressText(x) && IsPort(p) && ParseIp(x, v6) == Some(ip)
    ensures IsVisibleText("for=" + ("\"" + x + ":" + p + "\""))
    ensures ExtractClientIp(Only(Forwarded, "for=" + ("\"" + x + ":" + p + "\"")), fallbackIp, v6) == ip
  {
    var text := "for=" + ("\"" + x + ":" + p + "\"");
    QuotedAddressShape(x, p);
    QuotedAddressSegment(x, p, ip, v6);
    OneSegment(text, v6);
    ForwardedOnly(fallbackIp, v6, text);
  }

  /** Hexadecimal digits: one group of an IPv6 address as written. */
  predicate IsHexGroup(g: string) {
    g != [] && forall k :: 0 <= k < |g| ==> IsHexDigit(g[k])
  }

  lemma HexGroupVisible(g: string)
    requires IsHexGroup(g)
    ensures IsVisibleText(g) && ';' !in g && ':' !in g && '.' !in g && '"' !in g
  {
    forall k | 0 <= k < |g|
      ensures ' ' <= g[k] <= '~' && g[k] !in ";:.\""
    {
      assert IsHexDigit(g[k]);
    }
  }

  /** The rest of a bracketed IPv6 address and its port, after the first
      group's colon (`db8::1]:8080`, say). */
  predicate IsBracketTail(r: string) {
    IsVisibleText(r) && ';' !in r && (r == [] || r[|r| - 1] != '"')
  }

  /** Leading `[` removed from `[` and a group of hex digits leaves the
      group. */
  lemma StripOpenBracket(g: string)
    requires IsHexGroup(g)
    ensures TrimMatches(TrimMatches("[" + g, IsChar('[')), IsChar(']')) == g
  {
    assert ("[" + g)[1..] == g;
    assert TrimStartMatches("[" + g, IsChar('[')) == TrimStartMatches(g, IsChar('['));
    TrimMatchesKeeps(g, IsChar('['));
    TrimMatchesKeeps(g, IsChar(']'));
  }

  lemma BracketedShape(g: string, r: string)
    requires IsHexGroup(g) && IsBracketTail(r)
    ensures var token := "\"" + ("[" + g) + ":" + r + "\"";
      && IsVisibleText(" " + ("for=" + token)) && ';' !in " " + ("for=" + token)
      && CleanForToken(token) == g
      && ':' !in g && '.' !in g
  {
    var token := "\"" + ("[" + g) + ":" + r + "\"";
    HexGroupVisible(g);
    VisibleConcat("[", g);
    VisibleConcat("\"", "[" + g);
    VisibleConcat("\"" + ("[" + g), ":");
    VisibleConcat("\"" + ("[" + g) + ":", r);
    VisibleConcat("\"" + ("[" + g) + ":" + r, "\"");
    VisibleConcat("for=", token);
    VisibleConcat(" ", "for=" + token);
    assert ';' !in "\"" + ("[" + g) + ":";
    assert ';' !in token;
    QuotedHostPart("[" + g, r);
    StripOpenBracket(g);
  }

  /** One space before the segment is trimmed away. */
  lemma TrimLeadingSpace(t: string)
    requires t != [] && !IsWhitespace(t[0]) && !IsWhitespace(t[|t| - 1])
    ensures Trim(" " + t) == t
  {
    assert (" " + t)[1..] == t;
    assert TrimStartMatches(" " + t, IsWhitespace) == TrimStartMatches(t, IsWhitespace);
    TrimMatchesKeeps(t, IsWhitespace);
  }

  lemma BracketedSegment(g: string, r: string, v6: Ipv6Syntax)
    requires WellFormed(v6) && IsHexGroup(g) && IsBracketTail(r)
    ensures ForwardedCandidate(" " + ("for=" + ("\"" + ("[" + g) + ":" + r + "\"")), v6).None?
  {
    var token := "\"" + ("[" + g) + ":" + r + "\"";
    BracketedShape(g, r);
    TrimLeadingSpace("for=" + token);
    assert ("for=" + token)[4..] == token;
    NoSeparatorIsNotAddress(g, v6);
  }

  lemma ByAddressSegment(y: string, v6: Ipv6Syntax)
    requires IsAddressText(y)
    ensures ForwardedCandidate("by=" + y, v6).None?
    ensures IsVisibleText("by=" + y) && ';' !in "by=" + y
  {
    VisibleConcat("by=", y);
    TrimKeeps("by=" + y);
  }

  /** `forwarded: by=203.0.113.1; for="[2001:db8::1]:8080"` yields no
      address: the token is cut at the first colon inside the brackets,
      leaving `2001`, which is neither IPv4 (no dots) nor IPv6 (no colon).
      The fallback is returned, not `2001:db8::1`. */
  lemma ForwardedBracketedIpv6(fallbackIp: IpAddr, v6: Ipv6Syntax, y: string, g: string, r: string)
    requires WellFormed(v6) && IsAddressText(y) && IsHexGroup(g) && IsBracketTail(r)
    ensures IsVisibleText(("by=" + y) + ";" + (" " + ("for=" + ("\"" + ("[" + g) + ":" + r + "\""))))
    ensures ExtractClientIp(Only(Forwarded, ("by=" + y) + ";" + (" " + ("for=" + ("\"" + ("[" + g) + ":" + r + "\"")))), fallbackIp, v6)
      == fallbackIp
  {
    var s2 := " " + ("for=" + ("\"" + ("[" + g) + ":" + r + "\""));
    ByAddressSegment(y, v6);
    BracketedShape(g, r);
    BracketedSegment(g, r, v6);
    VisibleSegments("by=" + y, s2);
    TwoBarrenSegments(fallbackIp, v6, "by=" + y, s2);
  }

  lemma CloseThenOpenClean(x: string)
    requires IsAddressText(x)
    ensures CleanForToken("][" + x) == "[" + x
  {
    var t := "][" + x;
    TrimMatchesKeeps(t, IsChar('"'));
    SplitNoSeparator(t, ':');
    TrimMatchesKeeps(t, IsChar('['));
    assert t[1..] == "[" + x;
    assert TrimStartMatches(t, IsChar(']')) == TrimStartMatches(t[1..], IsChar(']'));
    TrimMatchesKeeps(t[1..], IsChar(']'));
  }

  /** Stripping `[` before `]` can leave a `[`: the token `][1.2.3.4`
      cleans to `[1.2.3.4`, which is no address although `1.2.3.4` is. */
  lemma CloseThenOpenBracket(x: string, v6: Ipv6Syntax)
    requires WellFormed(v6) && IsAddressText(x)
    ensures CleanForToken("][" + x) == "[" + x
    ensures ParseIp(CleanForToken("][" + x), v6).None?
  {
    CloseThenOpenClean(x);
    NoLeadingOctetIsNotAddress("[" + x, v6);
  }
}
