/** `extract_client_ip`: the client address a request claims, from the
    proxy headers it carries, or else the transport peer.

    Four headers are consulted in a fixed order and the first that yields an
    address wins:
      1. `x-forwarded-for`: the text before the first comma, trimmed;
      2. `x-real-ip`: the whole value, not trimmed;
      3. `x-client-ip`: the whole value, not trimmed;
      4. `forwarded`: the first `;`-separated segment that, trimmed, starts
         with the case-sensitive `for=` and whose cleaned token parses.
    A header that is missing, is not visible ASCII, or does not parse yields
    nothing, and the next one is tried; when none yields an address the
    fallback (the transport peer) is returned. Every header is trusted as
    sent: no proxy is checked. */
module Resolver {
  import opened Prelude
  import opened Str
  import opened Net
  import opened Http

  const XForwardedFor: string := "x-forwarded-for"
  const XRealIp: string := "x-real-ip"
  const XClientIp: string := "x-client-ip"
  const Forwarded: string := "forwarded"

  /** The recognised headers, in the order they are consulted. */
  const Names: seq<string> := [XForwardedFor, XRealIp, XClientIp, Forwarded]

  /** No header name is recognised twice. */
  lemma NamesDistinct(i: nat, j: nat)
    requires i < |Names| && j < |Names| && i != j
    ensures Names[i] != Names[j]
  {
    assert |Names[0]| == 15 && |Names[1]| == 9 && |Names[2]| == 11 && |Names[3]| == 9;
    assert Names[1][0] != Names[3][0];
  }

  /** The pattern that matches one character. */
  function IsChar(c: char): (p: char -> bool) {
    x => x == c
  }

  /** Step 1: the first comma-separated entry of `x-forwarded-for`, trimmed. */
  function FromXForwardedFor(headers: HeaderMap, v6: Ipv6Syntax): (r: Option<IpAddr>) {
    match Get(headers, XForwardedFor)
    case None => None
    case Some(value) =>
      match ToStr(value)
      case None => None
      case Some(text) => ParseIp(Trim(Split(text, ',')[0]), v6)
  }

  /** Step 2: the whole `x-real-ip` value, as sent. */
  function FromXRealIp(headers: HeaderMap, v6: Ipv6Syntax): (r: Option<IpAddr>) {
    match Get(headers, XRealIp)
    case None => None
    case Some(value) =>
      match ToStr(value)
      case None => None
      case Some(text) => ParseIp(text, v6)
  }

  /** Step 3: the whole `x-client-ip` value, as sent. */
  function FromXClientIp(headers: HeaderMap, v6: Ipv6Syntax): (r: Option<IpAddr>) {
    match Get(headers, XClientIp)
    case None => None
    case Some(value) =>
      match ToStr(value)
      case None => None
      case Some(text) => ParseIp(text, v6)
  }

  /** The text before the first colon of the token with its surrounding
      double quotes removed. */
  function HostPart(token: string): (host: string) {
    Split(TrimMatches(token, IsChar('"')), ':')[0]
  }

  /** The text after `for=` reduced to what is parsed: every leading and
      trailing double quote removed, then everything from the first colon
      on, then every leading and trailing `[`, then every leading and
      trailing `]`. */
  function CleanForToken(token: string): (r: string) {
    TrimMatches(TrimMatches(HostPart(token), IsChar('[')), IsChar(']'))
  }

  /** The host part has no colon, starts the unquoted token and is a run of
      the token. */
  lemma HostPartShape(token: string)
    ensures ':' !in HostPart(token)
    ensures InfixAt(HostPart(token), TrimMatches(token, IsChar('"')), 0)
    ensures IsInfix(HostPart(token), token)
  {
    var unquoted := TrimMatches(token, IsChar('"'));
    var host := HostPart(token);
    SplitSpec(unquoted, ':');
    SplitFirstIsPrefix(unquoted, ':');
    assert unquoted[..|host|] == host;
    TrimMatchesSpec(token, IsChar('"'));
    var u := |token| - |TrimStartMatches(token, IsChar('"'))|;
    InfixTransitive(host, unquoted, token, 0, u);
  }

  /** Stripping `[` and then `]` leaves a run of the text without `]` at
      either end. */
  lemma StripBracketsShape(host: string)
    ensures var r := TrimMatches(TrimMatches(host, IsChar('[')), IsChar(']'));
      IsInfix(r, host) && (r == [] || (r[0] != ']' && r[|r| - 1] != ']'))
  {
    var openStripped := TrimMatches(host, IsChar('['));
    var r := TrimMatches(openStripped, IsChar(']'));
    TrimMatchesSpec(host, IsChar('['));
    TrimMatchesSpec(openStripped, IsChar(']'));
    var i := |host| - |TrimStartMatches(host, IsChar('['))|;
    var j := |openStripped| - |TrimStartMatches(openStripped, IsChar(']'))|;
    InfixTransitive(r, openStripped, host, j, i);
  }

  /** The shape of the cleaned token: it has no colon (so a bracketed IPv6
      address is cut at its first colon), it neither starts nor ends with
      `]`, and it is a run of the text before the first colon of the
      unquoted token, and so of the token itself. */
  lemma CleanForTokenShape(token: string)
    ensures ':' !in CleanForToken(token)
    ensures var r := CleanForToken(token); r == [] || (r[0] != ']' && r[|r| - 1] != ']')
    ensures IsInfix(CleanForToken(token), HostPart(token))
    ensures IsInfix(CleanForToken(token), token)
  {
    var host := HostPart(token);
    var r := CleanForToken(token);
    HostPartShape(token);
    StripBracketsShape(host);
    var i :| InfixAt(r, host, i);
    var j :| InfixAt(host, token, j);
    InfixTransitive(r, host, token, i, j);
    assert forall k :: 0 <= k < |r| ==> r[k] == host[i + k];
  }

  /** What one `;`-separated segment of `forwarded` yields: an address when
      the trimmed segment starts with `for=` and its cleaned token parses. */
  function ForwardedCandidate(segment: string, v6: Ipv6Syntax): (r: Option<IpAddr>) {
    var part := Trim(segment);
    if "for=" <= part then ParseIp(CleanForToken(part[4..]), v6) else None
  }

  /** The first present value among what `candidate` makes of each
      segment, left to right: the loop over the segments that returns as
      soon as one yields an address. */
  function FirstYield(segments: seq<string>, candidate: string -> Option<IpAddr>): (r: Option<IpAddr>)
    decreases |segments|
  {
    if segments == [] then None
    else
      match candidate(segments[0])
      case Some(ip) => Some(ip)
      case None => FirstYield(segments[1..], candidate)
  }

  /** The scan over the `;`-separated segments of `forwarded`. */
  function ScanForwarded(segments: seq<string>, v6: Ipv6Syntax): (r: Option<IpAddr>) {
    FirstYield(segments, s => ForwardedCandidate(s, v6))
  }

  /** Step 4: the `forwarded` header, split on `;` only. */
  function FromForwarded(headers: HeaderMap, v6: Ipv6Syntax): (r: Option<IpAddr>) {
    match Get(headers, Forwarded)
    case None => None
    case Some(value) =>
      match ToStr(value)
      case None => None
      case Some(text) => ScanForwarded(Split(text, ';'), v6)
  }

  /** What each recognised header yields, in the order of `Names`. */
  function Candidates(headers: HeaderMap, v6: Ipv6Syntax): (c: seq<Option<IpAddr>>) {
    [FromXForwardedFor(headers, v6), FromXRealIp(headers, v6),
     FromXClientIp(headers, v6), FromForwarded(headers, v6)]
  }

  /** The resolution policy stated declaratively: the first candidate that
      is present, or the fallback. */
  function FirstSome(candidates: seq<Option<IpAddr>>, fallback: IpAddr): (r: IpAddr)
    decreases |candidates|
  {
    if candidates == [] then fallback
    else if candidates[0].Some? then candidates[0].value
    else FirstSome(candidates[1..], fallback)
  }

  /** `extract_client_ip`: total; the first step that yields an address
      decides, and the fallback is returned when none does. */
  function ExtractClientIp(headers: HeaderMap, fallbackIp: IpAddr, v6: Ipv6Syntax): (r: IpAddr)
    ensures r == FirstSome(Candidates(headers, v6), fallbackIp)
  {
    FirstSomeOfFour(Candidates(headers, v6), fallbackIp);
    match FromXForwardedFor(headers, v6)
    case Some(ip) => ip
    case None =>
      match FromXRealIp(headers, v6)
      case Some(ip) => ip
      case None =>
        match FromXClientIp(headers, v6)
        case Some(ip) => ip
        case None =>
          match FromForwarded(headers, v6)
          case Some(ip) => ip
          case None => fallbackIp
  }

  /** `FirstSome` over four candidates, written out. */
  lemma FirstSomeOfFour(c: seq<Option<IpAddr>>, fallback: IpAddr)
    requires |c| == 4
    ensures FirstSome(c, fallback) ==
      if c[0].Some? then c[0].value
      else if c[1].Some? then c[1].value
      else if c[2].Some? then c[2].value
      else if c[3].Some? then c[3].value
      else fallback
  {
    assert c[1..][0] == c[1] && c[1..][1..] == c[2..];
    assert c[2..][0] == c[2] && c[2..][1..] == c[3..];
    assert c[3..][0] == c[3] && c[3..][1..] == [];
    assert FirstSome(c[3..], fallback) == if c[3].Some? then c[3].value else fallback;
    assert FirstSome(c[2..], fallback) == if c[2].Some? then c[2].value else FirstSome(c[3..], fallback);
    assert FirstSome(c[1..], fallback) == if c[1].Some? then c[1].value else FirstSome(c[2..], fallback);
  }

  // ---------------------------------------------------------------------
  // The chain as a whole

  /** The result is the fallback or what some recognised header yielded,
      and it is the fallback whenever no header yielded anything. */
  lemma {:induction false} FirstSomeIsCandidateOrFallback(candidates: seq<Option<IpAddr>>, fallback: IpAddr)
    ensures FirstSome(candidates, fallback) == fallback || Some(FirstSome(candidates, fallback)) in candidates
    ensures (forall k :: 0 <= k < |candidates| ==> candidates[k].None?) ==> FirstSome(candidates, fallback) == fallback
    decreases |candidates|
  {
    if candidates != [] && candidates[0].None? {
      FirstSomeIsCandidateOrFallback(candidates[1..], fallback);
      assert forall k :: 1 <= k < |candidates| ==> candidates[k] == candidates[1..][k - 1];
    }
  }

  /** Totality and fallback: without any recognised header that yields an
      address the result is the fallback exactly; otherwise it is the
      address of the first one that does. */
  lemma FallbackWhenNothingYields(headers: HeaderMap, fallbackIp: IpAddr, v6: Ipv6Syntax)
    ensures (forall k :: 0 <= k < |Names| ==> Candidates(headers, v6)[k].None?) ==>
      ExtractClientIp(headers, fallbackIp, v6) == fallbackIp
    ensures ExtractClientIp(headers, fallbackIp, v6) == fallbackIp ||
      Some(ExtractClientIp(headers, fallbackIp, v6)) in Candidates(headers, v6)
  {
    FirstSomeIsCandidateOrFallback(Candidates(headers, v6), fallbackIp);
  }

  /** Without any recognised header the result is the fallback. */
  lemma NoHeadersGiveFallback(headers: HeaderMap, fallbackIp: IpAddr, v6: Ipv6Syntax)
    requires forall k :: 0 <= k < |Names| ==> Names[k] !in headers
    ensures ExtractClientIp(headers, fallbackIp, v6) == fallbackIp
  {
    assert Names[0] !in headers && Names[1] !in headers && Names[2] !in headers && Names[3] !in headers;
  }

  /** Each step reads only its own header. */
  lemma CandidateReadsItsHeader(h1: HeaderMap, h2: HeaderMap, v6: Ipv6Syntax, k: nat)
    requires k < |Names| && Get(h1, Names[k]) == Get(h2, Names[k])
    ensures Candidates(h1, v6)[k] == Candidates(h2, v6)[k]
  {
  }

  /** Precedence: once step `k` yields an address and no earlier step did,
      that address is the result whatever the later headers say. Two header
      maps that agree on the first `k + 1` recognised headers resolve alike. */
  lemma Precedence(h1: HeaderMap, h2: HeaderMap, fallbackIp: IpAddr, v6: Ipv6Syntax, k: nat)
    requires k < |Names|
    requires forall j :: 0 <= j <= k ==> Get(h1, Names[j]) == Get(h2, Names[j])
    requires forall j :: 0 <= j < k ==> Candidates(h1, v6)[j].None?
    requires Candidates(h1, v6)[k].Some?
    ensures ExtractClientIp(h1, fallbackIp, v6) == Candidates(h1, v6)[k].value
    ensures ExtractClientIp(h2, fallbackIp, v6) == Candidates(h1, v6)[k].value
  {
    forall j | 0 <= j <= k
      ensures Candidates(h1, v6)[j] == Candidates(h2, v6)[j]
    {
      CandidateReadsItsHeader(h1, h2, v6, j);
    }
    FirstSomeOfFour(Candidates(h1, v6), fallbackIp);
    FirstSomeOfFour(Candidates(h2, v6), fallbackIp);
  }

  /** With one recognised header only, that header alone decides: its
      address when it yields one, the fallback otherwise. */
  lemma SingleHeader(headers: HeaderMap, fallbackIp: IpAddr, v6: Ipv6Syntax, k: nat)
    requires k < |Names|
    requires forall j :: 0 <= j < |Names| && j != k ==> Names[j] !in headers
    ensures ExtractClientIp(headers, fallbackIp, v6) ==
      if Candidates(headers, v6)[k].Some? then Candidates(headers, v6)[k].value else fallbackIp
  {
    var c := Candidates(headers, v6);
    forall j | 0 <= j < |Names| && j != k
      ensures c[j].None?
    {
      assert Names[j] !in headers;
    }
    FirstSomeOfFour(c, fallbackIp);
  }

  /** A recognised header whose value is not visible ASCII counts as absent:
      resolution goes on with the next step. */
  lemma NotVisibleIsAbsent(headers: HeaderMap, fallbackIp: IpAddr, v6: Ipv6Syntax, name: string)
    requires name in Names && name in headers
    requires ToStr(headers[name]).None?
    ensures ExtractClientIp(headers, fallbackIp, v6) == ExtractClientIp(headers - {name}, fallbackIp, v6)
  {
    var h2 := headers - {name};
    forall k | 0 <= k < |Names|
      ensures Candidates(headers, v6)[k] == Candidates(h2, v6)[k]
    {
      if Names[k] != name {
        GetRemove(headers, name, Names[k]);
        CandidateReadsItsHeader(headers, h2, v6, k);
      }
    }
    assert Candidates(headers, v6) == Candidates(h2, v6);
  }

  // ---------------------------------------------------------------------
  // x-forwarded-for

  /** Only the first entry of `x-forwarded-for` counts: two visible-ASCII
      values with the same text before their first comma resolve alike,
      whatever follows it. */
  lemma XForwardedForFirstEntryOnly(headers: HeaderMap, fallbackIp: IpAddr, v6: Ipv6Syntax, a: string, b: string)
    requires IsVisibleText(a) && IsVisibleText(b)
    requires Split(a, ',')[0] == Split(b, ',')[0]
    ensures ExtractClientIp(headers[XForwardedFor := Encode(a)], fallbackIp, v6) ==
            ExtractClientIp(headers[XForwardedFor := Encode(b)], fallbackIp, v6)
  {
    ToStrEncode(a);
    ToStrEncode(b);
    var h1 := headers[XForwardedFor := Encode(a)];
    var h2 := headers[XForwardedFor := Encode(b)];
    forall k | 0 <= k < |Names|
      ensures Candidates(h1, v6)[k] == Candidates(h2, v6)[k]
    {
      if k > 0 {
        NamesDistinct(k, 0);
        GetUpdate(headers, XForwardedFor, Encode(a), Names[k]);
        GetUpdate(headers, XForwardedFor, Encode(b), Names[k]);
        CandidateReadsItsHeader(h1, h2, v6, k);
      }
    }
    assert Candidates(h1, v6) == Candidates(h2, v6);
  }

  /** Appending further comma-separated entries to a single-entry
      `x-forwarded-for` never changes the result. */
  lemma XForwardedForLaterEntriesIgnored(headers: HeaderMap, fallbackIp: IpAddr, v6: Ipv6Syntax, first: string, later: string)
    requires ',' !in first
    requires IsVisibleText(first) && IsVisibleText(first + "," + later)
    ensures ExtractClientIp(headers[XForwardedFor := Encode(first + "," + later)], fallbackIp, v6) ==
            ExtractClientIp(headers[XForwardedFor := Encode(first)], fallbackIp, v6)
  {
    SplitAfterField(first, ',', later);
    SplitNoSeparator(first, ',');
    XForwardedForFirstEntryOnly(headers, fallbackIp, v6, first + "," + later, first);
  }

  /** The first `x-forwarded-for` entry decides whenever, trimmed, it is an
      address, whether or not other entries follow it: later entries and
      later headers are never looked at. */
  lemma XForwardedForDecides(headers: HeaderMap, fallbackIp: IpAddr, v6: Ipv6Syntax, text: string, ip: IpAddr)
    requires IsVisibleText(text)
    requires XForwardedFor in headers && headers[XForwardedFor] == Encode(text)
    requires ParseIp(Trim(Split(text, ',')[0]), v6) == Some(ip)
    ensures ExtractClientIp(headers, fallbackIp, v6) == ip
  {
    ToStrEncode(text);
  }

  // ---------------------------------------------------------------------
  // x-real-ip and x-client-ip

  /** `x-real-ip` and `x-client-ip` are parsed as sent: a value with
      whitespace before or after the address is no address, and resolution
      goes on as if the header were absent. */
  lemma PaddedValueIsAbsent(headers: HeaderMap, fallbackIp: IpAddr, v6: Ipv6Syntax, name: string, text: string)
    requires WellFormed(v6)
    requires name == XRealIp || name == XClientIp
    requires name in headers && ToStr(headers[name]) == Some(text)
    requires text != [] && (IsWhitespace(text[0]) || IsWhitespace(text[|text| - 1]))
    ensures ExtractClientIp(headers, fallbackIp, v6) == ExtractClientIp(headers - {name}, fallbackIp, v6)
  {
    PaddedIsNotAddress(text, v6);
    var i := if name == XRealIp then 1 else 2;
    NoAddressIsAbsent(headers, v6, i);
  }

  /** `x-client-ip` decides when the two steps before it yield nothing and
      its value, as sent, is an address. */
  lemma XClientIpDecides(headers: HeaderMap, fallbackIp: IpAddr, v6: Ipv6Syntax, text: string, ip: IpAddr)
    requires FromXForwardedFor(headers, v6).None? && FromXRealIp(headers, v6).None?
    requires XClientIp in headers && ToStr(headers[XClientIp]) == Some(text)
    requires ParseIp(text, v6) == Some(ip)
    ensures ExtractClientIp(headers, fallbackIp, v6) == ip
  {
    FirstSomeOfFour(Candidates(headers, v6), fallbackIp);
  }

  /** `forwarded` is consulted only when the three steps before it yield
      nothing; then the result is the address of its scan, or the
      fallback. */
  lemma ForwardedDecides(headers: HeaderMap, fallbackIp: IpAddr, v6: Ipv6Syntax, text: string)
    requires FromXForwardedFor(headers, v6).None? && FromXRealIp(headers, v6).None?
    requires FromXClientIp(headers, v6).None?
    requires Forwarded in headers && ToStr(headers[Forwarded]) == Some(text)
    ensures ExtractClientIp(headers, fallbackIp, v6) ==
      if ScanForwarded(Split(text, ';'), v6).Some? then ScanForwarded(Split(text, ';'), v6).value else fallbackIp
  {
    FirstSomeOfFour(Candidates(headers, v6), fallbackIp);
  }

  /** A recognised header among `x-real-ip` and `x-client-ip` whose text is
      no address yields the candidates of a request without it. */
  lemma NoAddressIsAbsent(headers: HeaderMap, v6: Ipv6Syntax, i: nat)
    requires i == 1 || i == 2
    requires Names[i] in headers && ToStr(headers[Names[i]]).Some?
    requires ParseIp(ToStr(headers[Names[i]]).value, v6).None?
    ensures Candidates(headers, v6) == Candidates(headers - {Names[i]}, v6)
  {
    var h2 := headers - {Names[i]};
    assert Candidates(headers, v6)[i].None?;
    forall k | 0 <= k < |Names| && k != i
      ensures Candidates(headers, v6)[k] == Candidates(h2, v6)[k]
    {
      OtherCandidateUnchanged(headers, v6, i, k);
    }
  }

  /** Removing one recognised header leaves what every other one yields. */
  lemma OtherCandidateUnchanged(headers: HeaderMap, v6: Ipv6Syntax, i: nat, k: nat)
    requires i < |Names| && k < |Names| && k != i
    ensures Candidates(headers, v6)[k] == Candidates(headers - {Names[i]}, v6)[k]
  {
    NamesDistinct(k, i);
    GetRemove(headers, Names[i], Names[k]);
    CandidateReadsItsHeader(headers, headers - {Names[i]}, v6, k);
  }

  // ---------------------------------------------------------------------
  // forwarded

  /** The search returns the value of the first segment that yields one. */
  lemma {:induction false} FirstYieldFindsFirst(segments: seq<string>, candidate: string -> Option<IpAddr>, k: nat)
    requires k < |segments| && candidate(segments[k]).Some?
    requires forall j :: 0 <= j < k ==> candidate(segments[j]).None?
    ensures FirstYield(segments, candidate) == candidate(segments[k])
    decreases k
  {
    if k > 0 {
      assert candidate(segments[0]).None?;
      assert forall j :: 0 <= j < k - 1 ==> segments[1..][j] == segments[j + 1];
      FirstYieldFindsFirst(segments[1..], candidate, k - 1);
    }
  }

  /** The search yields nothing exactly when no segment does. */
  lemma {:induction false} FirstYieldNothing(segments: seq<string>, candidate: string -> Option<IpAddr>)
    ensures FirstYield(segments, candidate).None? <==>
      forall k :: 0 <= k < |segments| ==> candidate(segments[k]).None?
    decreases |segments|
  {
    if segments != [] {
      FirstYieldNothing(segments[1..], candidate);
      assert forall k :: 1 <= k < |segments| ==> segments[k] == segments[1..][k - 1];
    }
  }

  /** What the search returns comes from a segment that yields it, with no
      earlier segment yielding anything. */
  lemma {:induction false} FirstYieldSegment(segments: seq<string>, candidate: string -> Option<IpAddr>) returns (k: nat)
    requires FirstYield(segments, candidate).Some?
    ensures k < |segments|
    ensures candidate(segments[k]) == FirstYield(segments, candidate)
    ensures forall j :: 0 <= j < k ==> candidate(segments[j]).None?
    decreases |segments|
  {
    if candidate(segments[0]).Some? {
      k := 0;
    } else {
      var k' := FirstYieldSegment(segments[1..], candidate);
      k := k' + 1;
      assert forall j :: 1 <= j < k ==> segments[j] == segments[1..][j - 1];
    }
  }

  /** The scan finds the first segment that yields an address: when segment
      `k` yields one and no earlier segment does, the scan returns it. */
  lemma ScanFindsFirst(segments: seq<string>, v6: Ipv6Syntax, k: nat)
    requires k < |segments| && ForwardedCandidate(segments[k], v6).Some?
    requires forall j :: 0 <= j < k ==> ForwardedCandidate(segments[j], v6).None?
    ensures ScanForwarded(segments, v6) == ForwardedCandidate(segments[k], v6)
  {
    FirstYieldFindsFirst(segments, s => ForwardedCandidate(s, v6), k);
  }

  /** Conversely, what the scan returns comes from a segment `k` that yields
      it, with no earlier segment yielding anything. */
  lemma ScanResultSegment(segments: seq<string>, v6: Ipv6Syntax) returns (k: nat)
    requires ScanForwarded(segments, v6).Some?
    ensures k < |segments|
    ensures ForwardedCandidate(segments[k], v6) == ScanForwarded(segments, v6)
    ensures forall j :: 0 <= j < k ==> ForwardedCandidate(segments[j], v6).None?
  {
    k := FirstYieldSegment(segments, s => ForwardedCandidate(s, v6));
  }

  /** The scan yields nothing exactly when no segment does. */
  lemma ScanNothing(segments: seq<string>, v6: Ipv6Syntax)
    ensures ScanForwarded(segments, v6).None? <==>
      forall k :: 0 <= k < |segments| ==> ForwardedCandidate(segments[k], v6).None?
  {
    FirstYieldNothing(segments, s => ForwardedCandidate(s, v6));
  }

  /** The `forwarded` step never yields an IPv6 address: the cleaned token
      has no colon, and IPv6 text always has one. */
  lemma ScanNeverV6(segments: seq<string>, v6: Ipv6Syntax)
    requires WellFormed(v6)
    ensures ScanForwarded(segments, v6).None? || ScanForwarded(segments, v6).value.V4?
  {
    if ScanForwarded(segments, v6).Some? {
      var k := ScanResultSegment(segments, v6);
      var part := Trim(segments[k]);
      assert "for=" <= part;
      CleanForTokenShape(part[4..]);
      NoColonNotV6(CleanForToken(part[4..]), v6);
    }
  }

  lemma ForwardedNeverV6(headers: HeaderMap, v6: Ipv6Syntax)
    requires WellFormed(v6)
    ensures FromForwarded(headers, v6).None? || FromForwarded(headers, v6).value.V4?
  {
    if Forwarded in headers && ToStr(headers[Forwarded]).Some? {
      ScanNeverV6(Split(ToStr(headers[Forwarded]).value, ';'), v6);
    }
  }
}
