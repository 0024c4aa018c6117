# hello-ip: client address resolution

hello-ip is a small HTTP service with two routes. `GET /` answers with the
IP address it believes the client has. `GET /livez` answers with the fixed
text `Healthy`. The decision logic is `extract_client_ip` in `src/main.rs`.
It tries four request headers in a fixed order and returns the first address
one of them yields. When no header yields an address, it returns the transport
peer's address:

1. `x-forwarded-for`: the text before the first comma, with surrounding
   whitespace trimmed.
2. `x-real-ip`: the whole value, as sent.
3. `x-client-ip`: the whole value, as sent.
4. `forwarded`: the value is split on `;`, and each part is trimmed. A part
   counts only when it starts with `for=`. The rest of that part is cleaned
   in four steps:
   - every leading and trailing `"` is removed;
   - the text is cut at the first `:`;
   - every leading and trailing `[` is removed;
   - every leading and trailing `]` is removed.

   The cleaned text is then parsed. The first part that parses decides.

Every header is trusted as sent: no check is made that an upstream proxy set
it.

The model is purely functional, like the resolver itself. It has these
modules:

- `Str`: the string operations the resolver uses.
  - `split` on a character.
  - `trim`, with the full Unicode White_Space set.
  - `trim_matches`, which removes whole runs of a character at both ends.
- `Net`: the address types, the parser and the display form.
  - The IPv4 grammar of the standard parser is written out in full. Exactly
    four dot-separated decimal octets, each at most 255 and without a
    leading zero.
  - When the IPv4 reader succeeds with text left over, the parse fails.
    IPv6 is not tried.
  - The IPv4 display form is written out in full.
  - IPv6 is a parameter `Ipv6Syntax` (a reader and a display function).
    `WellFormed` states the one fact the proofs rely on: any text the IPv6
    reader accepts contains a colon and consists only of hexadecimal digits,
    colons and dots.
- `Http`: the header map, `HeaderMap::get`, and `HeaderValue::to_str`.
  `to_str` accepts tab and bytes 32 to 126.
- `Resolver`: the four steps and their order.
- `Handlers`: the two route handlers.
- `Scenarios`: the resolver applied to concrete header shapes. Each shape is
  stated for any dotted-decimal address text rather than for one literal
  address.

`ExtractClientIp` is proved equal to a declarative policy, `FirstSome` over
the four header candidates. The rest of the chain lemmas are stated against
that policy.

Several behaviours of the code differ from what a reader of proxy
conventions might expect. The model follows the code, and the proofs show
what it does:

- `x-real-ip` and `x-client-ip` are not trimmed. A padded value yields
  nothing and resolution moves on (`Resolver.PaddedValueIsAbsent`,
  `Scenarios.PaddedXClientIp`).
- Quotes and brackets in `forwarded` are removed as whole runs, not as one
  pair.
- The text is cut at the first `:` before the brackets are removed. So a
  bracketed IPv6 value such as `for="[2001:db8::1]:8080"` reduces to
  `2001`. It never yields an IPv6 address; the fallback is returned
  (`Scenarios.ForwardedBracketedIpv6`, `Resolver.ScanNeverV6`).
- `for=` is matched case-sensitively (`Scenarios.ForwardedCapitalFor`).
- A `forwarded` value is split on `;` only. A comma-separated list of
  `for=` elements is one part, and it does not parse
  (`Scenarios.ForwardedCommaList`).
- The cleaned `forwarded` token can still begin with `[`. `][1.2.3.4`
  cleans to `[1.2.3.4`, because the `[` run is removed before the `]` run
  (`Scenarios.CloseThenOpenBracket`). `Resolver.CleanForTokenShape` proves
  what does hold:
  - the cleaned token has no `:`;
  - it neither begins nor ends with `]`;
  - it is a contiguous part of the token.

## Model

| member | source | states |
|---|---|---|
| Str.TrimStartMatchesSpec | src/main.rs:85 | removing leading matches leaves a suffix of the text; every removed character matches; the result does not start with a match |
| Str.TrimEndMatchesSpec | src/main.rs:85 | removing trailing matches leaves a prefix; every removed character matches; the result does not end with a match |
| Str.TrimMatchesSpec | src/main.rs:85-90 | `trim_matches` leaves a contiguous run of the text; everything removed before and after it matches; the result neither starts nor ends with a match |
| Str.TrimMatchesKeeps | src/main.rs:85-90 | `trim_matches` leaves text that neither starts nor ends with a match unchanged |
| Str.TrimMatchesIdempotent | src/main.rs:85-90 | `trim_matches` applied twice equals applied once |
| Str.TrimSpec | src/main.rs:55 | `trim` leaves a contiguous run of the text that neither starts nor ends with whitespace, and every character it removed before or after that run is whitespace |
| Str.SplitSpec | src/main.rs:54 | no piece of `split` contains the separator, and joining the pieces with it gives back the text |
| Str.SplitFirstIsPrefix | src/main.rs:54 | the first piece of `split` is a prefix of the text, followed by the separator or the end |
| Str.SplitNoSeparator | src/main.rs:80 | text without the separator splits into itself alone |
| Str.SplitAfterField | src/main.rs:80 | a separator-free field followed by the separator splits off as the first piece |
| Str.SplitJoin | src/main.rs:80 | splitting the joined separator-free pieces gives back the pieces |
| Http.GetUpdate | src/main.rs:52 | `Get` (`HeaderMap::get`): setting one header changes the lookup of that name only |
| Http.GetRemove | src/main.rs:62 | `Get`: removing one header makes the lookup of that name miss and leaves every other name's lookup unchanged |
| Http.ToStr | src/main.rs:53 | `to_str` succeeds exactly when every byte is tab or visible ASCII, and then keeps every byte as a character |
| Http.ToStrEncode | src/main.rs:53 | visible text sent as a header value reads back as the same text |
| Net.DecimalText | src/main.rs:44 | the decimal form of a number is non-empty digits spelling that number, has no leading zero, and has at most three digits below 1000 |
| Net.FormatIpv4Shape | src/main.rs:44 | `FormatIpv4` (`to_string` of an IPv4 address): the display form is digits and dots, starting and ending with a digit |
| Net.ReadOctetText | src/main.rs:55 | the reader reads an octet's decimal form back when no digit follows it |
| Net.ParseFormatIpv4 | src/main.rs:55 | `ParseIp` (`parse()`) of every IPv4 address's `FormatIpv4` display form gives back that address |
| Net.DecimalTextCanonical | src/main.rs:55 | a digit run without a leading zero is the decimal form of its value |
| Net.ReadIpv4Canonical | src/main.rs:55 | whatever `ReadIpv4`, the IPv4 reader, accepts is the display form of the address it read, followed by the unread text |
| Net.ParseIpv4Canonical | src/main.rs:64 | text that `ParseIp` reads as IPv4 is exactly that address's display form: the converse of `ParseFormatIpv4` |
| Net.NoColonNotV6 | src/main.rs:92 | text without a colon never parses as IPv6 |
| Net.NoLeadingOctetIsNotAddress | src/main.rs:64 | colon-free text that does not start with an octet is not an address |
| Net.NoSeparatorIsNotAddress | src/main.rs:72 | text with neither a dot nor a colon is not an address |
| Net.TrailingTextIsNotAddress | src/main.rs:55 | `ParseIp`: an IPv4 display form followed by a non-digit is not an address, and IPv6 is not tried instead |
| Net.AddressThenTextIsNotAddress | src/main.rs:92 | IPv4 text followed by a non-digit is not an address |
| Net.PaddedIsNotAddress | src/main.rs:64 | text that starts or ends with whitespace is not an address |
| Resolver.ExtractClientIp | src/main.rs:51-101 | the result is the first address the four headers yield, in the order x-forwarded-for, x-real-ip, x-client-ip, forwarded, or else the fallback |
| Resolver.FirstSomeIsCandidateOrFallback | src/main.rs:51-100 | the first-present policy returns the fallback or one of the candidates, and the fallback when no candidate is present |
| Resolver.FallbackWhenNothingYields | src/main.rs:100 | the result is the fallback when no header yields an address, and otherwise the fallback or an address some header yielded |
| Resolver.NoHeadersGiveFallback | src/main.rs:100 | without any of the four headers the result is the fallback |
| Resolver.CandidateReadsItsHeader | src/main.rs:52-98 | what each step yields depends only on its own header |
| Resolver.Precedence | src/main.rs:52-98 | when earlier steps yield nothing and step k yields an address, that address is the result, whatever the later headers say |
| Resolver.SingleHeader | src/main.rs:52-98 | with only one recognised header, the result is what that header yields, or the fallback |
| Resolver.NotVisibleIsAbsent | src/main.rs:53-79 | a recognised header whose value is not visible ASCII acts as if it were absent |
| Resolver.XForwardedForFirstEntryOnly | src/main.rs:52-56 | two x-forwarded-for values with the same first comma field resolve the same |
| Resolver.XForwardedForLaterEntriesIgnored | src/main.rs:54 | entries after the first comma of x-forwarded-for never change the result |
| Resolver.XForwardedForDecides | src/main.rs:52-60 | step 1 (`FromXForwardedFor`): whenever the trimmed text before the first comma of x-forwarded-for (all of it when there is no comma) is an address, that address is the result, whatever the other headers are |
| Resolver.PaddedValueIsAbsent | src/main.rs:62-76 | an x-real-ip or x-client-ip value padded with whitespace acts as if the header were absent |
| Resolver.NoAddressIsAbsent | src/main.rs:62-76 | steps 2 and 3 (`FromXRealIp`, `FromXClientIp`): an x-real-ip or x-client-ip value that does not parse leaves every candidate as if the header were absent |
| Resolver.OtherCandidateUnchanged | src/main.rs:52-98 | removing one recognised header leaves the other three candidates unchanged |
| Resolver.HostPartShape | src/main.rs:85-88 | `HostPart`: the unquoted text cut at the first colon has no colon, starts the unquoted token, and is a contiguous part of the token |
| Resolver.StripBracketsShape | src/main.rs:89-90 | removing `[` runs and then `]` runs leaves a contiguous part of the text that neither starts nor ends with `]` |
| Resolver.CleanForTokenShape | src/main.rs:83-90 | `CleanForToken`: the cleaned token has no colon, neither starts nor ends with `]`, and is a contiguous part of the token |
| Resolver.FirstYieldFindsFirst | src/main.rs:80-96 | `FirstYield`, the early-returning segment loop: it returns what the first segment that yields gives |
| Resolver.FirstYieldNothing | src/main.rs:80-96 | the segment loop yields nothing exactly when no segment yields |
| Resolver.FirstYieldSegment | src/main.rs:80-96 | whatever the segment loop yields comes from a segment all of whose predecessors yield nothing |
| Resolver.ScanFindsFirst | src/main.rs:80-96 | `ScanForwarded`: the forwarded scan returns the address of the first `for=` segment that parses |
| Resolver.ScanResultSegment | src/main.rs:80-96 | the forwarded scan's address comes from a segment with no earlier yielding segment |
| Resolver.ScanNothing | src/main.rs:80-96 | the forwarded scan yields nothing exactly when no segment yields |
| Resolver.ScanNeverV6 | src/main.rs:83-92 | the forwarded scan never yields an IPv6 address |
| Resolver.ForwardedNeverV6 | src/main.rs:78-98 | step 4 (`FromForwarded`): the forwarded header never yields an IPv6 address |
| Resolver.XClientIpDecides | src/main.rs:70-76 | step 3 (`FromXClientIp`): when steps 1 and 2 yield nothing and the x-client-ip value, as sent, is an address, that address is the result |
| Resolver.ForwardedDecides | src/main.rs:78-100 | step 4 (`FromForwarded`): when steps 1 to 3 yield nothing, the result is the address the scan of the `;`-separated forwarded value yields, or else the fallback |
| Handlers.DefaultHandlerParsesBack | src/main.rs:38-45 | `DefaultHandler`: the body of `GET /` parses back to the resolved address (IPv4 always; IPv6 when its display form does) |
| Handlers.DefaultHandlerShowsPeer | src/main.rs:38-45 | `DefaultHandler`: without any recognised header, the body of `GET /` is the peer's address in display form, whatever its port |
| Handlers.LivezHandler | src/main.rs:47-49 | the body of `GET /livez` is `Healthy` |
| Handlers.LivezIsNotAnAddress | src/main.rs:48 | the health text never parses as an address |
| Scenarios.FormatIpv4IsAddressText | src/main.rs:44 | every IPv4 display form is dotted-decimal address text and parses back to the address |
| Scenarios.XForwardedForList | src/main.rs:52-56 | for `x-forwarded-for: X, Y` the result is X |
| Scenarios.PlainWordXff | src/main.rs:55 | a word that does not start with a digit in x-forwarded-for yields nothing |
| Scenarios.XRealIpAfterXff | src/main.rs:62-68 | step 2 (`FromXRealIp`): when x-forwarded-for yields nothing and the x-real-ip value, as sent, is an address, that address is the result |
| Scenarios.XRealIpAfterWord | src/main.rs:52-66 | `x-forwarded-for: <word>` with `x-real-ip: X` resolves to X |
| Scenarios.PaddedXClientIp | src/main.rs:70-76 | `x-client-ip: "  X  "` alone resolves to the fallback, because the value is not trimmed |
| Scenarios.ForSegment | src/main.rs:81-92 | `ForwardedCandidate`: a segment `for=` followed by a token that does not end in whitespace yields what its cleaned token parses to |
| Scenarios.OneSegment | src/main.rs:80 | a forwarded value without `;` is one segment |
| Scenarios.TwoSegments | src/main.rs:80-96 | of two forwarded segments, the first decides when it yields, else the second |
| Scenarios.ForwardedSkipsBadToken | src/main.rs:80-96 | `forwarded: for=<word>;for=X` resolves to X |
| Scenarios.ForwardedCommaList | src/main.rs:80-92 | `forwarded: for=X, for=Y` alone resolves to the fallback |
| Scenarios.ForwardedCapitalFor | src/main.rs:82 | `forwarded: For=X` alone resolves to the fallback |
| Scenarios.QuotedHostPart | src/main.rs:85-88 | a quoted `host:port` token reduces to the host |
| Scenarios.ForwardedQuotedWithPort | src/main.rs:78-98 | `forwarded: for="X:port"` resolves to X |
| Scenarios.ForwardedBracketedIpv6 | src/main.rs:78-100 | `forwarded: by=Y; for="[g:…"` resolves to the fallback, because the token reduces to one hexadecimal group |
| Scenarios.CloseThenOpenBracket | src/main.rs:89-92 | the token `][X` cleans to `[X`, which does not parse |

## Left out

- `main`: tracing setup, the router, reading `PORT`, binding and serving. This is framework wiring with no decision logic.
- The `info!` log line of `default_handler`: logging output is not modelled.
- The async runtime and `ConnectInfo` extraction: the peer's socket address is an input.
- Header names are matched case-insensitively, and a name can carry several values. The model's header map is instead a map from lower-case name to the first value sent under it, which is what `HeaderMap::get` returns.
- The IPv6 grammar and display form (section 4 of RFC 5952) are a parameter. Only `WellFormed` is assumed of them.
- Handlers.DefaultHandlerParsesBack: for an IPv6 result it assumes the IPv6 display form parses back (`DisplayParsesBack`), since that grammar is a parameter.
- Resolver.CleanForTokenShape: states no `]` at either end rather than no bracket at either end, because a leading `[` can survive (`][1.2.3.4` cleans to `[1.2.3.4`).
- Determinism: every member is a function, so equal inputs give equal results by construction; no lemma states it.
- Scenarios: each shape is proved for any dotted-decimal address text. The literal example addresses are not restated one by one.
