/** IP addresses and the text forms the service reads and writes.

    `str::parse::<IpAddr>` tries the IPv4 reader first and the IPv6 reader
    only when the IPv4 reader fails, and in either case the reader must
    consume the whole text. The IPv4 grammar is given here in full (four
    decimal octets separated by dots, one to three digits each, no leading
    zero, at most 255). The IPv6 grammar and its display form are a
    parameter, `Ipv6Syntax`, of which only two facts are used: accepted text
    contains a colon and consists only of hexadecimal digits, colons and
    dots. */
module Net {
  import opened Prelude
  import Str

  datatype Ipv4Addr = Ipv4Addr(a: u8, b: u8, c: u8, d: u8)

  type Ipv6Addr = s: seq<u16> | |s| == 8 witness [0, 0, 0, 0, 0, 0, 0, 0]

  datatype IpAddr = V4(v4: Ipv4Addr) | V6(v6: Ipv6Addr)

  /** The transport peer: an address and a port. Only the address is used. */
  datatype SocketAddr = SocketAddr(ip: IpAddr, port: u16)

  /** The standard library's IPv6 reader (whole text) and display form. */
  datatype Ipv6Syntax = Ipv6Syntax(parse: string -> Option<Ipv6Addr>, render: Ipv6Addr -> string)

  predicate IsHexDigit(c: char) {
    '0' <= c <= '9' || 'a' <= c <= 'f' || 'A' <= c <= 'F'
  }

  predicate IsIpv6TextChar(c: char) {
    IsHexDigit(c) || c == ':' || c == '.'
  }

  /** What the model relies on about the IPv6 reader: it accepts only text
      made of hexadecimal digits, colons and dots, with at least one colon
      (section 2.2 of RFC 4291: every IPv6 text form has one). */
  ghost predicate WellFormed(v6: Ipv6Syntax) {
    forall s :: v6.parse(s).Some? ==>
      ':' in s && forall k :: 0 <= k < |s| ==> IsIpv6TextChar(s[k])
  }

  predicate IsDigit(c: char) {
    '0' <= c <= '9'
  }

  function DigitValue(c: char): (d: nat)
    requires IsDigit(c)
    ensures d < 10
  {
    c as int - '0' as int
  }

  function DigitChar(d: nat): (c: char)
    requires d < 10
    ensures IsDigit(c) && DigitValue(c) == d
  {
    ('0' as int + d) as char
  }

  predicate AllDigits(t: string) {
    forall k :: 0 <= k < |t| ==> IsDigit(t[k])
  }

  /** The number a run of decimal digits spells. */
  function DecimalValue(t: string): (n: nat)
    requires AllDigits(t)
  {
    if t == [] then 0 else 10 * DecimalValue(t[..|t| - 1]) + DigitValue(t[|t| - 1])
  }

  /** Decimal display of a number, without leading zeros: the digits of
      `n / 10`, then the last digit. */
  function DecimalText(n: nat): (t: string)
    ensures t != [] && AllDigits(t)
    ensures DecimalValue(t) == n
    ensures t[0] == '0' ==> n == 0
    ensures n < 10 ==> |t| == 1
    ensures n < 100 ==> |t| <= 2
    ensures n < 1000 ==> |t| <= 3
    decreases n
  {
    if n < 10 then [DigitChar(n)]
    else
      var p := DecimalText(n / 10);
      var t := p + [DigitChar(n % 10)];
      assert t[..|t| - 1] == p;
      t
  }

  /** Digits are read greedily: the length of the run of decimal digits
      at the start of `s`. */
  function DigitRun(s: string): (n: nat)
    ensures n <= |s|
    ensures forall k :: 0 <= k < n ==> IsDigit(s[k])
    ensures n == |s| || !IsDigit(s[n])
  {
    if |s| > 0 && IsDigit(s[0]) then 1 + DigitRun(s[1..]) else 0
  }

  /** One IPv4 octet at the start of `s`, and the text after it. The whole
      run of digits is read, and it is rejected when it is empty, longer
      than three digits, above 255, or has a leading zero (octal-looking
      text is refused). */
  function ReadOctet(s: string): (r: Option<(u8, string)>)
    ensures r.Some? ==> |r.value.1| < |s|
  {
    var n := DigitRun(s);
    if n == 0 || n > 3 then None
    else
      var v := DecimalValue(s[..n]);
      if v > 255 then None
      else if s[0] == '0' && n > 1 then None
      else Some((v as u8, s[n..]))
  }

  /** Octet number `i`, preceded by a dot unless it is the first. */
  function ReadSeparatedOctet(s: string, i: nat): (r: Option<(u8, string)>)
    ensures r.Some? ==> |r.value.1| < |s|
  {
    if i == 0 then ReadOctet(s)
    else if |s| > 0 && s[0] == '.' then ReadOctet(s[1..])
    else None
  }

  /** The octets from number `i` to number 3, and the text left after them. */
  function ReadOctets(s: string, i: nat): (r: Option<(seq<u8>, string)>)
    requires i <= 4
    ensures r.Some? ==> |r.value.0| == 4 - i && |r.value.1| <= |s|
    decreases 4 - i
  {
    if i == 4 then Some(([], s))
    else
      match ReadSeparatedOctet(s, i)
      case None => None
      case Some((o, rest)) =>
        match ReadOctets(rest, i + 1)
        case None => None
        case Some((os, left)) => Some(([o] + os, left))
  }

  /** The IPv4 reader: an address at the start of `s` and the text it left
      unread, which need not be empty. */
  function ReadIpv4(s: string): (r: Option<(Ipv4Addr, string)>)
  {
    match ReadOctets(s, 0)
    case None => None
    case Some((os, rest)) => Some((Ipv4Addr(os[0], os[1], os[2], os[3]), rest))
  }

  /** `str::parse::<IpAddr>`. When the IPv4 reader succeeds but leaves text
      over, the parse fails without trying IPv6. */
  function ParseIp(s: string, v6: Ipv6Syntax): (r: Option<IpAddr>)
  {
    match ReadIpv4(s)
    case Some((a, rest)) => if rest == [] then Some(V4(a)) else None
    case None =>
      match v6.parse(s)
      case Some(x) => Some(V6(x))
      case None => None
  }

  /** Octet number `i` written in display form, after a dot unless it is
      the first. */
  function OctetField(n: u8, i: nat): (t: string) {
    if i == 0 then DecimalText(n as nat) else "." + DecimalText(n as nat)
  }

  /** The dotted text of the octets from number `i` on. */
  function OctetsText(os: seq<u8>, i: nat): (t: string)
    decreases |os|
  {
    if os == [] then "" else OctetField(os[0], i) + OctetsText(os[1..], i + 1)
  }

  function Octets(a: Ipv4Addr): (os: seq<u8>) {
    [a.a, a.b, a.c, a.d]
  }

  /** Display of an IPv4 address: its four octets in decimal, separated by
      dots. */
  function FormatIpv4(a: Ipv4Addr): (t: string) {
    OctetsText(Octets(a), 0)
  }

  /** `IpAddr::to_string`. */
  function DisplayIp(ip: IpAddr, v6: Ipv6Syntax): (t: string) {
    match ip
    case V4(a) => FormatIpv4(a)
    case V6(x) => v6.render(x)
  }

  /** Whatever the IPv4 reader accepts contains a dot, and whatever a
      well-formed IPv6 reader accepts contains a colon: a parse of text
      without a colon is never IPv6. */
  lemma NoColonNotV6(s: string, v6: Ipv6Syntax)
    requires WellFormed(v6)
    requires ':' !in s
    ensures ParseIp(s, v6).None? || ParseIp(s, v6).value.V4?
  {
    if ReadIpv4(s).None? {
      assert v6.parse(s).None?;
    }
  }

  /** Text without a colon that does not start with an octet (no digit
      first, or a run of more than three digits) is not an address. */
  lemma NoLeadingOctetIsNotAddress(s: string, v6: Ipv6Syntax)
    requires WellFormed(v6)
    requires ':' !in s && ReadOctet(s).None?
    ensures ParseIp(s, v6).None?
  {
    assert ReadOctets(s, 0).None?;
    assert v6.parse(s).None?;
  }

  /** Every IPv4 address is written with dots and every IPv6 one with a
      colon: text with neither is not an address. */
  lemma NoSeparatorIsNotAddress(s: string, v6: Ipv6Syntax)
    requires WellFormed(v6)
    requires ':' !in s && '.' !in s
    ensures ParseIp(s, v6).None?
  {
    if ReadIpv4(s).Some? {
      ReadIpv4Canonical(s);
      assert false;
    }
    assert v6.parse(s).None?;
  }

  /** An IPv4 address followed by more text is not an address, and the
      IPv6 reader is never consulted for it. */
  lemma TrailingTextIsNotAddress(a: Ipv4Addr, rest: string, v6: Ipv6Syntax)
    requires rest != [] && !IsDigit(rest[0])
    ensures ParseIp(FormatIpv4(a) + rest, v6).None?
  {
    ReadIpv4Format(a, rest);
  }

  /** Text after an IPv4 address that does not continue its last octet
      makes the whole no address: the reader does not fall back to IPv6. */
  lemma AddressThenTextIsNotAddress(s: string, rest: string, v6: Ipv6Syntax)
    requires ParseIp(s, v6).Some? && ParseIp(s, v6).value.V4?
    requires rest != [] && !IsDigit(rest[0])
    ensures ParseIp(s + rest, v6).None?
  {
    ParseIpv4Canonical(s, v6);
    TrailingTextIsNotAddress(ParseIp(s, v6).value.v4, rest, v6);
  }

  /** Text that begins or ends with whitespace is not an address. */
  lemma PaddedIsNotAddress(s: string, v6: Ipv6Syntax)
    requires WellFormed(v6)
    requires s != [] && (Str.IsWhitespace(s[0]) || Str.IsWhitespace(s[|s| - 1]))
    ensures ParseIp(s, v6).None?
  {
    assert !IsIpv6TextChar(s[0]) || !IsIpv6TextChar(s[|s| - 1]);
    match ReadIpv4(s)
    case Some((a, rest)) =>
      if rest == [] {
        ReadIpv4Canonical(s);
        FormatIpv4Shape(a);
      }
    case None =>
      assert v6.parse(s).None?;
  }

  /** The display form of an address is made of digits and dots, and
      starts and ends with a digit. */
  lemma FormatIpv4Shape(a: Ipv4Addr)
    ensures IsDottedNumber(FormatIpv4(a), true)
  {
    OctetsTextShape(Octets(a), 0);
  }

  /** Text made of digits and dots only. */
  predicate IsDottedDigits(t: string) {
    forall k :: 0 <= k < |t| ==> IsDigit(t[k]) || t[k] == '.'
  }

  lemma OctetFieldShape(n: u8, i: nat)
    ensures IsDottedNumber(OctetField(n, i), i == 0)
  {
  }

  /** Text that ends in a digit, is made of digits and dots, and starts
      with a digit when `first` holds. */
  predicate IsDottedNumber(t: string, first: bool) {
    t != [] && IsDigit(t[|t| - 1]) && (first ==> IsDigit(t[0])) && IsDottedDigits(t)
  }

  lemma DottedNumberConcat(f: string, r: string, first: bool)
    requires IsDottedNumber(f, first) && IsDottedNumber(r, false)
    ensures IsDottedNumber(f + r, first)
  {
  }

  /** Dotted octets are digits and dots only, end in a digit and, from the
      first octet on, also start with one. */
  lemma {:induction false} OctetsTextShape(os: seq<u8>, i: nat)
    requires os != []
    ensures IsDottedNumber(OctetsText(os, i), i == 0)
    decreases |os|
  {
    var f := OctetField(os[0], i);
    var r := OctetsText(os[1..], i + 1);
    OctetFieldShape(os[0], i);
    if |os| > 1 {
      OctetsTextShape(os[1..], i + 1);
      DottedNumberConcat(f, r, i == 0);
    } else {
      assert r == [];
      assert f + r == f;
    }
  }

  /** The octet reader accepts the display form of an octet, stopping where
      the digits stop. */
  lemma ReadOctetText(n: u8, tail: string)
    requires tail == [] || !IsDigit(tail[0])
    ensures ReadOctet(DecimalText(n as nat) + tail) == Some((n, tail))
  {
    var t := DecimalText(n as nat);
    var s := t + tail;
    var run := DigitRun(s);
    assert forall k :: 0 <= k < |t| ==> s[k] == t[k];
    assert |t| == |s| || s[|t|] == tail[0];
    assert run == |t|;
    assert s[..run] == t;
    assert s[run..] == tail;
  }

  lemma ReadSeparatedOctetText(n: u8, i: nat, tail: string)
    requires tail == [] || !IsDigit(tail[0])
    ensures ReadSeparatedOctet(OctetField(n, i) + tail, i) == Some((n, tail))
  {
    var s := OctetField(n, i) + tail;
    if i > 0 {
      assert s[1..] == DecimalText(n as nat) + tail;
    }
    ReadOctetText(n, tail);
  }

  /** Dotted text, split after its first field: what follows the field
      starts with a dot or is the text after all the octets. */
  lemma OctetsTextThenRest(os: seq<u8>, i: nat, rest: string)
    requires i < 4 && |os| == 4 - i
    requires rest == [] || !IsDigit(rest[0])
    ensures var tail := OctetsText(os[1..], i + 1) + rest;
      && OctetsText(os, i) + rest == OctetField(os[0], i) + tail
      && (tail == [] || !IsDigit(tail[0]))
  {
    var tail := OctetsText(os[1..], i + 1) + rest;
    if i + 1 < 4 {
      assert OctetsText(os[1..], i + 1)[0] == '.';
      assert tail[0] == '.';
    } else {
      assert tail == rest;
    }
  }

  /** One step of the octet loop: a separated octet, then the rest. */
  lemma ReadOctetsStep(s: string, i: nat, o: u8, t: string, os: seq<u8>, left: string)
    requires i < 4
    requires ReadSeparatedOctet(s, i) == Some((o, t))
    requires ReadOctets(t, i + 1) == Some((os, left))
    ensures ReadOctets(s, i) == Some(([o] + os, left))
  {
  }

  /** Reading back the dotted text of the remaining octets gives those
      octets. */
  lemma {:induction false} ReadOctetsText(os: seq<u8>, i: nat, rest: string)
    requires i <= 4 && |os| == 4 - i
    requires rest == [] || !IsDigit(rest[0])
    ensures ReadOctets(OctetsText(os, i) + rest, i) == Some((os, rest))
    decreases 4 - i
  {
    if i < 4 {
      var tail := OctetsText(os[1..], i + 1) + rest;
      var s := OctetField(os[0], i) + tail;
      OctetsTextThenRest(os, i, rest);
      ReadOctetsText(os[1..], i + 1, rest);
      ReadSeparatedOctetText(os[0], i, tail);
      ReadOctetsStep(s, i, os[0], tail, os[1..], rest);
      assert [os[0]] + os[1..] == os;
    } else {
      assert OctetsText(os, i) + rest == rest;
    }
  }

  /** Reading back what `FormatIpv4` writes gives the same address, however
      the text goes on, provided it does not go on with a digit. */
  lemma ReadIpv4Format(a: Ipv4Addr, rest: string)
    requires rest == [] || !IsDigit(rest[0])
    ensures ReadIpv4(FormatIpv4(a) + rest) == Some((a, rest))
  {
    ReadOctetsText(Octets(a), 0, rest);
  }

  /** The display form of every IPv4 address parses back to that address. */
  lemma ParseFormatIpv4(a: Ipv4Addr, v6: Ipv6Syntax)
    ensures ParseIp(FormatIpv4(a), v6) == Some(V4(a))
  {
    ReadIpv4Format(a, []);
    assert FormatIpv4(a) + [] == FormatIpv4(a);
  }

  lemma DigitCharOfValue(c: char)
    requires IsDigit(c)
    ensures DigitChar(DigitValue(c)) == c
  {
  }

  /** A run of digits that does not start with `0` spells a positive
      number. */
  lemma {:induction false} DecimalValuePositive(t: string)
    requires t != [] && AllDigits(t) && t[0] != '0'
    ensures DecimalValue(t) > 0
    decreases |t|
  {
    if |t| > 1 {
      DecimalValuePositive(t[..|t| - 1]);
    }
  }

  lemma LastDigit(q: nat, d: nat)
    requires d < 10
    ensures (10 * q + d) / 10 == q && (10 * q + d) % 10 == d
  {
  }

  /** Digits without a leading zero are the display form of the number
      they spell: no other spelling of a number is canonical. */
  lemma {:induction false} DecimalTextCanonical(t: string)
    requires t != [] && AllDigits(t)
    requires |t| > 1 ==> t[0] != '0'
    ensures t == DecimalText(DecimalValue(t))
    decreases |t|
  {
    var v := DecimalValue(t);
    var c := t[|t| - 1];
    DigitCharOfValue(c);
    if |t| > 1 {
      var p := t[..|t| - 1];
      assert v == 10 * DecimalValue(p) + DigitValue(c);
      DecimalTextCanonical(p);
      DecimalValuePositive(p);
      LastDigit(DecimalValue(p), DigitValue(c));
      assert v >= 10;
      assert DecimalText(v) == DecimalText(v / 10) + [DigitChar(v % 10)];
      assert v / 10 == DecimalValue(p) && v % 10 == DigitValue(c);
      assert t == p + [c];
    }
  }

  /** What the octet reader consumed is the display form of what it read. */
  lemma ReadOctetCanonical(s: string)
    requires ReadOctet(s).Some?
    ensures s == DecimalText(ReadOctet(s).value.0 as nat) + ReadOctet(s).value.1
  {
    var n := DigitRun(s);
    DecimalTextCanonical(s[..n]);
    assert s == s[..n] + s[n..];
  }

  /** What the reader consumed for octet `i` is its display form. */
  lemma ReadSeparatedOctetCanonical(s: string, i: nat)
    requires ReadSeparatedOctet(s, i).Some?
    ensures s == OctetField(ReadSeparatedOctet(s, i).value.0, i) + ReadSeparatedOctet(s, i).value.1
  {
    if i == 0 {
      ReadOctetCanonical(s);
    } else {
      assert s[0] == '.' && ReadSeparatedOctet(s, i) == ReadOctet(s[1..]);
      var (o, rest) := ReadOctet(s[1..]).value;
      ReadOctetCanonical(s[1..]);
      assert OctetField(o, i) == "." + DecimalText(o as nat);
      assert s == "." + s[1..];
    }
  }

  /** What the reader consumed for the octets from number `i` on is their
      dotted text. */
  lemma {:induction false} ReadOctetsCanonical(s: string, i: nat)
    requires i <= 4 && ReadOctets(s, i).Some?
    ensures s == OctetsText(ReadOctets(s, i).value.0, i) + ReadOctets(s, i).value.1
    decreases 4 - i
  {
    if i < 4 {
      var (o, rest) := ReadSeparatedOctet(s, i).value;
      ReadSeparatedOctetCanonical(s, i);
      ReadOctetsCanonical(rest, i + 1);
      var (os, left) := ReadOctets(rest, i + 1).value;
      assert ReadOctets(s, i).value == ([o] + os, left);
      assert ([o] + os)[1..] == os;
    }
  }

  /** What the IPv4 reader consumed is the display form of what it read. */
  lemma ReadIpv4Canonical(s: string)
    requires ReadIpv4(s).Some?
    ensures s == FormatIpv4(ReadIpv4(s).value.0) + ReadIpv4(s).value.1
  {
    ReadOctetsCanonical(s, 0);
    var (os, rest) := ReadOctets(s, 0).value;
    var a := ReadIpv4(s).value.0;
    assert os == Octets(a);
  }

  /** An IPv4 text that parses as a whole is exactly the display form of the
      address it parses to: the IPv4 text form is canonical. Together with
      `ParseFormatIpv4` this makes `FormatIpv4` and `ParseIp` inverse on
      IPv4 addresses. */
  lemma ParseIpv4Canonical(s: string, v6: Ipv6Syntax)
    requires ParseIp(s, v6).Some? && ParseIp(s, v6).value.V4?
    ensures s == FormatIpv4(ParseIp(s, v6).value.v4)
  {
    assert ReadIpv4(s).Some?;
    ReadIpv4Canonical(s);
    assert s == FormatIpv4(ReadIpv4(s).value.0) + [];
  }
}
