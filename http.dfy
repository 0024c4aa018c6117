/** The part of the HTTP header collection the resolver sees.

    A header map is looked up case-insensitively and may hold several
    values per name; `get` returns the first. The model keys the map by the
    lower-case name and keeps only that first value, as raw bytes. */
module Http {
  import opened Prelude

  type HeaderValue = seq<u8>

  /** Lower-case header name to the first value sent under that name. */
  type HeaderMap = map<string, HeaderValue>

  /** `HeaderMap::get`. */
  function Get(headers: HeaderMap, name: string): (r: Option<HeaderValue>)
  {
    if name in headers then Some(headers[name]) else None
  }

  /** Setting one header changes what `get` returns for that name only. */
  lemma GetUpdate(headers: HeaderMap, name: string, value: HeaderValue, other: string)
    ensures Get(headers[name := value], other) ==
      if other == name then Some(value) else Get(headers, other)
  {
  }

  /** Removing one header makes `get` miss that name and nothing else. */
  lemma GetRemove(headers: HeaderMap, name: string, other: string)
    ensures Get(headers - {name}, other) ==
      if other == name then None else Get(headers, other)
  {
  }

  /** The bytes `HeaderValue::to_str` accepts: horizontal tab and the
      printable ASCII range. */
  predicate IsVisibleAscii(b: u8) {
    b == 9 || (32 <= b < 127)
  }

  predicate IsVisibleText(s: string) {
    forall k :: 0 <= k < |s| ==> s[k] == '\t' || (' ' <= s[k] <= '~')
  }

  /** Visible text joined to visible text is visible. */
  lemma VisibleConcat(s: string, t: string)
    requires IsVisibleText(s) && IsVisibleText(t)
    ensures IsVisibleText(s + t)
  {
    forall k | 0 <= k < |s + t|
      ensures (s + t)[k] == '\t' || (' ' <= (s + t)[k] <= '~')
    {
      if k < |s| {
        assert (s + t)[k] == s[k];
      } else {
        assert (s + t)[k] == t[k - |s|];
      }
    }
  }

  /** `HeaderValue::to_str`: the value as text when every byte is visible
      ASCII, and nothing otherwise. */
  function ToStr(v: HeaderValue): (r: Option<string>)
    ensures r.Some? <==> forall k :: 0 <= k < |v| ==> IsVisibleAscii(v[k])
    ensures r.Some? ==> |r.value| == |v| && IsVisibleText(r.value)
    ensures r.Some? ==> forall k :: 0 <= k < |v| ==> r.value[k] as int == v[k] as int
    decreases |v|
  {
    if v == [] then Some("")
    else if !IsVisibleAscii(v[0]) then None
    else match ToStr(v[1..])
      case None => None
      case Some(rest) => Some([v[0] as int as char] + rest)
  }

  /** The bytes of a visible-ASCII text: how a client puts it on the wire. */
  function Encode(s: string): (v: HeaderValue)
    requires IsVisibleText(s)
    ensures |v| == |s|
    ensures forall k :: 0 <= k < |s| ==> v[k] as int == s[k] as int
  {
    seq(|s|, k requires 0 <= k < |s| => s[k] as int as u8)
  }

  /** `to_str` gives back the text a visible-ASCII value was encoded from. */
  lemma ToStrEncode(s: string)
    requires IsVisibleText(s)
    ensures ToStr(Encode(s)) == Some(s)
  {
    var r := ToStr(Encode(s));
    assert r.Some?;
    assert r.value == s;
  }
}
