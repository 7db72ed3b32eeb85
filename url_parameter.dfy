/**
 * `getUrlParameter(name)` in js/main.js: the value of a query-string key,
 * found with the regular expression `[\?&]name=([^&#]*)` on
 * `location.search`, with `+` turned into a space before
 * `decodeURIComponent`. The query string and the decoder are parameters.
 */
module UrlParameter {
  import opened JsValues
  import opened JsStrings

  /** A character with a special meaning in a regular expression. */
  predicate IsRegexMeta(c: char) {
    c in "\\^$.|?*+()[]{}"
  }

  /** A key the function's pattern reads literally: no metacharacter apart
      from at most one `[` and at most one `]`, which the function escapes
      (it escapes only the first of each). */
  predicate LiteralKey(name: string) {
    && Occurrences(name, '[') <= 1
    && Occurrences(name, ']') <= 1
    && forall k :: 0 <= k < |name| ==> (IsRegexMeta(name[k]) ==> name[k] == '[' || name[k] == ']')
  }

  /** `[\?&]name=` matches at position `p` of the query string: a `?` or
      `&`, then the whole key, then `=`. */
  predicate KeyAt(search: string, name: string, p: nat) {
    && p + |name| + 2 <= |search|
    && (search[p] == '?' || search[p] == '&')
    && search[p + 1..p + 1 + |name|] == name
    && search[p + 1 + |name|] == '='
  }

  /** The match `exec` reports: the leftmost one. */
  ghost predicate LeftmostKeyAt(search: string, name: string, p: nat) {
    KeyAt(search, name, p) && forall q :: 0 <= q < p ==> !KeyAt(search, name, q)
  }

  /** The leftmost match at or after `from`, if any. */
  function FindKey(search: string, name: string, from: nat): (r: Option<nat>)
    ensures r.Some? ==> from <= r.value && KeyAt(search, name, r.value)
    ensures r.Some? ==> forall q :: from <= q < r.value ==> !KeyAt(search, name, q)
    ensures r.None? ==> forall q :: from <= q ==> !KeyAt(search, name, q)
    decreases |search| - from
  {
    if from + |name| + 2 > |search| then None
    else if KeyAt(search, name, from) then Some(from)
    else FindKey(search, name, from + 1)
  }

  /** The greedy group `([^&#]*)`: the longest prefix of `s` without `&` or
      `#`, which ends at the first of them or at the end of `s`. */
  function ValueRun(s: string): (r: string)
    ensures |r| <= |s| && r == s[..|r|]
    ensures '&' !in r && '#' !in r
    ensures |r| < |s| ==> s[|r|] == '&' || s[|r|] == '#'
  {
    if s == [] || s[0] == '&' || s[0] == '#' then [] else [s[0]] + ValueRun(s[1..])
  }

  /** `s.replace(/\+/g, ' ')`: every `+` becomes a space and nothing else
      changes. */
  function PlusToSpace(s: string): (r: string)
    ensures |r| == |s| && '+' !in r
    ensures forall k :: 0 <= k < |s| ==> r[k] == (if s[k] == '+' then ' ' else s[k])
  {
    if s == [] then [] else [if s[0] == '+' then ' ' else s[0]] + PlusToSpace(s[1..])
  }

  /** The outcome of the call: the parameter's value, or the URIError that
      `decodeURIComponent` throws on a malformed escape. */
  datatype Lookup = Value(s: string) | UriError

  /** The raw value after a match at `p`, with `+` already turned into a
      space. */
  function RawValue(search: string, name: string, p: nat): string
    requires KeyAt(search, name, p)
  {
    PlusToSpace(ValueRun(search[p + |name| + 2..]))
  }

  /** `decodeURIComponent(raw)`, with `decode` standing for it (None when it
      throws). */
  function Decoded(decode: string -> Option<string>, raw: string): Lookup {
    match decode(raw)
    case Some(v) => Value(v)
    case None => UriError
  }

  /** `getUrlParameter(name)` with `location.search` = `search`: the empty
      string when no `?name=` or `&name=` occurs, and otherwise the decoded
      value after the leftmost such occurrence, up to the next `&`, `#` or
      the end. */
  function GetUrlParameter(name: string, search: string, decode: string -> Option<string>): (r: Lookup)
    requires LiteralKey(name)
    ensures (forall p :: !KeyAt(search, name, p)) ==> r == Value("")
    ensures forall p :: LeftmostKeyAt(search, name, p) ==> r == Decoded(decode, RawValue(search, name, p))
  {
    match FindKey(search, name, 0)
    case None => Value("")
    case Some(p) => Decoded(decode, RawValue(search, name, p))
  }
}
