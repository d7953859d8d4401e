/**
 The request path of a REST query: the statement, percent-encoded as section 2.1 of RFC 3986 has it,
 behind the endpoint of the read mode. A text stands for the bytes it is sent as.
 */
module QueryUrl {
  import opened Text
  import opened SoqlSyntax

  // ----- Percent-encoding -----------------------------------------------------

  predicate IsByte(c: char) {
    c as int < 256
  }

  predicate IsBytes(s: string) {
    forall i | 0 <= i < |s| :: IsByte(s[i])
  }

  predicate Unreserved(c: char) {
    IsAlphaNumeric(c) || c == '-' || c == '_' || c == '.' || c == '~'
  }

  function HexDigit(n: nat): char
    requires n < 16
  {
    "0123456789ABCDEF"[n]
  }

  function EncodeChar(c: char): string
    requires IsByte(c)
  {
    if Unreserved(c) then [c] else ['%', HexDigit(c as int / 16), HexDigit(c as int % 16)]
  }

  function Encode(s: string): string
    requires IsBytes(s)
  {
    if s == "" then "" else EncodeChar(s[0]) + Encode(s[1..])
  }

  method UrlEncodeComponent(s: string) returns (out: string)
    requires IsBytes(s)
    ensures out == Encode(s)
  {
    out := "";
    for i := 0 to |s|
      invariant out + Encode(s[i..]) == Encode(s)
    {
      var c := s[i];
      assert s[i..][1..] == s[i + 1..];
      Assoc(out, EncodeChar(c), Encode(s[i + 1..]));
      if Unreserved(c) {
        out := out + [c];
      } else {
        out := out + ['%', HexDigit(c as int / 16), HexDigit(c as int % 16)];
      }
    }
    assert s[|s|..] == "";
  }

  // ----- What the server decodes ----------------------------------------------

  function HexValue(c: char): Option<nat> {
    if '0' <= c <= '9' then Some(c as int - '0' as int)
    else if 'A' <= c <= 'F' then Some(c as int - 'A' as int + 10)
    else None
  }

  function Decode(s: string): Option<string>
    decreases |s|
  {
    if s == "" then Some("")
    else if s[0] != '%' then
      (match Decode(s[1..]) case None => None case Some(t) => Some([s[0]] + t))
    else if |s| < 3 || HexValue(s[1]).None? || HexValue(s[2]).None? then None
    else
      var code := 16 * HexValue(s[1]).value + HexValue(s[2]).value;
      (match Decode(s[3..]) case None => None case Some(t) => Some([code as char] + t))
  }

  lemma HexRoundTrip(n: nat)
    requires n < 16
    ensures HexValue(HexDigit(n)) == Some(n)
  {
  }

  lemma DecodeFirst(c: char, rest: string, t: string)
    requires IsByte(c) && Decode(rest) == Some(t)
    ensures Decode(EncodeChar(c) + rest) == Some([c] + t)
  {
    var s := EncodeChar(c) + rest;
    if Unreserved(c) {
      assert s[1..] == rest;
    } else {
      HexRoundTrip(c as int / 16);
      HexRoundTrip(c as int % 16);
      assert s[3..] == rest;
    }
  }

  /** Every byte string survives percent-encoding. */
  lemma {:induction false} EncodeRoundTrip(s: string)
    requires IsBytes(s)
    ensures Decode(Encode(s)) == Some(s)
  {
    if s != "" {
      EncodeRoundTrip(s[1..]);
      DecodeFirst(s[0], Encode(s[1..]), s[1..]);
      assert s == [s[0]] + s[1..];
    }
  }

  /** The encoded text holds letters, digits, `-`, `_`, `.`, `~` and `%` and nothing else. */
  lemma {:induction false} EncodedIsPlain(s: string)
    requires IsBytes(s)
    ensures forall i | 0 <= i < |Encode(s)| :: IsPlain(Encode(s)[i])
  {
    if s != "" {
      EncodedIsPlain(s[1..]);
      var head, tail := EncodeChar(s[0]), Encode(s[1..]);
      EncodedCharIsPlain(s[0]);
      assert forall i | 0 <= i < |tail| :: (head + tail)[|head| + i] == tail[i];
    }
  }

  predicate IsPlain(c: char) {
    'a' <= c <= 'z' || 'A' <= c <= 'Z' || '0' <= c <= '9' || c == '-' || c == '_' || c == '.' || c == '~' || c == '%'
  }

  /** Only the unreserved characters of section 2.3 of RFC 3986 stand for themselves. */
  lemma EncodedCharIsPlain(c: char)
    requires IsByte(c)
    ensures forall i | 0 <= i < |EncodeChar(c)| :: IsPlain(EncodeChar(c)[i])
    ensures EncodeChar(c) == [c] <==> IsPlain(c) && c != '%'
  {
  }

  // ----- The path -------------------------------------------------------------

  /** /query, or /queryAll for archived and deleted rows too. */
  function Endpoint(queryAll: bool): string {
    if queryAll then "/queryAll?q=" else "/query?q="
  }

  function QueryPath(version: string, queryAll: bool, soql: string): string
    requires IsBytes(soql)
  {
    "/services/data/" + (version + (Endpoint(queryAll) + Encode(soql)))
  }

  /** The statement a path asks for, in the given API version and read mode. */
  function ReadPath(version: string, queryAll: bool, path: string): Option<string> {
    var head := "/services/data/" + (version + (if queryAll then "/queryAll?q=" else "/query?q="));
    if StartsWith(path, head) then Decode(path[|head|..]) else None
  }

  /** The statement is recovered from the path, and the path says which read mode was meant. */
  lemma PathRoundTrip(version: string, queryAll: bool, soql: string)
    requires IsBytes(soql)
    ensures ReadPath(version, queryAll, QueryPath(version, queryAll, soql)) == Some(soql)
    ensures ReadPath(version, !queryAll, QueryPath(version, queryAll, soql)) == None
  {
    var base := "/services/data/" + version;
    PathPieces(version, queryAll, soql);
    StartsWithAppend(base + Endpoint(queryAll), Encode(soql));
    EncodeRoundTrip(soql);
    PathPieces(version, !queryAll, "");
    var path := base + Endpoint(queryAll) + Encode(soql);
    assert path[|base| + 6] == Endpoint(queryAll)[6];
    NotPrefix(path, base + Endpoint(!queryAll), |base| + 6);
  }

  lemma PathPieces(version: string, queryAll: bool, soql: string)
    requires IsBytes(soql)
    ensures QueryPath(version, queryAll, soql) == "/services/data/" + version + Endpoint(queryAll) + Encode(soql)
    ensures "/services/data/" + (version + Endpoint(queryAll)) == "/services/data/" + version + Endpoint(queryAll)
  {
    var base, tail := "/services/data/", Endpoint(queryAll) + Encode(soql);
    Assoc(base, version, tail);
    Assoc(base + version, Endpoint(queryAll), Encode(soql));
    Assoc(base, version, Endpoint(queryAll));
  }
}
