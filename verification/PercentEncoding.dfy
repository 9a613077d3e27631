/** Percent-encoding of path components and query values (RFC 3986, sections 2.1, 2.3 and 3.4). */
module PercentEncoding {
  import opened Wrappers

  type byte = x: int | 0 <= x < 256
  type Bytes = seq<byte>

  /** Bytes that are copied: the unreserved characters of section 2.3, and `:` and `@`. */
  predicate Kept(b: byte) {
    || 'A' as int <= b <= 'Z' as int || 'a' as int <= b <= 'z' as int || '0' as int <= b <= '9' as int
    || b == '-' as int || b == '_' as int || b == '.' as int || b == '~' as int
    || b == ':' as int || b == '@' as int
  }

  function HexDigit(n: nat): (c: char)
    requires n < 16
    ensures HexValue(c) == Some(n)
  {
    if n < 10 then '0' + (n as char) else 'A' + ((n - 10) as char)
  }

  /** Hexadecimal digits of either case denote a value. */
  function HexValue(c: char): Option<nat> {
    if '0' <= c <= '9' then Some(c as int - '0' as int)
    else if 'A' <= c <= 'F' then Some(c as int - 'A' as int + 10)
    else if 'a' <= c <= 'f' then Some(c as int - 'a' as int + 10)
    else None
  }

  function EncodeByte(b: byte): string {
    if Kept(b) then [b as char] else ['%', HexDigit(b / 16), HexDigit(b % 16)]
  }

  function Encode(s: Bytes): string {
    if s == [] then [] else Encode(s[..|s| - 1]) + EncodeByte(s[|s| - 1])
  }

  /** `encode_path_component`. */
  method EncodePathComponent(s: Bytes) returns (encoded: string)
    ensures encoded == Encode(s)
    ensures Decode(encoded) == Some(s)
  {
    encoded := [];
    for i := 0 to |s|
      invariant encoded == Encode(s[..i])
    {
      assert s[..i + 1][..i] == s[..i];
      if Kept(s[i]) {
        encoded := encoded + [s[i] as char];
      } else {
        encoded := encoded + ['%', HexDigit(s[i] / 16), HexDigit(s[i] % 16)];
      }
    }
    assert s[..|s|] == s;
    DecodeUndoesEncode(s);
  }

  /** Decoding by section 2.1: a percent sign takes the two hexadecimal digits after it. */
  function Decode(t: string): Option<Bytes> {
    if t == [] then Some([])
    else if t[0] == '%' then
      if |t| < 3 || HexValue(t[1]).None? || HexValue(t[2]).None? then None else
        match Decode(t[3..])
        case None => None
        case Some(rest) => Some([16 * HexValue(t[1]).value + HexValue(t[2]).value] + rest)
    else if t[0] as int >= 256 then None
    else
      match Decode(t[1..])
      case None => None
      case Some(rest) => Some([t[0] as int] + rest)
  }

  function Prefixed(s: Bytes, rest: Option<Bytes>): Option<Bytes> {
    match rest
    case None => None
    case Some(more) => Some(s + more)
  }

  lemma PrefixedTwice(s: Bytes, t: Bytes, rest: Option<Bytes>)
    ensures Prefixed(s, Prefixed(t, rest)) == Prefixed(s + t, rest)
  {
    if rest.Some? {
      assert s + (t + rest.value) == (s + t) + rest.value;
    }
  }

  lemma DecodeByte(b: byte, rest: string)
    ensures Decode(EncodeByte(b) + rest) == Prefixed([b], Decode(rest))
  {
    var t := EncodeByte(b) + rest;
    if Kept(b) {
      assert t[0] == b as char && t[1..] == rest;
    } else {
      assert t[0] == '%' && t[3..] == rest;
      assert 16 * (b / 16) + b % 16 == b;
    }
  }

  predicate UpperHex(c: char) {
    '0' <= c <= '9' || 'A' <= c <= 'F'
  }

  /** ASCII letters, digits and six marks stand for themselves; every other byte is a percent sign and two upper-case
      hexadecimal digits. */
  lemma ByteExact(b: byte)
    ensures var c := b as char;
            if 'A' <= c <= 'Z' || 'a' <= c <= 'z' || '0' <= c <= '9' || c in "-._~:@" then EncodeByte(b) == [c]
            else var t := EncodeByte(b);
                 |t| == 3 && t[0] == '%' && UpperHex(t[1]) && UpperHex(t[2])
  {
    var marks := "-._~:@";
    assert marks[0] == '-' && marks[1] == '.' && marks[2] == '_' && marks[3] == '~';
    assert marks[4] == ':' && marks[5] == '@';
  }

  lemma EncodeLast(init: Bytes, b: byte, rest: string)
    ensures Encode(init + [b]) + rest == Encode(init) + (EncodeByte(b) + rest)
  {
    assert (init + [b])[..|init|] == init;
  }

  lemma {:induction false} DecodeEncodeThen(s: Bytes, rest: string)
    ensures Decode(Encode(s) + rest) == Prefixed(s, Decode(rest))
  {
    if s == [] {
      assert Encode(s) + rest == rest;
      assert Decode(rest).Some? ==> s + Decode(rest).value == Decode(rest).value;
    } else {
      var init, b := s[..|s| - 1], s[|s| - 1];
      DecodeByte(b, rest);
      DecodeEncodeThen(init, EncodeByte(b) + rest);
      PrefixedTwice(init, [b], Decode(rest));
      assert init + [b] == s;
      EncodeLast(init, b, rest);
    }
  }

  /** Decoding undoes encoding, for every byte string. */
  lemma DecodeUndoesEncode(s: Bytes)
    ensures Decode(Encode(s)) == Some(s)
  {
    DecodeEncodeThen(s, []);
    assert Encode(s) + [] == Encode(s) && s + [] == s;
  }

  /** Different byte strings encode differently. */
  lemma EncodeInjective(s: Bytes, t: Bytes)
    requires Encode(s) == Encode(t)
    ensures s == t
  {
    DecodeUndoesEncode(s);
    DecodeUndoesEncode(t);
  }

  predicate SafeChar(c: char) {
    c == '%' || (c as int < 256 && Kept(c as int))
  }

  predicate Avoids(s: string, c: char) {
    forall i :: 0 <= i < |s| ==> s[i] != c
  }

  /** The output holds no character with a meaning in a path or a query. */
  lemma {:induction false} EncodedIsSafe(s: Bytes)
    ensures forall i :: 0 <= i < |Encode(s)| ==> SafeChar(Encode(s)[i])
    ensures Avoids(Encode(s), '/') && Avoids(Encode(s), '?') && Avoids(Encode(s), '#')
    ensures Avoids(Encode(s), '&') && Avoids(Encode(s), '=')
  {
    if s != [] {
      EncodedIsSafe(s[..|s| - 1]);
      var last := EncodeByte(s[|s| - 1]);
      assert forall i :: 0 <= i < |last| ==> SafeChar(last[i]);
    }
  }

  // ---------------------------------------------------------------- splitting

  /** The pieces of `s` between occurrences of `sep`. */
  function Split(s: string, sep: char): (parts: seq<string>)
    ensures parts != []
  {
    if s == [] then [""]
    else if s[0] == sep then [""] + Split(s[1..], sep)
    else
      var rest := Split(s[1..], sep);
      [[s[0]] + rest[0]] + rest[1..]
  }

  function Join(parts: seq<string>, sep: char): string {
    if parts == [] then ""
    else if |parts| == 1 then parts[0]
    else parts[0] + [sep] + Join(parts[1..], sep)
  }

  lemma {:induction false} SplitPiece(piece: string, sep: char)
    requires Avoids(piece, sep)
    ensures Split(piece, sep) == [piece]
  {
    if piece != [] {
      assert Avoids(piece[1..], sep);
      SplitPiece(piece[1..], sep);
      assert [piece[0]] + piece[1..] == piece;
    }
  }

  lemma {:induction false} SplitAfterPiece(piece: string, sep: char, rest: string)
    requires Avoids(piece, sep)
    ensures Split(piece + [sep] + rest, sep) == [piece] + Split(rest, sep)
  {
    var s := piece + [sep] + rest;
    if piece == [] {
      assert s[1..] == rest;
    } else {
      assert Avoids(piece[1..], sep) && s[0] == piece[0];
      assert s[1..] == piece[1..] + [sep] + rest;
      SplitAfterPiece(piece[1..], sep, rest);
      assert [piece[0]] + piece[1..] == piece;
    }
  }

  /** Splitting undoes joining when no part holds the separator. */
  lemma {:induction false} SplitUndoesJoin(parts: seq<string>, sep: char)
    requires parts != [] && forall i :: 0 <= i < |parts| ==> Avoids(parts[i], sep)
    ensures Split(Join(parts, sep), sep) == parts
  {
    if |parts| == 1 {
      SplitPiece(parts[0], sep);
    } else {
      var first, rest := parts[0], parts[1..];
      forall i | 0 <= i < |rest| ensures Avoids(rest[i], sep) {
        assert rest[i] == parts[i + 1];
      }
      SplitUndoesJoin(rest, sep);
      SplitAfterPiece(first, sep, Join(rest, sep));
      assert [first] + rest == parts;
    }
  }

  // ---------------------------------------------------------------- query strings

  datatype Pair = Pair(key: string, value: Bytes)

  predicate PlainKey(key: string) {
    key != [] && forall i :: 0 <= i < |key| ==> 'a' <= key[i] <= 'z' || key[i] == '_'
  }

  function Render(p: Pair): string {
    p.key + "=" + Encode(p.value)
  }

  function RenderAll(pairs: seq<Pair>): (parts: seq<string>)
    ensures |parts| == |pairs|
  {
    seq(|pairs|, i requires 0 <= i < |pairs| => Render(pairs[i]))
  }

  /** The `?` part of a request path: empty when there is nothing to send. */
  function Suffix(parts: seq<string>): string {
    if parts == [] then "" else "?" + Join(parts, '&')
  }

  function ParsePair(part: string): Option<Pair> {
    var pieces := Split(part, '=');
    if |pieces| != 2 then None else
      match Decode(pieces[1])
      case None => None
      case Some(value) => Some(Pair(pieces[0], value))
  }

  function ParsePairs(parts: seq<string>): Option<seq<Pair>> {
    if parts == [] then Some([]) else
      match (ParsePair(parts[0]), ParsePairs(parts[1..]))
      case (Some(p), Some(rest)) => Some([p] + rest)
      case _ => None
  }

  /** What a server reads from the `?` part: split on `&`, then on `=`, then decode. */
  function ParseQuery(suffix: string): Option<seq<Pair>> {
    if suffix == [] then Some([])
    else if suffix[0] != '?' then None
    else ParsePairs(Split(suffix[1..], '&'))
  }

  lemma RenderedPair(p: Pair)
    requires PlainKey(p.key)
    ensures ParsePair(Render(p)) == Some(p) && Avoids(Render(p), '&')
  {
    EncodedIsSafe(p.value);
    SplitAfterPiece(p.key, '=', Encode(p.value));
    SplitPiece(Encode(p.value), '=');
    assert p.key + ['='] + Encode(p.value) == Render(p);
    DecodeUndoesEncode(p.value);
  }

  lemma {:induction false} ParseRendered(pairs: seq<Pair>)
    requires forall i :: 0 <= i < |pairs| ==> PlainKey(pairs[i].key)
    ensures ParsePairs(RenderAll(pairs)) == Some(pairs)
  {
    if pairs != [] {
      RenderedPair(pairs[0]);
      assert RenderAll(pairs)[1..] == RenderAll(pairs[1..]);
      ParseRendered(pairs[1..]);
      assert [pairs[0]] + pairs[1..] == pairs;
    }
  }

  /** Main theorem: reading a built query string gives back exactly the pairs rendered, in order. */
  lemma ParseUndoesBuild(pairs: seq<Pair>)
    requires forall i :: 0 <= i < |pairs| ==> PlainKey(pairs[i].key)
    ensures ParseQuery(Suffix(RenderAll(pairs))) == Some(pairs)
  {
    if pairs != [] {
      forall i | 0 <= i < |pairs| ensures Avoids(RenderAll(pairs)[i], '&') {
        RenderedPair(pairs[i]);
      }
      SplitUndoesJoin(RenderAll(pairs), '&');
      ParseRendered(pairs);
      assert Suffix(RenderAll(pairs))[1..] == Join(RenderAll(pairs), '&');
    }
  }

  lemma SplitSymbol(symbol: Bytes, query: string)
    requires Avoids(query, '?')
    ensures Split(Encode(symbol) + ['?'] + query, '?') == [Encode(symbol), query]
  {
    EncodedIsSafe(symbol);
    SplitAfterPiece(Encode(symbol), '?', query);
    SplitPiece(query, '?');
  }

  /** What a server reads from the last path segment and the query behind it. */
  function ReadPath(path: string): Option<(Bytes, seq<Pair>)> {
    var pieces := Split(path, '?');
    if |pieces| > 2 then None else
      match (Decode(pieces[0]), if |pieces| == 1 then Some([]) else ParseQuery("?" + pieces[1]))
      case (Some(symbol), Some(pairs)) => Some((symbol, pairs))
      case _ => None
  }

  lemma PathShape(segment: string, parts: seq<string>)
    ensures segment + Suffix(parts) == if parts == [] then segment else segment + ['?'] + Join(parts, '&')
  {
  }

  lemma SymbolAlone(symbol: Bytes)
    ensures ReadPath(Encode(symbol)) == Some((symbol, []))
  {
    EncodedIsSafe(symbol);
    SplitPiece(Encode(symbol), '?');
    DecodeUndoesEncode(symbol);
  }

  lemma SymbolThenQuery(symbol: Bytes, query: string, pairs: seq<Pair>)
    requires Avoids(query, '?') && ParseQuery("?" + query) == Some(pairs)
    ensures ReadPath(Encode(symbol) + ['?'] + query) == Some((symbol, pairs))
  {
    SplitSymbol(symbol, query);
    DecodeUndoesEncode(symbol);
  }

  /** The encoded symbol ends at the first `?`, so symbol and query, if there is one, are both recovered. */
  lemma SymbolAndQuery(symbol: Bytes, pairs: seq<Pair>)
    requires forall i :: 0 <= i < |pairs| ==> PlainKey(pairs[i].key)
    ensures ReadPath(Encode(symbol) + Suffix(RenderAll(pairs))) == Some((symbol, pairs))
  {
    PathShape(Encode(symbol), RenderAll(pairs));
    if pairs == [] {
      SymbolAlone(symbol);
    } else {
      JoinedAvoids(pairs);
      ParseUndoesBuild(pairs);
      SymbolThenQuery(symbol, Join(RenderAll(pairs), '&'), pairs);
    }
  }

  lemma {:induction false} JoinedAvoids(pairs: seq<Pair>)
    requires forall i :: 0 <= i < |pairs| ==> PlainKey(pairs[i].key)
    ensures Avoids(Join(RenderAll(pairs), '&'), '?')
  {
    if pairs != [] {
      EncodedIsSafe(pairs[0].value);
      assert Avoids(Render(pairs[0]), '?');
      assert RenderAll(pairs)[1..] == RenderAll(pairs[1..]);
      JoinedAvoids(pairs[1..]);
    }
  }
}

/** The query strings of the daemon client's symbol requests. */
module RequestQueries {
  import opened Wrappers
  import opened Text
  import opened PercentEncoding

  datatype ReferencesRequest = ReferencesRequest(
    sessionId: Option<Bytes>, refKind: Option<Bytes>, throughImplementors: Option<bool>,
    offset: Option<nat>, limit: Option<nat>, cursor: Option<Bytes>)

  datatype ImpactRequest = ImpactRequest(
    maxDepth: Option<nat>, direction: Option<Bytes>, testsOnly: bool, sessionId: Option<Bytes>,
    offset: Option<nat>, cursor: Option<Bytes>, limit: Option<nat>)

  datatype DefinitionRequest = DefinitionRequest(
    sessionId: Option<Bytes>, maxLines: Option<nat>, contextLines: Option<nat>, includeBody: Option<bool>,
    outlineOnly: Option<bool>, startLine: Option<nat>, startByte: Option<nat>)

  /** One optional parameter: sent when it has a value. */
  datatype Param = Param(key: string, value: Option<Bytes>)

  // ---------------------------------------------------------------- values as bytes

  function Ascii(s: string): (bytes: Bytes)
    requires forall i :: 0 <= i < |s| ==> s[i] as int < 256
    ensures |bytes| == |s|
  {
    seq(|s|, i requires 0 <= i < |s| => s[i] as int)
  }

  function NumberBytes(n: nat): Bytes {
    Ascii(Digits(n))
  }

  function BoolText(b: bool): string {
    if b then "true" else "false"
  }

  function NumberValue(n: Option<nat>): Option<Bytes> {
    if n.Some? then Some(NumberBytes(n.value)) else None
  }

  function BoolValue(b: Option<bool>): Option<Bytes> {
    if b.Some? then Some(Ascii(BoolText(b.value))) else None
  }

  /** A flag is sent as `true` or not at all. */
  function FlagValue(b: bool): Option<Bytes> {
    if b then Some(Ascii("true")) else None
  }

  /** Characters that are kept encode to themselves, so plain numbers and booleans need no encoding. */
  lemma {:induction false} EncodeAscii(s: string)
    requires forall i :: 0 <= i < |s| ==> s[i] as int < 256 && Kept(s[i] as int)
    ensures Encode(Ascii(s)) == s
  {
    if s != [] {
      var init := s[..|s| - 1];
      assert Ascii(s)[..|s| - 1] == Ascii(init);
      EncodeAscii(init);
      assert init + [s[|s| - 1]] == s;
    }
  }

  lemma EncodeNumber(n: nat)
    ensures Encode(NumberBytes(n)) == Digits(n)
  {
    EncodeAscii(Digits(n));
  }

  lemma EncodeBool(b: bool)
    ensures Encode(Ascii(BoolText(b))) == BoolText(b)
  {
    EncodeAscii(BoolText(b));
  }

  /** A number is read back from its bytes. */
  function ReadNumber(bytes: Bytes): Option<nat> {
    var text := seq(|bytes|, i requires 0 <= i < |bytes| => bytes[i] as char);
    if text != [] && AllDigits(text) then Some(Value(text)) else None
  }

  lemma ReadPrintedNumber(n: nat)
    ensures ReadNumber(NumberBytes(n)) == Some(n)
  {
    var bytes := NumberBytes(n);
    assert seq(|bytes|, i requires 0 <= i < |bytes| => bytes[i] as char) == Digits(n);
    ValueOfDigits(n);
  }

  // ---------------------------------------------------------------- parameters

  function Present(params: seq<Param>): seq<Pair> {
    if params == [] then [] else
      var p := params[|params| - 1];
      Present(params[..|params| - 1]) + if p.value.Some? then [Pair(p.key, p.value.value)] else []
  }

  /** The value a server finds under a key. */
  function Field(pairs: seq<Pair>, key: string): Option<Bytes> {
    if pairs == [] then None
    else if pairs[|pairs| - 1].key == key then Some(pairs[|pairs| - 1].value)
    else Field(pairs[..|pairs| - 1], key)
  }

  predicate DistinctPlainKeys(params: seq<Param>) {
    && (forall i :: 0 <= i < |params| ==> PlainKey(params[i].key))
    && (forall i, j :: 0 <= i < j < |params| ==> params[i].key != params[j].key)
  }

  lemma PresentAppend(params: seq<Param>, p: Param)
    ensures Present(params + [p]) == Present(params) + if p.value.Some? then [Pair(p.key, p.value.value)] else []
  {
    assert (params + [p])[..|params|] == params;
  }

  lemma {:induction false} PresentKeys(params: seq<Param>, key: string)
    requires forall i :: 0 <= i < |params| ==> PlainKey(params[i].key)
    ensures forall i :: 0 <= i < |Present(params)| ==> PlainKey(Present(params)[i].key)
    ensures (forall i :: 0 <= i < |params| ==> params[i].key != key) ==> Field(Present(params), key) == None
  {
    if params != [] {
      var init, p := params[..|params| - 1], params[|params| - 1];
      PresentKeys(init, key);
      if p.value.Some? {
        assert (Present(init) + [Pair(p.key, p.value.value)])[..|Present(init)|] == Present(init);
      } else {
        assert Present(init) + [] == Present(init);
      }
    }
  }

  /** Each parameter is found under its key exactly when it was given, with the value given. */
  lemma {:induction false} FieldOfPresent(params: seq<Param>, i: nat)
    requires DistinctPlainKeys(params) && i < |params|
    ensures Field(Present(params), params[i].key) == params[i].value
  {
    var init, p := params[..|params| - 1], params[|params| - 1];
    if p.value.Some? {
      assert (Present(init) + [Pair(p.key, p.value.value)])[..|Present(init)|] == Present(init);
    } else {
      assert Present(init) + [] == Present(init);
    }
    if i < |init| {
      assert init[i] == params[i];
      FieldOfPresent(init, i);
    } else {
      PresentKeys(init, p.key);
    }
  }

  /** Each field a server reads is what was given, under every parameter's key. */
  ghost predicate FieldsMatch(q: seq<Pair>, params: seq<Param>) {
    forall i: nat :: i < |params| ==> Field(q, params[i].key) == params[i].value
  }

  /** Main theorem: whatever the symbol and the optional parameters, the server recovers the symbol and each
      parameter from the request path, and finds a parameter exactly when it was given. */
  lemma ParamsRecovered(symbol: Bytes, params: seq<Param>)
    requires DistinctPlainKeys(params)
    ensures ReadPath(Encode(symbol) + Suffix(RenderAll(Present(params)))) == Some((symbol, Present(params)))
    ensures FieldsMatch(Present(params), params)
  {
    PresentKeys(params, "");
    SymbolAndQuery(symbol, Present(params));
    forall i: nat | i < |params| ensures Field(Present(params), params[i].key) == params[i].value {
      FieldOfPresent(params, i);
    }
  }

  // ---------------------------------------------------------------- the builders

  function ReferencesParams(req: ReferencesRequest): seq<Param> {
    [Param("session_id", req.sessionId),
     Param("through_implementors", FlagValue(req.throughImplementors == Some(true))),
     Param("ref_kind", req.refKind),
     Param("offset", NumberValue(req.offset)),
     Param("limit", NumberValue(req.limit)),
     Param("cursor", req.cursor)]
  }

  function ImpactParams(req: ImpactRequest): seq<Param> {
    [Param("max_depth", NumberValue(req.maxDepth)),
     Param("direction", req.direction),
     Param("tests_only", FlagValue(req.testsOnly)),
     Param("session_id", req.sessionId),
     Param("offset", NumberValue(req.offset)),
     Param("cursor", req.cursor),
     Param("limit", NumberValue(req.limit))]
  }

  function DefinitionParams(req: DefinitionRequest): seq<Param> {
    [Param("session_id", req.sessionId),
     Param("max_lines", NumberValue(req.maxLines)),
     Param("context_lines", NumberValue(req.contextLines)),
     Param("include_body", BoolValue(req.includeBody)),
     Param("outline_only", BoolValue(req.outlineOnly)),
     Param("start_line", NumberValue(req.startLine)),
     Param("start_byte", NumberValue(req.startByte))]
  }

  /** What a builder has pushed after the first parameters. */
  function Pushed(params: seq<Param>): seq<string> {
    RenderAll(Present(params))
  }

  lemma PushParam(params: seq<Param>, p: Param)
    ensures Pushed(params + [p]) == Pushed(params) + if p.value.Some? then [p.key + "=" + Encode(p.value.value)] else []
  {
    PresentAppend(params, p);
    if p.value.Some? {
      assert RenderAll(Present(params) + [Pair(p.key, p.value.value)])
          == RenderAll(Present(params)) + [Render(Pair(p.key, p.value.value))];
    }
  }

  method PushText(qs: seq<string>, key: string, value: Option<Bytes>, ghost done: seq<Param>)
    returns (r: seq<string>)
    requires qs == Pushed(done)
    ensures r == Pushed(done + [Param(key, value)])
  {
    PushParam(done, Param(key, value));
    r := qs;
    if value.Some? {
      var encoded := EncodePathComponent(value.value);
      r := r + [key + "=" + encoded];
    }
  }

  method PushNumber(qs: seq<string>, key: string, value: Option<nat>, ghost done: seq<Param>)
    returns (r: seq<string>)
    requires qs == Pushed(done)
    ensures r == Pushed(done + [Param(key, NumberValue(value))])
  {
    PushParam(done, Param(key, NumberValue(value)));
    r := qs;
    if value.Some? {
      EncodeNumber(value.value);
      r := r + [key + "=" + Digits(value.value)];
    }
  }

  method PushBool(qs: seq<string>, key: string, value: Option<bool>, ghost done: seq<Param>)
    returns (r: seq<string>)
    requires qs == Pushed(done)
    ensures r == Pushed(done + [Param(key, BoolValue(value))])
  {
    PushParam(done, Param(key, BoolValue(value)));
    r := qs;
    if value.Some? {
      EncodeBool(value.value);
      r := r + [key + "=" + BoolText(value.value)];
    }
  }

  method PushFlag(qs: seq<string>, key: string, on: bool, ghost done: seq<Param>)
    returns (r: seq<string>)
    requires qs == Pushed(done)
    ensures r == Pushed(done + [Param(key, FlagValue(on))])
  {
    PushParam(done, Param(key, FlagValue(on)));
    r := qs;
    if on {
      EncodeBool(true);
      r := r + [key + "=" + "true"];
    }
  }

  /** The query built by `references_req`. */
  method ReferencesSuffix(req: ReferencesRequest) returns (suffix: string)
    ensures suffix == Suffix(Pushed(ReferencesParams(req)))
  {
    ghost var p := ReferencesParams(req);
    var qs := PushText([], "session_id", req.sessionId, p[..0]);
    assert p[..0] + [p[0]] == p[..1];
    qs := PushFlag(qs, "through_implementors", req.throughImplementors == Some(true), p[..1]);
    assert p[..1] + [p[1]] == p[..2];
    qs := PushText(qs, "ref_kind", req.refKind, p[..2]);
    assert p[..2] + [p[2]] == p[..3];
    qs := PushNumber(qs, "offset", req.offset, p[..3]);
    assert p[..3] + [p[3]] == p[..4];
    qs := PushNumber(qs, "limit", req.limit, p[..4]);
    assert p[..4] + [p[4]] == p[..5];
    qs := PushText(qs, "cursor", req.cursor, p[..5]);
    assert p[..5] + [p[5]] == p;
    suffix := Suffix(qs);
  }

  /** The query built by `impact_page`. */
  method ImpactSuffix(req: ImpactRequest) returns (suffix: string)
    ensures suffix == Suffix(Pushed(ImpactParams(req)))
  {
    ghost var p := ImpactParams(req);
    var qs := PushNumber([], "max_depth", req.maxDepth, p[..0]);
    assert p[..0] + [p[0]] == p[..1];
    qs := PushText(qs, "direction", req.direction, p[..1]);
    assert p[..1] + [p[1]] == p[..2];
    qs := PushFlag(qs, "tests_only", req.testsOnly, p[..2]);
    assert p[..2] + [p[2]] == p[..3];
    qs := PushText(qs, "session_id", req.sessionId, p[..3]);
    assert p[..3] + [p[3]] == p[..4];
    qs := PushNumber(qs, "offset", req.offset, p[..4]);
    assert p[..4] + [p[4]] == p[..5];
    qs := PushText(qs, "cursor", req.cursor, p[..5]);
    assert p[..5] + [p[5]] == p[..6];
    qs := PushNumber(qs, "limit", req.limit, p[..6]);
    assert p[..6] + [p[6]] == p;
    suffix := Suffix(qs);
  }

  /** The query built by `definition_response_req`. */
  method DefinitionSuffix(req: DefinitionRequest) returns (suffix: string)
    ensures suffix == Suffix(Pushed(DefinitionParams(req)))
  {
    ghost var p := DefinitionParams(req);
    var qs := PushText([], "session_id", req.sessionId, p[..0]);
    assert p[..0] + [p[0]] == p[..1];
    qs := PushNumber(qs, "max_lines", req.maxLines, p[..1]);
    assert p[..1] + [p[1]] == p[..2];
    qs := PushNumber(qs, "context_lines", req.contextLines, p[..2]);
    assert p[..2] + [p[2]] == p[..3];
    qs := PushBool(qs, "include_body", req.includeBody, p[..3]);
    assert p[..3] + [p[3]] == p[..4];
    qs := PushBool(qs, "outline_only", req.outlineOnly, p[..4]);
    assert p[..4] + [p[4]] == p[..5];
    qs := PushNumber(qs, "start_line", req.startLine, p[..5]);
    assert p[..5] + [p[5]] == p[..6];
    qs := PushNumber(qs, "start_byte", req.startByte, p[..6]);
    assert p[..6] + [p[6]] == p;
    suffix := Suffix(qs);
  }

  function ReadField(q: seq<Pair>, key: string): Option<nat> {
    match Field(q, key)
    case Some(bytes) => ReadNumber(bytes)
    case None => None
  }

  lemma NumberRecovered(q: seq<Pair>, key: string, n: Option<nat>)
    requires Field(q, key) == NumberValue(n)
    ensures ReadField(q, key) == n
  {
    if n.Some? { ReadPrintedNumber(n.value); }
  }

  lemma KeysArePlain()
    ensures PlainKey("session_id") && PlainKey("through_implementors") && PlainKey("ref_kind")
    ensures PlainKey("offset") && PlainKey("limit") && PlainKey("cursor")
    ensures PlainKey("max_depth") && PlainKey("direction") && PlainKey("tests_only")
  {
  }

  lemma DefinitionKeysArePlain()
    ensures PlainKey("max_lines") && PlainKey("context_lines") && PlainKey("include_body")
    ensures PlainKey("outline_only") && PlainKey("start_line") && PlainKey("start_byte")
  {
  }

  lemma ReferencesKeys(req: ReferencesRequest)
    ensures DistinctPlainKeys(ReferencesParams(req))
  {
    var p := ReferencesParams(req);
    KeysArePlain();
    assert p[0].key[0] == 's' && p[1].key[0] == 't' && p[2].key[0] == 'r';
    assert p[3].key[0] == 'o' && p[4].key[0] == 'l' && p[5].key[0] == 'c';
  }

  lemma ImpactKeys(req: ImpactRequest)
    ensures DistinctPlainKeys(ImpactParams(req))
  {
    var p := ImpactParams(req);
    KeysArePlain();
    assert p[0].key[0] == 'm' && p[1].key[0] == 'd' && p[2].key[0] == 't' && p[3].key[0] == 's';
    assert p[4].key[0] == 'o' && p[5].key[0] == 'c' && p[6].key[0] == 'l';
  }

  lemma DefinitionKeys(req: DefinitionRequest)
    ensures DistinctPlainKeys(DefinitionParams(req))
  {
    var p := DefinitionParams(req);
    KeysArePlain();
    DefinitionKeysArePlain();
    assert p[0].key[0] == 's' && p[1].key[0] == 'm' && p[2].key[0] == 'c' && p[3].key[0] == 'i';
    assert p[4].key[0] == 'o' && p[5].key[0] == 's' && p[6].key[0] == 's';
    assert p[0].key[6] == 'n' && p[5].key[6] == 'l' && p[6].key[6] == 'b';
  }

  function ReadBool(bytes: Bytes): Option<bool> {
    if bytes == Ascii("true") then Some(true) else if bytes == Ascii("false") then Some(false) else None
  }

  function ReadBoolField(q: seq<Pair>, key: string): Option<bool> {
    match Field(q, key)
    case Some(bytes) => ReadBool(bytes)
    case None => None
  }

  /** A flag is on when it says so. */
  predicate ReadFlag(q: seq<Pair>, key: string) {
    ReadBoolField(q, key) == Some(true)
  }

  lemma BoolRecovered(q: seq<Pair>, key: string, b: Option<bool>)
    requires Field(q, key) == BoolValue(b)
    ensures ReadBoolField(q, key) == b
  {
    assert |Ascii("true")| != |Ascii("false")|;
  }

  // ---------------------------------------------------------------- requests read back

  /** A flag that is false looks like one that is not set. */
  function Normal(req: ReferencesRequest): ReferencesRequest {
    req.(throughImplementors := if req.throughImplementors == Some(true) then Some(true) else None)
  }

  /** What a server reads from the parsed query. */
  function ReadReferences(q: seq<Pair>): ReferencesRequest {
    ReferencesRequest(Field(q, "session_id"), Field(q, "ref_kind"),
                      if ReadFlag(q, "through_implementors") then Some(true) else None,
                      ReadField(q, "offset"), ReadField(q, "limit"), Field(q, "cursor"))
  }

  function ReadImpact(q: seq<Pair>): ImpactRequest {
    ImpactRequest(ReadField(q, "max_depth"), Field(q, "direction"), ReadFlag(q, "tests_only"),
                  Field(q, "session_id"), ReadField(q, "offset"), Field(q, "cursor"), ReadField(q, "limit"))
  }

  function ReadDefinition(q: seq<Pair>): DefinitionRequest {
    DefinitionRequest(Field(q, "session_id"), ReadField(q, "max_lines"), ReadField(q, "context_lines"),
                      ReadBoolField(q, "include_body"), ReadBoolField(q, "outline_only"),
                      ReadField(q, "start_line"), ReadField(q, "start_byte"))
  }

  lemma ReferencesRead(req: ReferencesRequest, q: seq<Pair>)
    requires FieldsMatch(q, ReferencesParams(req))
    ensures ReadReferences(q) == Normal(req)
  {
    var p := ReferencesParams(req);
    assert Field(q, p[0].key) == p[0].value && Field(q, p[1].key) == p[1].value;
    assert Field(q, p[2].key) == p[2].value && Field(q, p[5].key) == p[5].value;
    assert Field(q, p[3].key) == p[3].value && Field(q, p[4].key) == p[4].value;
    NumberRecovered(q, "offset", req.offset);
    NumberRecovered(q, "limit", req.limit);
  }

  lemma ImpactRead(req: ImpactRequest, q: seq<Pair>)
    requires FieldsMatch(q, ImpactParams(req))
    ensures ReadImpact(q) == req
  {
    var p := ImpactParams(req);
    assert Field(q, p[0].key) == p[0].value && Field(q, p[1].key) == p[1].value;
    assert Field(q, p[2].key) == p[2].value && Field(q, p[3].key) == p[3].value;
    assert Field(q, p[4].key) == p[4].value && Field(q, p[5].key) == p[5].value;
    assert Field(q, p[6].key) == p[6].value;
    NumberRecovered(q, "max_depth", req.maxDepth);
    NumberRecovered(q, "offset", req.offset);
    NumberRecovered(q, "limit", req.limit);
  }

  lemma DefinitionRead(req: DefinitionRequest, q: seq<Pair>)
    requires FieldsMatch(q, DefinitionParams(req))
    ensures ReadDefinition(q) == req
  {
    var p := DefinitionParams(req);
    assert Field(q, p[0].key) == p[0].value && Field(q, p[1].key) == p[1].value;
    assert Field(q, p[2].key) == p[2].value && Field(q, p[3].key) == p[3].value;
    assert Field(q, p[4].key) == p[4].value && Field(q, p[5].key) == p[5].value;
    assert Field(q, p[6].key) == p[6].value;
    NumberRecovered(q, "max_lines", req.maxLines);
    NumberRecovered(q, "context_lines", req.contextLines);
    BoolRecovered(q, "include_body", req.includeBody);
    BoolRecovered(q, "outline_only", req.outlineOnly);
    NumberRecovered(q, "start_line", req.startLine);
    NumberRecovered(q, "start_byte", req.startByte);
  }

  /** The server reads back symbol and reference request, field by field. */
  lemma ReferencesRoundTrip(symbol: Bytes, req: ReferencesRequest)
    ensures var read := ReadPath(Encode(symbol) + Suffix(Pushed(ReferencesParams(req))));
            read.Some? && read.value.0 == symbol && ReadReferences(read.value.1) == Normal(req)
  {
    ReferencesKeys(req);
    ParamsRecovered(symbol, ReferencesParams(req));
    ReferencesRead(req, Present(ReferencesParams(req)));
  }

  /** The same for impact requests; every field comes back. */
  lemma ImpactRoundTrip(symbol: Bytes, req: ImpactRequest)
    ensures var read := ReadPath(Encode(symbol) + Suffix(Pushed(ImpactParams(req))));
            read.Some? && read.value.0 == symbol && ReadImpact(read.value.1) == req
  {
    ImpactKeys(req);
    ParamsRecovered(symbol, ImpactParams(req));
    ImpactRead(req, Present(ImpactParams(req)));
  }

  /** The same for definition requests. */
  lemma DefinitionRoundTrip(symbol: Bytes, req: DefinitionRequest)
    ensures var read := ReadPath(Encode(symbol) + Suffix(Pushed(DefinitionParams(req))));
            read.Some? && read.value.0 == symbol && ReadDefinition(read.value.1) == req
  {
    DefinitionKeys(req);
    ParamsRecovered(symbol, DefinitionParams(req));
    DefinitionRead(req, Present(DefinitionParams(req)));
  }
}
