/**
 * Captured network traffic: held credentials become `{{key}}` placeholders, unheld secrets are redacted, and
 * bodies are cut to a byte limit (src/automation/network_capture.rs).
 */
module NetworkCapture {
  import opened Text
  import opened Utf8
  import opened Substitution

  // ---- The needles of a credential map ----

  function HexDigit(d: int): char
    requires 0 <= d < 16
  {
    if d < 10 then ('0' as int + d) as char else ('A' as int + d - 10) as char
  }

  /** One byte under the `application/x-www-form-urlencoded` percent-encode set (WHATWG URL Standard, section 5.2). */
  function FormByte(b: Byte): (r: string)
    ensures r != "" && forall c <- r :: c !in "{}"
  {
    if b == 0x20 then "+"
    else if 0x30 <= b <= 0x39 || 0x41 <= b <= 0x5A || 0x61 <= b <= 0x7A || b in {0x2A, 0x2D, 0x2E, 0x5F} then
      [b as char]
    else ['%', HexDigit(b / 16), HexDigit(b % 16)]
  }

  function FormSerialize(bytes: seq<Byte>): (r: string)
    ensures forall c <- r :: c !in "{}"
    ensures |bytes| <= |r|
  {
    if bytes == [] then "" else FormByte(bytes[0]) + FormSerialize(bytes[1..])
  }

  const UPPER_HEX := "0123456789ABCDEF"

  /** Bytes the standard leaves as they are: ASCII letters and digits, and four marks. */
  predicate StandsForItself(b: Byte) {
    var c := b as char;
    'a' <= c <= 'z' || 'A' <= c <= 'Z' || '0' <= c <= '9' || c in "*-._"
  }

  /**
   * `s` is `bytes` in `application/x-www-form-urlencoded` (WHATWG URL Standard, section 5.2): some bytes stand for
   * themselves, a blank is `+`, and every other byte is `%` with two upper-case hex digits.
   */
  predicate IsFormEncoding(s: string, bytes: seq<Byte>) {
    if bytes == [] then s == ""
    else if StandsForItself(bytes[0]) then s != "" && s[0] == bytes[0] as char && IsFormEncoding(s[1..], bytes[1..])
    else if bytes[0] as char == ' ' then s != "" && s[0] == '+' && IsFormEncoding(s[1..], bytes[1..])
    else
      |s| >= 3 && s[0] == '%' && s[1] == UPPER_HEX[bytes[0] / 16] && s[2] == UPPER_HEX[bytes[0] % 16] &&
      IsFormEncoding(s[3..], bytes[1..])
  }

  lemma FormByteIsEncoding(b: Byte, rest: string)
    ensures var s := FormByte(b) + rest;
            if StandsForItself(b) then s == [b as char] + rest
            else if b as char == ' ' then s == "+" + rest
            else s == ['%', UPPER_HEX[b / 16], UPPER_HEX[b % 16]] + rest
  {
    HexDigitIs(b / 16);
    HexDigitIs(b % 16);
  }

  lemma HexDigitIs(d: int)
    requires 0 <= d < 16
    ensures HexDigit(d) == UPPER_HEX[d]
  {
  }

  /** The serializer gives the one text the standard has for the bytes. */
  lemma {:induction false} FormSerializeIff(s: string, bytes: seq<Byte>)
    ensures IsFormEncoding(s, bytes) <==> s == FormSerialize(bytes)
    decreases |bytes|
  {
    if bytes != [] {
      var b, rest := bytes[0], FormSerialize(bytes[1..]);
      FormByteIsEncoding(b, rest);
      var n := |FormByte(b)|;
      if |s| >= n {
        FormSerializeIff(s[n..], bytes[1..]);
        assert s == s[..n] + s[n..];
        assert n == 1 ==> s[..n] == [s[0]];
        assert n == 3 ==> s[..n] == [s[0], s[1], s[2]];
      }
    }
  }

  datatype Credential = Credential(key: string, value: string)

  /** The replacements of one credential: its trimmed value, then the form-encoded value if that differs. */
  function OpsOf(c: Credential): (r: seq<Op>)
    ensures forall op <- r :: op.key == c.key && |op.needle| > 0
  {
    var v := Trim(c.value);
    if |Encode(v)| < 4 then []
    else
      assert v != "";
      var encoded := FormSerialize(Encode(v));
      [Op(v, c.key)] + if encoded != v then [Op(encoded, c.key)] else []
  }

  function Ops(order: seq<Credential>): (r: seq<Op>)
    ensures forall op <- r :: |op.needle| > 0
  {
    if order == [] then [] else OpsOf(order[0]) + Ops(order[1..])
  }

  /** A needle of `c`: its trimmed value or the form-encoding of that, if the value has at least four bytes. */
  predicate IsNeedleOf(c: Credential, w: string): (r: bool)
    ensures r <==> var v := Trim(c.value); |Encode(v)| >= 4 && (w == v || w == FormSerialize(Encode(v)))
  {
    var v := Trim(c.value);
    FormSerializeIff(w, Encode(v));
    |Encode(v)| >= 4 && (w == v || IsFormEncoding(w, Encode(v)))
  }

  lemma {:induction false} OpsAreNeedles(order: seq<Credential>)
    ensures forall c, w :: c in order && IsNeedleOf(c, w) ==> Op(w, c.key) in Ops(order)
    ensures forall op <- Ops(order) :: exists c <- order :: c.key == op.key && IsNeedleOf(c, op.needle)
  {
    if order != [] {
      OpsAreNeedles(order[1..]);
      var first, rest := OpsOf(order[0]), Ops(order[1..]);
      forall c, w | c in order && IsNeedleOf(c, w) ensures Op(w, c.key) in Ops(order) {
        assert c == order[0] || c in order[1..];
        assert c == order[0] ==> Op(w, c.key) in first;
        assert Op(w, c.key) in first || Op(w, c.key) in rest;
      }
      forall op <- Ops(order) ensures exists c <- order :: c.key == op.key && IsNeedleOf(c, op.needle) {
        if op in first {
          assert IsNeedleOf(order[0], op.needle);
        } else {
          var c :| c in order[1..] && c.key == op.key && IsNeedleOf(c, op.needle);
          assert c in order;
        }
      }
    }
  }

  // ---- The order of the replacements ----

  function ByteLen(c: Credential): nat {
    |Encode(c.value)|
  }

  /** Insertion before the first credential that is not longer, so that equal lengths keep their order. */
  function InsertByLength(c: Credential, sorted: seq<Credential>): seq<Credential> {
    if sorted == [] || ByteLen(sorted[0]) <= ByteLen(c) then [c] + sorted
    else [sorted[0]] + InsertByLength(c, sorted[1..])
  }

  /** The stable sort of the map's entries by descending byte length of the untrimmed value. */
  function LongestFirst(order: seq<Credential>): seq<Credential> {
    if order == [] then [] else InsertByLength(order[0], LongestFirst(order[1..]))
  }

  ghost predicate LongestFirstSorted(s: seq<Credential>) {
    forall i, j | 0 <= i < j < |s| :: ByteLen(s[i]) >= ByteLen(s[j])
  }

  lemma {:induction false} InsertKeepsElements(c: Credential, sorted: seq<Credential>)
    ensures multiset(InsertByLength(c, sorted)) == multiset(sorted) + multiset{c}
  {
    if sorted != [] {
      assert sorted == [sorted[0]] + sorted[1..];
      InsertKeepsElements(c, sorted[1..]);
    }
  }

  ghost predicate NoLongerThan(s: seq<Credential>, n: nat) {
    forall i | 0 <= i < |s| :: ByteLen(s[i]) <= n
  }

  lemma {:induction false} InsertKeepsBound(c: Credential, sorted: seq<Credential>, n: nat)
    requires NoLongerThan(sorted, n) && ByteLen(c) <= n
    ensures NoLongerThan(InsertByLength(c, sorted), n)
  {
    if sorted != [] { InsertKeepsBound(c, sorted[1..], n); }
  }

  lemma {:induction false} InsertSorts(c: Credential, sorted: seq<Credential>)
    requires LongestFirstSorted(sorted)
    ensures LongestFirstSorted(InsertByLength(c, sorted))
  {
    if sorted != [] && ByteLen(sorted[0]) > ByteLen(c) {
      InsertSorts(c, sorted[1..]);
      InsertKeepsBound(c, sorted[1..], ByteLen(sorted[0]));
    }
  }

  lemma {:induction false} LongestFirstSorts(order: seq<Credential>)
    ensures LongestFirstSorted(LongestFirst(order))
    ensures multiset(LongestFirst(order)) == multiset(order)
    ensures forall c :: c in LongestFirst(order) <==> c in order
  {
    if order != [] {
      assert order == [order[0]] + order[1..];
      LongestFirstSorts(order[1..]);
      InsertSorts(order[0], LongestFirst(order[1..]));
      InsertKeepsElements(order[0], LongestFirst(order[1..]));
    }
    forall c ensures c in LongestFirst(order) <==> c in order {
      assert c in multiset(LongestFirst(order)) <==> c in multiset(order);
    }
  }

  // ---- reveal_held_credentials ----

  function Reveal(order: seq<Credential>, value: string): Option<string> {
    var ops := Ops(order);
    if Matched(ops, 0, value) then Some(Apply(ops, 0, value)) else None
  }

  /** The text a caller goes on with: the rewritten one, or the input where nothing matched. */
  function Shown(order: seq<Credential>, value: string): string {
    match Reveal(LongestFirst(order), value)
    case Some(shown) => shown
    case None => value
  }

  /** One replacement behind its guard; `hit` notes that it fired. */
  method ReplaceIfPresent(shown: string, needle: string, placeholder: string) returns (next: string, hit: bool)
    requires needle != ""
    ensures next == Replace(shown, needle, placeholder) && hit == Contains(shown, needle)
  {
    hit := Find(shown, needle).Some?;
    if hit {
      next := Replace(shown, needle, placeholder);
    } else {
      ReplaceNothing(shown, needle, placeholder);
      next := shown;
    }
  }

  /** What one credential's replacements do to the text, the others following. */
  function AfterCredential(c: Credential, t: string): string
    requires |Encode(Trim(c.value))| >= 4
  {
    var v, placeholder := Trim(c.value), Placeholder(c.key);
    var encoded, next := FormSerialize(Encode(v)), Replace(t, v, placeholder);
    if encoded != v then Replace(next, encoded, placeholder) else next
  }

  predicate MatchesCredential(c: Credential, t: string)
    requires |Encode(Trim(c.value))| >= 4
  {
    var v := Trim(c.value);
    var encoded, next := FormSerialize(Encode(v)), Replace(t, v, Placeholder(c.key));
    Find(t, v).Some? || (encoded != v && Find(next, encoded).Some?)
  }

  lemma OneCredential(c: Credential, rest: seq<Op>, t: string)
    requires Needles(rest) && |Encode(Trim(c.value))| >= 4
    ensures Needles(OpsOf(c) + rest)
    ensures Apply(OpsOf(c) + rest, 0, t) == Apply(rest, 0, AfterCredential(c, t))
    ensures Matched(OpsOf(c) + rest, 0, t) == (MatchesCredential(c, t) || Matched(rest, 0, AfterCredential(c, t)))
  {
    var v := Trim(c.value);
    var encoded := FormSerialize(Encode(v));
    var first, second := Op(v, c.key), if encoded != v then [Op(encoded, c.key)] else [];
    assert OpsOf(c) == [first] + second;
    assert OpsOf(c) + rest == [first] + (second + rest);
    if encoded != v {
      FirstThenRest(second[0], rest, Replace(t, v, Placeholder(c.key)));
    } else {
      assert second + rest == rest;
    }
    FirstThenRest(first, second + rest, t);
  }

  /** `order` is the order in which the map happens to be iterated. */
  method RevealHeldCredentials(value: string, order: seq<Credential>) returns (r: Option<string>)
    ensures r == Reveal(LongestFirst(order), value)
  {
    var shown, matched := value, false;
    var pairs := LongestFirst(order);
    var i := 0;
    while i < |pairs|
      invariant 0 <= i <= |pairs|
      invariant Apply(Ops(pairs[i..]), 0, shown) == Apply(Ops(pairs), 0, value)
      invariant (matched || Matched(Ops(pairs[i..]), 0, shown)) == Matched(Ops(pairs), 0, value)
    {
      var v := Trim(pairs[i].value);
      assert pairs[i..][0] == pairs[i] && pairs[i..][1..] == pairs[i + 1..];
      if |Encode(v)| >= 4 {
        OneCredential(pairs[i], Ops(pairs[i + 1..]), shown);
        var placeholder, hit := Placeholder(pairs[i].key), false;
        shown, hit := ReplaceIfPresent(shown, v, placeholder);
        matched := matched || hit;
        var encoded := FormSerialize(Encode(v));
        if encoded != v {
          shown, hit := ReplaceIfPresent(shown, encoded, placeholder);
          matched := matched || hit;
        }
      } else {
        assert OpsOf(pairs[i]) + Ops(pairs[i + 1..]) == Ops(pairs[i + 1..]);
      }
      i := i + 1;
    }
    r := if matched then Some(shown) else None;
  }

  /**
   * Credentials whose trimmed values keep clear of double braces and occur, raw or encoded, in no credential's name.
   */
  ghost predicate PlainCredentials(order: seq<Credential>) {
    forall c, w | c in order && IsNeedleOf(c, w) ::
      KeepsClear(w) && forall d | d in order :: !Contains(d.key, w)
  }

  /** No held credential, raw or form-encoded, occurs in `t`. */
  ghost predicate NoneHeldIn(order: seq<Credential>, t: string) {
    forall c, w | c in order && IsNeedleOf(c, w) :: !Contains(t, w)
  }

  lemma NoneHeldIffClean(order: seq<Credential>, t: string)
    ensures NoneHeldIn(order, t) <==> Clean(Ops(LongestFirst(order)), t)
  {
    var pairs := LongestFirst(order);
    LongestFirstSorts(order);
    OpsAreNeedles(pairs);
    if Clean(Ops(pairs), t) {
      forall c, w | c in order && IsNeedleOf(c, w) ensures !Contains(t, w) {
        assert c in pairs;
        assert Op(w, c.key) in Ops(pairs);
      }
    }
    if NoneHeldIn(order, t) {
      forall i: nat | i < |Ops(pairs)| ensures !Contains(t, Ops(pairs)[i].needle) {
        assert Ops(pairs)[i] in Ops(pairs);
      }
    }
  }

  lemma PlainMeansPlainOps(order: seq<Credential>)
    requires PlainCredentials(order)
    ensures ClearNeedles(Ops(LongestFirst(order))) && KeysHaveNoNeedle(Ops(LongestFirst(order)))
  {
    var pairs := LongestFirst(order);
    LongestFirstSorts(order);
    OpsAreNeedles(pairs);
    forall i: nat | i < |Ops(pairs)| ensures Clean(Ops(pairs), Ops(pairs)[i].key) {
      assert Ops(pairs)[i] in Ops(pairs);
      forall j: nat | j < |Ops(pairs)| ensures !Contains(Ops(pairs)[i].key, Ops(pairs)[j].needle) {
        assert Ops(pairs)[j] in Ops(pairs);
      }
    }
  }

  /**
   * For every map, iteration order and text: nothing is returned exactly if no held credential occurs in the
   * text, and for plain credentials none occurs in what the caller goes on with.
   */
  lemma NoHeldCredentialSurvives(order: seq<Credential>, value: string)
    ensures Reveal(LongestFirst(order), value).None? <==> NoneHeldIn(order, value)
    ensures PlainCredentials(order) ==> NoneHeldIn(order, Shown(order, value))
  {
    var ops := Ops(LongestFirst(order));
    MatchedIff(ops, 0, value);
    NoneHeldIffClean(order, value);
    if PlainCredentials(order) {
      PlainMeansPlainOps(order);
      PlaceholdersStay(ops);
      CleanWhenLiveKeysAre(ops, value);
      NoneHeldIffClean(order, Shown(order, value));
    }
  }

  /**
   * For plain credentials the rewrite loses nothing: the output is the input cut up into parts that stay, all free
   * of credentials, and hidden occurrences, each shown as its own credential's untouched placeholder.
   */
  lemma RewriteIsLossless(order: seq<Credential>, value: string)
    requires PlainCredentials(order)
    ensures var ops := Ops(LongestFirst(order));
            var cover := CoverOf(ops, 0, value);
            Restore(ops, cover) == value && Render(Keys(ops), cover) == Shown(order, value) &&
            cover.EveryKept(text => Clean(ops, text))
  {
    var ops := Ops(LongestFirst(order));
    PlainMeansPlainOps(order);
    PlaceholdersStay(ops);
    MatchedIff(ops, 0, value);
    CoverSpellsInput(ops, 0, value);
    CoverSpellsOutput(ops, 0, value);
    CoverFacts(ops, 0, value);
  }

  /**
   * For values that keep clear of double braces, the exact condition on the credentials: no text at all can come
   * out with a held credential in it exactly if the final key of every live needle has no needle.
   */
  lemma NothingEverLeaksIff(order: seq<Credential>)
    requires forall c, w | c in order && IsNeedleOf(c, w) :: KeepsClear(w)
    ensures Needles(Ops(LongestFirst(order)))
    ensures (forall value :: NoneHeldIn(order, Shown(order, value))) <==> LiveKeysEndClean(Ops(LongestFirst(order)))
  {
    var ops := Ops(LongestFirst(order));
    LongestFirstSorts(order);
    OpsAreNeedles(LongestFirst(order));
    forall value
      ensures Shown(order, value) == Apply(ops, 0, value)
      ensures NoneHeldIn(order, Shown(order, value)) <==> Clean(ops, Apply(ops, 0, value))
    {
      MatchedIff(ops, 0, value);
      NoneHeldIffClean(order, Shown(order, value));
    }
    EveryOutputCleanIff(ops);
  }

  lemma EncodeIsNoShorter(s: string)
    ensures |Encode(s)| >= |s|
  {
  }

  lemma ContainedIsShorter(t: string, w: string)
    requires Contains(t, w)
    ensures |Encode(w)| <= |Encode(t)|
    ensures |Encode(w)| == |Encode(t)| ==> w == t
  {
    var k: nat :| OccursAt(t, w, k);
    var before, after := t[..k], t[k + |w|..];
    assert t == before + w + after;
    EncodeConcat(before + w, after);
    EncodeConcat(before, w);
    EncodeIsNoShorter(before);
    EncodeIsNoShorter(after);
    if before == "" && after == "" { assert t == w; }
  }

  lemma {:induction false} FormSerializeConcat(a: seq<Byte>, b: seq<Byte>)
    ensures FormSerialize(a + b) == FormSerialize(a) + FormSerialize(b)
  {
    if a == [] {
      assert a + b == b;
    } else {
      assert (a + b)[0] == a[0] && (a + b)[1..] == a[1..] + b;
      FormSerializeConcat(a[1..], b);
      assert FormByte(a[0]) + (FormSerialize(a[1..]) + FormSerialize(b)) == FormSerialize(a) + FormSerialize(b);
    }
  }

  /** The parser that goes with the serializer, on its outputs. */
  function FormParse(s: string): seq<int> {
    if s == "" then []
    else if s[0] == '+' then [0x20] + FormParse(s[1..])
    else if s[0] == '%' && |s| >= 3 then [16 * HexValue(s[1]) + HexValue(s[2])] + FormParse(s[3..])
    else [s[0] as int] + FormParse(s[1..])
  }

  function HexValue(c: char): int {
    if '0' <= c <= '9' then c as int - '0' as int else c as int - 'A' as int + 10
  }

  lemma FormByteParses(b: Byte, rest: string)
    ensures FormParse(FormByte(b) + rest) == [b] + FormParse(rest)
  {
    var first := FormByte(b);
    assert (first + rest)[|first|..] == rest;
    if |first| == 3 {
      assert first[0] == '%' && HexValue(HexDigit(b / 16)) == b / 16 && HexValue(HexDigit(b % 16)) == b % 16;
    }
  }

  /** Form-encoding is faithful, so different values never share an encoded needle. */
  lemma {:induction false} FormRoundTrip(bytes: seq<Byte>)
    ensures FormParse(FormSerialize(bytes)) == bytes
  {
    if bytes != [] {
      FormRoundTrip(bytes[1..]);
      FormByteParses(bytes[0], FormSerialize(bytes[1..]));
    }
  }

  // ---- sanitize_network_calls ----

  type Headers = map<string, string>

  datatype NetworkCall = NetworkCall(
    verb: string, url: string, requestHeaders: Option<Headers>, requestBody: Option<string>, step: nat,
    responseStatus: Option<nat>, responseHeaders: Option<Headers>, responseBody: Option<string>,
    rawHeaders: Option<Headers>)

  const NOT_SHOWN := "(secret not shown)"
  const REDACTED_HEADER_VALUE := "\U{AB}redacted\U{BB}"

  const AUTH_HEADER_PATTERNS := [
    "authorization", "auth", "api-key", "apikey", "token", "bearer", "session", "csrf", "xsrf", "cookie",
    "x-amz-security", "credential", "secret"]

  const SECRET_VALUE_HEADERS := ["cookie", "authorization", "x-api-key", "set-cookie"]

  const SKIPPED_HEADERS := [
    "accept-encoding", "accept-language", "connection", "dnt", "upgrade-insecure-requests", "sec-fetch-dest",
    "sec-fetch-mode", "sec-fetch-site", "sec-fetch-user", "sec-ch-ua", "sec-ch-ua-mobile", "sec-ch-ua-platform",
    "user-agent", "cache-control", "pragma"]

  predicate IsAuthName(lowered: string) {
    exists p <- AUTH_HEADER_PATTERNS :: Find(lowered, p).Some?
  }

  /** What marks a header's name as one of authentication. */
  ghost predicate SoundsLikeAuth(lowered: string) {
    Contains(lowered, "auth") || Contains(lowered, "api-key") || Contains(lowered, "apikey") ||
    Contains(lowered, "token") || Contains(lowered, "bearer") || Contains(lowered, "session") ||
    Contains(lowered, "csrf") || Contains(lowered, "xsrf") || Contains(lowered, "cookie") ||
    Contains(lowered, "x-amz-security") || Contains(lowered, "credential") || Contains(lowered, "secret")
  }

  /** The pattern `authorization` adds nothing to `auth`. */
  lemma IsAuthNameIff(lowered: string)
    ensures IsAuthName(lowered) <==> SoundsLikeAuth(lowered)
  {
    var p := AUTH_HEADER_PATTERNS;
    AuthPatterns();
    forall i: nat | i < |p| ensures Find(lowered, p[i]).Some? <==> Contains(lowered, p[i]) {
    }
    assert IsAuthName(lowered) <==> exists i: nat :: i < |p| && Contains(lowered, p[i]) by {
      assert forall i: nat | i < |p| :: p[i] in p;
    }
    if Contains(lowered, "authorization") {
      assert "authorization"[0..4] == "auth";
      assert OccursAt("authorization", "auth", 0);
      ContainsTransitive(lowered, "authorization", "auth");
    }
  }

  lemma AuthPatterns()
    ensures var p := AUTH_HEADER_PATTERNS;
            |p| == 13 && p[0] == "authorization" && p[1] == "auth" && p[2] == "api-key" && p[3] == "apikey" &&
            p[4] == "token" && p[5] == "bearer" && p[6] == "session" && p[7] == "csrf" && p[8] == "xsrf" &&
            p[9] == "cookie" && p[10] == "x-amz-security" && p[11] == "credential" && p[12] == "secret"
  {
  }

  /** `filter_headers`; `lower` is the language's lower-casing. */
  function FilterHeaders(headers: Headers, lower: string -> string): Headers {
    map name | name in headers && lower(name) !in SKIPPED_HEADERS ::
      if lower(name) in SECRET_VALUE_HEADERS then REDACTED_HEADER_VALUE else headers[name]
  }

  function CleanHeader(order: seq<Credential>, lower: string -> string, name: string, value: string): string {
    match Reveal(LongestFirst(order), value)
    case Some(revealed) => revealed
    case None => if IsAuthName(lower(name)) || value == REDACTED_HEADER_VALUE then NOT_SHOWN else value
  }

  function CleanHeaders(order: seq<Credential>, lower: string -> string, headers: Headers): Headers {
    map name | name in headers :: CleanHeader(order, lower, name, headers[name])
  }

  function SanitizeCall(order: seq<Credential>, lower: string -> string, call: NetworkCall): NetworkCall {
    var source :=
      if call.rawHeaders.Some? then Some(FilterHeaders(call.rawHeaders.value, lower)) else call.requestHeaders;
    call.(
      requestBody := if call.requestBody.Some? then Some(Shown(order, call.requestBody.value)) else None,
      requestHeaders := if source.Some? then Some(CleanHeaders(order, lower, source.value)) else None,
      responseHeaders :=
        if call.responseHeaders.Some? then Some(CleanHeaders(order, lower, call.responseHeaders.value)) else None,
      rawHeaders := None)
  }

  function SanitizeNetworkCalls(order: seq<Credential>, lower: string -> string,
                                calls: seq<NetworkCall>): (r: seq<NetworkCall>)
    ensures |r| == |calls|
  {
    seq(|calls|, i requires 0 <= i < |calls| => SanitizeCall(order, lower, calls[i]))
  }

  /**
   * A sanitized header value is free of held credentials, with one exception that is exact: it is the
   * redaction text itself and a credential occurs in that.
   */
  ghost predicate HeadersClean(order: seq<Credential>, headers: Option<Headers>) {
    headers.Some? ==>
      forall name <- headers.value ::
        NoneHeldIn(order, headers.value[name]) <==> (headers.value[name] == NOT_SHOWN ==> NoneHeldIn(order, NOT_SHOWN))
  }

  lemma CleanHeadersAreClean(order: seq<Credential>, lower: string -> string, headers: Headers)
    requires PlainCredentials(order)
    ensures HeadersClean(order, Some(CleanHeaders(order, lower, headers)))
  {
    forall name <- headers
      ensures var v := CleanHeader(order, lower, name, headers[name]);
              NoneHeldIn(order, v) <==> (v == NOT_SHOWN ==> NoneHeldIn(order, NOT_SHOWN))
    {
      NoHeldCredentialSurvives(order, headers[name]);
    }
  }

  ghost predicate SameNames(a: Option<Headers>, b: Option<Headers>) {
    (a.Some? <==> b.Some?) && (a.Some? && b.Some? ==> a.value.Keys == b.value.Keys)
  }

  /** The headers that are sent: the raw ones, where there are any, without the skipped names. */
  ghost predicate SentNames(sent: Option<Headers>, call: NetworkCall, lower: string -> string) {
    if call.rawHeaders.Some? then
      sent.Some? &&
      forall name :: name in sent.value <==> name in call.rawHeaders.value && lower(name) !in SKIPPED_HEADERS
    else SameNames(sent, call.requestHeaders)
  }

  /**
   * Nothing is dropped besides the skipped and the raw headers: sanitizing keeps the calls in their order, the names of
   * all other headers, a body where there is one, and as it was if it holds no credential, and everything else.
   */
  lemma SanitizingDropsNothing(order: seq<Credential>, lower: string -> string, calls: seq<NetworkCall>, i: nat)
    requires i < |calls|
    ensures |SanitizeNetworkCalls(order, lower, calls)| == |calls|
    ensures var call, c := calls[i], SanitizeNetworkCalls(order, lower, calls)[i];
            SentNames(c.requestHeaders, call, lower) && SameNames(c.responseHeaders, call.responseHeaders) &&
            (c.requestBody.Some? <==> call.requestBody.Some?) &&
            (call.requestBody.Some? ==> c.requestBody == Some(Shown(order, call.requestBody.value))) &&
            (call.requestBody.Some? && NoneHeldIn(order, call.requestBody.value) ==>
               c.requestBody == call.requestBody) &&
            c == call.(requestBody := c.requestBody, requestHeaders := c.requestHeaders,
                       responseHeaders := c.responseHeaders, rawHeaders := None)
  {
    var call, c := calls[i], SanitizeNetworkCalls(order, lower, calls)[i];
    if call.requestBody.Some? { NoHeldCredentialSurvives(order, call.requestBody.value); }
    if call.responseHeaders.Some? {
      assert c.responseHeaders.value.Keys == call.responseHeaders.value.Keys;
    }
    if call.rawHeaders.None? && call.requestHeaders.Some? {
      assert c.requestHeaders.value.Keys == call.requestHeaders.value.Keys;
    }
  }

  /**
   * Every sanitized request body and header is free of held credentials; the URL and the response body are not looked
   * at.
   */
  lemma SanitizedCallsAreClean(order: seq<Credential>, lower: string -> string, calls: seq<NetworkCall>, i: nat)
    requires PlainCredentials(order) && i < |calls|
    ensures var c := SanitizeNetworkCalls(order, lower, calls)[i];
            (c.requestBody.Some? ==> NoneHeldIn(order, c.requestBody.value)) &&
            HeadersClean(order, c.requestHeaders) && HeadersClean(order, c.responseHeaders) && c.rawHeaders.None? &&
            c.url == calls[i].url && c.responseBody == calls[i].responseBody
  {
    var call := calls[i];
    if call.requestBody.Some? { NoHeldCredentialSurvives(order, call.requestBody.value); }
    if call.rawHeaders.Some? { CleanHeadersAreClean(order, lower, FilterHeaders(call.rawHeaders.value, lower)); }
    if call.requestHeaders.Some? { CleanHeadersAreClean(order, lower, call.requestHeaders.value); }
    if call.responseHeaders.Some? { CleanHeadersAreClean(order, lower, call.responseHeaders.value); }
  }

  /** A rewritten text has a brace, so it is never mistaken for the redaction text. */
  lemma RevealedIsNotRedacted(order: seq<Credential>, value: string)
    requires !NoneHeldIn(order, value)
    ensures Reveal(LongestFirst(order), value) == Some(Shown(order, value)) && '{' in Shown(order, value)
    ensures Shown(order, value) != NOT_SHOWN
  {
    HeldIsMatched(order, value);
    AppliedHasBrace(Ops(LongestFirst(order)), 0, value);
    NoBraceInMark();
  }

  lemma HeldIsMatched(order: seq<Credential>, value: string)
    requires !NoneHeldIn(order, value)
    ensures Matched(Ops(LongestFirst(order)), 0, value)
  {
    NoHeldCredentialSurvives(order, value);
  }

  lemma NoBraceInMark()
    ensures '{' !in NOT_SHOWN
  {
  }

  /** `network::MAX_BODY_SIZE`: a captured body is cut to so many bytes before anything searches it. */
  const MAX_BODY_SIZE := 10240

  /**
   * An occurrence in the body is still there after the cut exactly if its end is within the limit; it is cut itself
   * exactly if its first character is within the limit and its end is not.
   */
  lemma CutOccurrence(body: string, maxBytes: nat, i: nat, v: string)
    requires v != "" && OccursAt(body, v, i)
    ensures var kept := Truncated(body, maxBytes);
            (OccursAt(kept, v, i) <==> |Encode(body[..i + |v|])| <= maxBytes) &&
            (i < |kept| < i + |v| <==> |Encode(body[..i + 1])| <= maxBytes < |Encode(body[..i + |v|])|) &&
            (i < |kept| < i + |v| ==> kept == body[..i] + v[..|kept| - i])
  {
    var kept := Truncated(body, maxBytes);
    TruncatedKeeps(body, maxBytes, i + 1);
    TruncatedKeeps(body, maxBytes, i + |v|);
    assert i + |v| <= |kept| ==> kept[i..i + |v|] == body[i..i + |v|];
    if i < |kept| < i + |v| { PrefixInside(body, kept, v, i); }
  }

  lemma PrefixInside(t: string, kept: string, v: string, i: nat)
    requires kept <= t && OccursAt(t, v, i) && i < |kept| < i + |v|
    ensures kept == t[..i] + v[..|kept| - i]
  {
    assert kept == t[..|kept|];
    assert v[..|kept| - i] == t[i..i + |v|][..|kept| - i] == t[i..|kept|];
  }

  /**
   * A held credential that the cut goes through is not found: where nothing else is held, the body ends with what is
   * left of it.
   */
  lemma CutCredentialIsLeft(order: seq<Credential>, lower: string -> string, call: NetworkCall, body: string, i: nat,
                            v: string)
    requires v != "" && OccursAt(body, v, i) && call.requestBody == Some(Truncated(body, MAX_BODY_SIZE))
    requires |Encode(body[..i + 1])| <= MAX_BODY_SIZE < |Encode(body[..i + |v|])|
    requires NoneHeldIn(order, Truncated(body, MAX_BODY_SIZE))
    ensures exists n :: 0 < n < |v| && SanitizeCall(order, lower, call).requestBody == Some(body[..i] + v[..n])
  {
    var kept := Truncated(body, MAX_BODY_SIZE);
    CutOccurrence(body, MAX_BODY_SIZE, i, v);
    UnheldIsShown(order, kept);
    var n := |kept| - i;
    assert SanitizeCall(order, lower, call).requestBody == Some(body[..i] + v[..n]);
  }

  lemma UnheldIsShown(order: seq<Credential>, value: string)
    requires NoneHeldIn(order, value)
    ensures Shown(order, value) == value
  {
    NoHeldCredentialSurvives(order, value);
  }

  /**
   * Exactly the headers without held credential that are marked as secret by name or value come out redacted, besides
   * those that carried the redaction text; any other comes out as the search for credentials shows it.
   */
  lemma HeaderIsRedactedIff(order: seq<Credential>, lower: string -> string, headers: Headers, name: string)
    requires name in headers
    ensures var value, sent := headers[name], CleanHeaders(order, lower, headers)[name];
            (sent == NOT_SHOWN <==>
             NoneHeldIn(order, value) &&
             (IsAuthName(lower(name)) || value == REDACTED_HEADER_VALUE || value == NOT_SHOWN)) &&
            (sent != NOT_SHOWN ==> sent == Shown(order, value))
  {
    NoHeldCredentialSurvives(order, headers[name]);
    if !NoneHeldIn(order, headers[name]) { RevealedIsNotRedacted(order, headers[name]); }
  }

  /**
   * Raw headers are filtered before they are searched, so what the four secret-value headers come out as does not
   * depend on what they carry: a held credential in `Authorization` is redacted, not revealed.
   */
  lemma SecretValueHeadersAreNeverRevealed(order: seq<Credential>, lower: string -> string, call: NetworkCall,
                                           name: string)
    requires call.rawHeaders.Some? && name in call.rawHeaders.value && lower(name) in SECRET_VALUE_HEADERS
    ensures var sent := SanitizeCall(order, lower, call).requestHeaders;
            sent.Some? && name in sent.value &&
            sent.value[name] ==
              if NoneHeldIn(order, REDACTED_HEADER_VALUE) then NOT_SHOWN else Shown(order, REDACTED_HEADER_VALUE)
  {
    assert forall s <- SECRET_VALUE_HEADERS :: s !in SKIPPED_HEADERS;
    NoHeldCredentialSurvives(order, REDACTED_HEADER_VALUE);
  }

  /** Any other raw header that is sent is cleaned as it stands. */
  lemma OtherRawHeadersAreCleaned(order: seq<Credential>, lower: string -> string, call: NetworkCall, name: string)
    requires call.rawHeaders.Some? && name in call.rawHeaders.value
    requires lower(name) !in SKIPPED_HEADERS && lower(name) !in SECRET_VALUE_HEADERS
    ensures var raw, sent := call.rawHeaders.value, SanitizeCall(order, lower, call).requestHeaders;
            sent.Some? && name in sent.value && sent.value[name] == CleanHeaders(order, lower, raw)[name]
  {
  }

  /**
   * When a held credential in a raw header is revealed: exactly if the header's name is neither one of the skipped
   * nor one of the secret-value names. This needs that no credential occurs in the mark the filter puts in.
   */
  lemma HeldRawHeaderIsRevealedIff(order: seq<Credential>, lower: string -> string, call: NetworkCall, name: string)
    requires call.rawHeaders.Some? && name in call.rawHeaders.value && !NoneHeldIn(order, call.rawHeaders.value[name])
    requires NoneHeldIn(order, REDACTED_HEADER_VALUE)
    ensures var sent, value := SanitizeCall(order, lower, call).requestHeaders, call.rawHeaders.value[name];
            sent.Some? &&
            (name in sent.value && sent.value[name] == Shown(order, value) <==>
             lower(name) !in SKIPPED_HEADERS && lower(name) !in SECRET_VALUE_HEADERS)
  {
    RevealedIsNotRedacted(order, call.rawHeaders.value[name]);
    if lower(name) in SECRET_VALUE_HEADERS { SecretValueHeadersAreNeverRevealed(order, lower, call, name); }
  }
}
