/**
 * Selector text: how the helper script quotes page values (js/helper_script.js), what a CSS parser reads back, and
 * how the role form is taken apart again (src/automation/selectors.rs).
 */
module Selectors {
  import opened Text

  predicate IsSpecial(c: char) {
    c == '"' || c == '\\'
  }

  /** `escapeCSS`: one backslash before each quote and backslash. */
  function EscapeCss(s: string): string {
    if s == "" then "" else (if IsSpecial(s[0]) then ['\\', s[0]] else [s[0]]) + EscapeCss(s[1..])
  }

  // ---- The CSS reader (CSS Syntax Level 3) ----

  const REPLACEMENT: char := '\U{FFFD}'
  const FORM_FEED: char := '\U{C}'

  /** Preprocessing of the input stream (section 3.3). */
  function Preprocess(s: string): string {
    if s == "" then ""
    else if s[0] == '\r' then "\n" + Preprocess(if |s| > 1 && s[1] == '\n' then s[2..] else s[1..])
    else if s[0] == FORM_FEED then "\n" + Preprocess(s[1..])
    else if s[0] == '\0' then [REPLACEMENT] + Preprocess(s[1..])
    else [s[0]] + Preprocess(s[1..])
  }

  predicate IsHex(c: char) {
    '0' <= c <= '9' || 'a' <= c <= 'f' || 'A' <= c <= 'F'
  }

  function HexValue(c: char): nat
    requires IsHex(c)
  {
    if '0' <= c <= '9' then c as int - '0' as int
    else if 'a' <= c <= 'f' then c as int - 'a' as int + 10
    else c as int - 'A' as int + 10
  }

  /** Up to `most` hex digits: their number and value. */
  function HexRun(s: string, most: nat, value: nat): (nat, nat)
    decreases most
  {
    if most == 0 || s == "" || !IsHex(s[0]) then (0, value)
    else var (n, v) := HexRun(s[1..], most - 1, 16 * value + HexValue(s[0])); (n + 1, v)
  }

  lemma {:induction false} HexRunFits(s: string, most: nat, value: nat)
    ensures HexRun(s, most, value).0 <= |s|
    decreases most
  {
    if !(most == 0 || s == "" || !IsHex(s[0])) { HexRunFits(s[1..], most - 1, 16 * value + HexValue(s[0])); }
  }

  function CodePoint(v: nat): char {
    if v == 0 || 0xD800 <= v <= 0xDFFF || v > 0x10FFFF then REPLACEMENT else v as char
  }

  /** Consuming an escaped code point (section 4.3.7), after the backslash: the character and the input left. */
  function ConsumeEscape(s: string): (r: (char, string))
    requires s != ""
    ensures |r.1| < |s|
  {
    if IsHex(s[0]) then
      HexRunFits(s, 6, 0);
      var (n, v) := HexRun(s, 6, 0);
      assert n >= 1;
      (CodePoint(v), if n < |s| && s[n] in {'\n', '\t', ' '} then s[n + 1..] else s[n..])
    else (s[0], s[1..])
  }

  datatype Token = StringToken(value: string, rest: string) | BadString

  function Prepend(c: char, t: Token): Token {
    if t.StringToken? then StringToken([c] + t.value, t.rest) else t
  }

  /** Consuming a string token that ends at `"` (section 4.3.5), after the opening quote. */
  function ConsumeString(s: string): Token
    decreases |s|
  {
    if s == "" then StringToken("", "")
    else if s[0] == '"' then StringToken("", s[1..])
    else if s[0] == '\n' then BadString
    else if s[0] == '\\' then
      if |s| == 1 then StringToken("", "")
      else if s[1] == '\n' then ConsumeString(s[2..])
      else var (c, rest) := ConsumeEscape(s[1..]); Prepend(c, ConsumeString(rest))
    else Prepend(s[0], ConsumeString(s[1..]))
  }

  /** Characters that a CSS string cannot carry as they are: line ends, and NUL, which is replaced. */
  predicate IsBreaking(c: char) {
    c == '\n' || c == '\r' || c == FORM_FEED || c == '\0'
  }

  lemma ReadSpecial(c: char, rest: string)
    requires IsSpecial(c)
    ensures ConsumeString(Preprocess(['\\', c] + rest)) == Prepend(c, ConsumeString(Preprocess(rest)))
  {
    var s := ['\\', c] + rest;
    assert s[1..] == [c] + rest && s[1..][1..] == rest;
    assert Preprocess(s) == ['\\'] + ([c] + Preprocess(rest));
    assert (['\\'] + ([c] + Preprocess(rest)))[1..] == [c] + Preprocess(rest);
    assert ([c] + Preprocess(rest))[1..] == Preprocess(rest);
  }

  lemma ReadPlain(c: char, rest: string)
    requires !IsSpecial(c)
    ensures IsBreaking(c) && c != '\0' ==> ConsumeString(Preprocess([c] + rest)) == BadString
    ensures c == '\0' ==> ConsumeString(Preprocess([c] + rest)) == Prepend(REPLACEMENT, ConsumeString(Preprocess(rest)))
    ensures !IsBreaking(c) ==> ConsumeString(Preprocess([c] + rest)) == Prepend(c, ConsumeString(Preprocess(rest)))
  {
    var s := [c] + rest;
    assert s[1..] == rest;
    if c == '\0' {
      assert Preprocess(s) == [REPLACEMENT] + Preprocess(rest);
      assert ([REPLACEMENT] + Preprocess(rest))[1..] == Preprocess(rest);
    } else if !IsBreaking(c) {
      assert Preprocess(s) == [c] + Preprocess(rest);
      assert ([c] + Preprocess(rest))[1..] == Preprocess(rest);
    }
  }

  /**
   * An escaped value between double quotes is read back as itself, and nothing more, exactly if it has no line end
   * and no NUL.
   */
  lemma {:induction false} EscapedValueIsReadIff(v: string, rest: string)
    ensures ConsumeString(Preprocess(EscapeCss(v) + "\"" + rest)) == StringToken(v, Preprocess(rest)) <==>
            forall c <- v :: !IsBreaking(c)
  {
    if v == "" {
      assert EscapeCss(v) + "\"" + rest == ['"'] + rest;
      assert (['"'] + rest)[1..] == rest;
      assert Preprocess(['"'] + rest) == ['"'] + Preprocess(rest);
    } else {
      var c, more := v[0], EscapeCss(v[1..]) + "\"" + rest;
      EscapedValueIsReadIff(v[1..], rest);
      assert v == [c] + v[1..];
      if IsSpecial(c) {
        assert EscapeCss(v) + "\"" + rest == ['\\', c] + more;
        ReadSpecial(c, more);
      } else {
        assert EscapeCss(v) + "\"" + rest == [c] + more;
        ReadPlain(c, more);
      }
    }
  }

  // ---- translate_selector ----

  datatype Translated =
    | ByRole(role: string, name: Option<string>)
    | ByText(text: string)
    | ByLabel(label_: string)
    | Css(selector: string)
    | Locator(selector: string)

  /** `Panic` where a byte slice is out of range or inside a character. */
  datatype Outcome = Panic | Value(value: Translated)

  const PLAYWRIGHT_SELECTOR_PATTERNS := [
    ":visible", ":has-text(", ":text(", ":has(", ">> ", ":nth-match(", "role=", ":right-of(", ":left-of(", ":above(",
    ":below(", ":near("]

  predicate IsCssSelector(selector: string) {
    forall p <- PLAYWRIGHT_SELECTOR_PATTERNS :: Find(selector, p).None?
  }

  function TrimQuotesStart(s: string): string {
    if s != "" && s[0] == '"' then TrimQuotesStart(s[1..]) else s
  }

  function TrimQuotesEnd(s: string): string {
    if s != "" && s[|s| - 1] == '"' then TrimQuotesEnd(s[..|s| - 1]) else s
  }

  /** `trim_matches('"')`. */
  function TrimQuotes(s: string): string {
    TrimQuotesEnd(TrimQuotesStart(s))
  }

  /** `split`. */
  function Split(s: string, sep: string): (r: seq<string>)
    requires sep != ""
    ensures r != []
    decreases |s|
  {
    match Find(s, sep)
    case None => [s]
    case Some(i) => [s[..i]] + Split(s[i + |sep|..], sep)
  }

  function FirstWithPrefix(pieces: seq<string>, prefix: string): Option<string> {
    if pieces == [] then None
    else if prefix <= pieces[0] then Some(pieces[0])
    else FirstWithPrefix(pieces[1..], prefix)
  }

  function ExtractAttrValue(attrs: string, name: string): Option<string> {
    match FirstWithPrefix(Split(attrs, "]["), name + "=")
    case None => None
    case Some(a) => Some(TrimQuotes(a[if |name| + 1 <= |a| then |name| + 1 else |a|..]))
  }

  function TranslateSelector(selector: string): Outcome {
    if "role=" <= selector then
      var rest := selector[5..];
      match Find(rest, "[")
      case None => Value(ByRole(rest, None))
      case Some(bracket) =>
        if bracket + 1 == |rest| || rest[|rest| - 1] as int >= 0x80 then Panic
        else Value(ByRole(rest[..bracket], ExtractAttrValue(rest[bracket + 1..|rest| - 1], "name")))
    else if "text=" <= selector then Value(ByText(TrimQuotes(selector[5..])))
    else if "label=" <= selector then Value(ByLabel(TrimQuotes(selector[6..])))
    else if IsCssSelector(selector) then Value(Css(selector))
    else Value(Locator(selector))
  }

  /** The role form the helper script prints. */
  function PrintRole(role: string, name: string): string {
    "role=" + role + "[name=\"" + EscapeCss(name) + "\"]"
  }

  predicate HasSpecial(s: string) {
    exists c <- s :: IsSpecial(c)
  }

  lemma {:induction false} EscapeFacts(s: string)
    ensures !HasSpecial(s) ==> EscapeCss(s) == s
    ensures |EscapeCss(s)| >= |s| + if HasSpecial(s) then 1 else 0
    ensures s != "" ==> EscapeCss(s)[0] != '"'
  {
    if s != "" {
      EscapeFacts(s[1..]);
      assert s[0] in s;
      assert HasSpecial(s) <==> IsSpecial(s[0]) || HasSpecial(s[1..]) by {
        forall c <- s ensures c == s[0] || c in s[1..] {
        }
      }
    }
  }

  /** An escaped text ends with a quote only if the text does, and then a backslash is before it. */
  lemma {:induction false} EscapeEnd(s: string)
    requires s != ""
    ensures var e := EscapeCss(s);
            e != "" && e[|e| - 1] == s[|s| - 1] && (IsSpecial(s[|s| - 1]) ==> |e| >= 2 && e[|e| - 2] == '\\')
  {
    if |s| > 1 { EscapeEnd(s[1..]); }
  }

  predicate CutAt(s: string, i: nat) {
    i + 1 < |s| && s[i] == ']' && s[i + 1] == '['
  }

  lemma CutMeansOccurs(s: string, i: nat)
    ensures CutAt(s, i) <==> OccursAt(s, "][", i)
  {
    if i + 2 <= |s| {
      var part := s[i..i + 2];
      assert part[0] == s[i] && part[1] == s[i + 1];
      assert part == "][" <==> part[0] == ']' && part[1] == '[';
    }
  }

  lemma {:induction false} EscapeMakesNoCut(s: string, i: nat) returns (k: nat)
    requires CutAt(EscapeCss(s), i)
    ensures CutAt(s, k)
  {
    var tail := EscapeCss(s[1..]);
    var skip := if IsSpecial(s[0]) then 2 else 1;
    if i >= skip {
      var j := EscapeMakesNoCut(s[1..], i - skip);
      k := j + 1;
    } else {
      assert skip == 1 && tail[0] == '[';
      k := 0;
    }
  }

  /** Escaping makes no new `][`. */
  lemma EscapeKeepsBrackets(s: string, i: nat)
    requires OccursAt(EscapeCss(s), "][", i)
    ensures Contains(s, "][")
  {
    CutMeansOccurs(EscapeCss(s), i);
    var k := EscapeMakesNoCut(s, i);
    CutMeansOccurs(s, k);
  }

  lemma {:induction false} TrimQuotesStartPart(s: string) returns (lo: nat)
    ensures lo <= |s| && TrimQuotesStart(s) == s[lo..]
  {
    if s != "" && s[0] == '"' {
      var k := TrimQuotesStartPart(s[1..]);
      lo := k + 1;
    } else {
      lo := 0;
    }
  }

  lemma {:induction false} TrimQuotesEndPart(s: string) returns (hi: nat)
    ensures hi <= |s| && TrimQuotesEnd(s) == s[..hi]
  {
    if s != "" && s[|s| - 1] == '"' {
      hi := TrimQuotesEndPart(s[..|s| - 1]);
    } else {
      hi := |s|;
    }
  }

  /** Trimming quotes makes nothing new appear. */
  lemma TrimmedHasNoMore(s: string, pat: string)
    requires Contains(TrimQuotes(s), pat)
    ensures Contains(s, pat)
  {
    var lo := TrimQuotesStartPart(s);
    var front := TrimQuotesStart(s);
    var hi := TrimQuotesEndPart(front);
    assert front[0..hi] == TrimQuotes(s);
    ContainsInPart(front, 0, hi, pat);
    assert s[lo..|s|] == front;
    ContainsInPart(s, lo, |s|, pat);
  }

  lemma TrimFirstQuote(s: string)
    requires s != "" && s[0] != '"'
    ensures TrimQuotesStart(['"'] + s) == s
  {
    assert (['"'] + s)[1..] == s;
  }

  lemma TrimLastQuote(s: string)
    ensures TrimQuotesEnd(s + ['"']) == TrimQuotesEnd(s)
  {
    var t := s + ['"'];
    assert t[..|t| - 1] == s;
  }

  lemma TrimAroundEscape(s: string)
    requires s != ""
    ensures var e := EscapeCss(s);
            |e| >= 1 && TrimQuotes(['"'] + (e + ['"'])) == if s[|s| - 1] == '"' then e[..|e| - 1] else e
  {
    var e := EscapeCss(s);
    EscapeFacts(s);
    EscapeEnd(s);
    TrimFirstQuote(e + ['"']);
    TrimLastQuote(e);
    if e[|e| - 1] == '"' {
      var front := e[..|e| - 1];
      assert front[|front| - 1] == e[|e| - 2] == '\\';
      assert TrimQuotesEnd(front) == front;
    }
  }

  lemma TrimAroundNothing()
    ensures TrimQuotes(['"'] + ("" + ['"'])) == ""
  {
    var one := "" + ['"'];
    var two := ['"'] + one;
    assert one[1..] == "" && two[1..] == one;
    assert TrimQuotesStart(one) == TrimQuotesStart("") == "";
    assert TrimQuotesStart(two) == TrimQuotesStart(one);
  }

  lemma ShortenedDiffers(e: string, name: string)
    requires |e| > |name| > 0 && e[|e| - 2] != name[|name| - 1]
    ensures e[..|e| - 1] != name
  {
    if |e| - 1 == |name| { assert e[..|e| - 1][|name| - 1] == e[|e| - 2]; }
  }

  /** What is left of the quoted form of an escaped name when its outer quotes are trimmed. */
  lemma TrimQuotedEscape(name: string)
    ensures TrimQuotes(['"'] + (EscapeCss(name) + ['"'])) == name <==> !HasSpecial(name)
  {
    var e := EscapeCss(name);
    if name == "" {
      TrimAroundNothing();
      return;
    }
    TrimAroundEscape(name);
    EscapeFacts(name);
    var last := name[|name| - 1];
    assert last in name;
    if last == '"' {
      assert HasSpecial(name);
      EscapeEnd(name);
      ShortenedDiffers(e, name);
    }
  }

  function NameAttribute(name: string): string {
    "name=\"" + EscapeCss(name) + "\""
  }

  lemma UncutNameIsReadIff(name: string)
    requires Find(NameAttribute(name), "][").None?
    ensures ExtractAttrValue(NameAttribute(name), "name") == Some(name) <==> !HasSpecial(name) && !Contains(name, "][")
  {
    var attrs := NameAttribute(name);
    assert Split(attrs, "][") == [attrs];
    assert "name" + "=" == "name=" <= attrs;
    assert attrs[5..] == ['"'] + (EscapeCss(name) + ['"']);
    TrimQuotedEscape(name);
    EscapeFacts(name);
    if !HasSpecial(name) {
      assert attrs[6..6 + |name|] == name;
      if Contains(name, "][") { ContainsInPart(attrs, 6, 6 + |name|, "]["); }
    }
  }

  lemma BeforeFirstHasNone(s: string, pat: string, i: nat)
    requires Find(s, pat) == Some(i)
    ensures pat != "" ==> !Contains(s[..i], pat)
  {
    forall j: nat | OccursAt(s[..i], pat, j) ensures OccursAt(s, pat, j) {
      assert s[j..j + |pat|] == s[..i][j..j + |pat|];
    }
  }

  lemma CutNameIsNotRead(name: string, i: nat)
    requires Find(NameAttribute(name), "][") == Some(i)
    ensures ExtractAttrValue(NameAttribute(name), "name") != Some(name) && Contains(name, "][")
  {
    var attrs, piece := NameAttribute(name), NameAttribute(name)[..i];
    assert attrs[i] == attrs[i..i + 2][0] == ']';
    assert attrs[..6] == "name=\"";
    assert forall k | 0 <= k < 6 :: attrs[k] == attrs[..6][k] != ']';
    assert "name" + "=" == "name=" <= piece;
    SeparatorIsInName(name, i);
    BeforeFirstHasNone(attrs, "][", i);
    var tail := piece[5..|piece|];
    assert Split(attrs, "][")[0] == piece && piece[5..] == tail;
    assert ExtractAttrValue(attrs, "name") == Some(TrimQuotes(tail));
    if Contains(TrimQuotes(tail), "][") {
      TrimmedHasNoMore(tail, "][");
      ContainsInPart(piece, 5, |piece|, "][");
    }
  }

  /** The name is read back exactly if it has no quote, no backslash and no `][`. */
  lemma NameIsReadIff(name: string)
    ensures ExtractAttrValue(NameAttribute(name), "name") == Some(name) <==> !HasSpecial(name) && !Contains(name, "][")
  {
    if Find(NameAttribute(name), "][").None? {
      UncutNameIsReadIff(name);
    } else {
      CutNameIsNotRead(name, Find(NameAttribute(name), "][").value);
    }
  }

  lemma SeparatorIsInName(name: string, i: nat)
    requires 6 <= i && OccursAt(NameAttribute(name), "][", i)
    ensures Contains(name, "][")
  {
    var attrs, e := NameAttribute(name), EscapeCss(name);
    assert attrs[i] == attrs[i..i + 2][0] == ']' && attrs[i + 1] == attrs[i..i + 2][1] == '[';
    assert i + 2 <= 6 + |e| by {
      assert attrs[|attrs| - 1] == '"';
    }
    assert attrs[i..i + 2] == e[i - 6..i - 4];
    EscapeKeepsBrackets(name, i - 6);
  }

  lemma FindChar(before: string, c: char, after: string)
    ensures Find(before + [c] + after, [c]).Some?
    ensures Find(before + [c] + after, [c]).value == |before| <==> c !in before
    ensures Find(before + [c] + after, [c]).value <= |before|
  {
    var s := before + [c] + after;
    assert s[|before|..|before| + 1] == [c];
    assert OccursAt(s, [c], |before|);
    forall k: nat | k < |before| ensures OccursAt(s, [c], k) <==> before[k] == c {
      assert s[k..k + 1] == [before[k]];
    }
  }

  /** The role form after its prefix: the role, then the name in brackets. */
  lemma PrintedRoleParts(role: string, name: string)
    ensures var printed, rest := PrintRole(role, name), role + ['['] + (NameAttribute(name) + "]");
            "role=" <= printed && printed[5..] == rest && rest[|rest| - 1] == ']' &&
            rest[..|role|] == role && rest[|role| + 1..|rest| - 1] == NameAttribute(name)
  {
    var printed, rest := PrintRole(role, name), role + ['['] + (NameAttribute(name) + "]");
    assert printed == "role=" + rest;
  }

  /**
   * `translate_selector` undoes the printed role form exactly if the role has no `[` and the name has no quote,
   * no backslash and no `][`.
   */
  lemma RoleFormIsReadIff(role: string, name: string)
    ensures TranslateSelector(PrintRole(role, name)) == Value(ByRole(role, Some(name))) <==>
            '[' !in role && !HasSpecial(name) && !Contains(name, "][")
  {
    PrintedRoleParts(role, name);
    FindChar(role, '[', NameAttribute(name) + "]");
    NameIsReadIff(name);
  }

  // ---- The other forms ----

  predicate AllQuotes(s: string) {
    forall i | 0 <= i < |s| :: s[i] == '"'
  }

  lemma {:induction false} QuotesStartDrop(front: string, s: string)
    requires AllQuotes(front) && (s != "" ==> s[0] != '"')
    ensures TrimQuotesStart(front + s) == s
  {
    if front == "" {
      assert front + s == s;
    } else {
      assert (front + s)[1..] == front[1..] + s;
      QuotesStartDrop(front[1..], s);
    }
  }

  lemma {:induction false} QuotesEndDrop(s: string, back: string)
    requires AllQuotes(back) && (s != "" ==> s[|s| - 1] != '"')
    ensures TrimQuotesEnd(s + back) == s
    decreases |back|
  {
    if back == "" {
      assert s + back == s;
    } else {
      assert (s + back)[..|s + back| - 1] == s + back[..|back| - 1];
      QuotesEndDrop(s, back[..|back| - 1]);
    }
  }

  /** Trimming takes away exactly the quotes around a text that has none at its ends. */
  lemma TrimQuotesIs(front: string, t: string, back: string)
    requires AllQuotes(front) && AllQuotes(back) && (t != "" ==> t[0] != '"' && t[|t| - 1] != '"')
    ensures TrimQuotes(front + t + back) == t
  {
    if t == "" {
      assert front + t + back == (front + back) + "";
      QuotesStartDrop(front + back, "");
    } else {
      assert front + t + back == front + (t + back);
      QuotesStartDrop(front, t + back);
      QuotesEndDrop(t, back);
    }
  }

  /** The text and label forms give the text between the quotes, and a role without attributes gives the role alone. */
  lemma SimpleFormsAreRead(t: string, role: string)
    requires (t != "" ==> t[0] != '"' && t[|t| - 1] != '"') && '[' !in role
    ensures TranslateSelector("text=\"" + t + "\"") == Value(ByText(t))
    ensures TranslateSelector("label=\"" + t + "\"") == Value(ByLabel(t))
    ensures TranslateSelector("role=" + role) == Value(ByRole(role, None))
  {
    var quoted := "\"" + t + "\"";
    TrimQuotesIs("\"", t, "\"");
    assert "text=\"" + t + "\"" == "text=" + quoted && "label=\"" + t + "\"" == "label=" + quoted;
    assert ("text=" + quoted)[0] == 't' && ("label=" + quoted)[0] == 'l';
    assert ("text=" + quoted)[5..] == quoted && ("label=" + quoted)[6..] == quoted;
    assert ("role=" + role)[5..] == role;
    FindCharIs(role, '[');
  }

  /** What a CSS engine does not know and the browser driver does. */
  ghost predicate HasDriverSyntax(s: string) {
    Contains(s, ":visible") || Contains(s, ":has-text(") || Contains(s, ":text(") || Contains(s, ":has(") ||
    Contains(s, ">> ") || Contains(s, ":nth-match(") || Contains(s, "role=") || Contains(s, ":right-of(") ||
    Contains(s, ":left-of(") || Contains(s, ":above(") || Contains(s, ":below(") || Contains(s, ":near(")
  }

  lemma IsCssIff(s: string)
    ensures IsCssSelector(s) <==> !HasDriverSyntax(s)
  {
    var p := PLAYWRIGHT_SELECTOR_PATTERNS;
    assert p[0] == ":visible" && p[1] == ":has-text(" && p[2] == ":text(" && p[3] == ":has(" && p[4] == ">> " &&
           p[5] == ":nth-match(" && p[6] == "role=" && p[7] == ":right-of(" && p[8] == ":left-of(" &&
           p[9] == ":above(" && p[10] == ":below(" && p[11] == ":near(" && |p| == 12;
    forall i: nat | i < |p| ensures Find(s, p[i]).None? <==> !Contains(s, p[i]) {
    }
    assert IsCssSelector(s) <==> forall i: nat | i < |p| :: Find(s, p[i]).None? by {
      assert forall i: nat | i < |p| :: p[i] in p;
    }
  }

  /** Any other selector is passed on as it is: as CSS exactly if it has no syntax of the driver's own. */
  lemma OtherSelectorsPassThrough(s: string)
    requires !("role=" <= s) && !("text=" <= s) && !("label=" <= s)
    ensures TranslateSelector(s) == Value(if HasDriverSyntax(s) then Locator(s) else Css(s))
  {
    IsCssIff(s);
  }
}
