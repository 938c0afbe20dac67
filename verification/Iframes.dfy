/** Matching braces, and rewriting a script for an iframe by them (src/automation/iframes.rs). */
module Iframes {
  import opened Text

  /** Opening less closing braces; strings and comments are not told apart, as in the code. */
  function Depth(text: string): int {
    if text == "" then 0
    else Depth(text[..|text| - 1]) + Weight(text[|text| - 1])
  }

  function Weight(c: char): int {
    if c == '{' then 1 else if c == '}' then -1 else 0
  }

  lemma {:induction false} DepthConcat(a: string, b: string)
    ensures Depth(a + b) == Depth(a) + Depth(b)
  {
    if b == "" {
      assert a + b == a;
    } else {
      assert (a + b)[..|a + b| - 1] == a + b[..|b| - 1];
      DepthConcat(a, b[..|b| - 1]);
    }
  }

  /** A `}` after some opening at which every brace so far is matched. */
  predicate ClosesAt(text: string, i: nat) {
    i < |text| && text[i] == '}' && '{' in text[..i] && Depth(text[..i + 1]) == 0
  }

  method FindMatchingBrace(text: string) returns (r: Option<nat>)
    ensures r == MatchingBrace(text)
  {
    var depth, started := 0, false;
    for i := 0 to |text|
      invariant depth == Depth(text[..i]) && (started <==> '{' in text[..i])
      invariant forall j: nat | j < i :: !ClosesAt(text, j)
    {
      assert text[..i + 1] == text[..i] + [text[i]] && text[..i + 1][..i] == text[..i];
      if text[i] == '{' {
        depth := depth + 1;
        started := true;
      } else if text[i] == '}' {
        depth := depth - 1;
        if started && depth == 0 {
          FirstClosingIs(text, i);
          return Some(i);
        }
      }
    }
    NoClosing(text, 0);
    return None;
  }

  /** The first such position. */
  function MatchingBrace(text: string): (r: Option<nat>)
    ensures r.Some? ==> ClosesAt(text, r.value) && forall j: nat | j < r.value :: !ClosesAt(text, j)
    ensures r.None? ==> forall j: nat :: !ClosesAt(text, j)
  {
    FirstFrom(text, 0)
  }

  function FirstFrom(text: string, i: nat): (r: Option<nat>)
    requires i <= |text|
    ensures r.Some? ==>
              i <= r.value && ClosesAt(text, r.value) && forall j: nat | i <= j < r.value :: !ClosesAt(text, j)
    ensures r.None? ==> forall j: nat | i <= j :: !ClosesAt(text, j)
    decreases |text| - i
  {
    if i == |text| then None else if ClosesAt(text, i) then Some(i) else FirstFrom(text, i + 1)
  }

  lemma FirstClosingIs(text: string, i: nat)
    requires ClosesAt(text, i) && forall j: nat | j < i :: !ClosesAt(text, j)
    ensures MatchingBrace(text) == Some(i)
  {
  }

  lemma NoClosing(text: string, i: nat)
    requires forall j: nat | j < |text| :: !ClosesAt(text, j)
    ensures MatchingBrace(text) == None
  {
  }

  lemma {:induction false} NoBracesNoDepth(text: string)
    requires '{' !in text && '}' !in text
    ensures Depth(text) == 0
  {
    if text != "" { NoBracesNoDepth(text[..|text| - 1]); }
  }

  /**
   * Where no `}` comes before the first `{`, the slice from that `{` to the position found is balanced, and no
   * shorter one is: inside it the depth stays positive.
   */
  lemma ShortestBalancedBlock(text: string, open: nat)
    requires open < |text| && text[open] == '{' && '{' !in text[..open] && '}' !in text[..open]
    ensures match MatchingBrace(text)
            case Some(i) => open < i < |text| && Depth(text[open..i + 1]) == 0 &&
                            forall j: nat | open < j <= i :: Depth(text[open..j]) > 0
            case None => forall j: nat | open < j <= |text| :: Depth(text[open..j]) > 0
  {
    var end := match MatchingBrace(text) case Some(i) => i case None => |text|;
    NoBracesNoDepth(text[..open]);
    forall j: nat | open <= j <= |text| ensures Depth(text[..j]) == Depth(text[open..j]) {
      assert text[..j] == text[..open] + text[open..j];
      DepthConcat(text[..open], text[open..j]);
    }
    if end < |text| { assert '{' in text[..end]; }
    PositiveUntilClosing(text, open, end);
  }

  lemma {:induction false} PositiveUntilClosing(text: string, open: nat, end: nat)
    requires open < end <= |text| && text[open] == '{' && Depth(text[..open]) == 0
    requires forall j: nat | j < end :: !ClosesAt(text, j)
    ensures forall j: nat | open < j <= end :: Depth(text[..j]) > 0
    decreases end
  {
    assert text[..end] == text[..end - 1] + [text[end - 1]] && text[..end][..end - 1] == text[..end - 1];
    if open + 1 < end {
      PositiveUntilClosing(text, open, end - 1);
      assert text[..end - 1][open] == '{';
      assert !ClosesAt(text, end - 1);
    }
  }

  /** The closing brace that ends the block opened at `open`. */
  ghost predicate IsOwnMatch(text: string, open: nat, i: nat) {
    open < i < |text| && Depth(text[open..i + 1]) == 0 && forall j: nat | open < j <= i :: Depth(text[open..j]) > 0
  }

  lemma {:induction false} NoOpeningsDepth(text: string)
    requires '{' !in text
    ensures Depth(text) <= 0 && (Depth(text) == 0 <==> '}' !in text)
  {
    if text != "" {
      NoOpeningsDepth(text[..|text| - 1]);
      assert text == text[..|text| - 1] + [text[|text| - 1]];
    }
  }

  /** The position found is the first opening brace's own match exactly if no closing brace comes before that one. */
  lemma OwnMatchIsFoundIff(text: string, open: nat, i: nat)
    requires open < |text| && text[open] == '{' && '{' !in text[..open] && IsOwnMatch(text, open, i)
    ensures MatchingBrace(text) == Some(i) <==> '}' !in text[..open]
  {
    if '}' !in text[..open] {
      ShortestBalancedBlock(text, open);
    } else {
      NoOpeningsDepth(text[..open]);
      assert text[..i + 1] == text[..open] + text[open..i + 1];
      DepthConcat(text[..open], text[open..i + 1]);
    }
  }

  // ---- Rewriting ----

  const GET_DOC_CALL := "getDoc()"
  const GET_DOC_HEAD := "function getDoc()"
  const GET_DOC_STUB := "function getDoc() " + "{" + " return document; " + "}"
  const DOCUMENT := "(document)"

  /** The text with its first `getDoc` function replaced by the stub, if there is one. */
  function StubGetDoc(script: string): string {
    match Find(script, GET_DOC_HEAD)
    case None => script
    case Some(start) =>
      match MatchingBrace(script[start..])
      case None => script
      case Some(end) => script[..start] + GET_DOC_STUB + script[start + end + 1..]
  }

  function AdaptScriptForIframe(script: string): string {
    Replace(StubGetDoc(script), GET_DOC_CALL, DOCUMENT)
  }

  /** From the first `function name` to its matching brace. */
  function FunctionText(script: string, name: string): (r: Option<string>)
    ensures r.Some? ==> Depth(r.value) == 0
  {
    match Find(script, "function " + name)
    case None => None
    case Some(start) =>
      match MatchingBrace(script[start..])
      case None => None
      case Some(end) => Some(script[start..][..end + 1])
  }

  function ExtractFunction(script: string, name: string): Option<string> {
    match FunctionText(script, name)
    case None => None
    case Some(text) => Some(StubGetDoc(Replace(text, GET_DOC_CALL, DOCUMENT)))
  }

  lemma {:induction false} ReplaceKeepsDepth(s: string, pat: string, with: string)
    requires pat != "" && Depth(pat) == Depth(with) == 0
    ensures Depth(Replace(s, pat, with)) == Depth(s)
  {
    if pat <= s {
      ReplaceKeepsDepth(s[|pat|..], pat, with);
      DepthConcat(with, Replace(s[|pat|..], pat, with));
      assert s == pat + s[|pat|..];
      DepthConcat(pat, s[|pat|..]);
    } else if s != "" {
      ReplaceKeepsDepth(s[1..], pat, with);
      DepthConcat([s[0]], Replace(s[1..], pat, with));
      assert s == [s[0]] + s[1..];
      DepthConcat([s[0]], s[1..]);
    }
  }

  lemma BlockIsBalanced(head: string, body: string)
    requires '{' !in head + body && '}' !in head + body
    ensures Depth(head + "{" + body + "}") == 0
  {
    NoBracesNoDepth(head);
    NoBracesNoDepth(body);
    DepthConcat(head + "{" + body, "}");
    DepthConcat(head + "{", body);
    DepthConcat(head, "{");
    assert Depth("{") == 1 && Depth("}") == -1;
  }

  lemma StubIsBalanced()
    ensures Depth(GET_DOC_STUB) == 0 && Depth(GET_DOC_CALL) == 0 && Depth(DOCUMENT) == 0
  {
    BlockIsBalanced("function getDoc() ", " return document; ");
    NoBracesNoDepth(GET_DOC_CALL);
    NoBracesNoDepth(DOCUMENT);
  }

  lemma SwapKeepsDepth(a: string, b: string, with: string, c: string)
    requires Depth(b) == Depth(with)
    ensures Depth(a + b + c) == Depth(a + with + c)
  {
    DepthConcat(a + b, c);
    DepthConcat(a, b);
    DepthConcat(a + with, c);
    DepthConcat(a, with);
  }

  lemma CutAt(s: string, i: nat, n: nat)
    requires i + n <= |s|
    ensures s == s[..i] + s[i..][..n] + s[i..][n..] && s[i..][n..] == s[i + n..]
  {
  }

  lemma StubShape(script: string) returns (a: string, b: string, c: string)
    requires Find(script, GET_DOC_HEAD).Some? && MatchingBrace(script[Find(script, GET_DOC_HEAD).value..]).Some?
    ensures script == a + b + c && StubGetDoc(script) == a + GET_DOC_STUB + c && Depth(b) == 0
  {
    var start := Find(script, GET_DOC_HEAD).value;
    var rest := script[start..];
    var end := MatchingBrace(rest).value;
    a, b, c := script[..start], rest[..end + 1], rest[end + 1..];
    CutAt(script, start, end + 1);
  }

  lemma StubKeepsDepth(script: string)
    ensures Depth(StubGetDoc(script)) == Depth(script)
  {
    if Find(script, GET_DOC_HEAD).Some? && MatchingBrace(script[Find(script, GET_DOC_HEAD).value..]).Some? {
      var a, b, c := StubShape(script);
      StubIsBalanced();
      SwapKeepsDepth(a, b, GET_DOC_STUB, c);
    }
  }

  /** Adapting a script keeps its net brace depth. */
  lemma AdaptKeepsDepth(script: string)
    ensures Depth(AdaptScriptForIframe(script)) == Depth(script)
  {
    StubIsBalanced();
    StubKeepsDepth(script);
    ReplaceKeepsDepth(StubGetDoc(script), GET_DOC_CALL, DOCUMENT);
  }

  method AdaptScript(script: string) returns (adapted: string)
    ensures adapted == AdaptScriptForIframe(script)
    ensures Depth(adapted) == Depth(script) && !Contains(adapted, GET_DOC_CALL)
  {
    adapted := script;
    var start := Find(adapted, GET_DOC_HEAD);
    if start.Some? {
      var end := FindMatchingBrace(adapted[start.value..]);
      if end.Some? {
        adapted := adapted[..start.value] + GET_DOC_STUB + adapted[start.value + end.value + 1..];
      }
    }
    assert adapted == StubGetDoc(script);
    NoCallLeft(adapted);
    adapted := Replace(adapted, GET_DOC_CALL, DOCUMENT);
    AdaptKeepsDepth(script);
  }

  /** An extracted function has net brace depth zero. */
  lemma ExtractedIsBalanced(script: string, name: string)
    ensures var r := ExtractFunction(script, name); r.Some? ==> Depth(r.value) == 0
  {
    var text := FunctionText(script, name);
    if text.Some? {
      StubIsBalanced();
      ReplaceKeepsDepth(text.value, GET_DOC_CALL, DOCUMENT);
      StubKeepsDepth(Replace(text.value, GET_DOC_CALL, DOCUMENT));
    }
  }

  /**
   * What an extraction takes out of a script: the text from the first `function name` to the brace that closes it, the
   * first one after an opening at which every brace since is matched.
   */
  lemma FunctionTextIs(script: string, name: string)
    ensures match FunctionText(script, name)
            case None =>
              forall i: nat, n: nat | OccursAt(script, "function " + name, i) :: !IsFirstFunction(script, name, i, n)
            case Some(text) =>
              exists i: nat :: IsFirstFunction(script, name, i, |text|) && text == script[i..i + |text|]
  {
    var pat := "function " + name;
    if FunctionText(script, name).Some? {
      var i := Find(script, pat).value;
      var end := MatchingBrace(script[i..]).value;
      assert script[i..][..end + 1] == script[i..i + (end + 1)];
      assert IsFirstFunction(script, name, i, end + 1);
    } else {
      forall i: nat, n: nat | OccursAt(script, pat, i) ensures !IsFirstFunction(script, name, i, n) {
        FirstFunctionIsTaken(script, name, i, n);
      }
    }
  }

  lemma FirstFunctionIsTaken(script: string, name: string, i: nat, n: nat)
    ensures IsFirstFunction(script, name, i, n) ==> FunctionText(script, name).Some?
  {
    if IsFirstFunction(script, name, i, n) { assert Find(script, "function " + name) == Some(i); }
  }

  /** The first `function name` is at `i`, and `n` characters from there on are up to its closing brace. */
  ghost predicate IsFirstFunction(script: string, name: string, i: nat, n: nat) {
    OccursAt(script, "function " + name, i) && (forall j: nat | j < i :: !OccursAt(script, "function " + name, j)) &&
    n > 0 && ClosesAt(script[i..], n - 1) && forall j: nat | j < n - 1 :: !ClosesAt(script[i..], j)
  }

  /** The stub takes the place of the first `getDoc` function, up to the brace that closes it, and of nothing else. */
  lemma StubIs(script: string)
    ensures (exists i: nat, n: nat ::
               IsFirstFunction(script, "getDoc()", i, n) && i + n <= |script| &&
               StubGetDoc(script) == script[..i] + "function getDoc() { return document; }" + script[i + n..]) ||
            (StubGetDoc(script) == script && forall i: nat, n: nat :: !IsFirstFunction(script, "getDoc()", i, n))
  {
    assert "function " + "getDoc()" == GET_DOC_HEAD;
    assert GET_DOC_STUB == "function getDoc() { return document; }";
    FunctionTextIs(script, "getDoc()");
    if FunctionText(script, "getDoc()").Some? {
      var i := Find(script, GET_DOC_HEAD).value;
      var end := MatchingBrace(script[i..]).value;
      assert IsFirstFunction(script, "getDoc()", i, end + 1);
      assert script[i + end + 1..] == script[i + (end + 1)..];
    }
  }

  // ---- No call is left ----

  /** A match can neither begin inside `with` nor run into it. */
  predicate KeepsApart(pat: string, with: string) {
    pat != "" && |with| > 1 && pat[0] !in with &&
    forall j | 1 <= j < |pat| :: pat[j] != with[0] || (j + 1 < |pat| && pat[j + 1] != with[1])
  }

  lemma {:induction false} TailStaysOut(s: string, pat: string, with: string, j: nat)
    requires KeepsApart(pat, with) && 1 <= j <= |pat| && pat[j..] <= Replace(s, pat, with)
    ensures pat[j..] <= s
  {
    assert j < |pat| ==> pat[j..][0] == pat[j];
    assert j + 1 < |pat| ==> pat[j..][1] == pat[j + 1];
    if j < |pat| && !(pat <= s) {
      TailStaysOut(s[1..], pat, with, j + 1);
      assert pat[j..] == [pat[j]] + pat[j + 1..];
    }
  }

  lemma NoMatchAtStart(s: string, pat: string, with: string)
    requires KeepsApart(pat, with) && s != "" && !(pat <= s)
    ensures !(pat <= [s[0]] + Replace(s[1..], pat, with))
  {
    var rest := Replace(s[1..], pat, with);
    assert pat == [pat[0]] + pat[1..];
    assert s == [s[0]] + s[1..];
    if pat[1..] <= rest { TailStaysOut(s[1..], pat, with, 1); }
  }

  lemma OccursBehind(front: string, rest: string, pat: string, i: nat)
    requires i >= |front|
    ensures OccursAt(front + rest, pat, i) <==> OccursAt(rest, pat, i - |front|)
  {
    if i + |pat| <= |front + rest| {
      assert (front + rest)[i..i + |pat|] == rest[i - |front|..i - |front| + |pat|];
    }
  }

  lemma NoMatchInside(with: string, rest: string, pat: string, i: nat)
    requires KeepsApart(pat, with) && i < |with|
    ensures !OccursAt(with + rest, pat, i)
  {
    var t := with + rest;
    assert i + |pat| <= |t| ==> t[i..i + |pat|][0] == t[i] == with[i];
  }

  /** Then nothing is left of the pattern, and no new match appears. */
  lemma {:induction false} ReplaceLeavesNone(s: string, pat: string, with: string, i: nat)
    requires KeepsApart(pat, with)
    ensures !OccursAt(Replace(s, pat, with), pat, i)
    decreases |s|
  {
    if pat <= s {
      var rest := Replace(s[|pat|..], pat, with);
      if i < |with| {
        NoMatchInside(with, rest, pat, i);
      } else {
        ReplaceLeavesNone(s[|pat|..], pat, with, i - |with|);
        OccursBehind(with, rest, pat, i);
      }
    } else if s != "" {
      var rest := Replace(s[1..], pat, with);
      if i > 0 {
        ReplaceLeavesNone(s[1..], pat, with, i - 1);
        OccursBehind([s[0]], rest, pat, i);
      } else {
        NoMatchAtStart(s, pat, with);
      }
    }
  }

  lemma NoCallLeft(s: string)
    ensures !Contains(Replace(s, GET_DOC_CALL, DOCUMENT), GET_DOC_CALL)
    ensures StubGetDoc(Replace(s, GET_DOC_CALL, DOCUMENT)) == Replace(s, GET_DOC_CALL, DOCUMENT)
  {
    var t := Replace(s, GET_DOC_CALL, DOCUMENT);
    forall i: nat ensures !OccursAt(t, GET_DOC_CALL, i) {
      ReplaceLeavesNone(s, GET_DOC_CALL, DOCUMENT, i);
    }
    assert OccursAt(GET_DOC_HEAD, GET_DOC_CALL, 9);
    if Contains(t, GET_DOC_HEAD) { ContainsTransitive(t, GET_DOC_HEAD, GET_DOC_CALL); }
  }

  /**
   * Neither result contains a call or a definition of `getDoc` any more. So the stub put in by the first step of
   * an adaption is itself rewritten, and the last step of an extraction never finds anything.
   */
  lemma NoGetDocLeft(script: string, name: string)
    ensures !Contains(AdaptScriptForIframe(script), GET_DOC_CALL)
    ensures var text, r := FunctionText(script, name), ExtractFunction(script, name);
            text.Some? ==> r == Some(Replace(text.value, GET_DOC_CALL, DOCUMENT)) && !Contains(r.value, GET_DOC_CALL)
  {
    NoCallLeft(StubGetDoc(script));
    if FunctionText(script, name).Some? { NoCallLeft(FunctionText(script, name).value); }
  }
}
