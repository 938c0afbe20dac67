/** Repair of JSON answers that end too early (src/ai/json_parser.rs): final closers left out are put back. */
module JsonRepair {
  import opened Text

  /** The scanner's memory: the closers still owed, innermost last, and where it is inside a string. */
  datatype Scan = Scan(stack: string, inString: bool, escaped: bool)

  const START := Scan("", false, false)

  predicate IsCloser(c: char) {
    c == '}' || c == ']'
  }

  /** One character; `None` for a closer that does not match. */
  function Advance(s: Scan, c: char): Option<Scan> {
    if s.inString then
      Some(if s.escaped then s.(escaped := false)
           else if c == '\\' then s.(escaped := true)
           else if c == '"' then s.(inString := false)
           else s)
    else if c == '"' then Some(s.(inString := true))
    else if c == '{' then Some(s.(stack := s.stack + "}"))
    else if c == '[' then Some(s.(stack := s.stack + "]"))
    else if IsCloser(c) then
      if s.stack != "" && s.stack[|s.stack| - 1] == c then Some(s.(stack := s.stack[..|s.stack| - 1])) else None
    else Some(s)
  }

  function ScanText(s: Scan, text: string): Option<Scan>
    decreases text
  {
    if text == "" then Some(s)
    else match Advance(s, text[0])
      case None => None
      case Some(next) => ScanText(next, text[1..])
  }

  /** The owed closers, innermost first. */
  function Closers(stack: string): string {
    if stack == "" then "" else [stack[|stack| - 1]] + Closers(stack[..|stack| - 1])
  }

  /** The function form of the repair. */
  function Repaired(text: string): Option<string> {
    match ScanText(START, text)
    case None => None
    case Some(s) => if s.inString || s.escaped || s.stack == "" then None else Some(text + Closers(s.stack))
  }

  method CloseMissingEofDelimiters(text: string) returns (r: Option<string>)
    ensures r == Repaired(text)
  {
    var stack, inString, escaped := "", false, false;
    for i := 0 to |text|
      invariant ScanText(Scan(stack, inString, escaped), text[i..]) == ScanText(START, text)
    {
      var ch := text[i];
      assert text[i..][1..] == text[i + 1..];
      if inString {
        if escaped { escaped := false; }
        else if ch == '\\' { escaped := true; }
        else if ch == '"' { inString := false; }
        continue;
      }
      if ch == '"' { inString := true; }
      else if ch == '{' { stack := stack + "}"; }
      else if ch == '[' { stack := stack + "]"; }
      else if ch == '}' || ch == ']' {
        // The pop happens while the guard is evaluated, also where the closer then matches.
        var popped := if stack == "" then None else Some(stack[|stack| - 1]);
        stack := if stack == "" then "" else stack[..|stack| - 1];
        if popped != Some(ch) { return None; }
      }
    }
    if inString || escaped || stack == "" { return None; }
    var repaired := text;
    ghost var all := stack;
    while stack != ""
      invariant repaired + Closers(stack) == text + Closers(all)
      decreases |stack|
    {
      repaired := repaired + [stack[|stack| - 1]];
      stack := stack[..|stack| - 1];
    }
    assert repaired + Closers("") == repaired;
    return Some(repaired);
  }

  // ---- What a repair is ----

  /** Strings and escapes complete, every bracket closed by its own closer. */
  predicate Balanced(text: string) {
    ScanText(START, text) == Some(START)
  }

  predicate AllClosers(text: string) {
    forall c <- text :: IsCloser(c)
  }

  lemma {:induction false} ScanConcat(s: Scan, a: string, b: string)
    ensures ScanText(s, a + b) == match ScanText(s, a) case None => None case Some(next) => ScanText(next, b)
    decreases a
  {
    if a == "" {
      assert a + b == b;
    } else {
      assert (a + b)[1..] == a[1..] + b;
      if Advance(s, a[0]).Some? { ScanConcat(Advance(s, a[0]).value, a[1..], b); }
    }
  }

  /** Outside a string nothing is escaped. */
  lemma {:induction false} NoEscapeOutside(s: Scan, text: string)
    requires s.escaped ==> s.inString
    ensures var r := ScanText(s, text); r.Some? ==> (r.value.escaped ==> r.value.inString)
    decreases text
  {
    if text != "" && Advance(s, text[0]).Some? { NoEscapeOutside(Advance(s, text[0]).value, text[1..]); }
  }

  /** Closers alone lead back to the start exactly if they are the owed closers, innermost first. */
  lemma {:induction false} OnlyOwedClosersClose(s: Scan, c: string)
    requires AllClosers(c) && (s.escaped ==> s.inString)
    ensures ScanText(s, c) == Some(START) <==> !s.inString && c == Closers(s.stack)
    decreases c
  {
    assert c != "" ==> c[0] in c;
    if c == "" {
    } else if s.inString {
      var next := Advance(s, c[0]).value;
      OnlyOwedClosersClose(next, c[1..]);
    } else if s.stack == "" || s.stack[|s.stack| - 1] != c[0] {
      assert Advance(s, c[0]) == None;
    } else {
      OnlyOwedClosersClose(Advance(s, c[0]).value, c[1..]);
      assert c == [c[0]] + c[1..];
    }
  }

  lemma {:induction false} ScanKeepsClosers(s: Scan, text: string)
    requires AllClosers(s.stack)
    ensures ScanText(s, text).Some? ==> AllClosers(ScanText(s, text).value.stack)
    decreases text
  {
    if text != "" && Advance(s, text[0]).Some? { ScanKeepsClosers(Advance(s, text[0]).value, text[1..]); }
  }

  lemma {:induction false} ClosersAreClosers(stack: string)
    requires AllClosers(stack)
    ensures AllClosers(Closers(stack)) && |Closers(stack)| == |stack|
  {
    if stack != "" { ClosersAreClosers(stack[..|stack| - 1]); }
  }

  /**
   * For every text and every candidate string of closers: the repair gives exactly the text with that string if
   * the string is not empty and balances the text, so the missing closers are unique.
   */
  lemma RepairIsTheOnlyCompletion(text: string, c: string)
    requires AllClosers(c)
    ensures c != "" && Balanced(text + c) <==> Repaired(text) == Some(text + c)
  {
    ScanConcat(START, text, c);
    NoEscapeOutside(START, text);
    if ScanText(START, text).Some? {
      var s := ScanText(START, text).value;
      OnlyOwedClosersClose(s, c);
      assert Repaired(text) == Some(text + c) ==> (text + Closers(s.stack))[|text|..] == (text + c)[|text|..];
      ScanKeepsClosers(START, text);
      ClosersAreClosers(s.stack);
    }
  }

  /**
   * There is a repair exactly if closers alone can balance the text; a repaired text is balanced and not repaired
   * again.
   */
  lemma RepairedIff(text: string)
    ensures Repaired(text).Some? <==> exists c :: AllClosers(c) && c != "" && Balanced(text + c)
    ensures Repaired(text).Some? ==> Balanced(Repaired(text).value) && Repaired(Repaired(text).value) == None
  {
    if Repaired(text).Some? {
      var s := ScanText(START, text).value;
      var c := Closers(s.stack);
      ScanKeepsClosers(START, text);
      ClosersAreClosers(s.stack);
      RepairIsTheOnlyCompletion(text, c);
    }
    if c :| AllClosers(c) && c != "" && Balanced(text + c) {
      RepairIsTheOnlyCompletion(text, c);
    }
  }

  /** Any text that is balanced comes back from the loss of a non-empty run of its final closers. */
  lemma TruncationIsUndone(text: string, kept: nat)
    requires Balanced(text) && kept < |text| && AllClosers(text[kept..])
    ensures Repaired(text[..kept]) == Some(text)
  {
    assert text == text[..kept] + text[kept..];
    RepairIsTheOnlyCompletion(text[..kept], text[kept..]);
  }

  // ---- Every JSON text is balanced ----

  /** One character of a JSON string, as it is written (section 7 of RFC 8259). */
  datatype StringChar = Raw(c: char) | Escaped(c: char) | Unicode(hex: string)
  {
    predicate WellFormed() {
      match this
      case Raw(c) => c as int >= 0x20 && c != '"' && c != '\\'
      case Escaped(c) => c in "\"\\/bfnrt"
      case Unicode(hex) => |hex| == 4 && forall c <- hex :: '0' <= c <= '9' || 'a' <= c <= 'f' || 'A' <= c <= 'F'
    }

    function Text(): string {
      match this
      case Raw(c) => [c]
      case Escaped(c) => ['\\', c]
      case Unicode(hex) => ['\\', 'u'] + hex
    }
  }

  /** A JSON text by the grammar of sections 2 to 7: a value with the whitespace around it. */
  datatype Json = Json(before: string, value: Value, after: string)
  {
    predicate WellFormed() {
      IsSpace(before) && value.WellFormed() && IsSpace(after)
    }
  }

  /**
   * `inner` is the whitespace of an empty array or object; a number is any sequence of the characters numbers are
   * made of.
   */
  datatype Value =
    | Literal(word: string)
    | Number(digits: string)
    | Str(chars: seq<StringChar>)
    | Arr(inner: string, items: seq<Json>)
    | Obj(inner: string, members: seq<Member>)
  {
    predicate WellFormed() {
      match this
      case Literal(word) => word in ["null", "true", "false"]
      case Number(digits) => digits != "" && forall c <- digits :: c in "+-.0123456789eE"
      case Str(chars) => forall c <- chars :: c.WellFormed()
      case Arr(inner, items) => IsSpace(inner) && forall j <- items :: j.WellFormed()
      case Obj(inner, members) => IsSpace(inner) && forall m <- members :: m.WellFormed()
    }
  }

  datatype Member = Member(before: string, name: seq<StringChar>, after: string, value: Json)
  {
    predicate WellFormed() {
      IsSpace(before) && (forall c <- name :: c.WellFormed()) && IsSpace(after) && value.WellFormed()
    }
  }

  predicate IsSpace(s: string) {
    forall c <- s :: c in " \t\n\r"
  }

  function CharsText(chars: seq<StringChar>): string {
    if chars == [] then "" else chars[0].Text() + CharsText(chars[1..])
  }

  function Quoted(chars: seq<StringChar>): string {
    "\"" + CharsText(chars) + "\""
  }

  function Enclosed(open: char, body: string, close: char): string {
    [open] + body + [close]
  }

  function JsonText(j: Json): string
    decreases j
  {
    j.before + ValueText(j.value) + j.after
  }

  function ValueText(v: Value): string
    decreases v, 1
  {
    match v
    case Literal(word) => word
    case Number(digits) => digits
    case Str(chars) => Quoted(chars)
    case Arr(inner, items) => Enclosed('[', if items == [] then inner else ItemsText(v, |items|), ']')
    case Obj(inner, members) => Enclosed('{', if members == [] then inner else MembersText(v, |members|), '}')
  }

  function ItemsText(v: Value, n: nat): string
    requires v.Arr? && n <= |v.items|
    decreases v, 0, n
  {
    if n == 0 then "" else ItemsText(v, n - 1) + (if n == 1 then "" else ",") + JsonText(v.items[n - 1])
  }

  function MembersText(v: Value, n: nat): string
    requires v.Obj? && n <= |v.members|
    decreases v, 0, n
  {
    if n == 0 then ""
    else
      var m := v.members[n - 1];
      MembersText(v, n - 1) + (if n == 1 then "" else ",") + NameText(m) + JsonText(m.value)
  }

  function NameText(m: Member): string {
    m.before + Quoted(m.name) + m.after + ":"
  }

  ghost predicate IsJsonText(text: string) {
    exists j: Json :: j.WellFormed() && JsonText(j) == text
  }

  /** The scanner is where it was, outside strings. */
  ghost predicate Passes(s: Scan, text: string) {
    ScanText(s, text) == Some(s)
  }

  lemma PassesConcat(s: Scan, a: string, b: string)
    requires Passes(s, a)
    ensures ScanText(s, a + b) == ScanText(s, b)
  {
    ScanConcat(s, a, b);
  }

  lemma {:induction false} PlainTextPasses(s: Scan, text: string)
    requires !s.inString && forall c <- text :: c !in "{}[]\""
    ensures Passes(s, text)
    decreases text
  {
    if text != "" {
      assert text[0] in text;
      PlainTextPasses(s, text[1..]);
    }
  }

  lemma LiteralPasses(s: Scan, word: string)
    requires !s.inString && word in ["null", "true", "false"]
    ensures Passes(s, word)
  {
    assert forall c <- word :: c in "nulltruefalse";
    PlainTextPasses(s, word);
  }

  lemma NumberPasses(s: Scan, digits: string)
    requires !s.inString && forall c <- digits :: c in "+-.0123456789eE"
    ensures Passes(s, digits)
  {
    PlainTextPasses(s, digits);
  }

  lemma {:induction false} InnerTextPasses(s: Scan, text: string)
    requires s.inString && !s.escaped && forall c <- text :: c != '"' && c != '\\'
    ensures Passes(s, text)
    decreases text
  {
    if text != "" {
      assert text[0] in text && forall c <- text[1..] :: c in text;
      InnerTextPasses(s, text[1..]);
    }
  }

  lemma EscapePairPasses(s: Scan, c: char)
    requires s.inString && !s.escaped
    ensures Passes(s, ['\\', c])
  {
    var pair := ['\\', c];
    assert pair[1..] == [c];
    assert ScanText(s.(escaped := true), [c]) == ScanText(s, [c][1..]);
  }

  lemma CharPasses(s: Scan, c: StringChar)
    requires s.inString && !s.escaped && c.WellFormed()
    ensures Passes(s, c.Text())
  {
    match c
    case Raw(x) => InnerTextPasses(s, [x]);
    case Escaped(x) => EscapePairPasses(s, x);
    case Unicode(hex) =>
      EscapePairPasses(s, 'u');
      InnerTextPasses(s, hex);
      PassesConcat(s, ['\\', 'u'], hex);
  }

  lemma {:induction false} CharsPass(s: Scan, chars: seq<StringChar>)
    requires s.inString && !s.escaped && forall c <- chars :: c.WellFormed()
    ensures Passes(s, CharsText(chars))
    decreases chars
  {
    if chars != [] {
      CharPasses(s, chars[0]);
      CharsPass(s, chars[1..]);
      PassesConcat(s, chars[0].Text(), CharsText(chars[1..]));
    }
  }

  lemma QuotedPasses(s: Scan, chars: seq<StringChar>)
    requires !s.inString && !s.escaped && forall c <- chars :: c.WellFormed()
    ensures Passes(s, Quoted(chars))
  {
    var inside := s.(inString := true);
    CharsPass(inside, chars);
    PassesConcat(inside, CharsText(chars), "\"");
    assert Quoted(chars)[1..] == CharsText(chars) + "\"";
    assert ScanText(inside, "\"") == Some(s);
  }

  lemma BracketsPass(s: Scan, open: char, body: string, close: char)
    requires !s.inString && !s.escaped && ((open == '[' && close == ']') || (open == '{' && close == '}'))
    requires Passes(s.(stack := s.stack + [close]), body)
    ensures Passes(s, Enclosed(open, body, close))
  {
    var inner := s.(stack := s.stack + [close]);
    assert ([open] + body + [close])[1..] == body + [close];
    PassesConcat(inner, body, [close]);
    assert inner.stack[..|s.stack|] == s.stack;
    assert Advance(inner, close) == Some(s);
    assert ScanText(inner, [close]) == ScanText(s, [close][1..]);
  }

  lemma ThreePass(s: Scan, a: string, b: string, c: string)
    requires Passes(s, a) && Passes(s, b) && Passes(s, c)
    ensures Passes(s, a + b + c)
  {
    PassesConcat(s, a, b);
    PassesConcat(s, a + b, c);
  }

  /** The scanner passes over any JSON text, with any whitespace and any escapes, and is where it was. */
  lemma {:induction false} JsonTextPasses(s: Scan, j: Json)
    requires j.WellFormed() && !s.inString && !s.escaped
    ensures Passes(s, JsonText(j))
    decreases j
  {
    PlainTextPasses(s, j.before);
    ValuePasses(s, j.value);
    PlainTextPasses(s, j.after);
    ThreePass(s, j.before, ValueText(j.value), j.after);
  }

  lemma {:induction false} ValuePasses(s: Scan, v: Value)
    requires v.WellFormed() && !s.inString && !s.escaped
    ensures Passes(s, ValueText(v))
    decreases v, 1
  {
    match v
    case Literal(word) => LiteralPasses(s, word);
    case Number(digits) => NumberPasses(s, digits);
    case Str(chars) => QuotedPasses(s, chars);
    case Arr(_, _) => ArrayPasses(s, v);
    case Obj(_, _) => ObjectPasses(s, v);
  }

  lemma {:induction false} ArrayPasses(s: Scan, v: Value)
    requires v.Arr? && v.WellFormed() && !s.inString && !s.escaped
    ensures Passes(s, ValueText(v))
    decreases v, 0, |v.items| + 1
  {
    var within, body := s.(stack := s.stack + [']']), if v.items == [] then v.inner else ItemsText(v, |v.items|);
    if v.items == [] { PlainTextPasses(within, v.inner); } else { ItemsPass(within, v, |v.items|); }
    BracketsPass(s, '[', body, ']');
  }

  lemma {:induction false} ObjectPasses(s: Scan, v: Value)
    requires v.Obj? && v.WellFormed() && !s.inString && !s.escaped
    ensures Passes(s, ValueText(v))
    decreases v, 0, |v.members| + 1
  {
    var within, body := s.(stack := s.stack + ['}']), if v.members == [] then v.inner else MembersText(v, |v.members|);
    if v.members == [] { PlainTextPasses(within, v.inner); } else { MembersPass(within, v, |v.members|); }
    BracketsPass(s, '{', body, '}');
  }

  lemma {:induction false} ItemsPass(s: Scan, v: Value, n: nat)
    requires v.Arr? && v.WellFormed() && n <= |v.items| && !s.inString && !s.escaped
    ensures Passes(s, ItemsText(v, n))
    decreases v, 0, n
  {
    if n > 0 {
      var sep := if n == 1 then "" else ",";
      ItemsPass(s, v, n - 1);
      JsonTextPasses(s, v.items[n - 1]);
      PlainTextPasses(s, sep);
      ThreePass(s, ItemsText(v, n - 1), sep, JsonText(v.items[n - 1]));
    }
  }

  lemma NamePasses(s: Scan, m: Member)
    requires m.WellFormed() && !s.inString && !s.escaped
    ensures Passes(s, NameText(m))
  {
    PlainTextPasses(s, m.before);
    QuotedPasses(s, m.name);
    PlainTextPasses(s, m.after);
    PlainTextPasses(s, ":");
    ThreePass(s, m.before, Quoted(m.name), m.after);
    PassesConcat(s, m.before + Quoted(m.name) + m.after, ":");
  }

  lemma {:induction false} MembersPass(s: Scan, v: Value, n: nat)
    requires v.Obj? && v.WellFormed() && n <= |v.members| && !s.inString && !s.escaped
    ensures Passes(s, MembersText(v, n))
    decreases v, 0, n
  {
    if n > 0 {
      var front, sep, m := MembersText(v, n - 1), if n == 1 then "" else ",", v.members[n - 1];
      MembersPass(s, v, n - 1);
      PlainTextPasses(s, sep);
      NamePasses(s, m);
      JsonTextPasses(s, m.value);
      ThreePass(s, front, sep, NameText(m));
      PassesConcat(s, front + sep + NameText(m), JsonText(m.value));
    }
  }

  lemma JsonTextIsBalanced(text: string)
    requires IsJsonText(text)
    ensures Balanced(text)
  {
    var j: Json :| j.WellFormed() && JsonText(j) == text;
    JsonTextPasses(START, j);
  }

  /** Dropping any non-empty run of final closers from any JSON text and repairing gives back the text. */
  lemma JsonTextIsRestored(text: string, kept: nat)
    requires IsJsonText(text) && kept < |text| && AllClosers(text[kept..])
    ensures Repaired(text[..kept]) == Some(text)
  {
    JsonTextIsBalanced(text);
    TruncationIsUndone(text, kept);
  }

  // ---- Closers lost together with the whitespace between them ----

  predicate ClosersAndSpace(t: string) {
    forall c <- t :: IsCloser(c) || c in " \t\n\r"
  }

  /** The closers alone. */
  function Squeezed(t: string): (r: string)
    ensures AllClosers(r)
  {
    if t == "" then "" else (if IsCloser(t[0]) then [t[0]] else "") + Squeezed(t[1..])
  }

  /** Such a text cannot end a string. */
  lemma {:induction false} StaysInString(s: Scan, t: string)
    requires ClosersAndSpace(t) && s.inString
    ensures ScanText(s, t).Some? && ScanText(s, t).value.inString
    decreases t
  {
    if t != "" {
      assert t[0] in t && forall c <- t[1..] :: c in t;
      StaysInString(Advance(s, t[0]).value, t[1..]);
    }
  }

  lemma ScanCons(s: Scan, c: char, t: string)
    ensures ScanText(s, [c] + t) == match Advance(s, c) case None => None case Some(next) => ScanText(next, t)
  {
    assert ([c] + t)[1..] == t;
  }

  lemma ScanAlikeBehind(s: Scan, c: char, t: string, u: string)
    requires Advance(s, c).Some? ==> ScanText(Advance(s, c).value, t) == ScanText(Advance(s, c).value, u)
    ensures ScanText(s, [c] + t) == ScanText(s, [c] + u)
  {
    ScanCons(s, c, t);
    ScanCons(s, c, u);
  }

  lemma StepOutside(s: Scan, c: char)
    requires !s.inString && (IsCloser(c) || c in " \t\n\r")
    ensures Advance(s, c).Some? ==> !Advance(s, c).value.inString
    ensures !IsCloser(c) ==> Advance(s, c) == Some(s)
  {
  }

  lemma SqueezedCons(c: char, t: string)
    ensures Squeezed([c] + t) == if IsCloser(c) then [c] + Squeezed(t) else Squeezed(t)
  {
    assert ([c] + t)[1..] == t;
  }

  /** And outside strings its whitespace is passed over. */
  lemma {:induction false} SqueezedScansAlike(s: Scan, t: string)
    requires ClosersAndSpace(t) && !s.inString
    ensures ScanText(s, t) == ScanText(s, Squeezed(t))
    decreases t
  {
    if t != "" {
      var c, rest := t[0], t[1..];
      assert c in t && (forall x <- rest :: x in t) && t == [c] + rest;
      SqueezedCons(c, rest);
      StepOutside(s, c);
      if IsCloser(c) {
        if Advance(s, c).Some? { SqueezedScansAlike(Advance(s, c).value, rest); }
        ScanAlikeBehind(s, c, rest, Squeezed(rest));
      } else {
        SqueezedScansAlike(s, rest);
        ScanCons(s, c, rest);
      }
    }
  }

  lemma SqueezedBalances(head: string, t: string)
    requires ClosersAndSpace(t) && Balanced(head + t)
    ensures Balanced(head + Squeezed(t))
  {
    ScanConcat(START, head, t);
    ScanConcat(START, head, Squeezed(t));
    var s := ScanText(START, head).value;
    if s.inString { StaysInString(s, t); } else { SqueezedScansAlike(s, t); }
  }

  /**
   * A balanced text that has lost any end made of closers and whitespace, with at least one closer, comes back as the
   * same text without the whitespace of that end; what was left is not balanced.
   */
  lemma LostEndIsRestored(head: string, t: string)
    requires ClosersAndSpace(t) && Balanced(head + t) && Squeezed(t) != ""
    ensures Repaired(head) == Some(head + Squeezed(t)) && !Balanced(head)
  {
    SqueezedBalances(head, t);
    RepairIsTheOnlyCompletion(head, Squeezed(t));
  }

  lemma {:induction false} SqueezedSpace(space: string, tail: string)
    requires IsSpace(space)
    ensures Squeezed(space + tail) == Squeezed(tail)
  {
    if space == "" {
      assert space + tail == tail;
    } else {
      assert space[0] in space && (space + tail)[1..] == space[1..] + tail;
      SqueezedSpace(space[1..], tail);
    }
  }

  // ---- The repair's place among the strategies of parse_ai_json ----

  function FindLast(s: string, c: char): Option<nat> {
    if s == "" then None else if s[|s| - 1] == c then Some(|s| - 1) else FindLast(s[..|s| - 1], c)
  }

  lemma FindLastInside(s: string, c: char)
    ensures FindLast(s, c).Some? ==> FindLast(s, c).value < |s|
  {
  }

  /** What is between the first `open` and the next fence after it. */
  function Fenced(text: string, open: string): Option<string> {
    match Find(text, open)
    case None => None
    case Some(start) =>
      var after := text[start + |open|..];
      match Find(after, "```")
      case None => None
      case Some(end) => Some(Trim(after[..end]))
  }

  /** From the first `open` to the last `close`. */
  function Outermost(text: string, open: char, close: char): Option<string> {
    match (Find(text, [open]), FindLast(text, close))
    case (Some(start), Some(end)) =>
      FindLastInside(text, close);
      if end > start then Some(text[start..end + 1]) else None
    case _ => None
  }

  lemma {:induction false} FindLastIs(s: string, c: char)
    ensures match FindLast(s, c)
            case Some(i) => i < |s| && s[i] == c && c !in s[i + 1..]
            case None => c !in s
  {
    if s != "" && s[|s| - 1] != c {
      var front := s[..|s| - 1];
      FindLastIs(front, c);
      assert s == front + [s[|s| - 1]];
      if FindLast(front, c).Some? {
        var i := FindLast(front, c).value;
        assert s[i + 1..] == front[i + 1..] + [s[|s| - 1]];
      }
    }
  }

  lemma FirstPlace(a: string, b: string, c: char, i: nat)
    requires i < |a + b| && (a + b)[i] == c && c !in (a + b)[..i] && c !in a && b != "" && b[0] == c
    ensures i == |a|
  {
    forall k: nat | k < |a| ensures (a + b)[k] != c {
      assert (a + b)[k] == a[k];
    }
    forall k: nat | k < i ensures (a + b)[k] != c {
      assert (a + b)[k] == (a + b)[..i][k];
    }
    assert (a + b)[|a|] == c;
  }

  lemma LastPlace(a: string, b: string, c: char, i: nat)
    requires i < |a + b| && (a + b)[i] == c && c !in (a + b)[i + 1..] && c !in b && a != "" && a[|a| - 1] == c
    ensures i == |a| - 1
  {
    forall k: nat | |a| <= k < |a + b| ensures (a + b)[k] != c {
      assert (a + b)[k] == b[k - |a|];
    }
    forall k: nat | i < k < |a + b| ensures (a + b)[k] != c {
      assert (a + b)[k] == (a + b)[i + 1..][k - i - 1];
    }
    assert (a + b)[|a| - 1] == c;
  }

  /** The text is `a + c + b` with `c` from the first `open` to the last `close`. */
  ghost predicate IsOutermost(text: string, open: char, close: char, a: string, c: string, b: string) {
    text == a + c + b && |c| >= 2 && c[0] == open && c[|c| - 1] == close && open !in a && close !in b
  }

  lemma OutermostSplits(text: string, open: char, close: char) returns (a: string, b: string)
    requires Outermost(text, open, close).Some?
    ensures IsOutermost(text, open, close, a, Outermost(text, open, close).value, b)
  {
    FindCharIs(text, open);
    FindLastIs(text, close);
    var start, end := Find(text, [open]).value, FindLast(text, close).value;
    a, b := text[..start], text[end + 1..];
    assert text == a + text[start..end + 1] + b;
  }

  lemma FirstFound(a: string, b: string, c: char)
    requires c !in a && b != "" && b[0] == c
    ensures Find(a + b, [c]) == Some(|a|)
  {
    FindCharIs(a + b, c);
    assert (a + b)[|a|] == c;
    assert c in a + b;
    FirstPlace(a, b, c, Find(a + b, [c]).value);
  }

  lemma LastFound(a: string, b: string, c: char)
    requires c !in b && a != "" && a[|a| - 1] == c
    ensures FindLast(a + b, c) == Some(|a| - 1)
  {
    FindLastIs(a + b, c);
    assert (a + b)[|a| - 1] == c;
    assert c in a + b;
    LastPlace(a, b, c, FindLast(a + b, c).value);
  }

  lemma OutermostIs(open: char, close: char, a: string, c: string, b: string)
    requires IsOutermost(a + c + b, open, close, a, c, b)
    ensures Outermost(a + c + b, open, close) == Some(c)
  {
    var text := a + c + b;
    FirstFound(a, c + b, open);
    LastFound(a + c, b, close);
    assert text == a + (c + b);
    assert text[|a|..|a| + |c|] == c;
  }

  /**
   * The candidate is exactly the part from the first `open` to the last `close`, if that has two characters or more.
   */
  lemma OutermostIff(text: string, open: char, close: char, c: string)
    ensures Outermost(text, open, close) == Some(c) <==> exists a, b :: IsOutermost(text, open, close, a, c, b)
  {
    if Outermost(text, open, close) == Some(c) {
      var a, b := OutermostSplits(text, open, close);
    }
    if a, b :| IsOutermost(text, open, close, a, c, b) { OutermostIs(open, close, a, c, b); }
  }

  /** The text is `a`, the opening fence, `inner`, a closing fence and `b`, both fences the first that can be. */
  ghost predicate IsFenced(text: string, open: string, a: string, inner: string, b: string) {
    text == a + open + (inner + "```" + b) && (forall j: nat | j < |a| :: !OccursAt(text, open, j)) &&
    forall j: nat | j < |inner| :: !OccursAt(inner + "```" + b, "```", j)
  }

  lemma FencedSplits(text: string, open: string) returns (a: string, inner: string, b: string)
    requires Fenced(text, open).Some?
    ensures IsFenced(text, open, a, inner, b) && Fenced(text, open) == Some(Trim(inner))
  {
    var after;
    a, after := FindSplits(text, open);
    inner, b := FindSplits(after, "```");
  }

  lemma FirstOccurrenceIs(a: string, pat: string, b: string)
    requires forall j: nat | j < |a| :: !OccursAt(a + pat + b, pat, j)
    ensures Find(a + pat + b, pat) == Some(|a|)
  {
    var text := a + pat + b;
    assert text[|a|..|a| + |pat|] == pat;
    assert OccursAt(text, pat, |a|);
  }

  lemma FencedIs(open: string, a: string, inner: string, b: string)
    requires IsFenced(a + open + (inner + "```" + b), open, a, inner, b)
    ensures Fenced(a + open + (inner + "```" + b), open) == Some(Trim(inner))
  {
    var after := inner + "```" + b;
    var text := a + open + after;
    FirstOccurrenceIs(a, open, after);
    FirstOccurrenceIs(inner, "```", b);
    assert text[|a| + |open|..] == after;
    assert after[..|inner|] == inner;
  }

  /** The candidate is exactly the trimmed text between the first opening fence and the first fence after it. */
  lemma FencedIff(text: string, open: string, c: string)
    ensures Fenced(text, open) == Some(c) <==>
            exists a, inner, b :: IsFenced(text, open, a, inner, b) && c == Trim(inner)
  {
    if Fenced(text, open) == Some(c) {
      var a, inner, b := FencedSplits(text, open);
    }
    if a, inner, b :| IsFenced(text, open, a, inner, b) && c == Trim(inner) { FencedIs(open, a, inner, b); }
  }

  function Try<V>(parse: string -> Option<V>, candidate: Option<string>): Option<V> {
    if candidate.Some? then parse(candidate.value) else None
  }

  /** `parse` is the JSON parser. */
  function ParseAiJson<V>(parse: string -> Option<V>, answer: string): Option<V> {
    var text := Trim(answer);
    var direct := parse(text);
    if direct.Some? then direct else
    var repaired := Try(parse, Repaired(text));
    if repaired.Some? then repaired else
    var tagged := Try(parse, Fenced(text, "```json"));
    if tagged.Some? then tagged else
    var fenced := Try(parse, Fenced(text, "```"));
    if fenced.Some? then fenced else
    var object_ := Try(parse, Outermost(text, '{', '}'));
    if object_.Some? then object_ else
    Try(parse, Outermost(text, '[', ']'))
  }

  /** Whitespace among the closers at the end of a JSON text does not matter to the parser. */
  ghost predicate EndIsReadAlike<V>(parse: string -> Option<V>, head: string, t: string) {
    IsJsonText(head + t) && ClosersAndSpace(t) ==> parse(head + t) == parse(head + Squeezed(t))
  }

  ghost predicate IsJsonParser<V(!new)>(parse: string -> Option<V>) {
    (forall text :: parse(text).Some? ==> IsJsonText(text)) && forall head, t :: EndIsReadAlike(parse, head, t)
  }

  /**
   * An answer that is a text the parser accepts, whole or without any end made of closers and whitespace, is read as
   * that text is. The whitespace before the lost end is what trimming the answer takes away.
   */
  lemma AnswerIsRead<V(!new)>(parse: string -> Option<V>, whole: string, head: string, space: string, tail: string,
                              answer: string)
    requires IsJsonParser(parse) && parse(whole).Some?
    requires whole == head + space + tail && IsSpace(space) && ClosersAndSpace(tail) && Trim(answer) == head
    ensures ParseAiJson(parse, answer) == parse(whole)
  {
    assert whole == head + (space + tail);
    ParsedIsBalanced(parse, whole);
    ParsedIsBalanced(parse, head);
    SqueezedIsRead(parse, head, space + tail);
    LostEndIsRead(parse, head, space + tail, answer);
  }

  lemma ParsedIsBalanced<V(!new)>(parse: string -> Option<V>, text: string)
    requires IsJsonParser(parse)
    ensures parse(text).Some? ==> Balanced(text)
  {
    if parse(text).Some? { JsonTextIsBalanced(text); }
  }

  lemma SqueezedIsRead<V(!new)>(parse: string -> Option<V>, head: string, t: string)
    requires IsJsonParser(parse) && parse(head + t).Some? && ClosersAndSpace(t)
    ensures parse(head + Squeezed(t)) == parse(head + t)
  {
    assert EndIsReadAlike(parse, head, t);
  }

  lemma LostEndIsRead<V>(parse: string -> Option<V>, head: string, t: string, answer: string)
    requires parse(head + Squeezed(t)) == parse(head + t) && parse(head + t).Some?
    requires Balanced(head + t) && (parse(head).Some? ==> Balanced(head)) && ClosersAndSpace(t) && Trim(answer) == head
    ensures ParseAiJson(parse, answer) == parse(head + t)
  {
    if Squeezed(t) != "" {
      LostEndIsRestored(head, t);
      RepairIsRead(parse, answer, head + Squeezed(t));
    } else {
      assert head + Squeezed(t) == head;
    }
  }

  lemma RepairIsRead<V>(parse: string -> Option<V>, answer: string, repaired: string)
    requires parse(Trim(answer)).None? && Repaired(Trim(answer)) == Some(repaired) && parse(repaired).Some?
    ensures ParseAiJson(parse, answer) == parse(repaired)
  {
  }

  // ---- Answers with prose around the JSON text ----

  /** Neither the answer itself nor its repair is accepted. */
  predicate NotReadAsItIs<V>(parse: string -> Option<V>, text: string) {
    parse(text).None? && Try(parse, Repaired(text)).None?
  }

  predicate NoFenceIsRead<V>(parse: string -> Option<V>, text: string) {
    Try(parse, Fenced(text, "```json")).None? && Try(parse, Fenced(text, "```")).None?
  }

  /** A JSON text in a fence marked as JSON is read, if the answer is not read as it is. */
  lemma TaggedFenceIsRead<V>(parse: string -> Option<V>, answer: string, a: string, inner: string, b: string)
    requires NotReadAsItIs(parse, Trim(answer)) && parse(Trim(inner)).Some?
    requires IsFenced(Trim(answer), "```json", a, inner, b)
    ensures ParseAiJson(parse, answer) == parse(Trim(inner))
  {
    FencedIs("```json", a, inner, b);
  }

  /** One in a bare fence is read, if one marked as JSON is not. */
  lemma BareFenceIsRead<V>(parse: string -> Option<V>, answer: string, a: string, inner: string, b: string)
    requires NotReadAsItIs(parse, Trim(answer)) && parse(Trim(inner)).Some?
    requires Try(parse, Fenced(Trim(answer), "```json")).None? && IsFenced(Trim(answer), "```", a, inner, b)
    ensures ParseAiJson(parse, answer) == parse(Trim(inner))
  {
    FencedIs("```", a, inner, b);
  }

  /** An object, from the first `{` to the last `}`, is read, if no fence is. */
  lemma ObjectIsRead<V>(parse: string -> Option<V>, answer: string, a: string, c: string, b: string)
    requires NotReadAsItIs(parse, Trim(answer)) && NoFenceIsRead(parse, Trim(answer)) && parse(c).Some?
    requires IsOutermost(Trim(answer), '{', '}', a, c, b)
    ensures ParseAiJson(parse, answer) == parse(c)
  {
    OutermostIs('{', '}', a, c, b);
  }

  /** An array, from the first `[` to the last `]`, is read, if no object is. */
  lemma ArrayIsRead<V>(parse: string -> Option<V>, answer: string, a: string, c: string, b: string)
    requires NotReadAsItIs(parse, Trim(answer)) && NoFenceIsRead(parse, Trim(answer)) && parse(c).Some?
    requires Try(parse, Outermost(Trim(answer), '{', '}')).None? && IsOutermost(Trim(answer), '[', ']', a, c, b)
    ensures ParseAiJson(parse, answer) == parse(c)
  {
    OutermostIs('[', ']', a, c, b);
  }

  /** An answer is read only as some candidate is: itself, its repair, what a fence holds, or an outermost part. */
  lemma OnlyCandidatesAreRead<V>(parse: string -> Option<V>, answer: string)
    requires ParseAiJson(parse, answer).Some?
    ensures var text := Trim(answer);
            exists c :: ParseAiJson(parse, answer) == parse(c) &&
                        (c == text || Repaired(text) == Some(c) || Fenced(text, "```json") == Some(c) ||
                         Fenced(text, "```") == Some(c) || Outermost(text, '{', '}') == Some(c) ||
                         Outermost(text, '[', ']') == Some(c))
  {
    var text := Trim(answer);
    if parse(text).Some? {
    } else if Try(parse, Repaired(text)).Some? {
      assert ParseAiJson(parse, answer) == parse(Repaired(text).value);
    } else if Try(parse, Fenced(text, "```json")).Some? {
      assert ParseAiJson(parse, answer) == parse(Fenced(text, "```json").value);
    } else if Try(parse, Fenced(text, "```")).Some? {
      assert ParseAiJson(parse, answer) == parse(Fenced(text, "```").value);
    } else if Try(parse, Outermost(text, '{', '}')).Some? {
      assert ParseAiJson(parse, answer) == parse(Outermost(text, '{', '}').value);
    } else {
      assert ParseAiJson(parse, answer) == parse(Outermost(text, '[', ']').value);
    }
  }

  /** What a JSON text can begin with. */
  predicate MayBegin(c: char) {
    c in " \t\n\r{[\"+-.0123456789eEtfn"
  }

  lemma ValueBegins(v: Value)
    requires v.WellFormed()
    ensures ValueText(v) != "" && MayBegin(ValueText(v)[0])
  {
    match v
    case Literal(word) => assert word[0] in "ntf";
    case Number(digits) => assert digits[0] in digits;
    case Str(chars) => assert Quoted(chars)[0] == '"';
    case Arr(_, _) => assert ValueText(v)[0] == '[';
    case Obj(_, _) => assert ValueText(v)[0] == '{';
  }

  lemma JsonTextBegins(text: string)
    requires IsJsonText(text)
    ensures text != "" && MayBegin(text[0])
  {
    var j: Json :| j.WellFormed() && JsonText(j) == text;
    ValueBegins(j.value);
    if j.before != "" {
      assert j.before[0] in j.before;
      assert text[0] == j.before[0];
    } else {
      assert text[0] == ValueText(j.value)[0];
    }
  }

  /** An answer that begins like no JSON text, as prose does, is not read as it is. */
  lemma ProseIsNotRead<V(!new)>(parse: string -> Option<V>, text: string)
    requires IsJsonParser(parse) && text != "" && !MayBegin(text[0])
    ensures NotReadAsItIs(parse, text)
  {
    if parse(text).Some? { JsonTextBegins(text); }
    if Repaired(text).Some? && parse(Repaired(text).value).Some? { JsonTextBegins(Repaired(text).value); }
  }

  /** With prose in front and no fence, the one object in an answer is read, whatever stands around it. */
  lemma ObjectInProseIsRead<V(!new)>(parse: string -> Option<V>, answer: string, a: string, c: string, b: string)
    requires IsJsonParser(parse) && parse(c).Some? && IsOutermost(Trim(answer), '{', '}', a, c, b)
    requires a != "" && !MayBegin(a[0]) && !Contains(Trim(answer), "```")
    ensures ParseAiJson(parse, answer) == parse(c)
  {
    ProseIsNotRead(parse, Trim(answer));
    NoFence(Trim(answer));
    ObjectIsRead(parse, answer, a, c, b);
  }

  lemma NoFence(text: string)
    requires !Contains(text, "```")
    ensures Fenced(text, "```json").None? && Fenced(text, "```").None?
  {
    forall i: nat ensures !OccursAt(text, "```json", i) {
      TaggedIsFence(text, i);
    }
  }

  lemma TaggedIsFence(text: string, i: nat)
    ensures OccursAt(text, "```json", i) ==> OccursAt(text, "```", i)
  {
    if OccursAt(text, "```json", i) { assert text[i..i + 3] == text[i..i + 7][..3] == "```"; }
  }

  /** With prose in front, a JSON text in a fence marked as JSON is read. */
  lemma FenceInProseIsRead<V(!new)>(parse: string -> Option<V>, answer: string, a: string, inner: string, b: string)
    requires IsJsonParser(parse) && parse(Trim(inner)).Some? && IsFenced(Trim(answer), "```json", a, inner, b)
    requires a != "" && !MayBegin(a[0])
    ensures ParseAiJson(parse, answer) == parse(Trim(inner))
  {
    ProseIsNotRead(parse, Trim(answer));
    TaggedFenceIsRead(parse, answer, a, inner, b);
  }
}
