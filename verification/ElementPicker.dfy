/**
 * The element picker (js/element_picker.js): it writes a CSS selector for a picked element, bottom-up, and
 * reduces the elements inside a rectangle to the top-level ones. Selectors are kept parsed; printing and parsing
 * of identifiers and strings is taken to be faithful.
 */
module ElementPicker {
  import opened Text
  import Selectors

  /**
   * `localName` is what a type selector is compared with, and with `space`, the namespace, it is the element's type;
   * the script goes by `tagName`, which has a prefix too, and prints it lower-cased. Empty `id` stands for no id.
   */
  datatype Element = Element(
    parent: Option<nat>, tagName: string, lowered: string, localName: string, space: string, id: string,
    attributes: map<string, string>, classes: seq<string>)
  {
    predicate HasTypeOf(other: Element) {
      localName == other.localName && space == other.space
    }

    /** The printed tag name is one a type selector finds; it fails for mixed-case SVG names. */
    predicate Regular() {
      lowered == localName
    }
  }

  /** Elements in document order, so that a parent comes before its children. */
  type Dom = d: seq<Element> | forall e: nat | e < |d| && d[e].parent.Some? :: d[e].parent.value < e

  datatype Compound =
    | ById(id: string)
    | ByAttribute(tag: string, name: string, value: string)
    | ByClasses(tag: string, classes: seq<string>)
    | ByTag(tag: string)
    | ByNthOfType(tag: string, n: nat)

  /** Compound selectors joined by the child combinator (section 8.2 of Selectors Level 3). */
  type Selector = seq<Compound>

  /** Siblings as the script sees them: elements with the same parent and tag name. */
  function Siblings(d: Dom, e: nat): set<nat>
    requires e < |d|
  {
    set s: nat | s < |d| && d[s].parent == d[e].parent && d[s].tagName == d[e].tagName
  }

  function SiblingsBefore(d: Dom, e: nat, n: nat): set<nat>
    requires e < |d|
  {
    set s | s in Siblings(d, e) && s < n
  }

  function TypeBefore(d: Dom, e: nat): set<nat>
    requires e < |d|
  {
    set s: nat | s < e && d[s].parent == d[e].parent && d[s].HasTypeOf(d[e])
  }

  /** `:nth-of-type(n)`: n - 1 siblings of the same type come before it (section 6.6.5.4 of Selectors Level 3). */
  predicate IsNthOfType(d: Dom, e: nat, n: nat)
    requires e < |d|
  {
    d[e].parent.Some? && |TypeBefore(d, e)| + 1 == n
  }

  predicate MatchesCompound(d: Dom, e: nat, c: Compound)
    requires e < |d|
  {
    match c
    case ById(id) => d[e].id == id
    case ByAttribute(tag, name, value) =>
      d[e].localName == tag && name in d[e].attributes && d[e].attributes[name] == value
    case ByClasses(tag, classes) => d[e].localName == tag && forall c <- classes :: c in d[e].classes
    case ByTag(tag) => d[e].localName == tag
    case ByNthOfType(tag, n) => d[e].localName == tag && IsNthOfType(d, e, n)
  }

  predicate Matches(d: Dom, e: nat, sel: Selector)
    requires e < |d|
  {
    sel != [] && MatchesCompound(d, e, sel[|sel| - 1]) &&
    (|sel| > 1 ==> d[e].parent.Some? && Matches(d, d[e].parent.value, sel[..|sel| - 1]))
  }

  /** `querySelectorAll`. */
  function Selected(d: Dom, sel: Selector): set<nat> {
    set e: nat | e < |d| && Matches(d, e, sel)
  }

  predicate Unique(d: Dom, sel: Selector) {
    |Selected(d, sel)| == 1
  }

  // ---- The candidate selectors, in order of preference ----

  const STABLE_ATTRIBUTES := ["data-testid", "data-test", "data-qa", "name", "itemprop", "aria-label"]

  const GENERATED_PREFIXES := ["ng-", "v-", "js-", "is-", "has-", "css-", "sc-", "jsx-"]

  predicate IsStableClass(c: string) {
    c != "" && (forall p <- GENERATED_PREFIXES :: !(p <= c)) && forall ch <- c :: ch !in "[]:()#%"
  }

  /** The classes that do not change between loads: no framework's prefix, none of seven marks. */
  predicate IsLasting(c: string) {
    c != "" && !("ng-" <= c) && !("v-" <= c) && !("js-" <= c) && !("is-" <= c) && !("has-" <= c) && !("css-" <= c) &&
    !("sc-" <= c) && !("jsx-" <= c) &&
    '[' !in c && ']' !in c && ':' !in c && '(' !in c && ')' !in c && '#' !in c && '%' !in c
  }

  lemma NoPrefixIff(c: string)
    ensures (forall p <- GENERATED_PREFIXES :: !(p <= c)) <==>
            !("ng-" <= c) && !("v-" <= c) && !("js-" <= c) && !("is-" <= c) && !("has-" <= c) && !("css-" <= c) &&
            !("sc-" <= c) && !("jsx-" <= c)
  {
    var all := GENERATED_PREFIXES;
    assert all[0] == "ng-" && all[1] == "v-" && all[2] == "js-" && all[3] == "is-" && all[4] == "has-" &&
           all[5] == "css-" && all[6] == "sc-" && all[7] == "jsx-" && |all| == 8;
    assert forall i | 0 <= i < 8 :: all[i] in all;
  }

  lemma NoMarkIff(c: string)
    ensures (forall ch <- c :: ch !in "[]:()#%") <==>
            '[' !in c && ']' !in c && ':' !in c && '(' !in c && ')' !in c && '#' !in c && '%' !in c
  {
    var marks := "[]:()#%";
    assert marks[0] == '[' && marks[1] == ']' && marks[2] == ':' && marks[3] == '(' && marks[4] == ')' &&
           marks[5] == '#' && marks[6] == '%';
    assert forall ch <- marks :: ch in {'[', ']', ':', '(', ')', '#', '%'};
  }

  lemma IsStableIff(c: string)
    ensures IsStableClass(c) <==> IsLasting(c)
  {
    NoPrefixIff(c);
    NoMarkIff(c);
  }

  function StableClasses(classes: seq<string>): seq<string> {
    if classes == [] then []
    else (if IsStableClass(classes[0]) then [classes[0]] else []) + StableClasses(classes[1..])
  }

  function FirstThree(s: seq<string>): seq<string> {
    if |s| > 3 then s[..3] else s
  }

  function IdCandidates(el: Element): seq<Selector> {
    if el.id != "" then [[ById(el.id)]] else []
  }

  /** The length in UTF-16 code units. */
  function JsLength(s: string): nat {
    if s == "" then 0 else (if s[0] as int < 0x10000 then 1 else 2) + JsLength(s[1..])
  }

  /** The UTF-16 encoding (section 2.1 of RFC 2781). */
  function Utf16(s: string): seq<int> {
    if s == "" then []
    else
      var v := s[0] as int;
      (if v <= 0xFFFF then [v] else [0xD800 + (v - 0x10000) / 0x400, 0xDC00 + (v - 0x10000) % 0x400]) + Utf16(s[1..])
  }

  lemma {:induction false} JsLengthIs(s: string)
    ensures JsLength(s) == |Utf16(s)|
  {
    if s != "" { JsLengthIs(s[1..]); }
  }

  /** What the printed value of an attribute selector is read as; `None` where the query throws. */
  function ReadBack(v: string): Option<string> {
    match Selectors.ConsumeString(Selectors.Preprocess(Selectors.EscapeCss(v) + "\"" + "]"))
    case StringToken(value, rest) => if rest == "]" then Some(value) else None
    case BadString => None
  }

  /** The value is read back exactly if it has no line end and no NUL. */
  lemma ReadBackIff(v: string)
    ensures ReadBack(v) == Some(v) <==> forall c <- v :: !Selectors.IsBreaking(c)
  {
    Selectors.EscapedValueIsReadIff(v, "]");
    assert "]"[1..] == "" && Selectors.Preprocess("") == "";
    assert Selectors.Preprocess("]") == "]";
  }

  /** The selector tried for stable attribute number `i`, if there is one that can be read. */
  function AttributeSelector(el: Element, i: nat): Option<Selector>
    requires i < |STABLE_ATTRIBUTES|
  {
    var a := STABLE_ATTRIBUTES[i];
    if a in el.attributes && 0 < JsLength(el.attributes[a]) < 80 && ReadBack(el.attributes[a]).Some? then
      Some([ByAttribute(el.lowered, a, ReadBack(el.attributes[a]).value)])
    else None
  }

  function AttributeCandidates(el: Element, n: nat): seq<Selector>
    requires n <= |STABLE_ATTRIBUTES|
  {
    if n == 0 then []
    else AttributeCandidates(el, n - 1) + match AttributeSelector(el, n - 1) case Some(s) => [s] case None => []
  }

  /** From all of `classes` down to more than `n` of them. */
  function ClassCandidates(el: Element, classes: seq<string>, n: nat): seq<Selector>
    requires n <= |classes|
    decreases |classes| - n
  {
    if n == |classes| then []
    else ClassCandidates(el, classes, n + 1) + [[ByClasses(el.lowered, classes[..n + 1])]]
  }

  /** One step of the ancestor path. */
  function PathPart(d: Dom, e: nat): Compound
    requires e < |d|
  {
    if d[e].id != "" then ById(d[e].id)
    else if d[e].parent.Some? && |Siblings(d, e)| > 1 then
      ByNthOfType(d[e].lowered, |SiblingsBefore(d, e, e)| + 1)
    else ByTag(d[e].lowered)
  }

  /** How many elements the path can take, from `e` upwards: it ends at an id, below the body, or after eight. */
  function PathLength(d: Dom, e: nat, depth: nat): nat
    requires e < |d|
  {
    if depth >= 8 || d[e].lowered == "html" || d[e].lowered == "body" then 0
    else if d[e].id != "" || d[e].parent.None? then 1
    else 1 + PathLength(d, d[e].parent.value, depth + 1)
  }

  /** The path selector made of `e` and its next `k` ancestors. */
  function PathSelector(d: Dom, e: nat, k: nat): Selector
    requires e < |d|
    decreases k
  {
    (if k > 0 && d[e].parent.Some? then PathSelector(d, d[e].parent.value, k - 1) else []) + [PathPart(d, e)]
  }

  function PathCandidates(d: Dom, e: nat): seq<Selector>
    requires e < |d|
  {
    seq(PathLength(d, e, 0), k requires 0 <= k => PathSelector(d, e, k))
  }

  function Candidates(d: Dom, e: nat): seq<Selector>
    requires e < |d|
  {
    var classes := FirstThree(StableClasses(d[e].classes));
    IdCandidates(d[e]) + AttributeCandidates(d[e], |STABLE_ATTRIBUTES|) + ClassCandidates(d[e], classes, 0) +
    PathCandidates(d, e)
  }

  function Fallback(d: Dom, e: nat): Selector
    requires e < |d|
  {
    if PathCandidates(d, e) == [] then [ByTag(d[e].lowered)] else PathCandidates(d, e)[|PathCandidates(d, e)| - 1]
  }

  function FirstUnique(d: Dom, candidates: seq<Selector>, fallback: Selector): Selector {
    if candidates == [] then fallback
    else if Unique(d, candidates[0]) then candidates[0]
    else FirstUnique(d, candidates[1..], fallback)
  }

  ghost predicate NoneUnique(d: Dom, candidates: seq<Selector>) {
    forall c <- candidates :: !Unique(d, c)
  }

  lemma {:induction false} FirstUniqueIs(d: Dom, all: seq<Selector>, fallback: Selector, n: nat)
    requires n < |all| && NoneUnique(d, all[..n]) && Unique(d, all[n])
    ensures FirstUnique(d, all, fallback) == all[n]
  {
    if n > 0 {
      assert all[..n][0] == all[0] && all[1..][..n - 1] == all[..n][1..];
      FirstUniqueIs(d, all[1..], fallback, n - 1);
    }
  }

  lemma {:induction false} FirstUniqueIsFallback(d: Dom, tried: seq<Selector>, fallback: Selector)
    requires NoneUnique(d, tried)
    ensures FirstUnique(d, tried, fallback) == fallback
  {
    if tried != [] { FirstUniqueIsFallback(d, tried[1..], fallback); }
  }

  /** `tried` and then `c` begin the candidates, and `c` is the first unique one. */
  lemma Found(d: Dom, e: nat, tried: seq<Selector>, c: Selector)
    requires e < |d| && NoneUnique(d, tried) && Unique(d, c) && tried + [c] <= Candidates(d, e)
    ensures FirstUnique(d, Candidates(d, e), Fallback(d, e)) == c
  {
    var all := Candidates(d, e);
    assert all[..|tried|] == (tried + [c])[..|tried|] == tried && all[|tried|] == (tried + [c])[|tried|] == c;
    FirstUniqueIs(d, all, Fallback(d, e), |tried|);
  }

  lemma {:induction false} AttributeCandidatesGrow(el: Element, n: nat, m: nat)
    requires n <= m <= |STABLE_ATTRIBUTES|
    ensures AttributeCandidates(el, n) <= AttributeCandidates(el, m)
    decreases m
  {
    if n < m { AttributeCandidatesGrow(el, n, m - 1); }
  }

  lemma {:induction false} ClassCandidatesGrow(el: Element, classes: seq<string>, n: nat)
    requires n <= |classes|
    ensures ClassCandidates(el, classes, n) <= ClassCandidates(el, classes, 0)
    decreases n
  {
    if n > 0 { ClassCandidatesGrow(el, classes, n - 1); }
  }

  function Ancestor(d: Dom, e: nat, k: nat): (r: Option<nat>)
    requires e < |d|
    ensures r.Some? ==> r.value <= e
    decreases k
  {
    if k == 0 then Some(e) else if d[e].parent.Some? then Ancestor(d, d[e].parent.value, k - 1) else None
  }

  lemma {:induction false} AncestorStep(d: Dom, e: nat, k: nat)
    requires e < |d| && Ancestor(d, e, k).Some?
    ensures Ancestor(d, e, k + 1) == d[Ancestor(d, e, k).value].parent
    decreases k
  {
    if k > 0 { AncestorStep(d, d[e].parent.value, k - 1); }
  }

  /** Putting the next ancestor's part in front makes the next longer path selector. */
  lemma {:induction false} PathSelectorUnshift(d: Dom, e: nat, k: nat)
    requires e < |d| && Ancestor(d, e, k).Some?
    ensures PathSelector(d, e, k) ==
            [PathPart(d, Ancestor(d, e, k).value)] + if k == 0 then [] else PathSelector(d, e, k - 1)
    decreases k
  {
    if k > 0 { PathSelectorUnshift(d, d[e].parent.value, k - 1); }
  }

  // ---- What the candidates are ----

  function LastingBefore(classes: seq<string>, n: nat): nat
    requires n <= |classes|
  {
    if n == 0 then 0 else LastingBefore(classes, n - 1) + if IsLasting(classes[n - 1]) then 1 else 0
  }

  lemma {:induction false} LastingBehind(c: string, rest: seq<string>, n: nat)
    requires n <= |rest|
    ensures LastingBefore([c] + rest, n + 1) == LastingBefore(rest, n) + if IsLasting(c) then 1 else 0
  {
    if n > 0 { LastingBehind(c, rest, n - 1); }
  }

  lemma StableClassesCons(c: string, rest: seq<string>)
    ensures StableClasses([c] + rest) == (if IsLasting(c) then [c] else []) + StableClasses(rest)
  {
    IsStableIff(c);
    assert ([c] + rest)[1..] == rest;
  }

  lemma {:induction false} LastingClassIsKept(classes: seq<string>, i: nat)
    requires i < |classes| && IsLasting(classes[i])
    ensures LastingBefore(classes, i) < |StableClasses(classes)|
    ensures StableClasses(classes)[LastingBefore(classes, i)] == classes[i]
  {
    var c, rest := classes[0], classes[1..];
    assert classes == [c] + rest;
    StableClassesCons(c, rest);
    if i > 0 {
      LastingClassIsKept(rest, i - 1);
      LastingBehind(c, rest, i - 1);
    }
  }

  lemma {:induction false} OnlyLastingClasses(classes: seq<string>)
    ensures |StableClasses(classes)| == LastingBefore(classes, |classes|)
    ensures forall c <- StableClasses(classes) :: IsLasting(c)
  {
    if classes != [] {
      var c, rest := classes[0], classes[1..];
      assert classes == [c] + rest;
      StableClassesCons(c, rest);
      OnlyLastingClasses(rest);
      LastingBehind(c, rest, |rest|);
    }
  }

  /** Of the classes exactly the lasting ones are kept, in their order. */
  lemma LastingClassesAreKept(classes: seq<string>)
    ensures |StableClasses(classes)| == LastingBefore(classes, |classes|)
    ensures forall i: nat | i < |classes| && IsLasting(classes[i]) ::
              LastingBefore(classes, i) < |StableClasses(classes)| &&
              StableClasses(classes)[LastingBefore(classes, i)] == classes[i]
    ensures forall c <- StableClasses(classes) :: IsLasting(c)
  {
    OnlyLastingClasses(classes);
    forall i: nat | i < |classes| && IsLasting(classes[i])
      ensures LastingBefore(classes, i) < |StableClasses(classes)|
      ensures StableClasses(classes)[LastingBefore(classes, i)] == classes[i]
    {
      LastingClassIsKept(classes, i);
    }
  }

  /** The class selectors: the first three lasting classes, then two of them, then one. */
  lemma {:induction false} ClassCandidatesAre(el: Element, classes: seq<string>, n: nat)
    requires n <= |classes|
    ensures |ClassCandidates(el, classes, n)| == |classes| - n
    ensures forall j: nat | j < |classes| - n ::
              ClassCandidates(el, classes, n)[j] == [ByClasses(el.lowered, classes[..|classes| - j])]
    decreases |classes| - n
  {
    if n < |classes| { ClassCandidatesAre(el, classes, n + 1); }
  }

  lemma {:induction false} AttributeCandidatesAre(el: Element, n: nat, sel: Selector)
    requires n <= |STABLE_ATTRIBUTES|
    ensures sel in AttributeCandidates(el, n) <==> exists i: nat :: i < n && AttributeSelector(el, i) == Some(sel)
  {
    if n > 0 {
      AttributeCandidatesAre(el, n - 1, sel);
      NextAttribute(el, n - 1);
      if i: nat :| i < n && AttributeSelector(el, i) == Some(sel) {
        assert i == n - 1 || i < n - 1;
      }
    }
  }

  /** A selector by one of the six stable attributes, of 1 to 79 UTF-16 code units, as it is read. */
  ghost predicate IsAttributeSelector(el: Element, sel: Selector) {
    exists a :: a in {"data-testid", "data-test", "data-qa", "name", "itemprop", "aria-label"} && a in el.attributes &&
                1 <= JsLength(el.attributes[a]) <= 79 && ReadBack(el.attributes[a]).Some? &&
                sel == [ByAttribute(el.lowered, a, ReadBack(el.attributes[a]).value)]
  }

  lemma AttributeSelectorIs(el: Element, sel: Selector)
    ensures sel in AttributeCandidates(el, |STABLE_ATTRIBUTES|) <==> IsAttributeSelector(el, sel)
  {
    AttributeCandidatesAre(el, |STABLE_ATTRIBUTES|, sel);
    if IsAttributeSelector(el, sel) {
      var a :| a in {"data-testid", "data-test", "data-qa", "name", "itemprop", "aria-label"} && a in el.attributes &&
               1 <= JsLength(el.attributes[a]) <= 79 && ReadBack(el.attributes[a]).Some? &&
               sel == [ByAttribute(el.lowered, a, ReadBack(el.attributes[a]).value)];
      assert a == STABLE_ATTRIBUTES[0] || a == STABLE_ATTRIBUTES[1] || a == STABLE_ATTRIBUTES[2] ||
             a == STABLE_ATTRIBUTES[3] || a == STABLE_ATTRIBUTES[4] || a == STABLE_ATTRIBUTES[5];
      var i: nat :| i < |STABLE_ATTRIBUTES| && STABLE_ATTRIBUTES[i] == a;
      assert AttributeSelector(el, i) == Some(sel);
    }
  }

  /** The walk from `e`, begun with `depth` steps behind it, takes no step at the element `k` above. */
  ghost predicate WalkEnds(d: Dom, e: nat, depth: nat, k: nat)
    requires e < |d|
  {
    depth + k >= 8 || (k > 0 && Ancestor(d, e, k - 1).Some? && d[Ancestor(d, e, k - 1).value].id != "") ||
    match Ancestor(d, e, k)
    case None => true
    case Some(a) => d[a].lowered == "html" || d[a].lowered == "body"
  }

  /** The path has as many steps as the walk can take: up to an id, below body and html, at most eight. */
  lemma {:induction false} PathLengthIs(d: Dom, e: nat, depth: nat)
    requires e < |d|
    ensures WalkEnds(d, e, depth, PathLength(d, e, depth))
    ensures forall k: nat | k < PathLength(d, e, depth) :: !WalkEnds(d, e, depth, k)
    decreases 8 - depth
  {
    if !WalkEnds(d, e, depth, 0) && d[e].id == "" && d[e].parent.Some? {
      var p := d[e].parent.value;
      PathLengthIs(d, p, depth + 1);
      forall k: nat | k < PathLength(d, e, depth) ensures !WalkEnds(d, e, depth, k) {
        if k > 0 { assert !WalkEnds(d, p, depth + 1, k - 1); }
      }
    }
  }

  /** A selector by the first one, two or three lasting classes. */
  ghost predicate IsClassSelector(el: Element, sel: Selector) {
    var stable := StableClasses(el.classes);
    exists k: nat :: 0 < k <= 3 && k <= |stable| && sel == [ByClasses(el.lowered, stable[..k])]
  }

  lemma ClassSelectorIs(el: Element, sel: Selector)
    ensures sel in ClassCandidates(el, FirstThree(StableClasses(el.classes)), 0) <==> IsClassSelector(el, sel)
    ensures IsClassSelector(el, sel) ==> sel[0].ByClasses? && forall c <- sel[0].classes :: IsLasting(c)
  {
    OnlyLastingClasses(el.classes);
    var classes := FirstThree(StableClasses(el.classes));
    var all := ClassCandidates(el, classes, 0);
    ClassCandidatesAre(el, classes, 0);
    if sel in all {
      var j: nat :| j < |all| && all[j] == sel;
      assert classes[..|classes| - j] == StableClasses(el.classes)[..|classes| - j];
    }
    if k: nat :| 0 < k <= 3 && k <= |StableClasses(el.classes)| &&
                 sel == [ByClasses(el.lowered, StableClasses(el.classes)[..k])] {
      assert classes[..k] == StableClasses(el.classes)[..k];
      assert all[|classes| - k] == sel;
    }
  }

  /** A selector by the element and its next ancestors, as far up as the walk goes. */
  ghost predicate IsPathSelector(d: Dom, e: nat, sel: Selector)
    requires e < |d|
  {
    exists k: nat :: k < PathLength(d, e, 0) && sel == PathSelector(d, e, k)
  }

  lemma PathSelectorIs(d: Dom, e: nat, sel: Selector)
    requires e < |d|
    ensures sel in PathCandidates(d, e) <==> IsPathSelector(d, e, sel)
  {
    var paths := PathCandidates(d, e);
    if sel in paths {
      var k: nat :| k < |paths| && paths[k] == sel;
    }
    if k: nat :| k < PathLength(d, e, 0) && sel == PathSelector(d, e, k) {
      assert paths[k] == sel;
    }
  }

  /** All the selectors that are tried, for every element. */
  lemma CandidatesAre(d: Dom, e: nat, sel: Selector)
    requires e < |d|
    ensures sel in Candidates(d, e) <==>
            (d[e].id != "" && sel == [ById(d[e].id)]) || IsAttributeSelector(d[e], sel) || IsClassSelector(d[e], sel) ||
            IsPathSelector(d, e, sel)
  {
    AttributeSelectorIs(d[e], sel);
    ClassSelectorIs(d[e], sel);
    PathSelectorIs(d, e, sel);
  }

  lemma {:induction false} FirstUniqueOfTwo(d: Dom, a: seq<Selector>, b: seq<Selector>, fallback: Selector)
    ensures NoneUnique(d, a) ==> FirstUnique(d, a + b, fallback) == FirstUnique(d, b, fallback)
    ensures !NoneUnique(d, a) ==>
              var r := FirstUnique(d, a + b, fallback);
              r == FirstUnique(d, a, fallback) && r in a && Unique(d, r)
  {
    if a == [] {
      assert a + b == b;
    } else {
      assert (a + b)[1..] == a[1..] + b;
      FirstUniqueOfTwo(d, a[1..], b, fallback);
    }
  }

  lemma FirstOfFour(d: Dom, a: seq<Selector>, b: seq<Selector>, c: seq<Selector>, p: seq<Selector>, fallback: Selector)
    ensures var r := FirstUnique(d, a + (b + (c + p)), fallback);
            if !NoneUnique(d, a) then r in a && Unique(d, r)
            else if !NoneUnique(d, b) then r in b && Unique(d, r)
            else if !NoneUnique(d, c) then r in c && Unique(d, r)
            else r in p || r == fallback
  {
    FirstUniqueOfTwo(d, a, b + (c + p), fallback);
    FirstUniqueOfTwo(d, b, c + p, fallback);
    FirstUniqueOfTwo(d, c, p, fallback);
    FirstUniqueIsOneOf(d, p, fallback);
  }

  ghost predicate AnAttributeIsUnique(d: Dom, el: Element) {
    exists sel :: IsAttributeSelector(el, sel) && Unique(d, sel)
  }

  ghost predicate AClassIsUnique(d: Dom, el: Element) {
    exists sel :: IsClassSelector(el, sel) && Unique(d, sel)
  }

  lemma AttributeIsUniqueIff(d: Dom, el: Element)
    ensures AnAttributeIsUnique(d, el) <==> !NoneUnique(d, AttributeCandidates(el, |STABLE_ATTRIBUTES|))
  {
    forall sel ensures sel in AttributeCandidates(el, |STABLE_ATTRIBUTES|) <==> IsAttributeSelector(el, sel) {
      AttributeSelectorIs(el, sel);
    }
  }

  lemma ClassIsUniqueIff(d: Dom, el: Element)
    ensures AClassIsUnique(d, el) <==>
            !NoneUnique(d, ClassCandidates(el, FirstThree(StableClasses(el.classes)), 0))
  {
    forall sel
      ensures sel in ClassCandidates(el, FirstThree(StableClasses(el.classes)), 0) <==> IsClassSelector(el, sel)
    {
      ClassSelectorIs(el, sel);
    }
  }

  lemma CandidatesSplit(d: Dom, e: nat)
    requires e < |d|
    ensures Candidates(d, e) ==
            IdCandidates(d[e]) + (AttributeCandidates(d[e], |STABLE_ATTRIBUTES|) +
            (ClassCandidates(d[e], FirstThree(StableClasses(d[e].classes)), 0) + PathCandidates(d, e)))
  {
    Regroup(IdCandidates(d[e]), AttributeCandidates(d[e], |STABLE_ATTRIBUTES|),
            ClassCandidates(d[e], FirstThree(StableClasses(d[e].classes)), 0), PathCandidates(d, e));
  }

  lemma Regroup(a: seq<Selector>, b: seq<Selector>, c: seq<Selector>, p: seq<Selector>)
    ensures a + b + c + p == a + (b + (c + p))
  {
  }

  lemma IdIsUniqueIff(d: Dom, el: Element)
    ensures (el.id != "" && Unique(d, [ById(el.id)])) <==> !NoneUnique(d, IdCandidates(el))
    ensures forall sel <- IdCandidates(el) :: sel == [ById(el.id)]
  {
    if el.id != "" { assert [ById(el.id)] in IdCandidates(el); }
  }

  /** What is preferred: the id, then a stable attribute, then classes, and only then a path. */
  lemma PreferenceIs(d: Dom, e: nat)
    requires e < |d|
    ensures var el, r := d[e], FirstUnique(d, Candidates(d, e), Fallback(d, e));
            if el.id != "" && Unique(d, [ById(el.id)]) then r == [ById(el.id)]
            else if AnAttributeIsUnique(d, el) then IsAttributeSelector(el, r) && Unique(d, r)
            else if AClassIsUnique(d, el) then IsClassSelector(el, r) && Unique(d, r)
            else IsPathSelector(d, e, r) || r == Fallback(d, e)
  {
    var el, r := d[e], FirstUnique(d, Candidates(d, e), Fallback(d, e));
    CandidatesSplit(d, e);
    FirstOfFour(d, IdCandidates(el), AttributeCandidates(el, |STABLE_ATTRIBUTES|),
                ClassCandidates(el, FirstThree(StableClasses(el.classes)), 0), PathCandidates(d, e), Fallback(d, e));
    IdIsUniqueIff(d, el);
    AttributeIsUniqueIff(d, el);
    ClassIsUniqueIff(d, el);
    AttributeSelectorIs(el, r);
    ClassSelectorIs(el, r);
    PathSelectorIs(d, e, r);
  }

  // ---- buildSelector ----

  lemma SiblingsBeforeNext(d: Dom, e: nat, n: nat)
    requires e < |d| && n < |d|
    ensures SiblingsBefore(d, e, n + 1) == SiblingsBefore(d, e, n) + if n in Siblings(d, e) then {n} else {}
    ensures n !in SiblingsBefore(d, e, n)
  {
  }

  /** The element's index in the list of its siblings of the same type, and the length of that list. */
  method IndexAmongSiblings(d: Dom, e: nat) returns (index: nat, count: nat)
    requires e < |d|
    ensures count == |Siblings(d, e)|
    ensures index == |SiblingsBefore(d, e, e)|
  {
    var sibs := [];
    index := 0;
    assert SiblingsBefore(d, e, 0) == {};
    for s := 0 to |d|
      invariant |sibs| == |SiblingsBefore(d, e, s)|
      invariant s > e ==> index == |SiblingsBefore(d, e, e)|
    {
      SiblingsBeforeNext(d, e, s);
      if d[s].parent == d[e].parent && d[s].tagName == d[e].tagName {
        if s == e { index := |sibs|; }
        sibs := sibs + [s];
      }
    }
    assert SiblingsBefore(d, e, |d|) == Siblings(d, e);
    count := |sibs|;
  }

  /** The stable attributes before number `i` gave no unique selector; what trying the next one does. */
  ghost predicate AttributesTried(d: Dom, e: nat, i: nat)
    requires e < |d|
  {
    i <= |STABLE_ATTRIBUTES| && NoneUnique(d, IdCandidates(d[e]) + AttributeCandidates(d[e], i))
  }

  lemma NextAttribute(el: Element, i: nat)
    requires i < |STABLE_ATTRIBUTES|
    ensures var s := AttributeSelector(el, i);
            AttributeCandidates(el, i + 1) == AttributeCandidates(el, i) + if s.Some? then [s.value] else []
  {
  }

  lemma PrefixBehind(front: seq<Selector>, tried: seq<Selector>, s: Selector, all: seq<Selector>)
    requires tried + [s] <= all
    ensures front + tried + [s] <= front + all
  {
    assert front + tried + [s] == front + (tried + [s]);
  }

  lemma NextCandidate(d: Dom, e: nat, s: Selector, i: nat)
    requires e < |d| && i < |STABLE_ATTRIBUTES| && AttributeSelector(d[e], i) == Some(s)
    ensures IdCandidates(d[e]) + AttributeCandidates(d[e], i) + [s] <= Candidates(d, e)
  {
    var el := d[e];
    NextAttribute(el, i);
    AttributeCandidatesGrow(el, i + 1, |STABLE_ATTRIBUTES|);
    PrefixBehind(IdCandidates(el), AttributeCandidates(el, i), s, AttributeCandidates(el, |STABLE_ATTRIBUTES|));
  }

  lemma AttributeTried(d: Dom, e: nat, i: nat)
    requires e < |d| && i < |STABLE_ATTRIBUTES| && AttributesTried(d, e, i)
    ensures var s := AttributeSelector(d[e], i);
            if s.Some? && Unique(d, s.value) then FirstUnique(d, Candidates(d, e), Fallback(d, e)) == s.value
            else AttributesTried(d, e, i + 1)
  {
    var el, s := d[e], AttributeSelector(d[e], i);
    NextAttribute(el, i);
    if s.Some? && Unique(d, s.value) {
      NextCandidate(d, e, s.value, i);
      Found(d, e, IdCandidates(el) + AttributeCandidates(el, i), s.value);
    }
  }

  /** The same for the class selectors, from the longest down to more than `n` classes. */
  ghost predicate ClassesTried(d: Dom, e: nat, classes: seq<string>, n: nat)
    requires e < |d|
  {
    classes == FirstThree(StableClasses(d[e].classes)) && n <= |classes| &&
    NoneUnique(d, IdCandidates(d[e]) + AttributeCandidates(d[e], |STABLE_ATTRIBUTES|) +
                  ClassCandidates(d[e], classes, n))
  }

  lemma ClassTried(d: Dom, e: nat, classes: seq<string>, n: nat)
    requires e < |d| && 0 < n && ClassesTried(d, e, classes, n)
    ensures if Unique(d, [ByClasses(d[e].lowered, classes[..n])])
            then FirstUnique(d, Candidates(d, e), Fallback(d, e)) == [ByClasses(d[e].lowered, classes[..n])]
            else ClassesTried(d, e, classes, n - 1)
  {
    var front := IdCandidates(d[e]) + AttributeCandidates(d[e], |STABLE_ATTRIBUTES|);
    var s := [ByClasses(d[e].lowered, classes[..n])];
    var before, all := ClassCandidates(d[e], classes, n), ClassCandidates(d[e], classes, 0);
    ClassCandidatesGrow(d[e], classes, n - 1);
    assert before + [s] <= all;
    var tried := front + before;
    assert tried + [s] == front + (before + [s]);
    if Unique(d, s) {
      assert tried + [s] <= front + all <= Candidates(d, e);
      Found(d, e, tried, s);
    } else {
      assert NoneUnique(d, tried + [s]);
    }
  }

  lemma IdTried(d: Dom, e: nat)
    requires e < |d|
    ensures var el := d[e];
            if el.id != "" && Unique(d, [ById(el.id)])
            then FirstUnique(d, Candidates(d, e), Fallback(d, e)) == [ById(el.id)]
            else AttributesTried(d, e, 0)
  {
    if d[e].id != "" && Unique(d, [ById(d[e].id)]) { Found(d, e, [], [ById(d[e].id)]); }
  }

  lemma AllAttributesTried(d: Dom, e: nat, classes: seq<string>)
    requires e < |d| && AttributesTried(d, e, |STABLE_ATTRIBUTES|) && classes == FirstThree(StableClasses(d[e].classes))
    ensures ClassesTried(d, e, classes, |classes|)
  {
    var front := IdCandidates(d[e]) + AttributeCandidates(d[e], |STABLE_ATTRIBUTES|);
    assert front + ClassCandidates(d[e], classes, |classes|) == front;
  }

  lemma AllClassesTried(d: Dom, e: nat, classes: seq<string>) returns (tried: seq<Selector>)
    requires e < |d| && ClassesTried(d, e, classes, 0)
    ensures PathsRemain(d, e, tried, 0)
  {
    tried := IdCandidates(d[e]) + AttributeCandidates(d[e], |STABLE_ATTRIBUTES|) + ClassCandidates(d[e], classes, 0);
    assert tried + PathCandidates(d, e)[..0] == tried;
  }

  method BuildSelector(d: Dom, e: nat) returns (r: Selector)
    requires e < |d|
    ensures r == FirstUnique(d, Candidates(d, e), Fallback(d, e))
  {
    var el := d[e];
    IdTried(d, e);
    if el.id != "" && Unique(d, [ById(el.id)]) { return [ById(el.id)]; }
    for i := 0 to |STABLE_ATTRIBUTES|
      invariant AttributesTried(d, e, i)
    {
      AttributeTried(d, e, i);
      var a := STABLE_ATTRIBUTES[i];
      if a in el.attributes && 0 < JsLength(el.attributes[a]) < 80 {
        var read := ReadBack(el.attributes[a]);
        if read.Some? {
          var s := [ByAttribute(el.lowered, a, read.value)];
          if Unique(d, s) { return s; }
        }
      }
    }
    var classes := FirstThree(StableClasses(el.classes));
    var n := |classes|;
    AllAttributesTried(d, e, classes);
    while n > 0
      invariant 0 <= n && ClassesTried(d, e, classes, n)
    {
      ClassTried(d, e, classes, n);
      var cs := [ByClasses(el.lowered, classes[..n])];
      if Unique(d, cs) { return cs; }
      n := n - 1;
    }
    ghost var tried := AllClassesTried(d, e, classes);
    r := BuildPath(d, e, tried);
  }

  /** Where the walk up the ancestors is: `parts` holds the first `depth` steps of the path. */
  ghost predicate OnPath(d: Dom, e: nat, cur: Option<nat>, depth: nat, parts: Selector)
    requires e < |d|
  {
    cur == Ancestor(d, e, depth) &&
    parts == (if depth == 0 then [] else PathSelector(d, e, depth - 1)) &&
    PathLength(d, e, 0) == depth + (if cur.Some? then PathLength(d, cur.value, depth) else 0)
  }

  lemma PathStep(d: Dom, e: nat, c: nat, depth: nat, parts: Selector)
    requires e < |d| && OnPath(d, e, Some(c), depth, parts)
    requires depth < 8 && d[c].lowered != "html" && d[c].lowered != "body"
    ensures depth < PathLength(d, e, 0) && PathSelector(d, e, depth) == [PathPart(d, c)] + parts
    ensures if d[c].id != "" then PathLength(d, e, 0) == depth + 1
            else OnPath(d, e, d[c].parent, depth + 1, [PathPart(d, c)] + parts)
  {
    PathSelectorUnshift(d, e, depth);
    AncestorStep(d, e, depth);
  }

  /** `tried` are the candidates before the paths; they and the paths of length up to `depth` are not unique. */
  ghost predicate PathsRemain(d: Dom, e: nat, tried: seq<Selector>, depth: nat)
    requires e < |d|
  {
    depth <= PathLength(d, e, 0) && Candidates(d, e) == tried + PathCandidates(d, e) &&
    NoneUnique(d, tried + PathCandidates(d, e)[..depth])
  }

  lemma PathsExhausted(d: Dom, e: nat, tried: seq<Selector>, depth: nat)
    requires e < |d| && PathsRemain(d, e, tried, depth) && depth == PathLength(d, e, 0)
    ensures FirstUnique(d, Candidates(d, e), Fallback(d, e)) ==
            if depth == 0 then [ByTag(d[e].lowered)] else PathSelector(d, e, depth - 1)
  {
    assert PathCandidates(d, e)[..depth] == PathCandidates(d, e);
    FirstUniqueIsFallback(d, Candidates(d, e), Fallback(d, e));
  }

  lemma NextItem(front: seq<Selector>, rest: seq<Selector>, n: nat)
    requires n < |rest|
    ensures front + rest[..n] + [rest[n]] == front + rest[..n + 1] <= front + rest
  {
  }

  /** The path of length `depth + 1` is tried after all shorter ones. */
  lemma PathTried(d: Dom, e: nat, tried: seq<Selector>, depth: nat, next: Selector)
    requires e < |d| && PathsRemain(d, e, tried, depth)
    requires depth < PathLength(d, e, 0) && next == PathSelector(d, e, depth)
    ensures Unique(d, next) ==> FirstUnique(d, Candidates(d, e), Fallback(d, e)) == next
    ensures !Unique(d, next) ==> PathsRemain(d, e, tried, depth + 1)
  {
    var paths := PathCandidates(d, e);
    var before := tried + paths[..depth];
    assert paths[depth] == next;
    NextItem(tried, paths, depth);
    if Unique(d, next) { Found(d, e, before, next); }
  }

  method TagPart(d: Dom, c: nat) returns (part: Compound)
    requires c < |d| && d[c].id == ""
    ensures part == PathPart(d, c)
  {
    part := ByTag(d[c].lowered);
    if d[c].parent.Some? {
      var index, count := IndexAmongSiblings(d, c);
      if count > 1 { part := ByNthOfType(d[c].lowered, index + 1); }
    }
  }

  /** The ancestor path, tried again after each added part. */
  method BuildPath(d: Dom, e: nat, ghost tried: seq<Selector>) returns (r: Selector)
    requires e < |d| && PathsRemain(d, e, tried, 0)
    ensures r == FirstUnique(d, Candidates(d, e), Fallback(d, e))
  {
    var parts: Selector := [];
    var cur, depth := Some(e), 0;
    while cur.Some? && depth < 8
      invariant 0 <= depth <= 8
      invariant OnPath(d, e, cur, depth, parts) && PathsRemain(d, e, tried, depth)
      decreases 8 - depth
    {
      var c := cur.value;
      if d[c].lowered == "html" || d[c].lowered == "body" { break; }
      PathStep(d, e, c, depth, parts);
      PathTried(d, e, tried, depth, [PathPart(d, c)] + parts);
      if d[c].id != "" {
        parts := [ById(d[c].id)] + parts;
        if Unique(d, parts) { return parts; }
        depth := depth + 1;
        break;
      }
      var part := TagPart(d, c);
      parts := [part] + parts;
      if Unique(d, parts) { return parts; }
      cur := d[c].parent;
      depth := depth + 1;
    }
    PathsExhausted(d, e, tried, depth);
    r := if parts == [] then [ByTag(d[e].lowered)] else parts;
  }

  // ---- The picked element and its selector ----

  /** The index the script prints, if it prints one, is the index among the siblings of the same type. */
  predicate IndexIsRight(d: Dom, e: nat)
    requires e < |d|
  {
    d[e].parent.Some? && |Siblings(d, e)| > 1 ==> |SiblingsBefore(d, e, e)| == |TypeBefore(d, e)|
  }

  /** It is where the siblings with the same tag name are those of the same type. */
  lemma TagNamesShowTypes(d: Dom, e: nat)
    requires e < |d|
    requires forall s: nat | s < e && d[s].parent == d[e].parent ::
               d[s].tagName == d[e].tagName <==> d[s].HasTypeOf(d[e])
    ensures IndexIsRight(d, e)
  {
    assert SiblingsBefore(d, e, e) == TypeBefore(d, e);
  }

  predicate StepIsRegular(d: Dom, e: nat)
    requires e < |d|
  {
    d[e].id != "" || (d[e].Regular() && IndexIsRight(d, e))
  }

  /**
   * Exactly the steps that are written with an id, or have a regular tag name and the right index, match their
   * element.
   */
  lemma PathPartMatchesIff(d: Dom, e: nat)
    requires e < |d|
    ensures MatchesCompound(d, e, PathPart(d, e)) <==> StepIsRegular(d, e)
  {
  }

  /** The first `n` steps of the path are regular. */
  ghost predicate PathIsRegular(d: Dom, e: nat, n: nat)
    requires e < |d|
    decreases n
  {
    n > 0 ==> StepIsRegular(d, e) && (d[e].parent.Some? ==> PathIsRegular(d, d[e].parent.value, n - 1))
  }

  /** After each round the element matches the path so far exactly if the steps of it are regular. */
  lemma {:induction false} PathMatchesIff(d: Dom, e: nat, k: nat)
    requires e < |d| && Ancestor(d, e, k).Some?
    ensures Matches(d, e, PathSelector(d, e, k)) <==> PathIsRegular(d, e, k + 1)
    decreases k
  {
    PathPartMatchesIff(d, e);
    if k > 0 {
      var p, sel := d[e].parent.value, PathSelector(d, e, k);
      PathMatchesIff(d, p, k - 1);
      assert sel[..|sel| - 1] == PathSelector(d, p, k - 1) != [];
    }
  }

  lemma {:induction false} PathHasAncestors(d: Dom, e: nat, depth: nat, k: nat)
    requires e < |d| && k < PathLength(d, e, depth)
    ensures Ancestor(d, e, k).Some?
    decreases k
  {
    if k > 0 { PathHasAncestors(d, d[e].parent.value, depth + 1, k - 1); }
  }

  lemma {:induction false} PathIsRegularUpTo(d: Dom, e: nat, n: nat, m: nat)
    requires e < |d| && n <= m && PathIsRegular(d, e, m)
    ensures PathIsRegular(d, e, n)
    decreases n
  {
    if n > 0 && d[e].parent.Some? { PathIsRegularUpTo(d, d[e].parent.value, n - 1, m - 1); }
  }

  /** The attribute selector number `i` is read as the attribute's own value. */
  predicate IsRead(el: Element, i: nat)
    requires i < |STABLE_ATTRIBUTES|
  {
    AttributeSelector(el, i).Some? ==>
      ReadBack(el.attributes[STABLE_ATTRIBUTES[i]]) == Some(el.attributes[STABLE_ATTRIBUTES[i]])
  }

  predicate AttributesAreRead(el: Element, n: nat)
    requires n <= |STABLE_ATTRIBUTES|
  {
    forall i: nat | i < n :: IsRead(el, i)
  }

  lemma {:induction false} AttributeCandidatesMatch(d: Dom, e: nat, n: nat)
    requires e < |d| && n <= |STABLE_ATTRIBUTES|
    ensures AllMatch(d, e, AttributeCandidates(d[e], n)) <==>
            (AttributeCandidates(d[e], n) != [] ==> d[e].Regular()) && AttributesAreRead(d[e], n)
  {
    if n > 0 {
      AttributeCandidatesMatch(d, e, n - 1);
      NextAttribute(d[e], n - 1);
      AttributesAreReadNext(d[e], n - 1);
      var s := AttributeSelector(d[e], n - 1);
      if s.Some? {
        AttributeMatchesIff(d, e, n - 1);
        AllMatchAppend(d, e, AttributeCandidates(d[e], n - 1), s.value);
      } else {
        assert AttributeCandidates(d[e], n) == AttributeCandidates(d[e], n - 1);
      }
    }
  }

  lemma AttributeMatchesIff(d: Dom, e: nat, i: nat)
    requires e < |d| && i < |STABLE_ATTRIBUTES| && AttributeSelector(d[e], i).Some?
    ensures Matches(d, e, AttributeSelector(d[e], i).value) <==> d[e].Regular() && IsRead(d[e], i)
  {
    var a := STABLE_ATTRIBUTES[i];
    var step := ByAttribute(d[e].lowered, a, ReadBack(d[e].attributes[a]).value);
    assert Matches(d, e, [step]) <==> MatchesCompound(d, e, step);
  }

  ghost predicate AllMatch(d: Dom, e: nat, candidates: seq<Selector>)
    requires e < |d|
  {
    forall c <- candidates :: Matches(d, e, c)
  }

  lemma AllMatchAppend(d: Dom, e: nat, candidates: seq<Selector>, c: Selector)
    requires e < |d|
    ensures AllMatch(d, e, candidates + [c]) <==> AllMatch(d, e, candidates) && Matches(d, e, c)
  {
    assert forall x :: x in candidates + [c] <==> x in candidates || x == c;
  }

  lemma AttributesAreReadNext(el: Element, n: nat)
    requires n < |STABLE_ATTRIBUTES|
    ensures AttributesAreRead(el, n + 1) <==> AttributesAreRead(el, n) && IsRead(el, n)
    ensures AttributeSelector(el, n).None? ==> IsRead(el, n)
  {
  }

  lemma {:induction false} StableClassesAreClasses(classes: seq<string>)
    ensures forall c <- StableClasses(classes) :: c in classes
  {
    if classes != [] { StableClassesAreClasses(classes[1..]); }
  }

  lemma {:induction false} ClassCandidatesMatch(d: Dom, e: nat, classes: seq<string>, n: nat)
    requires e < |d| && n <= |classes| && forall c <- classes :: c in d[e].classes
    ensures forall c <- ClassCandidates(d[e], classes, n) :: Matches(d, e, c) <==> d[e].Regular()
    decreases |classes| - n
  {
    if n < |classes| {
      ClassCandidatesMatch(d, e, classes, n + 1);
      assert forall c <- classes[..n + 1] :: c in classes;
    }
  }

  /**
   * Some selector is written with the picked element's own name in front of attributes or classes, or with just the
   * name.
   */
  predicate OwnNameIsUsed(d: Dom, e: nat)
    requires e < |d|
  {
    AttributeCandidates(d[e], |STABLE_ATTRIBUTES|) != [] || FirstThree(StableClasses(d[e].classes)) != [] ||
    PathLength(d, e, 0) == 0
  }

  /**
   * The picked element's own name, where it is used, is one a type selector finds, its attributes are read as they are,
   * and the steps of its path are regular.
   */
  ghost predicate NamesAreRegular(d: Dom, e: nat)
    requires e < |d|
  {
    (OwnNameIsUsed(d, e) ==> d[e].Regular()) && AttributesAreRead(d[e], |STABLE_ATTRIBUTES|) &&
    PathIsRegular(d, e, PathLength(d, e, 0))
  }

  lemma RegularCandidatesMatch(d: Dom, e: nat, c: Selector)
    requires e < |d| && NamesAreRegular(d, e) && (c in Candidates(d, e) || c == Fallback(d, e))
    ensures Matches(d, e, c)
  {
    var el, classes := d[e], FirstThree(StableClasses(d[e].classes));
    var attributes := AttributeCandidates(el, |STABLE_ATTRIBUTES|);
    StableClassesAreClasses(el.classes);
    if c in IdCandidates(el) {
    } else if c in attributes {
      assert attributes != [];
      AttributeCandidatesMatch(d, e, |STABLE_ATTRIBUTES|);
    } else if c in ClassCandidates(el, classes, 0) {
      ClassCandidatesMatch(d, e, classes, 0);
    } else if PathCandidates(d, e) != [] {
      assert c in PathCandidates(d, e);
      var k :| 0 <= k < |PathCandidates(d, e)| && PathCandidates(d, e)[k] == c;
      PathHasAncestors(d, e, 0, k);
      PathIsRegularUpTo(d, e, k + 1, PathLength(d, e, 0));
      PathMatchesIff(d, e, k);
    }
  }

  lemma {:induction false} FirstUniqueIsOneOf(d: Dom, candidates: seq<Selector>, fallback: Selector)
    ensures var r := FirstUnique(d, candidates, fallback);
            (r in candidates && Unique(d, r)) || (r == fallback && NoneUnique(d, candidates))
  {
    if candidates != [] { FirstUniqueIsOneOf(d, candidates[1..], fallback); }
  }

  lemma OnlyElement(s: set<nat>, e: nat)
    requires |s| == 1 && e in s
    ensures s == {e}
  {
    assert |s - {e}| == 0;
  }

  /**
   * Where the names are regular, the picked element matches the selector `BuildSelector` returns. The selector
   * selects nothing else, unless none of the candidates is unique on the page.
   */
  lemma PickedElementIsSelected(d: Dom, e: nat)
    requires e < |d| && NamesAreRegular(d, e)
    ensures var r := FirstUnique(d, Candidates(d, e), Fallback(d, e));
            Matches(d, e, r) && (Selected(d, r) == {e} || NoneUnique(d, Candidates(d, e)))
  {
    var r := FirstUnique(d, Candidates(d, e), Fallback(d, e));
    FirstUniqueIsOneOf(d, Candidates(d, e), Fallback(d, e));
    RegularCandidatesMatch(d, e, r);
    assert e in Selected(d, r);
    if Unique(d, r) { OnlyElement(Selected(d, r), e); }
  }

  /** The condition on the names is exact: otherwise some selector the element can get misses it. */
  lemma EveryCandidateMatchesIff(d: Dom, e: nat)
    requires e < |d|
    ensures AllMatch(d, e, Candidates(d, e) + [Fallback(d, e)]) <==> NamesAreRegular(d, e)
  {
    var all := Candidates(d, e) + [Fallback(d, e)];
    if NamesAreRegular(d, e) {
      forall c <- all ensures Matches(d, e, c) { RegularCandidatesMatch(d, e, c); }
    }
    if AllMatch(d, e, all) { MatchedNamesAreRegular(d, e); }
  }

  lemma MatchedClassNameIsRegular(d: Dom, e: nat)
    requires e < |d| && AllMatch(d, e, Candidates(d, e) + [Fallback(d, e)])
    requires FirstThree(StableClasses(d[e].classes)) != []
    ensures d[e].Regular()
  {
    var el, classes := d[e], FirstThree(StableClasses(d[e].classes));
    var byClass := ClassCandidates(el, classes, 0);
    ClassCandidatesAre(el, classes, 0);
    var sel := byClass[0];
    assert sel in byClass && sel in Candidates(d, e) + [Fallback(d, e)];
    assert Matches(d, e, sel) && sel == [ByClasses(el.lowered, classes[..|classes|])];
  }

  lemma MatchedNamesAreRegular(d: Dom, e: nat)
    requires e < |d| && AllMatch(d, e, Candidates(d, e) + [Fallback(d, e)])
    ensures NamesAreRegular(d, e)
  {
    var el, classes, n := d[e], FirstThree(StableClasses(d[e].classes)), PathLength(d, e, 0);
    var all := Candidates(d, e) + [Fallback(d, e)];
    assert AllMatch(d, e, AttributeCandidates(el, |STABLE_ATTRIBUTES|)) by {
      assert forall c <- AttributeCandidates(el, |STABLE_ATTRIBUTES|) :: c in all;
    }
    AttributeCandidatesMatch(d, e, |STABLE_ATTRIBUTES|);
    if classes != [] { MatchedClassNameIsRegular(d, e); }
    assert Fallback(d, e) in all;
    if n > 0 {
      PathHasAncestors(d, e, 0, n - 1);
      PathMatchesIff(d, e, n - 1);
    }
  }

  function Html(parent: Option<nat>, tagName: string, name: string): Element {
    Element(parent, tagName, name, name, "html", "", map[], [])
  }

  function Svg(parent: nat, tagName: string, lowered: string, localName: string): Element {
    Element(Some(parent), tagName, lowered, localName, "svg", "", map[], [])
  }

  lemma OnlyPathsAreTried(d: Dom, e: nat)
    requires e < |d| && d[e].id == "" && d[e].attributes == map[] && d[e].classes == []
    ensures Candidates(d, e) == PathCandidates(d, e)
  {
    NoAttributes(d[e], |STABLE_ATTRIBUTES|);
  }

  lemma {:induction false} NoAttributes(el: Element, n: nat)
    requires n <= |STABLE_ATTRIBUTES| && el.attributes == map[]
    ensures AttributeCandidates(el, n) == []
  {
    if n > 0 { NoAttributes(el, n - 1); }
  }

  const MIXED_CASE_PAGE: Dom :=
    [Html(None, "HTML", "html"), Html(Some(0), "BODY", "body"), Svg(1, "svg", "svg", "svg"),
     Svg(2, "foreignObject", "foreignobject", "foreignObject")]

  /** A mixed-case name: the printed one matches nothing, so the selector returned misses the element. */
  lemma MixedCaseNameIsMissed()
    ensures var d, sel := MIXED_CASE_PAGE, [ByTag("svg"), ByTag("foreignobject")];
            FirstUnique(d, Candidates(d, 3), Fallback(d, 3)) == sel && Selected(d, sel) == {}
  {
    var d, step := MIXED_CASE_PAGE, ByTag("foreignobject");
    MixedCasePath();
    assert forall e: nat | e < |d| :: !MatchesCompound(d, e, step);
    assert Selected(d, [step]) == {} && Selected(d, [ByTag("svg"), step]) == {};
    OnlyPathsAreTried(d, 3);
    assert !Unique(d, [step]) && !Unique(d, [ByTag("svg"), step]);
    assert NoneUnique(d, PathCandidates(d, 3));
    FirstUniqueIsFallback(d, PathCandidates(d, 3), Fallback(d, 3));
  }

  lemma MixedCasePath()
    ensures PathCandidates(MIXED_CASE_PAGE, 3) == [[ByTag("foreignobject")], [ByTag("svg"), ByTag("foreignobject")]]
  {
    var d := MIXED_CASE_PAGE;
    assert Siblings(d, 2) == {2} && Siblings(d, 3) == {3};
    assert PathPart(d, 2) == ByTag("svg") && PathPart(d, 3) == ByTag("foreignobject");
    assert PathLength(d, 2, 1) == 1 && PathLength(d, 3, 0) == 2;
    assert PathSelector(d, 3, 0) == [PathPart(d, 3)] && PathSelector(d, 2, 0) == [PathPart(d, 2)];
    assert PathSelector(d, 3, 1) == [PathPart(d, 2), PathPart(d, 3)];
  }

  const RECT_PAGE: Dom :=
    [Html(None, "HTML", "html"), Html(Some(0), "BODY", "body"), Svg(1, "svg", "svg", "svg"),
     Svg(2, "svg:rect", "svg:rect", "rect"), Svg(2, "rect", "rect", "rect"), Svg(2, "rect", "rect", "rect")]

  lemma RectIndex()
    ensures PathPart(RECT_PAGE, 4) == ByNthOfType("rect", 1) && PathLength(RECT_PAGE, 4, 0) == 2
  {
    var d := RECT_PAGE;
    assert Siblings(d, 4) == {4, 5} && SiblingsBefore(d, 4, 4) == {};
    assert PathLength(d, 2, 1) == 1;
  }

  lemma FirstRectIsSelected()
    ensures Selected(RECT_PAGE, [ByNthOfType("rect", 1)]) == {3}
  {
    var d, step := RECT_PAGE, ByNthOfType("rect", 1);
    assert TypeBefore(d, 3) == {} && TypeBefore(d, 4) == {3} && TypeBefore(d, 5) == {3, 4};
    assert forall e: nat | e < |d| :: MatchesCompound(d, e, step) <==> e == 3;
    assert forall e: nat | e < |d| :: Matches(d, e, [step]) <==> MatchesCompound(d, e, step);
  }

  /**
   * One type under two tag names: the index counts the wrong siblings, and the selector is unique for another
   * element.
   */
  lemma OtherTagNameIsSelected()
    ensures var d, sel := RECT_PAGE, [ByNthOfType("rect", 1)];
            FirstUnique(d, Candidates(d, 4), Fallback(d, 4)) == sel && Selected(d, sel) == {3}
  {
    var d, sel := RECT_PAGE, [ByNthOfType("rect", 1)];
    OnlyPathsAreTried(d, 4);
    RectIndex();
    FirstRectIsSelected();
    assert PathCandidates(d, 4)[0] == PathSelector(d, 4, 0) == sel;
  }

  // ---- The elements of a region ----

  predicate IsAncestor(d: Dom, a: nat, e: nat)
    requires e < |d|
  {
    d[e].parent.Some? && (d[e].parent.value == a || IsAncestor(d, a, d[e].parent.value))
  }

  /** The elements below `body` that `hit` accepts (tag, box inside the rectangle, visible), in document order. */
  method InRegion(d: Dom, body: nat, hit: nat -> bool) returns (inRegion: seq<nat>)
    requires body < |d|
    ensures forall e: nat :: e in inRegion <==> e < |d| && IsAncestor(d, body, e) && hit(e)
    ensures forall i, j | 0 <= i < j < |inRegion| :: inRegion[i] < inRegion[j]
  {
    inRegion := [];
    for e := 0 to |d|
      invariant forall x: nat :: x in inRegion <==> x < e && IsAncestor(d, body, x) && hit(x)
      invariant forall i, j | 0 <= i < j < |inRegion| :: inRegion[i] < inRegion[j]
    {
      forall i | 0 <= i < |inRegion| ensures inRegion[i] < e {
        assert inRegion[i] in inRegion;
      }
      if IsAncestor(d, body, e) && hit(e) {
        inRegion := inRegion + [e];
      }
    }
  }

  /** The walk from `e` up to the body, looking for an element of the region. */
  method HasAncestorIn(d: Dom, body: nat, e: nat, region: set<nat>) returns (found: bool)
    requires body < |d| && e < |d| && IsAncestor(d, body, e)
    requires forall a <- region :: a < |d| && IsAncestor(d, body, a)
    ensures found <==> exists a <- region :: IsAncestor(d, a, e)
  {
    var p := d[e].parent;
    while p.Some? && p.value != body
      invariant p.Some? && (p.value == body || IsAncestor(d, body, p.value))
      invariant forall a <- region :: IsAncestor(d, a, e) <==> p.value == a || IsAncestor(d, a, p.value)
      decreases p.value
    {
      if p.value in region { return true; }
      p := d[p.value].parent;
    }
    forall a <- region ensures !IsAncestor(d, a, e) {
      NotAboveAncestor(d, body, a);
    }
    return false;
  }

  lemma {:induction false} AncestorIsEarlier(d: Dom, a: nat, e: nat)
    requires e < |d| && IsAncestor(d, a, e)
    ensures a < e
  {
    if d[e].parent.value != a { AncestorIsEarlier(d, a, d[e].parent.value); }
  }

  lemma NotAboveAncestor(d: Dom, body: nat, a: nat)
    requires a < |d| && body < |d| && IsAncestor(d, body, a)
    ensures body != a && !IsAncestor(d, a, body)
  {
    AncestorIsEarlier(d, body, a);
    if IsAncestor(d, a, body) { AncestorIsEarlier(d, a, body); }
  }

  ghost predicate IsTopOf(d: Dom, region: seq<nat>, e: nat)
    requires forall x <- region :: x < |d|
  {
    e in region && forall a <- region :: !IsAncestor(d, a, e)
  }

  method TopLevel(d: Dom, body: nat, inRegion: seq<nat>) returns (top: seq<nat>)
    requires body < |d| && forall e <- inRegion :: e < |d| && IsAncestor(d, body, e)
    requires forall i, j | 0 <= i < j < |inRegion| :: inRegion[i] < inRegion[j]
    ensures forall e :: e in top <==> IsTopOf(d, inRegion, e)
    ensures forall i, j | 0 <= i < j < |top| :: top[i] < top[j]
  {
    var matchSet := set e | e in inRegion;
    assert forall a :: a in matchSet <==> a in inRegion;
    top := [];
    for i := 0 to |inRegion|
      invariant forall e: nat :: e in top <==> e in inRegion[..i] && IsTopOf(d, inRegion, e)
      invariant forall j, k | 0 <= j < k < |top| :: top[j] < top[k]
    {
      var e := inRegion[i];
      assert e in inRegion && inRegion[..i + 1] == inRegion[..i] + [e];
      forall j | 0 <= j < |top| ensures top[j] < e { assert top[j] in top; }
      var covered := HasAncestorIn(d, body, e, matchSet);
      assert covered <==> !IsTopOf(d, inRegion, e);
      if !covered { top := top + [e]; }
    }
  }

  lemma {:induction false} AncestorTransitive(d: Dom, a: nat, b: nat, e: nat)
    requires e < |d| && b < |d| && IsAncestor(d, a, b) && IsAncestor(d, b, e)
    ensures IsAncestor(d, a, e)
  {
    if d[e].parent.value != b { AncestorTransitive(d, a, b, d[e].parent.value); }
  }

  /**
   * Before the cut to twelve the picks are no ancestors of each other, and every element of the region is or lies
   * below a pick.
   */
  lemma {:induction false} TopLevelCovers(d: Dom, region: seq<nat>, e: nat) returns (t: nat)
    requires forall x <- region :: x < |d|
    requires e in region
    ensures IsTopOf(d, region, t) && (t == e || IsAncestor(d, t, e))
    ensures forall x, y | IsTopOf(d, region, x) && IsTopOf(d, region, y) :: !IsAncestor(d, x, y)
    decreases e
  {
    if IsTopOf(d, region, e) {
      t := e;
    } else {
      var a :| a in region && IsAncestor(d, a, e);
      AncestorIsEarlier(d, a, e);
      t := TopLevelCovers(d, region, a);
      if t != a { AncestorTransitive(d, t, a, e); }
    }
  }
}
