/**
 * A list of replacements, each turning a needle into a `{{key}}` placeholder, applied one after another to the
 * same text: what they do together, for every text.
 */
module Substitution {
  import opened Text

  /**
   * No occurrence of `w` can touch the double braces of a placeholder: `w` neither begins nor ends with a brace and
   * has no brace twice in a row. Single braces inside are allowed.
   */
  predicate KeepsClear(w: string) {
    Separates('{', w) && Separates('}', w)
  }

  /** One replacement: every `needle` becomes `{{key}}`. */
  datatype Op = Op(needle: string, key: string)

  function Placeholder(key: string): string {
    "{{" + key + "}}"
  }

  /** The replacements from number `p` on, applied to `t` one after another. */
  function Apply(ops: seq<Op>, p: nat, t: string): string
    requires p <= |ops| && Needles(ops)
    decreases |ops| - p
  {
    if p == |ops| then t
    else Apply(ops, p + 1, Replace(t, ops[p].needle, Placeholder(ops[p].key)))
  }

  predicate Needles(ops: seq<Op>) {
    forall op <- ops :: op.needle != ""
  }

  predicate ClearNeedles(ops: seq<Op>) {
    Needles(ops) && forall op <- ops :: KeepsClear(op.needle)
  }

  /** No needle occurs in `t`. */
  ghost predicate Clean(ops: seq<Op>, t: string) {
    CleanUpTo(ops, |ops|, t)
  }

  ghost predicate CleanUpTo(ops: seq<Op>, p: nat, t: string) {
    forall i: nat | i < p && i < |ops| :: !Contains(t, ops[i].needle)
  }

  // ---- Placeholders cut a text into independent parts ----

  lemma {:induction false} ApplyAround(ops: seq<Op>, p: nat, a: string, c: char, b: string)
    requires p <= |ops| && ClearNeedles(ops) && c in "{}"
    ensures Apply(ops, p, a + [c, c] + b) == Apply(ops, p, a) + [c, c] + Apply(ops, p, b)
    decreases |ops| - p
  {
    if p < |ops| {
      var v, w := ops[p].needle, Placeholder(ops[p].key);
      assert KeepsClear(v);
      ReplaceAround(a, c, b, v, w);
      ApplyAround(ops, p + 1, Replace(a, v, w), c, Replace(b, v, w));
    }
  }

  lemma {:induction false} ApplyNothing(ops: seq<Op>, p: nat)
    requires p <= |ops| && Needles(ops)
    ensures Apply(ops, p, "") == ""
    decreases |ops| - p
  {
    if p < |ops| { ApplyNothing(ops, p + 1); }
  }

  /** A text with a placeholder in the middle, cut at its braces. */
  lemma PlaceholderCuts(a: string, key: string, b: string)
    ensures a + Placeholder(key) + b == a + ['{', '{'] + (key + ['}', '}'] + b)
  {
  }

  /** Replacements act on the text before a placeholder, on its key and on the text after it, separately. */
  lemma ApplyAroundPlaceholder(ops: seq<Op>, p: nat, a: string, key: string, b: string)
    requires p <= |ops| && ClearNeedles(ops)
    ensures Apply(ops, p, a + Placeholder(key) + b) ==
            Apply(ops, p, a) + Placeholder(Apply(ops, p, key)) + Apply(ops, p, b)
  {
    PlaceholderCuts(a, key, b);
    ApplyAround(ops, p, a, '{', key + ['}', '}'] + b);
    ApplyAround(ops, p, key, '}', b);
    PlaceholderCuts(Apply(ops, p, a), Apply(ops, p, key), Apply(ops, p, b));
  }

  lemma CleanAround(ops: seq<Op>, a: string, c: char, b: string)
    requires ClearNeedles(ops) && c in "{}"
    ensures Clean(ops, a + [c, c] + b) <==> Clean(ops, a) && Clean(ops, b)
  {
    forall i: nat | i < |ops|
      ensures Contains(a + [c, c] + b, ops[i].needle) <==> Contains(a, ops[i].needle) || Contains(b, ops[i].needle)
    {
      assert KeepsClear(ops[i].needle);
      ContainsAround(a, c, b, ops[i].needle);
    }
  }

  lemma CleanAroundPlaceholder(ops: seq<Op>, a: string, key: string, b: string)
    requires ClearNeedles(ops)
    ensures Clean(ops, a + Placeholder(key) + b) <==> Clean(ops, a) && Clean(ops, key) && Clean(ops, b)
  {
    PlaceholderCuts(a, key, b);
    CleanAround(ops, a, '{', key + ['}', '}'] + b);
    CleanAround(ops, key, '}', b);
  }

  // ---- The cover of a rewritten text ----

  /**
   * A text as it is cut up by the replacements: a part that stays, or an occurrence of needle number `op` between two
   * parts.
   */
  datatype Cover = Kept(text: string) | Hidden(before: Cover, op: nat, after: Cover) {
    /** The replacements whose placeholders are in the output. */
    function Used(): set<nat> {
      match this
      case Kept(_) => {}
      case Hidden(before, op, after) => before.Used() + {op} + after.Used()
    }

    ghost predicate EveryKept(p: string -> bool) {
      match this
      case Kept(text) => p(text)
      case Hidden(before, _, after) => before.EveryKept(p) && after.EveryKept(p)
    }

    predicate OpsBelow(n: nat) {
      match this
      case Kept(_) => true
      case Hidden(before, op, after) => before.OpsBelow(n) && op < n && after.OpsBelow(n)
    }
  }

  function CoverOf(ops: seq<Op>, p: nat, t: string): (r: Cover)
    requires p <= |ops| && Needles(ops)
    ensures r.OpsBelow(|ops|)
    decreases |ops| - p, |t|
  {
    if p == |ops| then Kept(t)
    else
      match Find(t, ops[p].needle)
      case None => CoverOf(ops, p + 1, t)
      case Some(i) => Hidden(CoverOf(ops, p + 1, t[..i]), p, CoverOf(ops, p, t[i + |ops[p].needle|..]))
  }

  /** The input the cover stands for: each hidden needle is read back as itself. */
  function Restore(ops: seq<Op>, c: Cover): string
    requires c.OpsBelow(|ops|)
  {
    match c
    case Kept(text) => text
    case Hidden(before, op, after) => Restore(ops, before) + ops[op].needle + Restore(ops, after)
  }

  /** The output the cover stands for, when hidden needle number `i` is shown as `shown[i]` in double braces. */
  function Render(shown: seq<string>, c: Cover): string
    requires c.OpsBelow(|shown|)
  {
    match c
    case Kept(text) => text
    case Hidden(before, op, after) => Render(shown, before) + Placeholder(shown[op]) + Render(shown, after)
  }

  /** What the later replacements make of the key in a placeholder. */
  function FinalKey(ops: seq<Op>, i: nat): string
    requires Needles(ops) && i < |ops|
  {
    Apply(ops, i + 1, ops[i].key)
  }

  function FinalKeys(ops: seq<Op>): (r: seq<string>)
    requires Needles(ops)
    ensures |r| == |ops|
    ensures forall i: nat | i < |r| :: r[i] == FinalKey(ops, i)
  {
    seq(|ops|, i requires 0 <= i < |ops| => FinalKey(ops, i))
  }

  function Keys(ops: seq<Op>): (r: seq<string>)
    ensures |r| == |ops|
    ensures forall i: nat | i < |r| :: r[i] == ops[i].key
  {
    seq(|ops|, i requires 0 <= i < |ops| => ops[i].key)
  }

  /** Nothing is lost: the cover always spells the input. */
  lemma {:induction false} CoverSpellsInput(ops: seq<Op>, p: nat, t: string)
    requires p <= |ops| && Needles(ops)
    ensures Restore(ops, CoverOf(ops, p, t)) == t
    decreases |ops| - p, |t|
  {
    if p == |ops| {
    } else if Find(t, ops[p].needle).None? {
      CoverSpellsInput(ops, p + 1, t);
    } else {
      var before, after := FindSplits(t, ops[p].needle);
      CoverSpellsInput(ops, p + 1, before);
      CoverSpellsInput(ops, p, after);
    }
  }

  lemma ApplySplit(ops: seq<Op>, p: nat, before: string, after: string)
    requires p < |ops| && ClearNeedles(ops)
    requires forall j: nat | j < |before| :: !OccursAt(before + ops[p].needle + after, ops[p].needle, j)
    ensures Apply(ops, p, before + ops[p].needle + after) ==
            Apply(ops, p + 1, before) + Placeholder(Apply(ops, p + 1, ops[p].key)) + Apply(ops, p, after)
  {
    var v, w := ops[p].needle, Placeholder(ops[p].key);
    ReplaceFromFirst(before, after, v, w);
    ApplyAroundPlaceholder(ops, p + 1, before, ops[p].key, Replace(after, v, w));
  }

  lemma ApplyUnmatched(ops: seq<Op>, p: nat, t: string)
    requires p < |ops| && Needles(ops) && !Contains(t, ops[p].needle)
    ensures Apply(ops, p, t) == Apply(ops, p + 1, t)
  {
    ReplaceNothing(t, ops[p].needle, Placeholder(ops[p].key));
  }

  /**
   * For needles that keep clear of double braces the output is the cover rendered with the final keys, whatever the
   * keys are.
   */
  lemma {:induction false} CoverSpellsOutput(ops: seq<Op>, p: nat, t: string)
    requires p <= |ops| && ClearNeedles(ops)
    ensures Render(FinalKeys(ops), CoverOf(ops, p, t)) == Apply(ops, p, t)
    decreases |ops| - p, |t|
  {
    if p == |ops| {
    } else if Find(t, ops[p].needle).None? {
      ApplyUnmatched(ops, p, t);
      CoverSpellsOutput(ops, p + 1, t);
    } else {
      var before, after := FindSplits(t, ops[p].needle);
      CoverSpellsOutput(ops, p + 1, before);
      CoverSpellsOutput(ops, p, after);
      ApplySplit(ops, p, before, after);
    }
  }

  // ---- When the output is free of credentials ----

  /** Needle `i` has no earlier needle inside it, so an occurrence of it can still be there when its turn comes. */
  ghost predicate Live(ops: seq<Op>, i: nat)
    requires i < |ops|
  {
    CleanUpTo(ops, i, ops[i].needle)
  }

  lemma CleanPart(ops: seq<Op>, p: nat, before: string, mid: string, after: string)
    requires CleanUpTo(ops, p, before + mid + after)
    ensures CleanUpTo(ops, p, before) && CleanUpTo(ops, p, mid) && CleanUpTo(ops, p, after)
  {
    var t := before + mid + after;
    assert t[0..|before|] == before;
    assert t[|before|..|before| + |mid|] == mid;
    assert t[|before| + |mid|..|t|] == after;
    forall i: nat | i < p && i < |ops|
      ensures !Contains(before, ops[i].needle) && !Contains(mid, ops[i].needle) && !Contains(after, ops[i].needle)
    {
      if Contains(before, ops[i].needle) { ContainsInPart(t, 0, |before|, ops[i].needle); }
      if Contains(mid, ops[i].needle) { ContainsInPart(t, |before|, |before| + |mid|, ops[i].needle); }
      if Contains(after, ops[i].needle) { ContainsInPart(t, |before| + |mid|, |t|, ops[i].needle); }
    }
  }

  lemma BeforeFirstMatch(before: string, v: string, after: string)
    requires v != "" && forall j: nat | j < |before| :: !OccursAt(before + v + after, v, j)
    ensures !Contains(before, v)
  {
    var t := before + v + after;
    forall j: nat | OccursAt(before, v, j) ensures OccursAt(t, v, j) && j < |before| {
      assert t[j..j + |v|] == before[j..j + |v|];
    }
  }

  /** All final keys the cover uses are free of needles. */
  ghost predicate UsedKeysClean(ops: seq<Op>, c: Cover)
    requires Needles(ops)
  {
    forall i <- c.Used() | i < |ops| :: Clean(ops, FinalKey(ops, i))
  }

  /** What is left of the input is free of every needle, and only live needles are hidden. */
  lemma {:induction false} CoverFacts(ops: seq<Op>, p: nat, t: string)
    requires p <= |ops| && Needles(ops) && CleanUpTo(ops, p, t)
    ensures CoverOf(ops, p, t).EveryKept(text => Clean(ops, text))
    ensures forall i <- CoverOf(ops, p, t).Used() :: i < |ops| && Live(ops, i)
    decreases |ops| - p, |t|
  {
    if p == |ops| {
    } else if Find(t, ops[p].needle).None? {
      CoverFacts(ops, p + 1, t);
    } else {
      var before, after := FindSplits(t, ops[p].needle);
      CleanPart(ops, p, before, ops[p].needle, after);
      BeforeFirstMatch(before, ops[p].needle, after);
      CoverFacts(ops, p + 1, before);
      CoverFacts(ops, p, after);
    }
  }

  /** For every text: the output is free of needles exactly if the final keys of the placeholders used are. */
  lemma {:induction false} OutputCleanIff(ops: seq<Op>, p: nat, t: string)
    requires p <= |ops| && ClearNeedles(ops) && CleanUpTo(ops, p, t)
    ensures Clean(ops, Apply(ops, p, t)) <==> UsedKeysClean(ops, CoverOf(ops, p, t))
    decreases |ops| - p, |t|
  {
    if p == |ops| {
    } else if Find(t, ops[p].needle).None? {
      ApplyUnmatched(ops, p, t);
      OutputCleanIff(ops, p + 1, t);
    } else {
      var before, after := FindSplits(t, ops[p].needle);
      CleanPart(ops, p, before, ops[p].needle, after);
      BeforeFirstMatch(before, ops[p].needle, after);
      OutputCleanIff(ops, p + 1, before);
      OutputCleanIff(ops, p, after);
      ApplySplit(ops, p, before, after);
      CleanAroundPlaceholder(ops, Apply(ops, p + 1, before), FinalKey(ops, p), Apply(ops, p, after));
      UsedKeysSplit(ops, CoverOf(ops, p + 1, before), p, CoverOf(ops, p, after));
    }
  }

  lemma UsedKeysSplit(ops: seq<Op>, a: Cover, p: nat, b: Cover)
    requires Needles(ops) && p < |ops|
    ensures UsedKeysClean(ops, Hidden(a, p, b)) <==>
            UsedKeysClean(ops, a) && Clean(ops, FinalKey(ops, p)) && UsedKeysClean(ops, b)
  {
    assert p in Hidden(a, p, b).Used();
  }

  lemma NothingInFront(v: string, tail: string)
    ensures "" + v + tail == v + tail
  {
  }

  /** A needle in front is hidden, and the rest is rewritten separately. */
  lemma HideFirst(ops: seq<Op>, i: nat, tail: string)
    requires i < |ops| && ClearNeedles(ops)
    ensures Apply(ops, i, ops[i].needle + tail) == Placeholder(FinalKey(ops, i)) + Apply(ops, i, tail)
  {
    NothingInFront(ops[i].needle, tail);
    ApplySplit(ops, i, "", tail);
    ApplyNothing(ops, i + 1);
    NothingInFront(Placeholder(FinalKey(ops, i)), Apply(ops, i, tail));
  }

  lemma HideOwnNeedle(ops: seq<Op>, i: nat)
    requires i < |ops| && ClearNeedles(ops)
    ensures Apply(ops, i, ops[i].needle) == Placeholder(FinalKey(ops, i))
  {
    HideFirst(ops, i, "");
    ApplyNothing(ops, i);
    assert ops[i].needle + "" == ops[i].needle;
    assert Placeholder(FinalKey(ops, i)) + "" == Placeholder(FinalKey(ops, i));
  }

  lemma {:induction false} UntouchedBefore(ops: seq<Op>, p: nat, i: nat, t: string)
    requires p <= i <= |ops| && Needles(ops) && CleanUpTo(ops, i, t)
    ensures Apply(ops, p, t) == Apply(ops, i, t)
    decreases i - p
  {
    if p < i {
      assert !Contains(t, ops[p].needle);
      ApplyUnmatched(ops, p, t);
      UntouchedBefore(ops, p + 1, i, t);
    }
  }

  lemma ApplyOwnNeedle(ops: seq<Op>, i: nat)
    requires i < |ops| && ClearNeedles(ops) && Live(ops, i)
    ensures Apply(ops, 0, ops[i].needle) == Placeholder(FinalKey(ops, i))
  {
    UntouchedBefore(ops, 0, i, ops[i].needle);
    HideOwnNeedle(ops, i);
  }

  ghost predicate EveryOutputClean(ops: seq<Op>)
    requires Needles(ops)
  {
    forall t :: Clean(ops, Apply(ops, 0, t))
  }

  ghost predicate LiveKeysEndClean(ops: seq<Op>)
    requires Needles(ops)
  {
    forall i: nat | i < |ops| && Live(ops, i) :: Clean(ops, FinalKey(ops, i))
  }

  /**
   * The exact condition, on the credentials alone, under which no text at all can come out with a needle in
   * it: the final key of every live needle is free of needles.
   */
  lemma EveryOutputCleanIff(ops: seq<Op>)
    requires ClearNeedles(ops)
    ensures EveryOutputClean(ops) <==> LiveKeysEndClean(ops)
  {
    if EveryOutputClean(ops) {
      forall i: nat | i < |ops| && Live(ops, i) ensures Clean(ops, FinalKey(ops, i)) {
        assert Clean(ops, Apply(ops, 0, ops[i].needle));
        OwnNeedleShowsKey(ops, i);
      }
    }
    if LiveKeysEndClean(ops) {
      forall t ensures Clean(ops, Apply(ops, 0, t)) {
        CleanWhenLiveKeysAre(ops, t);
      }
    }
  }

  lemma CleanWhenLiveKeysAre(ops: seq<Op>, t: string)
    requires ClearNeedles(ops) && LiveKeysEndClean(ops)
    ensures Clean(ops, Apply(ops, 0, t))
  {
    OutputCleanIff(ops, 0, t);
    CoverFacts(ops, 0, t);
  }

  lemma NothingAround(t: string)
    ensures "" + t + "" == t
  {
  }

  lemma OwnNeedleShowsKey(ops: seq<Op>, i: nat)
    requires i < |ops| && ClearNeedles(ops) && Live(ops, i)
    ensures Clean(ops, Apply(ops, 0, ops[i].needle)) <==> Clean(ops, FinalKey(ops, i))
  {
    ApplyOwnNeedle(ops, i);
    var key := FinalKey(ops, i);
    NothingAround(Placeholder(key));
    CleanAroundPlaceholder(ops, "", key, "");
    CleanNothing(ops);
  }

  lemma CleanNothing(ops: seq<Op>)
    requires Needles(ops)
    ensures Clean(ops, "")
  {
    forall i: nat | i < |ops| ensures !Contains("", ops[i].needle) {
      assert ops[i].needle != "";
    }
  }

  /** No needle occurs in the name of a credential. */
  ghost predicate KeysHaveNoNeedle(ops: seq<Op>) {
    forall i: nat | i < |ops| :: Clean(ops, ops[i].key)
  }

  lemma {:induction false} ApplyClean(ops: seq<Op>, p: nat, t: string)
    requires p <= |ops| && Needles(ops) && Clean(ops, t)
    ensures Apply(ops, p, t) == t
    decreases |ops| - p
  {
    if p < |ops| {
      ReplaceNothing(t, ops[p].needle, Placeholder(ops[p].key));
      ApplyClean(ops, p + 1, t);
    }
  }

  /** With needle-free keys, later replacements never touch a placeholder. */
  lemma PlaceholdersStay(ops: seq<Op>)
    requires Needles(ops) && KeysHaveNoNeedle(ops)
    ensures FinalKeys(ops) == Keys(ops)
  {
    forall i: nat | i < |ops| ensures FinalKey(ops, i) == ops[i].key {
      ApplyClean(ops, i + 1, ops[i].key);
    }
  }

  lemma ContainsAroundPlaceholder(a: string, key: string, b: string, v: string)
    requires KeepsClear(v)
    ensures Contains(a + Placeholder(key) + b, v) <==> Contains(a, v) || Contains(key, v) || Contains(b, v)
  {
    var ops := [Op(v, key)];
    CleanAroundPlaceholder(ops, a, key, b);
    forall t ensures Clean(ops, t) <==> !Contains(t, v) {
      assert ops[0].needle == v;
    }
  }

  /** One replacement, for every text: its needle is still there exactly if it was there and is in the key too. */
  lemma {:induction false} NeedleSurvivesIff(v: string, key: string, t: string)
    requires KeepsClear(v)
    ensures Contains(Replace(t, v, Placeholder(key)), v) <==> Contains(t, v) && Contains(key, v)
    decreases |t|
  {
    if Find(t, v).None? {
      ReplaceNothing(t, v, Placeholder(key));
    } else {
      var before, after := FindSplits(t, v);
      ReplaceFromFirst(before, after, v, Placeholder(key));
      BeforeFirstMatch(before, v, after);
      NeedleSurvivesIff(v, key, after);
      ContainsAroundPlaceholder(before, key, Replace(after, v, Placeholder(key)), v);
    }
  }

  /** The condition on the names is needed: the value `pass` of the credential `password` stays visible. */
  lemma NameWithNeedleLeaks()
    ensures Replace("pass", "pass", Placeholder("password")) == Placeholder("password")
    ensures Contains(Replace("pass", "pass", Placeholder("password")), "pass")
  {
    var v, key := "pass", "password";
    assert v[|v|..] == "";
    assert key[0..4] == v;
    assert OccursAt(key, v, 0);
    assert OccursAt(v, v, 0);
    NeedleSurvivesIff(v, key, v);
  }

  /** The condition on braces is needed too: a value that is its own placeholder is never hidden. */
  lemma {:induction false} OwnPlaceholderStays(key: string, t: string)
    ensures Replace(t, Placeholder(key), Placeholder(key)) == t
  {
    var v := Placeholder(key);
    if v <= t {
      OwnPlaceholderStays(key, t[|v|..]);
      assert t == v + t[|v|..];
    } else if t != "" {
      OwnPlaceholderStays(key, t[1..]);
    }
  }

  // ---- The match flag, and lists of replacements split in two ----

  /** Whether any replacement finds its needle when its turn comes. */
  predicate Matched(ops: seq<Op>, p: nat, t: string)
    requires p <= |ops| && Needles(ops)
    decreases |ops| - p
  {
    p < |ops| &&
    (Find(t, ops[p].needle).Some? || Matched(ops, p + 1, Replace(t, ops[p].needle, Placeholder(ops[p].key))))
  }

  /** No replacement fires exactly if the text has no needle to begin with, and then it does not change. */
  lemma {:induction false} MatchedIff(ops: seq<Op>, p: nat, t: string)
    requires p <= |ops| && Needles(ops)
    ensures !Matched(ops, p, t) <==> forall i: nat | p <= i < |ops| :: !Contains(t, ops[i].needle)
    ensures !Matched(ops, p, t) ==> Apply(ops, p, t) == t
    decreases |ops| - p
  {
    if p < |ops| && Find(t, ops[p].needle).None? {
      ReplaceNothing(t, ops[p].needle, Placeholder(ops[p].key));
      MatchedIff(ops, p + 1, t);
    }
    if p < |ops| && Find(t, ops[p].needle).Some? {
      assert Contains(t, ops[p].needle);
    }
  }

  /** A replacement that fires leaves a brace in the text, and no later one takes the last brace away. */
  lemma BraceStays(v: string, key: string, t: string)
    requires v != "" && ('{' in t || Contains(t, v))
    ensures '{' in Replace(t, v, Placeholder(key))
  {
    if Find(t, v).Some? {
      var before, after := FindSplits(t, v);
      ReplaceFromFirst(before, after, v, Placeholder(key));
      assert Placeholder(key)[0] == '{';
    } else {
      ReplaceNothing(t, v, Placeholder(key));
    }
  }

  lemma {:induction false} AppliedHasBrace(ops: seq<Op>, p: nat, t: string)
    requires p <= |ops| && Needles(ops) && ('{' in t || Matched(ops, p, t))
    ensures '{' in Apply(ops, p, t)
    decreases |ops| - p
  {
    if p < |ops| {
      var next := Replace(t, ops[p].needle, Placeholder(ops[p].key));
      if '{' in t || Find(t, ops[p].needle).Some? { BraceStays(ops[p].needle, ops[p].key, t); }
      AppliedHasBrace(ops, p + 1, next);
    }
  }

  lemma {:induction false} Behind(front: seq<Op>, ops: seq<Op>, p: nat, t: string)
    requires p <= |ops| && Needles(front + ops)
    ensures Needles(ops)
    ensures Apply(front + ops, |front| + p, t) == Apply(ops, p, t)
    ensures Matched(front + ops, |front| + p, t) == Matched(ops, p, t)
    decreases |ops| - p
  {
    forall op <- ops ensures op in front + ops {
    }
    if p < |ops| {
      assert (front + ops)[|front| + p] == ops[p];
      Behind(front, ops, p + 1, Replace(t, ops[p].needle, Placeholder(ops[p].key)));
    }
  }

  /** The first replacement of a list, then the others. */
  lemma FirstThenRest(op: Op, rest: seq<Op>, t: string)
    requires op.needle != "" && Needles(rest)
    ensures Needles([op] + rest)
    ensures var next := Replace(t, op.needle, Placeholder(op.key));
            Apply([op] + rest, 0, t) == Apply(rest, 0, next) &&
            Matched([op] + rest, 0, t) == (Find(t, op.needle).Some? || Matched(rest, 0, next))
  {
    Behind([op], rest, 0, Replace(t, op.needle, Placeholder(op.key)));
  }
}
