/**
 * What replacing the longest credential first achieves (src/automation/network_capture.rs): when a credential's own
 * value comes out as its own placeholder, for every iteration order of the map.
 */
module CredentialOrder {
  import opened Text
  import opened Utf8
  import opened Substitution
  import opened NetworkCapture

  ghost predicate ProperlyInside(w: string, t: string) {
    Contains(t, w) && w != t
  }

  /** `w` is replaced before the needles of `d`, or it is the raw value of `d`, which comes before the encoded one. */
  ghost predicate TriedBefore(pairs: seq<Credential>, d: Credential, w: string) {
    w == Trim(d.value) || exists i: nat, j: nat | i < j < |pairs| :: pairs[j] == d && IsNeedleOf(pairs[i], w)
  }

  /** A needle replaced earlier breaks `x`. */
  ghost predicate Shadowed(pairs: seq<Credential>, d: Credential, x: string) {
    exists w :: TriedBefore(pairs, d, w) && ProperlyInside(w, x)
  }

  ghost predicate NeverShadowed(order: seq<Credential>, d: Credential, x: string) {
    forall q | multiset(q) == multiset(order) :: !Shadowed(LongestFirst(q), d, x)
  }

  /**
   * Another credential with a needle inside `x` is shorter, as stored, and the raw value of `d` is not inside either.
   */
  ghost predicate LongerThanItsParts(order: seq<Credential>, d: Credential, x: string) {
    !ProperlyInside(Trim(d.value), x) &&
    forall c, w | c in order && c != d && IsNeedleOf(c, w) && ProperlyInside(w, x) :: ByteLen(c) < ByteLen(d)
  }

  ghost predicate Distinct(s: seq<Credential>) {
    forall i, j | 0 <= i < j < |s| :: s[i] != s[j]
  }

  lemma {:induction false} DistinctIsOnce(s: seq<Credential>)
    ensures Distinct(s) <==> forall c :: multiset(s)[c] <= 1
  {
    if s != [] {
      var rest := s[1..];
      DistinctIsOnce(rest);
      assert s == [s[0]] + rest;
      if Distinct(s) {
        assert s[0] !in rest;
      } else if Distinct(rest) {
        assert s[0] in rest;
        assert multiset(s)[s[0]] == 1 + multiset(rest)[s[0]] >= 2;
      } else {
        var c :| multiset(rest)[c] > 1;
        assert multiset(s)[c] > 1;
      }
    }
  }

  lemma SortedOrder(order: seq<Credential>, q: seq<Credential>)
    requires Distinct(order) && multiset(q) == multiset(order)
    ensures Distinct(LongestFirst(q)) && LongestFirstSorted(LongestFirst(q))
    ensures forall c :: c in q <==> c in order
    ensures forall c :: c in LongestFirst(q) <==> c in order
  {
    LongestFirstSorts(q);
    DistinctIsOnce(order);
    DistinctIsOnce(LongestFirst(q));
    forall c ensures c in q <==> c in order {
      assert c in multiset(q) <==> c in multiset(order);
    }
  }

  lemma {:induction false} InsertedBefore(c: Credential, sorted: seq<Credential>, d: Credential) returns (i: nat,
                                          j: nat)
    requires d in sorted && ByteLen(c) >= ByteLen(d)
    ensures var r := InsertByLength(c, sorted); i < j < |r| && r[i] == c && r[j] == d
  {
    if ByteLen(sorted[0]) <= ByteLen(c) {
      var k: nat :| k < |sorted| && sorted[k] == d;
      i, j := 0, k + 1;
    } else {
      i, j := InsertedBefore(c, sorted[1..], d);
      i, j := i + 1, j + 1;
    }
  }

  lemma MovedToFront(s: seq<Credential>, k: nat) returns (rest: seq<Credential>)
    requires k < |s|
    ensures multiset([s[k]] + rest) == multiset(s) && forall d <- s :: d == s[k] || d in rest
  {
    rest := s[..k] + s[k + 1..];
    assert s == s[..k] + ([s[k]] + s[k + 1..]);
    assert multiset(s) == multiset(s[..k]) + multiset([s[k]] + s[k + 1..]);
    assert multiset([s[k]] + s[k + 1..]) == multiset([s[k]]) + multiset(s[k + 1..]);
    assert multiset([s[k]] + rest) == multiset([s[k]]) + multiset(rest);
  }

  /** An iteration order that begins with `c` puts `c` before every credential that is not longer. */
  lemma OrderWithFirst(order: seq<Credential>, c: Credential, d: Credential) returns (q: seq<Credential>, i: nat,
                       j: nat)
    requires c in order && d in order && c != d && ByteLen(c) >= ByteLen(d)
    ensures multiset(q) == multiset(order)
    ensures i < j < |LongestFirst(q)| && LongestFirst(q)[i] == c && LongestFirst(q)[j] == d
  {
    var k: nat :| k < |order| && order[k] == c;
    var rest := MovedToFront(order, k);
    q := [c] + rest;
    LongestFirstSorts(rest);
    assert q[1..] == rest;
    i, j := InsertedBefore(c, LongestFirst(rest), d);
  }

  /**
   * What the sort achieves, for a needle `x` of `d`, raw or form-encoded: in every iteration order of the map no
   * earlier replacement breaks it, exactly if every other credential with a needle properly inside it is shorter as
   * stored, and the raw value of `d` is not properly inside it either.
   */
  lemma NeverShadowedIff(order: seq<Credential>, d: Credential, x: string)
    requires Distinct(order) && d in order
    ensures NeverShadowed(order, d, x) <==> LongerThanItsParts(order, d, x)
  {
    if NeverShadowed(order, d, x) {
      assert !Shadowed(LongestFirst(order), d, x);
      assert TriedBefore(LongestFirst(order), d, Trim(d.value));
      forall c, w | c in order && c != d && IsNeedleOf(c, w) && ProperlyInside(w, x) ensures ByteLen(c) < ByteLen(d) {
        if ByteLen(c) >= ByteLen(d) { var _, _, _ := OrderWithFirst(order, c, d); }
      }
    } else {
      var q :| multiset(q) == multiset(order) && Shadowed(LongestFirst(q), d, x);
      var pairs := LongestFirst(q);
      var w :| TriedBefore(pairs, d, w) && ProperlyInside(w, x);
      SortedOrder(order, q);
      if w != Trim(d.value) {
        var i: nat, j: nat :| i < j < |pairs| && pairs[j] == d && IsNeedleOf(pairs[i], w);
        assert pairs[i] in order && pairs[i] != d && ByteLen(pairs[i]) >= ByteLen(d);
      }
    }
  }

  /** Where no value has whitespace around it, the sort always works for the raw values. */
  lemma UnpaddedValuesAreSafe(order: seq<Credential>, d: Credential)
    requires d in order && forall c <- order :: Trim(c.value) == c.value
    requires Distinct(order)
    ensures LongerThanItsParts(order, d, d.value) && NeverShadowed(order, d, d.value)
  {
    forall c, w | c in order && c != d && IsNeedleOf(c, w) && ProperlyInside(w, d.value)
      ensures ByteLen(c) < ByteLen(d)
    {
      EncodeIsNoShorter(w);
      ContainedIsShorter(d.value, w);
    }
    NeverShadowedIff(order, d, d.value);
  }

  // ---- What comes out for a credential's own needle ----

  lemma {:induction false} OpsConcat(a: seq<Credential>, b: seq<Credential>)
    ensures Ops(a + b) == Ops(a) + Ops(b)
  {
    if a == [] {
      assert a + b == b;
    } else {
      assert (a + b)[1..] == a[1..] + b;
      OpsConcat(a[1..], b);
    }
  }

  lemma OpsSplit(pairs: seq<Credential>, j: nat)
    requires j < |pairs|
    ensures Ops(pairs) == Ops(pairs[..j]) + (OpsOf(pairs[j]) + Ops(pairs[j + 1..]))
  {
    assert pairs == pairs[..j] + pairs[j..];
    OpsConcat(pairs[..j], pairs[j..]);
    assert pairs[j..][0] == pairs[j] && pairs[j..][1..] == pairs[j + 1..];
  }

  lemma {:induction false} FirstWithNeedle(ops: seq<Op>, v: string) returns (i: nat)
    requires exists op <- ops :: op.needle == v
    ensures i < |ops| && ops[i].needle == v && forall h: nat | h < i :: ops[h].needle != v
  {
    if ops[0].needle == v {
      i := 0;
    } else {
      var op :| op in ops && op.needle == v;
      assert op in ops[1..];
      var k := FirstWithNeedle(ops[1..], v);
      i := k + 1;
    }
  }

  /** `x` is a needle of `c` and of no other credential. */
  ghost predicate OwnNeedle(order: seq<Credential>, c: Credential, x: string) {
    c in order && IsNeedleOf(c, x) && forall d <- order :: IsNeedleOf(d, x) ==> d == c
  }

  lemma OpOfEarlier(pairs: seq<Credential>, j: nat, h: nat) returns (k: nat)
    requires j <= |pairs| && h < |Ops(pairs[..j])|
    ensures k < j && IsNeedleOf(pairs[k], Ops(pairs[..j])[h].needle)
  {
    var before := Ops(pairs[..j]);
    OpsAreNeedles(pairs[..j]);
    assert before[h] in before;
    var b :| b in pairs[..j] && IsNeedleOf(b, before[h].needle);
    k :| 0 <= k < j && pairs[k] == b;
  }

  lemma EarlierHasOp(pairs: seq<Credential>, j: nat, k: nat, w: string) returns (h: nat)
    requires k < j <= |pairs| && IsNeedleOf(pairs[k], w)
    ensures h < |Ops(pairs[..j])| && Ops(pairs[..j])[h].needle == w
  {
    OpsAreNeedles(pairs[..j]);
    assert pairs[..j][k] == pairs[k];
    assert Op(w, pairs[k].key) in Ops(pairs[..j]);
    h :| 0 <= h < |Ops(pairs[..j])| && Ops(pairs[..j])[h] == Op(w, pairs[k].key);
  }

  lemma OpsOfNeedles(c: Credential, x: string)
    requires IsNeedleOf(c, x)
    ensures 0 < |OpsOf(c)| <= 2 && OpsOf(c)[0].needle == Trim(c.value) && exists op <- OpsOf(c) :: op.needle == x
  {
    assert OpsOf(c)[0].needle == Trim(c.value);
    assert x != Trim(c.value) ==> OpsOf(c)[1].needle == x;
  }

  lemma FirstOfTwo(front: seq<Op>, own: seq<Op>, back: seq<Op>, x: string, i: nat, h: nat)
    requires var ops := front + (own + back);
             |front| <= h < i < |ops| && forall k: nat | k < i :: ops[k].needle != x
    requires |own| <= 2 && exists op <- own :: op.needle == x
    ensures h == |front| && (front + (own + back))[h] == own[0]
  {
    var ops := front + (own + back);
    assert forall k: nat | k < |own| :: ops[|front| + k] == own[k];
  }

  /** All replacements that come before the first one for `x` belong to needles tried before those of `c`. */
  lemma BeforeOwnNeedle(pairs: seq<Credential>, c: Credential, x: string, i: nat, h: nat)
    requires c in pairs && IsNeedleOf(c, x) && h < i < |Ops(pairs)|
    requires Ops(pairs)[i].needle == x && forall k: nat | k < i :: Ops(pairs)[k].needle != x
    ensures TriedBefore(pairs, c, Ops(pairs)[h].needle)
  {
    var j: nat :| j < |pairs| && pairs[j] == c;
    var ops, before := Ops(pairs), Ops(pairs[..j]);
    var w := ops[h].needle;
    OpsSplit(pairs, j);
    if h < |before| {
      var k := OpOfEarlier(pairs, j, h);
    } else {
      OpsOfNeedles(c, x);
      FirstOfTwo(before, OpsOf(c), Ops(pairs[j + 1..]), x, i, h);
    }
  }

  lemma UnshadowedIsLive(pairs: seq<Credential>, c: Credential, x: string) returns (i: nat)
    requires OwnNeedle(pairs, c, x) && !Shadowed(pairs, c, x)
    ensures i < |Ops(pairs)| && Ops(pairs)[i] == Op(x, c.key) && Live(Ops(pairs), i)
  {
    var ops := Ops(pairs);
    OpsAreNeedles(pairs);
    assert Op(x, c.key) in ops;
    i := FirstWithNeedle(ops, x);
    assert ops[i] in ops;
    forall h: nat | h < i ensures !Contains(x, ops[h].needle) {
      BeforeOwnNeedle(pairs, c, x, i, h);
    }
  }

  /** The only credential with the needle `x` has its replacements behind those of the entries before it. */
  lemma OwnOpBehind(pairs: seq<Credential>, c: Credential, x: string, j: nat, i: nat)
    requires Distinct(pairs) && OwnNeedle(pairs, c, x) && j < |pairs| && pairs[j] == c
    requires i < |Ops(pairs)| && Ops(pairs)[i].needle == x
    ensures |Ops(pairs[..j])| <= i
  {
    var before := Ops(pairs[..j]);
    OpsSplit(pairs, j);
    forall h: nat | h < |before| ensures before[h].needle != x {
      var k := OpOfEarlier(pairs, j, h);
      assert pairs[k] != c && pairs[k] in pairs;
    }
  }

  lemma TriedBeforeHasOp(pairs: seq<Credential>, c: Credential, x: string, w: string) returns (j: nat, h: nat)
    requires c in pairs && IsNeedleOf(c, x) && TriedBefore(pairs, c, w)
    ensures j < |pairs| && pairs[j] == c && h <= |Ops(pairs[..j])| && h < |Ops(pairs)| && Ops(pairs)[h].needle == w
  {
    if w == Trim(c.value) {
      j :| 0 <= j < |pairs| && pairs[j] == c;
      OpsSplit(pairs, j);
      h := |Ops(pairs[..j])|;
      assert Ops(pairs)[h] == OpsOf(c)[0];
    } else {
      var i: nat;
      i, j :| i < j < |pairs| && pairs[j] == c && IsNeedleOf(pairs[i], w);
      OpsSplit(pairs, j);
      h := EarlierHasOp(pairs, j, i, w);
    }
  }

  lemma LiveHasNone(ops: seq<Op>, i: nat, h: nat)
    requires h <= i < |ops| && Live(ops, i)
    ensures !ProperlyInside(ops[h].needle, ops[i].needle)
  {
  }

  lemma LiveIsUnshadowed(pairs: seq<Credential>, c: Credential, x: string, i: nat)
    requires Distinct(pairs) && OwnNeedle(pairs, c, x)
    requires i < |Ops(pairs)| && Ops(pairs)[i].needle == x && Live(Ops(pairs), i)
    ensures !Shadowed(pairs, c, x)
  {
    forall w | TriedBefore(pairs, c, w) ensures !ProperlyInside(w, x) {
      var j, h := TriedBeforeHasOp(pairs, c, x, w);
      OwnOpBehind(pairs, c, x, j, i);
      LiveHasNone(Ops(pairs), i, h);
    }
  }

  lemma NoBraceInside(key: string)
    requires forall c <- key :: c !in "{}"
    ensures forall k | 2 <= k < |key| + 2 :: Placeholder(key)[k] !in "{}"
    ensures |Placeholder(key)| == |key| + 4
    ensures Placeholder(key)[..2] == "{{" && Placeholder(key)[|key| + 2..] == "}}"
  {
    forall k | 2 <= k < |key| + 2 ensures Placeholder(key)[k] !in "{}" {
      assert Placeholder(key)[k] == key[k - 2];
    }
  }

  lemma LoneBraces(before: string, inner: string, after: string, key: string)
    requires before + Placeholder(inner) + after == Placeholder(key)
    requires (forall c <- key :: c !in "{}") && forall c <- inner :: c !in "{}"
    ensures before == after == ""
  {
    var shown, mid, n := Placeholder(key), Placeholder(inner), |before|;
    NoBraceInside(key);
    NoBraceInside(inner);
    assert shown[n] == mid[0] == mid[..2][0] && shown[n + 1] == mid[1] == mid[..2][1];
    assert shown[n + |inner| + 2] == mid[|inner| + 2] == mid[|inner| + 2..][0];
    assert shown[|key| + 2] == shown[|key| + 2..][0] && shown[|key| + 3] == shown[|key| + 2..][1];
    assert n == 0;
  }

  /** A text that is nothing but one placeholder stands for one hidden needle and nothing around it. */
  lemma LonePlaceholder(ops: seq<Op>, cover: Cover, key: string)
    requires cover.OpsBelow(|ops|) && cover.Hidden? && Render(Keys(ops), cover) == Placeholder(key)
    requires (forall c <- key :: c !in "{}") && forall c <- ops[cover.op].key :: c !in "{}"
    ensures Restore(ops, cover) == ops[cover.op].needle
  {
    LoneBraces(Render(Keys(ops), cover.before), ops[cover.op].key, Render(Keys(ops), cover.after), key);
    NothingRendered(ops, cover.before);
    NothingRendered(ops, cover.after);
    assert "" + ops[cover.op].needle + "" == ops[cover.op].needle;
  }

  lemma NothingRendered(ops: seq<Op>, cover: Cover)
    requires cover.OpsBelow(|ops|) && Render(Keys(ops), cover) == ""
    ensures Restore(ops, cover) == ""
  {
  }

  ghost predicate BraceFreeKeys(order: seq<Credential>) {
    forall d, c | d in order && c in d.key :: c !in "{}"
  }

  lemma OwnPlaceholderIsLone(order: seq<Credential>, c: Credential, x: string) returns (i: nat)
    requires PlainCredentials(order) && BraceFreeKeys(order) && OwnNeedle(order, c, x)
    requires Shown(order, x) == Placeholder(c.key)
    ensures var ops := Ops(LongestFirst(order)); i < |ops| && ops[i].needle == x && Live(ops, i)
  {
    var pairs := LongestFirst(order);
    var ops := Ops(pairs);
    var cover := CoverOf(ops, 0, x);
    LongestFirstSorts(order);
    OpsAreNeedles(pairs);
    RewriteIsLossless(order, x);
    CoverFacts(ops, 0, x);
    assert Op(x, c.key) in ops;
    var k: nat :| k < |ops| && ops[k] == Op(x, c.key);
    assert OccursAt(x, ops[k].needle, 0) && !Clean(ops, x);
    i := cover.op;
    assert ops[i] in ops;
    LonePlaceholder(ops, cover, c.key);
  }

  /** For one iteration order: a needle comes out as its own placeholder exactly if no needle tried before breaks it. */
  lemma OwnNeedleIsShownIff(order: seq<Credential>, c: Credential, x: string)
    requires PlainCredentials(order) && Distinct(order) && OwnNeedle(order, c, x)
    ensures !Shadowed(LongestFirst(order), c, x) ==> Shown(order, x) == Placeholder(c.key)
    ensures BraceFreeKeys(order) && Shown(order, x) == Placeholder(c.key) ==> !Shadowed(LongestFirst(order), c, x)
  {
    var pairs := LongestFirst(order);
    SortedOrder(order, order);
    if !Shadowed(pairs, c, x) {
      var i := UnshadowedIsLive(pairs, c, x);
      LiveIsShown(order, c, x, i);
    }
    if BraceFreeKeys(order) && Shown(order, x) == Placeholder(c.key) {
      var i := OwnPlaceholderIsLone(order, c, x);
      LiveIsUnshadowed(pairs, c, x, i);
    }
  }

  lemma LiveIsShown(order: seq<Credential>, c: Credential, x: string, i: nat)
    requires PlainCredentials(order)
    requires var ops := Ops(LongestFirst(order)); i < |ops| && ops[i] == Op(x, c.key) && Live(ops, i)
    ensures Shown(order, x) == Placeholder(c.key)
  {
    var ops := Ops(LongestFirst(order));
    PlainMeansPlainOps(order);
    PlaceholdersStay(ops);
    MatchedIff(ops, 0, x);
    ApplyOwnNeedle(ops, i);
    assert FinalKey(ops, i) == FinalKeys(ops)[i] == Keys(ops)[i];
  }

  ghost predicate AlwaysShownAs(order: seq<Credential>, x: string, key: string) {
    forall q | multiset(q) == multiset(order) :: Shown(q, x) == Placeholder(key)
  }

  /**
   * For plain credentials: a needle that belongs to one credential alone, raw or form-encoded, comes out as the
   * placeholder of that credential in every iteration order of the map if every other credential with a needle
   * inside it is shorter as stored; with brace-free names exactly then.
   */
  lemma OwnNeedleIsAlwaysShownIff(order: seq<Credential>, c: Credential, x: string)
    requires PlainCredentials(order) && Distinct(order) && OwnNeedle(order, c, x)
    ensures LongerThanItsParts(order, c, x) ==> AlwaysShownAs(order, x, c.key)
    ensures BraceFreeKeys(order) && AlwaysShownAs(order, x, c.key) ==> LongerThanItsParts(order, c, x)
  {
    forall q | multiset(q) == multiset(order)
      ensures !Shadowed(LongestFirst(q), c, x) ==> Shown(q, x) == Placeholder(c.key)
      ensures BraceFreeKeys(order) && Shown(q, x) == Placeholder(c.key) ==> !Shadowed(LongestFirst(q), c, x)
    {
      SortedOrder(order, q);
      DistinctIsOnce(order);
      DistinctIsOnce(q);
      OwnNeedleIsShownIff(q, c, x);
    }
    NeverShadowedIff(order, c, x);
  }

  lemma LongerComesFirst(a: Credential, b: Credential)
    requires ByteLen(a) > ByteLen(b)
    ensures LongestFirst([b, a]) == [a, b]
  {
    assert [b, a][1..] == [a] && [a][1..] == [];
    assert LongestFirst([a]) == [a];
    assert InsertByLength(b, [a]) == [a] + InsertByLength(b, [a][1..]);
  }

  lemma NoNeedleInOneByte(order: seq<Credential>, t: string)
    requires |Encode(t)| < 4
    ensures Clean(Ops(order), t)
  {
    var ops := Ops(order);
    OpsAreNeedles(order);
    forall i: nat | i < |ops| ensures !Contains(t, ops[i].needle) {
      assert ops[i] in ops;
      EncodeIsNoShorter(ops[i].needle);
      if Contains(t, ops[i].needle) { ContainedIsShorter(t, ops[i].needle); }
    }
  }

  /** The first needle is hidden, and a text without needles behind it is left over. */
  lemma FirstNeedleThen(ops: seq<Op>, tail: string)
    requires ops != [] && ClearNeedles(ops) && KeysHaveNoNeedle(ops) && Clean(ops, tail)
    ensures Apply(ops, 0, ops[0].needle + tail) == Placeholder(ops[0].key) + tail
  {
    HideFirst(ops, 0, tail);
    ApplyClean(ops, 1, ops[0].key);
    ApplyClean(ops, 0, tail);
  }

  lemma FirstNeedleBeforeX(long: Credential, short: Credential)
    requires ByteLen(short) > ByteLen(long) && PlainCredentials([long, short])
    requires |Encode(Trim(short.value))| >= 4
    ensures Shown([long, short], Trim(short.value) + "x") == Placeholder(short.key) + "x"
  {
    var v := Trim(short.value);
    LongerComesFirst(short, long);
    var ops := Ops([short, long]);
    PlainMeansPlainOps([long, short]);
    assert ops[0] == OpsOf(short)[0] == Op(v, short.key);
    OneByteX("");
    NoNeedleInOneByte([short, long], "x");
    FirstNeedleThen(ops, "x");
    MatchedIff(ops, 0, v + "x");
    assert (v + "x")[0..|v|] == v;
    assert OccursAt(v + "x", ops[0].needle, 0);
  }

  lemma OneByteX(w: string)
    ensures |Encode(w + "x")| == |Encode(w)| + 1
  {
    EncodeConcat(w, "x");
    assert Encode("x") == [0x78];
  }

  lemma TrimBeforeX(w: string)
    requires w != "" && !IsWhitespace(w[0])
    ensures Trim(w + "x") == w + "x"
  {
  }

  lemma TrimPadded(w: string)
    requires w != "" && !IsWhitespace(w[0]) && !IsWhitespace(w[|w| - 1])
    ensures Trim(w + "  ") == w && Trim(w) == w
  {
    var one, two := w + " ", w + "  ";
    assert two[..|two| - 1] == one && one[..|one| - 1] == w;
    assert TrimEnd(two) == TrimEnd(one) == TrimEnd(w) == w;
  }

  lemma PaddingCounts(w: string)
    ensures |Encode(w + "  ")| >= |Encode(w)| + 2
  {
    EncodeConcat(w, "  ");
    EncodeIsNoShorter("  ");
  }

  /**
   * Whitespace around a value breaks the sort: it looks at untrimmed lengths, the search at trimmed values. With two
   * blanks behind it a value is replaced first inside a longer one, of which the last character stays visible.
   */
  lemma PaddedValueShadows(w: string)
    requires w != "" && !IsWhitespace(w[0]) && !IsWhitespace(w[|w| - 1]) && |Encode(w)| >= 4
    requires PlainCredentials([Credential("long", w + "x"), Credential("short", w + "  ")])
    ensures var short, long := Credential("short", w + "  "), Credential("long", w + "x");
            IsNeedleOf(long, w + "x") && Shown([long, short], w + "x") == Placeholder("short") + "x"
  {
    var short, long := Credential("short", w + "  "), Credential("long", w + "x");
    TrimPadded(w);
    TrimBeforeX(w);
    PaddingCounts(w);
    OneByteX(w);
    FirstNeedleBeforeX(long, short);
  }

  lemma FormEncodedX(w: string)
    ensures FormSerialize(Encode(w + "x")) == FormSerialize(Encode(w)) + "x"
  {
    EncodeConcat(w, "x");
    assert Encode("x") == [0x78];
    FormSerializeConcat(Encode(w), [0x78]);
    assert FormSerialize([0x78]) == FormByte(0x78) + FormSerialize([0x78][1..]) == "x";
  }

  /**
   * Even without whitespace a form-encoded value is not safe: a credential whose value is the encoded form `u` of
   * `w`, and at least two bytes longer than `w`, is replaced first inside the encoded form of `w + "x"`.
   */
  lemma EncodedValueShadows(w: string, u: string)
    requires w != "" && !IsWhitespace(w[0]) && |Encode(w)| >= 4 && u == FormSerialize(Encode(w))
    requires Trim(u) == u && |u| > |Encode(w)| + 1
    requires PlainCredentials([Credential("long", w + "x"), Credential("short", u)])
    ensures var short, long := Credential("short", u), Credential("long", w + "x");
            IsNeedleOf(long, u + "x") && Shown([long, short], u + "x") == Placeholder("short") + "x"
  {
    var short, long := Credential("short", u), Credential("long", w + "x");
    TrimBeforeX(w);
    OneByteX(w);
    EncodeIsNoShorter(u);
    FormEncodedX(w);
    FirstNeedleBeforeX(long, short);
  }
}
