/** Strings as sequences of Unicode scalar values, with the searching and replacing operations of Rust's `str`. */
module Text {

  datatype Option<+T> = None | Some(value: T)

  /** `char::is_whitespace`. */
  predicate IsWhitespace(c: char) {
    var v := c as int;
    0x09 <= v <= 0x0D || v == 0x20 || v == 0x85 || v == 0xA0 || v == 0x1680 || 0x2000 <= v <= 0x200A ||
    v == 0x2028 || v == 0x2029 || v == 0x202F || v == 0x205F || v == 0x3000
  }

  function TrimStart(s: string): string {
    if s != "" && IsWhitespace(s[0]) then TrimStart(s[1..]) else s
  }

  function TrimEnd(s: string): string {
    if s != "" && IsWhitespace(s[|s| - 1]) then TrimEnd(s[..|s| - 1]) else s
  }

  /** `str::trim`. */
  function Trim(s: string): string {
    TrimEnd(TrimStart(s))
  }

  predicate AllWhitespace(s: string) {
    forall c <- s :: IsWhitespace(c)
  }

  /** No whitespace at either end. */
  predicate IsTrimmed(s: string) {
    s != "" ==> !IsWhitespace(s[0]) && !IsWhitespace(s[|s| - 1])
  }

  lemma {:induction false} TrimStartSplits(s: string) returns (front: string)
    ensures s == front + TrimStart(s) && AllWhitespace(front)
    ensures TrimStart(s) != "" ==> !IsWhitespace(TrimStart(s)[0])
  {
    front := "";
    if s != "" && IsWhitespace(s[0]) {
      front := TrimStartSplits(s[1..]);
      front := [s[0]] + front;
      assert s == [s[0]] + s[1..];
    }
  }

  lemma {:induction false} TrimEndSplits(s: string) returns (back: string)
    ensures s == TrimEnd(s) + back && AllWhitespace(back)
    ensures TrimEnd(s) != "" ==> !IsWhitespace(TrimEnd(s)[|TrimEnd(s)| - 1])
  {
    back := "";
    if s != "" && IsWhitespace(s[|s| - 1]) {
      back := TrimEndSplits(s[..|s| - 1]);
      back := back + [s[|s| - 1]];
      assert s == s[..|s| - 1] + [s[|s| - 1]];
    }
  }

  lemma {:induction false} TrimStartDrops(front: string, s: string)
    requires AllWhitespace(front) && (s != "" ==> !IsWhitespace(s[0]))
    ensures TrimStart(front + s) == s
  {
    if front == "" {
      assert front + s == s;
    } else {
      assert front[0] in front && (front + s)[1..] == front[1..] + s;
      TrimStartDrops(front[1..], s);
    }
  }

  lemma {:induction false} TrimEndDrops(s: string, back: string)
    requires AllWhitespace(back) && (s != "" ==> !IsWhitespace(s[|s| - 1]))
    ensures TrimEnd(s + back) == s
    decreases |back|
  {
    if back == "" {
      assert s + back == s;
    } else {
      assert back[|back| - 1] in back && (s + back)[..|s + back| - 1] == s + back[..|back| - 1];
      TrimEndDrops(s, back[..|back| - 1]);
    }
  }

  /** Trimming takes away exactly the whitespace around a text that has none at its ends. */
  lemma TrimIs(front: string, t: string, back: string)
    requires AllWhitespace(front) && AllWhitespace(back) && IsTrimmed(t)
    ensures Trim(front + t + back) == t
  {
    if t == "" {
      assert front + t + back == (front + back) + "";
      TrimStartDrops(front + back, "");
    } else {
      assert front + t + back == front + (t + back);
      TrimStartDrops(front, t + back);
      TrimEndDrops(t, back);
    }
  }

  lemma TrimSplits(s: string) returns (front: string, back: string)
    ensures s == front + Trim(s) + back && AllWhitespace(front) && AllWhitespace(back) && IsTrimmed(Trim(s))
  {
    front := TrimStartSplits(s);
    back := TrimEndSplits(TrimStart(s));
  }

  predicate OccursAt(s: string, pat: string, i: nat) {
    i + |pat| <= |s| && s[i..i + |pat|] == pat
  }

  ghost predicate Contains(s: string, pat: string) {
    exists i: nat :: OccursAt(s, pat, i)
  }

  /** `str::find`: the first position at which `pat` occurs. */
  function Find(s: string, pat: string): (r: Option<nat>)
    ensures r.Some? ==> OccursAt(s, pat, r.value) && forall j: nat | j < r.value :: !OccursAt(s, pat, j)
    ensures r.None? ==> !Contains(s, pat)
  {
    FindFrom(s, pat, 0)
  }

  function FindFrom(s: string, pat: string, i: nat): (r: Option<nat>)
    ensures r.Some? ==>
              i <= r.value && OccursAt(s, pat, r.value) && forall j: nat | i <= j < r.value :: !OccursAt(s, pat, j)
    ensures r.None? ==> forall j: nat | i <= j :: !OccursAt(s, pat, j)
    decreases |s| - i
  {
    if i + |pat| > |s| then None else if OccursAt(s, pat, i) then Some(i) else FindFrom(s, pat, i + 1)
  }

  lemma FindCharIs(s: string, c: char)
    ensures match Find(s, [c])
            case Some(i) => i < |s| && s[i] == c && c !in s[..i]
            case None => c !in s
  {
    forall i: nat | i < |s| ensures OccursAt(s, [c], i) <==> s[i] == c {
      assert s[i..i + 1] == [s[i]];
    }
    match Find(s, [c])
    case Some(i) =>
      forall k: nat | k < i ensures s[..i][k] != c {
        assert !OccursAt(s, [c], k);
      }
    case None =>
      forall k: nat | k < |s| ensures s[k] != c {
        assert !OccursAt(s, [c], k);
      }
  }

  /** `str::replace`: matches are found from left to right without overlap, and each becomes `with`. */
  function Replace(s: string, pat: string, with: string): string
    requires pat != ""
  {
    if pat <= s then with + Replace(s[|pat|..], pat, with)
    else if s == "" then ""
    else [s[0]] + Replace(s[1..], pat, with)
  }

  /** The text before the first match, and the text after it. */
  lemma FindSplits(s: string, pat: string) returns (before: string, after: string)
    requires Find(s, pat).Some?
    ensures s == before + pat + after && Find(s, pat) == Some(|before|)
    ensures before == s[..Find(s, pat).value] && after == s[Find(s, pat).value + |pat|..]
    ensures forall j: nat | j < |before| :: !OccursAt(s, pat, j)
  {
    var i := Find(s, pat).value;
    before, after := s[..i], s[i + |pat|..];
  }

  /** An occurrence in a part of a text is an occurrence in the text. */
  lemma OccursInPart(s: string, lo: nat, hi: nat, pat: string, i: nat)
    requires lo <= hi <= |s| && OccursAt(s[lo..hi], pat, i)
    ensures OccursAt(s, pat, lo + i)
  {
    assert s[lo + i..lo + i + |pat|] == pat by {
      forall k | 0 <= k < |pat| ensures s[lo + i + k] == pat[k] {
        assert s[lo..hi][i..i + |pat|][k] == s[lo..hi][i + k];
      }
    }
  }

  lemma ContainsInPart(s: string, lo: nat, hi: nat, pat: string)
    requires lo <= hi <= |s| && Contains(s[lo..hi], pat)
    ensures Contains(s, pat)
  {
    var i: nat :| OccursAt(s[lo..hi], pat, i);
    OccursInPart(s, lo, hi, pat, i);
  }

  lemma ContainsTransitive(s: string, t: string, pat: string)
    requires Contains(s, t) && Contains(t, pat)
    ensures Contains(s, pat)
  {
    var i: nat :| OccursAt(s, t, i);
    ContainsInPart(s, i, i + |t|, pat);
  }

  /** Two characters `c` in a row cannot be touched by an occurrence of `pat`. */
  predicate Separates(c: char, pat: string) {
    pat != "" && pat[0] != c && pat[|pat| - 1] != c &&
    forall k | 0 <= k < |pat| - 1 :: pat[k] != c || pat[k + 1] != c
  }

  /** Then the pattern occurs in `a + [c, c] + b` exactly where it occurs in `a` or in `b`. */
  lemma OccursAround(a: string, c: char, b: string, pat: string, i: nat)
    requires Separates(c, pat)
    ensures OccursAt(a + [c, c] + b, pat, i) <==>
            if i <= |a| then OccursAt(a, pat, i) else i >= |a| + 2 && OccursAt(b, pat, i - |a| - 2)
  {
    var s, n := a + [c, c] + b, |pat|;
    assert i + n <= |s| ==> s[i..i + n][0] == s[i] && s[i..i + n][n - 1] == s[i + n - 1];
    if i < |a| && |a| + 2 <= i + n <= |s| {
      assert s[i..i + n][|a| - i] == c && s[i..i + n][|a| - i + 1] == c;
    }
    assert i + n <= |a| ==> s[i..i + n] == a[i..i + n];
    assert |a| + 2 <= i && i + n <= |s| ==> s[i..i + n] == b[i - |a| - 2..i - |a| - 2 + n];
  }

  lemma ContainsAround(a: string, c: char, b: string, pat: string)
    requires Separates(c, pat)
    ensures Contains(a + [c, c] + b, pat) <==> Contains(a, pat) || Contains(b, pat)
  {
    var s := a + [c, c] + b;
    if Contains(s, pat) {
      var i: nat :| OccursAt(s, pat, i);
      OccursAround(a, c, b, pat, i);
    }
    if Contains(a, pat) {
      var i: nat :| OccursAt(a, pat, i);
      OccursAround(a, c, b, pat, i);
    }
    if Contains(b, pat) {
      var i: nat :| OccursAt(b, pat, i);
      OccursAround(a, c, b, pat, i + |a| + 2);
    }
  }

  lemma PrefixAround(a: string, c: char, b: string, pat: string)
    requires Separates(c, pat)
    ensures pat <= a + [c, c] + b <==> pat <= a
  {
    var s := a + [c, c] + b;
    OccursAround(a, c, b, pat, 0);
    assert pat <= s <==> OccursAt(s, pat, 0);
    assert pat <= a <==> OccursAt(a, pat, 0);
  }

  lemma Regroup(x: string, y: string, c: char, z: string)
    ensures x + (y + [c, c] + z) == (x + y) + [c, c] + z
  {
  }

  lemma StartsOtherwise(c: char, t: string, pat: string)
    requires pat != "" && pat[0] != c
    ensures !(pat <= [c] + t)
  {
  }

  /** The two characters themselves are copied. */
  lemma ReplaceBehind(c: char, b: string, pat: string, with: string)
    requires Separates(c, pat)
    ensures Replace([c, c] + b, pat, with) == [c, c] + Replace(b, pat, with)
  {
    var s := [c, c] + b;
    assert s == [c] + ([c] + b) && s[1..] == [c] + b && s[1..][1..] == b;
    StartsOtherwise(c, [c] + b, pat);
    StartsOtherwise(c, b, pat);
    assert [c] + ([c] + Replace(b, pat, with)) == [c, c] + Replace(b, pat, with);
  }

  /** Replacing works separately on the two sides of such a pair. */
  lemma {:induction false} ReplaceAround(a: string, c: char, b: string, pat: string, with: string)
    requires Separates(c, pat)
    ensures Replace(a + [c, c] + b, pat, with) == Replace(a, pat, with) + [c, c] + Replace(b, pat, with)
  {
    var s := a + [c, c] + b;
    PrefixAround(a, c, b, pat);
    if pat <= a {
      var rest := a[|pat|..];
      assert s[|pat|..] == rest + [c, c] + b;
      ReplaceAround(rest, c, b, pat, with);
      Regroup(with, Replace(rest, pat, with), c, Replace(b, pat, with));
    } else if a == "" {
      assert s == [c, c] + b;
      ReplaceBehind(c, b, pat, with);
    } else {
      var rest := a[1..];
      assert s[1..] == rest + [c, c] + b;
      ReplaceAround(rest, c, b, pat, with);
      Regroup([a[0]], Replace(rest, pat, with), c, Replace(b, pat, with));
    }
  }

  lemma WithoutFirst(before: string, pat: string, after: string)
    requires before != "" && forall j: nat | j < |before| :: !OccursAt(before + pat + after, pat, j)
    ensures before + pat + after == [before[0]] + (before[1..] + pat + after)
    ensures forall j: nat | j < |before| - 1 :: !OccursAt(before[1..] + pat + after, pat, j)
  {
    var s, t := before + pat + after, before[1..] + pat + after;
    assert s[1..] == t;
    forall j: nat | j < |before| - 1 ensures !OccursAt(t, pat, j) {
      assert !OccursAt(s, pat, j + 1);
      assert j + |pat| <= |t| ==> t[j..j + |pat|] == s[j + 1..j + 1 + |pat|];
    }
  }

  lemma InFront(c: char, front: string, with: string, rest: string)
    ensures [c] + (front + with + rest) == ([c] + front) + with + rest
  {
  }

  /** `Replace` leaves the text before the first match as it is, and goes on after that match. */
  lemma {:induction false} ReplaceFromFirst(before: string, after: string, pat: string, with: string)
    requires pat != "" && forall j: nat | j < |before| :: !OccursAt(before + pat + after, pat, j)
    ensures Replace(before + pat + after, pat, with) == before + with + Replace(after, pat, with)
    decreases |before|
  {
    var s := before + pat + after;
    if before == "" {
      assert s == pat + after;
      assert s[|pat|..] == after;
    } else {
      assert !(pat <= s) by { assert !OccursAt(s, pat, 0); }
      WithoutFirst(before, pat, after);
      ReplaceFromFirst(before[1..], after, pat, with);
      assert s[1..] == before[1..] + pat + after && before == [s[0]] + before[1..];
      InFront(s[0], before[1..], with, Replace(after, pat, with));
    }
  }

  lemma {:induction false} ReplaceNothing(s: string, pat: string, with: string)
    requires pat != "" && !Contains(s, pat)
    ensures Replace(s, pat, with) == s
  {
    assert !OccursAt(s, pat, 0);
    if s != "" {
      assert s[1..|s|] == s[1..];
      if Contains(s[1..|s|], pat) { ContainsInPart(s, 1, |s|, pat); }
      ReplaceNothing(s[1..], pat, with);
    }
  }
}
