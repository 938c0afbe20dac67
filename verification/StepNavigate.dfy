/**
 * Session tokens carried forward from the current URL to a navigation target (src/automation/step_navigate.rs),
 * on parsed query pairs. The live tokens sit in a hash map, so they are visited in arbitrary order.
 */
module StepNavigate {

  datatype Pair = Pair(name: string, value: string)

  const SESSION_TOKEN_PARAMS := [
    "sid", "session_id", "token", "auth", "ssid", "sessionid", "PHPSESSID", "jsessionid", "csrf", "csrftoken"]

  /** ASCII letters compared without case. */
  function AsciiLower(c: char): char {
    if 'A' <= c <= 'Z' then (c as int + 32) as char else c
  }

  predicate EqIgnoreAsciiCase(a: string, b: string) {
    |a| == |b| && forall i | 0 <= i < |a| :: AsciiLower(a[i]) == AsciiLower(b[i])
  }

  predicate IsTokenName(name: string) {
    exists p <- SESSION_TOKEN_PARAMS :: EqIgnoreAsciiCase(name, p)
  }

  /** The live tokens; of pairs with the very same name the last one counts. */
  function LiveTokens(current: seq<Pair>): map<string, string> {
    if current == [] then map[]
    else
      var front, p := LiveTokens(current[..|current| - 1]), current[|current| - 1];
      if IsTokenName(p.name) then front[p.name := p.value] else front
  }

  const UPPER := "ABCDEFGHIJKLMNOPQRSTUVWXYZ"
  const LOWER := "abcdefghijklmnopqrstuvwxyz"

  lemma AsciiLowerIs(c: char)
    ensures forall i | 0 <= i < 26 :: c == UPPER[i] ==> AsciiLower(c) == LOWER[i]
    ensures c !in UPPER ==> AsciiLower(c) == c
  {
    if 'A' <= c <= 'Z' { assert UPPER[c as int - 'A' as int] == c; }
  }

  function LowerAll(name: string): (r: string)
    ensures |r| == |name| && forall i | 0 <= i < |r| :: r[i] == AsciiLower(name[i])
  {
    seq(|name|, i requires 0 <= i < |name| => AsciiLower(name[i]))
  }

  lemma EqIgnoreCaseIff(a: string, b: string)
    ensures EqIgnoreAsciiCase(a, b) <==> LowerAll(a) == LowerAll(b)
  {
    if EqIgnoreAsciiCase(a, b) {
      assert forall i | 0 <= i < |a| :: LowerAll(a)[i] == LowerAll(b)[i];
    }
    if LowerAll(a) == LowerAll(b) {
      assert forall i | 0 <= i < |a| :: LowerAll(a)[i] == LowerAll(b)[i];
    }
  }

  lemma TokenNameAt(name: string)
    ensures IsTokenName(name) <==>
            exists i: nat :: i < |SESSION_TOKEN_PARAMS| && LowerAll(name) == LowerAll(SESSION_TOKEN_PARAMS[i])
  {
    var s := SESSION_TOKEN_PARAMS;
    forall i: nat | i < |s| ensures EqIgnoreAsciiCase(name, s[i]) <==> LowerAll(name) == LowerAll(s[i]) {
      EqIgnoreCaseIff(name, s[i]);
    }
    if IsTokenName(name) {
      var p :| p in s && EqIgnoreAsciiCase(name, p);
      var i: nat :| i < |s| && s[i] == p;
    }
    if i: nat :| i < |s| && LowerAll(name) == LowerAll(s[i]) { assert s[i] in s; }
  }

  /** The ten names a session token can have, without case. */
  lemma TokenNameIff(name: string)
    ensures IsTokenName(name) <==>
            LowerAll(name) in {"sid", "session_id", "token", "auth", "ssid", "sessionid", "phpsessid", "jsessionid",
                               "csrf", "csrftoken"}
  {
    LowerParams();
    TokenNameAt(name);
  }

  lemma LowerParams()
    ensures var s := SESSION_TOKEN_PARAMS;
            |s| == 10 && LowerAll(s[0]) == "sid" && LowerAll(s[1]) == "session_id" && LowerAll(s[2]) == "token" &&
            LowerAll(s[3]) == "auth" && LowerAll(s[4]) == "ssid" && LowerAll(s[5]) == "sessionid" &&
            LowerAll(s[6]) == "phpsessid" && LowerAll(s[7]) == "jsessionid" && LowerAll(s[8]) == "csrf" &&
            LowerAll(s[9]) == "csrftoken"
  {
  }

  /** Live are exactly the pairs of the current URL with such a name, each with the value of its last pair. */
  lemma {:induction false} LiveTokensAre(current: seq<Pair>, k: string)
    ensures k in LiveTokens(current) <==> IsTokenName(k) && exists i: nat :: i < |current| && current[i].name == k
    ensures k in LiveTokens(current) ==>
              exists i: nat :: i < |current| && current[i] == Pair(k, LiveTokens(current)[k]) &&
                               forall j | i < j < |current| :: current[j].name != k
  {
    if current != [] {
      var n := |current| - 1;
      var front := current[..n];
      LiveTokensAre(front, k);
      assert forall i: nat | i < n :: front[i] == current[i];
      if k in LiveTokens(current) {
        if current[n].name == k {
          assert current[n] == Pair(k, LiveTokens(current)[k]);
        } else {
          var i: nat :| i < |front| && front[i] == Pair(k, LiveTokens(front)[k]) &&
                        forall j | i < j < |front| :: front[j].name != k;
          assert current[i] == Pair(k, LiveTokens(current)[k]);
        }
      }
    }
  }

  predicate AllDifferent(names: seq<string>) {
    forall i, j | 0 <= i < j < |names| :: names[i] != names[j]
  }

  /** An order in which the map can be visited. */
  ghost predicate IsOrderOf(order: seq<string>, tokens: map<string, string>) {
    (forall k :: k in order <==> k in tokens) && AllDifferent(order)
  }

  /** `lower` is the language's lower-casing. */
  predicate SameName(lower: string -> string, a: string, b: string) {
    lower(a) == lower(b)
  }

  /** The first pair whose name is `key` without case. */
  function FirstMatch(lower: string -> string, key: string, pairs: seq<Pair>): (r: nat)
    ensures r <= |pairs|
    ensures r < |pairs| ==> SameName(lower, pairs[r].name, key)
    ensures forall i | 0 <= i < r :: !SameName(lower, pairs[i].name, key)
  {
    if pairs == [] || SameName(lower, pairs[0].name, key) then 0 else FirstMatch(lower, key, pairs[1..]) + 1
  }

  function Names(pairs: seq<Pair>): (r: seq<string>)
    ensures |r| == |pairs| && forall i | 0 <= i < |r| :: r[i] == pairs[i].name
  {
    seq(|pairs|, i requires 0 <= i < |pairs| => pairs[i].name)
  }

  /** One token: its first match takes the live value. */
  function Overwrite(lower: string -> string, key: string, value: string, pairs: seq<Pair>): seq<Pair> {
    var i := FirstMatch(lower, key, pairs);
    if i < |pairs| then pairs[i := Pair(pairs[i].name, value)] else pairs
  }

  /** Whether that changes anything. */
  predicate IsStale(lower: string -> string, key: string, value: string, pairs: seq<Pair>) {
    Overwrite(lower, key, value, pairs) != pairs
  }

  /** All tokens of `order`, first to last. */
  function Carried(lower: string -> string, tokens: map<string, string>, order: seq<string>,
                   pairs: seq<Pair>): seq<Pair>
    requires forall k <- order :: k in tokens
  {
    if order == [] then pairs
    else
      var front, key := order[..|order| - 1], order[|order| - 1];
      Overwrite(lower, key, tokens[key], Carried(lower, tokens, front, pairs))
  }

  /** The names reported as carried. */
  function CarriedNames(lower: string -> string, tokens: map<string, string>, order: seq<string>,
                        pairs: seq<Pair>): seq<string>
    requires forall k <- order :: k in tokens
  {
    if order == [] then []
    else
      var front, key := order[..|order| - 1], order[|order| - 1];
      CarriedNames(lower, tokens, front, pairs) +
      if IsStale(lower, key, tokens[key], Carried(lower, tokens, front, pairs)) then [key] else []
  }

  lemma NextToken(lower: string -> string, tokens: map<string, string>, order: seq<string>, i: nat, pairs: seq<Pair>)
    requires i < |order| && forall k <- order :: k in tokens
    ensures var before, key := Carried(lower, tokens, order[..i], pairs), order[i];
            Carried(lower, tokens, order[..i + 1], pairs) == Overwrite(lower, key, tokens[key], before) &&
            CarriedNames(lower, tokens, order[..i + 1], pairs) ==
              CarriedNames(lower, tokens, order[..i], pairs) +
              if IsStale(lower, key, tokens[key], before) then [key] else []
  {
    var first := order[..i + 1];
    assert first[..|first| - 1] == order[..i] && first[|first| - 1] == order[i];
  }

  lemma OverwriteGuard(lower: string -> string, key: string, value: string, pairs: seq<Pair>)
    ensures var at := FirstMatch(lower, key, pairs);
            IsStale(lower, key, value, pairs) <==> at < |pairs| && pairs[at].value != value
  {
    var at := FirstMatch(lower, key, pairs);
    if at < |pairs| {
      assert Overwrite(lower, key, value, pairs)[at].value == value;
      assert pairs[at].value == value ==> Overwrite(lower, key, value, pairs) == pairs;
    }
  }

  /** `currentHost` and `targetHost` are the parsed hosts; the result is the target's query pairs. */
  method CarryForwardSessionTokens(lower: string -> string, currentHost: string, targetHost: string, current: seq<Pair>,
                                   target: seq<Pair>, order: seq<string>)
    returns (params: seq<Pair>, carried: seq<string>)
    requires IsOrderOf(order, LiveTokens(current))
    ensures if currentHost != targetHost then params == target && carried == []
            else params == Carried(lower, LiveTokens(current), order, target) &&
                 carried == CarriedNames(lower, LiveTokens(current), order, target)
  {
    params, carried := target, [];
    if currentHost != targetHost { return; }
    var tokens := LiveTokens(current);
    for i := 0 to |order|
      invariant params == Carried(lower, tokens, order[..i], target)
      invariant carried == CarriedNames(lower, tokens, order[..i], target)
    {
      var key := order[i];
      NextToken(lower, tokens, order, i, target);
      OverwriteGuard(lower, key, tokens[key], params);
      var at := FirstMatch(lower, key, params);
      if at < |params| && params[at].value != tokens[key] {
        params := params[at := Pair(params[at].name, tokens[key])];
        carried := carried + [key];
      }
    }
    assert order[..|order|] == order;
  }

  // ---- What changes ----

  lemma {:induction false} FirstMatchByNames(lower: string -> string, key: string, a: seq<Pair>, b: seq<Pair>)
    requires Names(a) == Names(b)
    ensures FirstMatch(lower, key, a) == FirstMatch(lower, key, b)
  {
    if a != [] {
      assert a[0].name == Names(a)[0] == b[0].name;
      forall i | 0 <= i < |a| - 1 ensures Names(a[1..])[i] == Names(b[1..])[i] {
        assert Names(a)[i + 1] == Names(b)[i + 1];
      }
      FirstMatchByNames(lower, key, a[1..], b[1..]);
    }
  }

  /** The last token of `order` that finds its first match at position `i`. */
  function LastFor(lower: string -> string, order: seq<string>, pairs: seq<Pair>, i: nat): (r: seq<string>)
    ensures |r| <= 1 && forall k <- r :: k in order && FirstMatch(lower, k, pairs) == i
    ensures r == [] ==> forall k <- order :: FirstMatch(lower, k, pairs) != i
  {
    if order == [] then []
    else if FirstMatch(lower, order[|order| - 1], pairs) == i then [order[|order| - 1]]
    else LastFor(lower, order[..|order| - 1], pairs, i)
  }

  /**
   * The result in closed form: number, order and names of the pairs are kept, and a pair takes a live value
   * exactly if it is the first match of some token, namely of the last one visited.
   */
  lemma {:induction false} CarriedAt(lower: string -> string, tokens: map<string, string>, order: seq<string>,
                                     pairs: seq<Pair>)
    requires forall k <- order :: k in tokens
    ensures Names(Carried(lower, tokens, order, pairs)) == Names(pairs)
    ensures forall i: nat | i < |pairs| ::
              Carried(lower, tokens, order, pairs)[i].value ==
              var last := LastFor(lower, order, pairs, i);
              if last == [] then pairs[i].value else tokens[last[0]]
  {
    if order != [] {
      var front, key := order[..|order| - 1], order[|order| - 1];
      CarriedAt(lower, tokens, front, pairs);
      var before := Carried(lower, tokens, front, pairs);
      FirstMatchByNames(lower, key, before, pairs);
    }
  }

  /** Live tokens that are one parameter of the target have one value. */
  ghost predicate TokensAgree(lower: string -> string, tokens: map<string, string>, pairs: seq<Pair>) {
    forall j, k | j in tokens && k in tokens && FirstMatch(lower, j, pairs) == FirstMatch(lower, k, pairs) < |pairs| ::
      tokens[j] == tokens[k]
  }

  ghost predicate OrderDoesNotMatter(lower: string -> string, tokens: map<string, string>, pairs: seq<Pair>) {
    forall o, q | IsOrderOf(o, tokens) && IsOrderOf(q, tokens) ::
      Carried(lower, tokens, o, pairs) == Carried(lower, tokens, q, pairs)
  }

  lemma SameValue(lower: string -> string, tokens: map<string, string>, pairs: seq<Pair>, o: seq<string>,
                  q: seq<string>, i: nat)
    requires TokensAgree(lower, tokens, pairs) && IsOrderOf(o, tokens) && IsOrderOf(q, tokens)
    requires i < |pairs| == |Carried(lower, tokens, o, pairs)| == |Carried(lower, tokens, q, pairs)|
    ensures Carried(lower, tokens, o, pairs)[i].value == Carried(lower, tokens, q, pairs)[i].value
  {
    CarriedAt(lower, tokens, o, pairs);
    CarriedAt(lower, tokens, q, pairs);
    var x, y := LastFor(lower, o, pairs, i), LastFor(lower, q, pairs, i);
    assert x != [] ==> x[0] in o && x[0] in q;
    assert y != [] ==> y[0] in q && y[0] in o;
  }

  lemma SameResult(lower: string -> string, tokens: map<string, string>, pairs: seq<Pair>, o: seq<string>,
                   q: seq<string>)
    requires TokensAgree(lower, tokens, pairs) && IsOrderOf(o, tokens) && IsOrderOf(q, tokens)
    ensures Carried(lower, tokens, o, pairs) == Carried(lower, tokens, q, pairs)
  {
    var a, b := Carried(lower, tokens, o, pairs), Carried(lower, tokens, q, pairs);
    CarriedAt(lower, tokens, o, pairs);
    CarriedAt(lower, tokens, q, pairs);
    assert |a| == |Names(a)| == |Names(b)| == |b|;
    forall i: nat | i < |pairs| ensures a[i] == b[i] {
      assert a[i].name == Names(a)[i] == Names(b)[i] == b[i].name;
      SameValue(lower, tokens, pairs, o, q, i);
    }
  }

  lemma Enumeration(keys: set<string>) returns (order: seq<string>)
    ensures (forall k :: k in order <==> k in keys) && AllDifferent(order)
  {
    if keys == {} {
      order := [];
    } else {
      var k :| k in keys;
      var rest := Enumeration(keys - {k});
      order := [k] + rest;
    }
  }

  lemma OrderEndingWith(tokens: map<string, string>, k: string) returns (order: seq<string>)
    requires k in tokens
    ensures IsOrderOf(order, tokens) && order != [] && order[|order| - 1] == k
  {
    var rest := Enumeration(tokens.Keys - {k});
    order := rest + [k];
  }

  /** The map's order shows in the pairs exactly if two live tokens for one parameter of the target disagree. */
  lemma OrderDoesNotMatterIff(lower: string -> string, tokens: map<string, string>, pairs: seq<Pair>)
    ensures OrderDoesNotMatter(lower, tokens, pairs) <==> TokensAgree(lower, tokens, pairs)
  {
    if TokensAgree(lower, tokens, pairs) {
      forall o, q | IsOrderOf(o, tokens) && IsOrderOf(q, tokens)
        ensures Carried(lower, tokens, o, pairs) == Carried(lower, tokens, q, pairs)
      {
        SameResult(lower, tokens, pairs, o, q);
      }
    }
    if OrderDoesNotMatter(lower, tokens, pairs) {
      forall j, k | j in tokens && k in tokens && FirstMatch(lower, j, pairs) == FirstMatch(lower, k, pairs) < |pairs|
        ensures tokens[j] == tokens[k]
      {
        var o := OrderEndingWith(tokens, j);
        var q := OrderEndingWith(tokens, k);
        CarriedAt(lower, tokens, o, pairs);
        CarriedAt(lower, tokens, q, pairs);
        assert Carried(lower, tokens, o, pairs) == Carried(lower, tokens, q, pairs);
      }
    }
  }

  /** In particular it does not matter where live token names differ without case. */
  lemma DistinctNamesAgree(lower: string -> string, tokens: map<string, string>, pairs: seq<Pair>)
    requires forall j, k | j in tokens && k in tokens && SameName(lower, j, k) :: j == k
    ensures TokensAgree(lower, tokens, pairs)
  {
    forall j, k | j in tokens && k in tokens && FirstMatch(lower, j, pairs) == FirstMatch(lower, k, pairs) < |pairs|
      ensures tokens[j] == tokens[k]
    {
      assert SameName(lower, j, k);
    }
  }

  // ---- The names reported ----

  /** None of the tokens visited before `key` is for the same parameter of the target. */
  ghost predicate FirstForItsMatch(lower: string -> string, before: seq<string>, key: string, pairs: seq<Pair>) {
    forall k <- before :: FirstMatch(lower, k, pairs) != FirstMatch(lower, key, pairs)
  }

  lemma LastName(lower: string -> string, tokens: map<string, string>, order: seq<string>, pairs: seq<Pair>)
    requires order != [] && forall k <- order :: k in tokens
    ensures var front, key := order[..|order| - 1], order[|order| - 1];
            var stale := IsStale(lower, key, tokens[key], Carried(lower, tokens, front, pairs));
            var names, all := CarriedNames(lower, tokens, front, pairs), CarriedNames(lower, tokens, order, pairs);
            all == (if stale then names + [key] else names) &&
            forall k :: k in all <==> k in names || (stale && k == key)
  {
    var names := CarriedNames(lower, tokens, order[..|order| - 1], pairs);
    assert names + [] == names;
  }

  /** The name of the token at position `p` is reported among the first `n`. */
  ghost predicate Reported(lower: string -> string, tokens: map<string, string>, order: seq<string>, pairs: seq<Pair>,
                           p: nat, n: nat)
    requires p < |order| && n <= |order| && forall k <- order :: k in tokens
  {
    order[p] in CarriedNames(lower, tokens, order[..n], pairs)
  }

  lemma ReportedWhenVisited(lower: string -> string, tokens: map<string, string>, order: seq<string>,
                            pairs: seq<Pair>, p: nat)
    requires p < |order| && AllDifferent(order) && forall k <- order :: k in tokens
    ensures Reported(lower, tokens, order, pairs, p, p + 1) <==>
            IsStale(lower, order[p], tokens[order[p]], Carried(lower, tokens, order[..p], pairs))
  {
    var names := CarriedNames(lower, tokens, order[..p], pairs);
    var more := CarriedNames(lower, tokens, order[..p + 1], pairs);
    NextToken(lower, tokens, order, p, pairs);
    NamesAreVisited(lower, tokens, order[..p], pairs);
    assert order[p] !in order[..p];
    assert more == names || more == names + [order[p]];
  }

  lemma NotReportedByAnother(lower: string -> string, tokens: map<string, string>, order: seq<string>,
                             pairs: seq<Pair>, p: nat, n: nat)
    requires p < n < |order| && order[p] != order[n] && forall k <- order :: k in tokens
    ensures Reported(lower, tokens, order, pairs, p, n + 1) <==> Reported(lower, tokens, order, pairs, p, n)
  {
    var names := CarriedNames(lower, tokens, order[..n], pairs);
    var more := CarriedNames(lower, tokens, order[..n + 1], pairs);
    NextToken(lower, tokens, order, n, pairs);
    assert more == names || more == names + [order[n]];
  }

  /** It is reported when it is visited, or never. */
  lemma {:induction false} ReportedLater(lower: string -> string, tokens: map<string, string>, order: seq<string>,
                                         pairs: seq<Pair>, p: nat, n: nat)
    requires p < n <= |order| && (forall k <- order :: k in tokens) && forall m | p < m < n :: order[m] != order[p]
    ensures Reported(lower, tokens, order, pairs, p, n) <==> Reported(lower, tokens, order, pairs, p, p + 1)
    decreases n
  {
    if p + 1 < n {
      ReportedLater(lower, tokens, order, pairs, p, n - 1);
      NotReportedByAnother(lower, tokens, order, pairs, p, n - 1);
    }
  }

  /**
   * With agreeing tokens: a token is reported exactly if it is stale on the target's own pairs and the first visited
   * for its parameter.
   */
  lemma ReportedIff(lower: string -> string, tokens: map<string, string>, order: seq<string>, pairs: seq<Pair>, p: nat)
    requires TokensAgree(lower, tokens, pairs) && p < |order| && AllDifferent(order) && forall k <- order :: k in tokens
    ensures order[p] in CarriedNames(lower, tokens, order, pairs) <==>
            IsStale(lower, order[p], tokens[order[p]], pairs) && FirstForItsMatch(lower, order[..p], order[p], pairs)
  {
    ReportedWhenVisited(lower, tokens, order, pairs, p);
    ReportedLater(lower, tokens, order, pairs, p, |order|);
    assert order[..|order|] == order;
    StaleAfter(lower, tokens, order[..p], pairs, order[p]);
  }

  lemma {:induction false} NamesAreListedOnce(lower: string -> string, tokens: map<string, string>, order: seq<string>,
                                              pairs: seq<Pair>)
    requires forall k <- order :: k in tokens
    requires AllDifferent(order)
    ensures AllDifferent(CarriedNames(lower, tokens, order, pairs))
  {
    if order != [] {
      var front := order[..|order| - 1];
      NamesAreListedOnce(lower, tokens, front, pairs);
      NamesAreVisited(lower, tokens, front, pairs);
      assert order[|order| - 1] !in front;
      LastName(lower, tokens, order, pairs);
    }
  }

  lemma {:induction false} NamesAreVisited(lower: string -> string, tokens: map<string, string>, order: seq<string>,
                                           pairs: seq<Pair>)
    requires forall k <- order :: k in tokens
    ensures forall k <- CarriedNames(lower, tokens, order, pairs) :: k in order
  {
    if order != [] { NamesAreVisited(lower, tokens, order[..|order| - 1], pairs); }
  }

  /** Whether a token is stale after others have been visited. */
  lemma StaleAfter(lower: string -> string, tokens: map<string, string>, front: seq<string>, pairs: seq<Pair>,
                   key: string)
    requires TokensAgree(lower, tokens, pairs) && key in tokens && forall k <- front :: k in tokens
    ensures IsStale(lower, key, tokens[key], Carried(lower, tokens, front, pairs)) <==>
            IsStale(lower, key, tokens[key], pairs) && FirstForItsMatch(lower, front, key, pairs)
  {
    var before, i := Carried(lower, tokens, front, pairs), FirstMatch(lower, key, pairs);
    CarriedAt(lower, tokens, front, pairs);
    FirstMatchByNames(lower, key, before, pairs);
    OverwriteGuard(lower, key, tokens[key], pairs);
    OverwriteGuard(lower, key, tokens[key], before);
    assert |before| == |Names(before)| == |pairs|;
    if i < |pairs| {
      var last := LastFor(lower, front, pairs, i);
      if last != [] { assert last[0] in front && tokens[last[0]] == tokens[key]; }
    }
  }

  /** No two live tokens are for one parameter of the target, unless both have the value it has already. */
  ghost predicate NoRivals(lower: string -> string, tokens: map<string, string>, pairs: seq<Pair>) {
    forall j, k |
      j in tokens && k in tokens && j != k && FirstMatch(lower, j, pairs) == FirstMatch(lower, k, pairs) < |pairs| ::
      tokens[j] == tokens[k] == pairs[FirstMatch(lower, j, pairs)].value
  }

  ghost predicate SameNames(lower: string -> string, tokens: map<string, string>, pairs: seq<Pair>, o: seq<string>,
                            q: seq<string>)
    requires (forall k <- o :: k in tokens) && forall k <- q :: k in tokens
  {
    forall k :: k in CarriedNames(lower, tokens, o, pairs) <==> k in CarriedNames(lower, tokens, q, pairs)
  }

  /** The order decides neither the pairs nor which names are reported. */
  ghost predicate OnlyListOrderDepends(lower: string -> string, tokens: map<string, string>, pairs: seq<Pair>) {
    OrderDoesNotMatter(lower, tokens, pairs) &&
    forall o, q | IsOrderOf(o, tokens) && IsOrderOf(q, tokens) :: SameNames(lower, tokens, pairs, o, q)
  }

  /** Without rivals exactly the tokens stale on the target's own pairs are reported, each once. */
  lemma StaleTokensAreReported(lower: string -> string, tokens: map<string, string>, pairs: seq<Pair>,
                               order: seq<string>, k: string)
    requires NoRivals(lower, tokens, pairs) && IsOrderOf(order, tokens)
    ensures k in CarriedNames(lower, tokens, order, pairs) <==> k in tokens && IsStale(lower, k, tokens[k], pairs)
    ensures AllDifferent(CarriedNames(lower, tokens, order, pairs))
  {
    NamesAreListedOnce(lower, tokens, order, pairs);
    NamesAreVisited(lower, tokens, order, pairs);
    if k in tokens {
      var p: nat :| p < |order| && order[p] == k;
      ReportedIff(lower, tokens, order, pairs, p);
      OverwriteGuard(lower, k, tokens[k], pairs);
      assert forall j <- order[..p] :: j in tokens && j != k;
    }
  }

  lemma OrderStartingWith(tokens: map<string, string>, k: string) returns (order: seq<string>)
    requires k in tokens
    ensures IsOrderOf(order, tokens) && order != [] && order[0] == k
  {
    var rest := Enumeration(tokens.Keys - {k});
    order := [k] + rest;
  }

  /**
   * For the whole result: the map's order decides neither the pairs nor which names are reported, but only in which
   * order they are listed, exactly if no two live tokens are rivals for one parameter of the target.
   */
  lemma OnlyListOrderDependsIff(lower: string -> string, tokens: map<string, string>, pairs: seq<Pair>)
    ensures OnlyListOrderDepends(lower, tokens, pairs) <==> NoRivals(lower, tokens, pairs)
  {
    OrderDoesNotMatterIff(lower, tokens, pairs);
    if NoRivals(lower, tokens, pairs) {
      assert TokensAgree(lower, tokens, pairs);
      forall o, q | IsOrderOf(o, tokens) && IsOrderOf(q, tokens) ensures SameNames(lower, tokens, pairs, o, q) {
        forall k ensures k in CarriedNames(lower, tokens, o, pairs) <==> k in CarriedNames(lower, tokens, q, pairs) {
          StaleTokensAreReported(lower, tokens, pairs, o, k);
          StaleTokensAreReported(lower, tokens, pairs, q, k);
        }
      }
    }
    if OnlyListOrderDepends(lower, tokens, pairs) {
      forall j, k |
        j in tokens && k in tokens && j != k && FirstMatch(lower, j, pairs) == FirstMatch(lower, k, pairs) < |pairs|
        ensures tokens[j] == tokens[k] == pairs[FirstMatch(lower, j, pairs)].value
      {
        var o := OrderStartingWith(tokens, j);
        var q := OrderStartingWith(tokens, k);
        assert SameNames(lower, tokens, pairs, o, q);
        var p: nat :| p < |q| && q[p] == j;
        ReportedIff(lower, tokens, o, pairs, 0);
        ReportedIff(lower, tokens, q, pairs, p);
        OverwriteGuard(lower, j, tokens[j], pairs);
      }
    }
  }

  /** There are no rivals where live token names differ without case. */
  lemma DistinctNamesAreNoRivals(lower: string -> string, tokens: map<string, string>, pairs: seq<Pair>)
    requires forall j, k | j in tokens && k in tokens && SameName(lower, j, k) :: j == k
    ensures NoRivals(lower, tokens, pairs)
  {
    forall j, k | j in tokens && k in tokens && FirstMatch(lower, j, pairs) == FirstMatch(lower, k, pairs) < |pairs|
      ensures j == k
    {
      assert SameName(lower, j, k);
    }
  }

  /**
   * Where live token names differ without case: every order of the map gives the same pairs and reports the same
   * names, and a second application, in any order, changes and reports nothing.
   */
  lemma DistinctNamesDecide(lower: string -> string, tokens: map<string, string>, pairs: seq<Pair>, o: seq<string>,
                            q: seq<string>)
    requires forall j, k | j in tokens && k in tokens && SameName(lower, j, k) :: j == k
    requires IsOrderOf(o, tokens) && IsOrderOf(q, tokens)
    ensures var once := Carried(lower, tokens, o, pairs);
            once == Carried(lower, tokens, q, pairs) && SameNames(lower, tokens, pairs, o, q) &&
            Carried(lower, tokens, q, once) == once && CarriedNames(lower, tokens, q, once) == []
  {
    DistinctNamesAgree(lower, tokens, pairs);
    DistinctNamesAreNoRivals(lower, tokens, pairs);
    OnlyListOrderDependsIff(lower, tokens, pairs);
    SameResult(lower, tokens, pairs, o, q);
    SecondTimeIsNothing(lower, tokens, pairs, o, q);
  }

  /** With agreeing tokens a second application, in any order, changes nothing and reports nothing. */
  lemma {:induction false} SecondTimeIsNothing(lower: string -> string, tokens: map<string, string>, pairs: seq<Pair>,
                                               order: seq<string>, again: seq<string>)
    requires TokensAgree(lower, tokens, pairs) && IsOrderOf(order, tokens) && forall k <- again :: k in tokens
    ensures var once := Carried(lower, tokens, order, pairs);
            Carried(lower, tokens, again, once) == once && CarriedNames(lower, tokens, again, once) == []
    decreases again
  {
    var once := Carried(lower, tokens, order, pairs);
    if again != [] {
      var key := again[|again| - 1];
      SecondTimeIsNothing(lower, tokens, pairs, order, again[..|again| - 1]);
      CarriedAt(lower, tokens, order, pairs);
      FirstMatchByNames(lower, key, once, pairs);
      var i := FirstMatch(lower, key, pairs);
      if i < |pairs| {
        assert key in order;
        var last := LastFor(lower, order, pairs, i);
        assert last != [] && last[0] in order;
        assert once[i].value == tokens[key];
        assert once[i := Pair(once[i].name, tokens[key])] == once;
      }
    }
  }
}
