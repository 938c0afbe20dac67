/** UTF-8 (section 3 of RFC 3629) and the cut of a text at a character boundary. */
module Utf8 {

  type Byte = b: int | 0 <= b < 0x100

  function EncodeChar(c: char): (bytes: seq<Byte>)
    ensures 1 <= |bytes| <= 4
    ensures !IsContinuation(bytes[0])
    ensures forall i | 1 <= i < |bytes| :: IsContinuation(bytes[i])
  {
    var v := c as int;
    if v < 0x80 then [v]
    else if v < 0x800 then [0xC0 + v / 0x40, 0x80 + v % 0x40]
    else if v < 0x10000 then [0xE0 + v / 0x1000, 0x80 + v / 0x40 % 0x40, 0x80 + v % 0x40]
    else [0xF0 + v / 0x40000, 0x80 + v / 0x1000 % 0x40, 0x80 + v / 0x40 % 0x40, 0x80 + v % 0x40]
  }

  /** The syntax of one encoded character (section 4 of RFC 3629). */
  predicate IsUtf8Char(b: seq<Byte>) {
    (|b| == 1 && b[0] <= 0x7F) ||
    (|b| == 2 && 0xC2 <= b[0] <= 0xDF && Tail(b[1])) ||
    (|b| == 3 && 0xE0 <= b[0] <= 0xEF && Tail(b[1]) && Tail(b[2]) &&
     (b[0] == 0xE0 ==> 0xA0 <= b[1]) && (b[0] == 0xED ==> b[1] <= 0x9F)) ||
    (|b| == 4 && 0xF0 <= b[0] <= 0xF4 && Tail(b[1]) && Tail(b[2]) && Tail(b[3]) &&
     (b[0] == 0xF0 ==> 0x90 <= b[1]) && (b[0] == 0xF4 ==> b[1] <= 0x8F))
  }

  predicate Tail(b: Byte) {
    0x80 <= b <= 0xBF
  }

  /** The character number that its free bits make. */
  function CodeOf(b: seq<Byte>): int
    requires IsUtf8Char(b)
  {
    match |b|
    case 1 => Bits(b[0], 0)
    case 2 => Bits(b[0], 0xC0) * 0x40 + Bits(b[1], 0x80)
    case 3 => Bits(b[0], 0xE0) * 0x1000 + Bits(b[1], 0x80) * 0x40 + Bits(b[2], 0x80)
    case _ => Bits(b[0], 0xF0) * 0x40000 + Bits(b[1], 0x80) * 0x1000 + Bits(b[2], 0x80) * 0x40 + Bits(b[3], 0x80)
  }

  /** What is left of a byte without its mark. */
  function Bits(b: int, mark: int): int {
    b - mark
  }

  /** Every character is encoded by that syntax, and by its own number. */
  lemma EncodeCharIsUtf8(c: char)
    ensures IsUtf8Char(EncodeChar(c)) && CodeOf(EncodeChar(c)) == c as int
  {
    var v := c as int;
    assert v < 0x110000;
    if v >= 0x10000 {
      assert v / 0x1000 == v / 0x40000 * 0x40 + v / 0x1000 % 0x40;
      assert v / 0x40 == v / 0x1000 * 0x40 + v / 0x40 % 0x40;
    } else if v >= 0x800 {
      assert v / 0x40 == v / 0x1000 * 0x40 + v / 0x40 % 0x40;
    }
  }

  predicate IsContinuation(b: Byte) {
    0x80 <= b < 0xC0
  }

  function Encode(s: string): seq<Byte> {
    if s == "" then [] else EncodeChar(s[0]) + Encode(s[1..])
  }

  lemma {:induction false} EncodeConcat(s: string, t: string)
    ensures Encode(s + t) == Encode(s) + Encode(t)
  {
    if s == "" {
      assert s + t == t;
    } else {
      assert (s + t)[1..] == s[1..] + t;
      EncodeConcat(s[1..], t);
    }
  }

  /** `str::is_char_boundary`, decided on the bytes alone. */
  predicate IsCharBoundary(bytes: seq<Byte>, i: nat) {
    i == 0 || i == |bytes| || (i < |bytes| && !IsContinuation(bytes[i]))
  }

  /** The boundaries of an encoded text are exactly the ends of its encoded prefixes. */
  lemma {:induction false} BoundariesAreCharacterPrefixes(s: string, i: nat)
    requires i <= |Encode(s)|
    ensures IsCharBoundary(Encode(s), i) <==> exists n: nat :: n <= |s| && Encode(s[..n]) == Encode(s)[..i]
  {
    if IsCharBoundary(Encode(s), i) {
      var n := PrefixAtBoundary(s, i);
    }
    if n: nat :| n <= |s| && Encode(s[..n]) == Encode(s)[..i] {
      assert s == s[..n] + s[n..];
      EncodeConcat(s[..n], s[n..]);
    }
  }

  lemma {:induction false} PrefixAtBoundary(s: string, i: nat) returns (n: nat)
    requires IsCharBoundary(Encode(s), i) && i <= |Encode(s)|
    ensures n <= |s| && Encode(s[..n]) == Encode(s)[..i]
  {
    if i == 0 {
      n := 0;
    } else {
      var head := EncodeChar(s[0]);
      var bytes := Encode(s);
      assert forall k | 1 <= k < |head| :: bytes[k] == head[k];
      assert |head| <= i;
      assert i < |bytes| ==> bytes[i] == Encode(s[1..])[i - |head|];
      var m := PrefixAtBoundary(s[1..], i - |head|);
      n := m + 1;
      assert s[..n][1..] == s[1..][..m];
      assert bytes[..i] == head + Encode(s[1..])[..i - |head|];
    }
  }

  /** `kept` is the encoding of the longest prefix of `s`, in whole characters, that fits in `maxBytes`. */
  ghost predicate IsLongestFittingPrefix(s: string, maxBytes: nat, kept: seq<Byte>) {
    exists n: nat :: n <= |s| && kept == Encode(s[..n]) && |kept| <= maxBytes &&
                     (n < |s| ==> |Encode(s[..n + 1])| > maxBytes)
  }

  /** The characters of that prefix. */
  function Truncated(s: string, maxBytes: nat): string {
    if s == "" || |EncodeChar(s[0])| > maxBytes then ""
    else [s[0]] + Truncated(s[1..], maxBytes - |EncodeChar(s[0])|)
  }

  /** A prefix of `n` characters is kept exactly if it fits. */
  lemma {:induction false} TruncatedKeeps(s: string, maxBytes: nat, n: nat)
    requires n <= |s|
    ensures Truncated(s, maxBytes) <= s
    ensures n <= |Truncated(s, maxBytes)| <==> |Encode(s[..n])| <= maxBytes
  {
    if n > 0 {
      var head := EncodeChar(s[0]);
      assert s[..n] == [s[0]] + s[1..][..n - 1] && s[..n][1..] == s[1..][..n - 1];
      if |head| <= maxBytes { TruncatedKeeps(s[1..], maxBytes - |head|, n - 1); }
    } else if s != "" && |EncodeChar(s[0])| <= maxBytes {
      TruncatedKeeps(s[1..], maxBytes - |EncodeChar(s[0])|, 0);
    }
  }

  lemma LongestIsTruncated(s: string, maxBytes: nat, kept: seq<Byte>)
    requires IsLongestFittingPrefix(s, maxBytes, kept)
    ensures kept == Encode(Truncated(s, maxBytes))
  {
    var n: nat :| n <= |s| && kept == Encode(s[..n]) && |kept| <= maxBytes &&
                  (n < |s| ==> |Encode(s[..n + 1])| > maxBytes);
    TruncatedKeeps(s, maxBytes, n);
    if n < |s| { TruncatedKeeps(s, maxBytes, n + 1); }
    assert Truncated(s, maxBytes) == s[..n];
  }

  /**
   * The cut works on bytes: it walks back from `maxBytes` to a character boundary. It never walks back
   * more than three bytes.
   */
  method TruncateBytes(ghost s: string, bytes: seq<Byte>, maxBytes: nat) returns (kept: seq<Byte>)
    requires bytes == Encode(s)
    ensures kept <= bytes && kept == Encode(Truncated(s, maxBytes))
    ensures IsLongestFittingPrefix(s, maxBytes, kept)
    ensures |bytes| <= maxBytes ==> kept == bytes
    ensures |bytes| > maxBytes ==> maxBytes - 3 <= |kept| <= maxBytes
  {
    if |bytes| <= maxBytes {
      assert s[..|s|] == s;
      LongestIsTruncated(s, maxBytes, bytes);
      return bytes;
    }
    var end := maxBytes;
    while end > 0 && !IsCharBoundary(bytes, end)
      invariant 0 <= end <= maxBytes < |bytes|
      invariant forall i | end < i <= maxBytes :: !IsCharBoundary(bytes, i)
    {
      end := end - 1;
    }
    kept := bytes[..end];
    assert IsCharBoundary(bytes, end);
    NextCharacterOverflows(s, end, maxBytes);
    LongestIsTruncated(s, maxBytes, kept);
  }

  /** One more character makes a prefix longer by at most four bytes, and it ends at a boundary again. */
  lemma NextPrefix(s: string, n: nat)
    requires n < |s|
    ensures var end, next := |Encode(s[..n])|, |Encode(s[..n + 1])|;
            end < next <= end + 4 && next <= |Encode(s)| && IsCharBoundary(Encode(s), next)
  {
    assert s[..n + 1] == s[..n] + [s[n]];
    EncodeConcat(s[..n], [s[n]]);
    assert Encode([s[n]]) == EncodeChar(s[n]) + Encode([s[n]][1..]) == EncodeChar(s[n]);
    var front, back := s[..n + 1], s[n + 1..];
    assert s == front + back;
    EncodeConcat(front, back);
    assert back != "" ==> Encode(back) == EncodeChar(back[0]) + Encode(back[1..]);
  }

  lemma NextCharacterOverflows(s: string, end: nat, maxBytes: nat)
    requires end <= maxBytes < |Encode(s)| && IsCharBoundary(Encode(s), end)
    requires forall i | end < i <= maxBytes :: !IsCharBoundary(Encode(s), i)
    ensures IsLongestFittingPrefix(s, maxBytes, Encode(s)[..end]) && maxBytes - 3 <= end
  {
    var n := PrefixAtBoundary(s, end);
    assert s[..|s|] == s;
    NextPrefix(s, n);
    assert |Encode(s[..n])| == end;
  }
}
