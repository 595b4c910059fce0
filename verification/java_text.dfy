/**
 * The few `java.lang.String` operations the core relies on, on `seq<char>`:
 * `compareTo` (as the order `Less`), `trim`, `isEmpty`, `contains`,
 * `endsWith`, `toLowerCase` and `toUpperCase`.
 */
module JavaText {

  /** `a.compareTo(b) < 0`: character-by-character order, a proper prefix first. */
  predicate Less(a: string, b: string)
  {
    if |a| == 0 then |b| > 0
    else if |b| == 0 then false
    else if a[0] != b[0] then a[0] < b[0]
    else Less(a[1..], b[1..])
  }

  lemma {:induction false} LessIrreflexive(a: string)
    ensures !Less(a, a)
  {
    if |a| > 0 {
      LessIrreflexive(a[1..]);
    }
  }

  lemma {:induction false} LessAsymmetric(a: string, b: string)
    requires Less(a, b)
    ensures !Less(b, a)
  {
    if |a| > 0 && |b| > 0 && a[0] == b[0] {
      LessAsymmetric(a[1..], b[1..]);
    }
  }

  lemma {:induction false} LessTransitive(a: string, b: string, c: string)
    requires Less(a, b) && Less(b, c)
    ensures Less(a, c)
  {
    if |a| > 0 && |b| > 0 && |c| > 0 && a[0] == b[0] && b[0] == c[0] {
      LessTransitive(a[1..], b[1..], c[1..]);
    }
  }

  lemma {:induction false} LessTotal(a: string, b: string)
    requires a != b
    ensures Less(a, b) || Less(b, a)
  {
    if |a| > 0 && |b| > 0 && a[0] == b[0] {
      assert a == [a[0]] + a[1..] && b == [b[0]] + b[1..];
      LessTotal(a[1..], b[1..]);
    }
  }

  /** A proper prefix comes first: the reason a reversed sort of paths lists children before parents. */
  lemma {:induction false} PrefixIsLess(p: string, s: string)
    requires p <= s && |p| < |s|
    ensures Less(p, s)
  {
    if |p| > 0 {
      PrefixIsLess(p[1..], s[1..]);
    }
  }

  /** The characters `String.trim` strips: every code point up to and including the space. */
  predicate IsTrimmed(c: char)
  {
    c <= ' '
  }

  /** `s.trim().isEmpty()`. */
  predicate IsBlank(s: string)
  {
    forall i | 0 <= i < |s| :: IsTrimmed(s[i])
  }

  /** The number of leading characters `String.trim` strips. */
  function Leading(s: string): (n: nat)
    ensures n <= |s|
    ensures forall i | 0 <= i < n :: IsTrimmed(s[i])
    ensures n == |s| || !IsTrimmed(s[n])
  {
    if |s| > 0 && IsTrimmed(s[0]) then 1 + Leading(s[1..]) else 0
  }

  /** The number of trailing characters `String.trim` strips. */
  function Trailing(s: string): (n: nat)
    ensures n <= |s|
    ensures forall i | |s| - n <= i < |s| :: IsTrimmed(s[i])
    ensures n == |s| || !IsTrimmed(s[|s| - n - 1])
  {
    if |s| > 0 && IsTrimmed(s[|s| - 1]) then 1 + Trailing(s[..|s| - 1]) else 0
  }

  /**
   * `String.trim`: the substring left after cutting every leading and trailing
   * character up to the space; it is empty exactly when `s` is blank, and
   * otherwise neither starts nor ends with such a character.
   */
  function Trim(s: string): (r: string)
    ensures Leading(s) + |r| <= |s| && r == s[Leading(s)..Leading(s) + |r|]
    ensures r == [] <==> IsBlank(s)
    ensures r != [] ==> !IsTrimmed(r[0]) && !IsTrimmed(r[|r| - 1])
    ensures !IsBlank(s) ==> |r| == |s| - Leading(s) - Trailing(s)
  {
    var a := Leading(s);
    if a == |s| then [] else s[a..|s| - Trailing(s)]
  }

  /** `s.startsWith(p, i)`. */
  predicate OccursAt(s: string, p: string, i: nat)
  {
    i + |p| <= |s| && s[i..i + |p|] == p
  }

  /** The first index at or after `from` where `p` occurs in `s`, or -1. */
  function IndexOfFrom(s: string, p: string, from: nat): (k: int)
    requires from <= |s|
    ensures k == -1 || (from <= k <= |s| && OccursAt(s, p, k))
    ensures k == -1 ==> forall i | from <= i <= |s| :: !OccursAt(s, p, i)
    ensures k != -1 ==> forall i | from <= i < k :: !OccursAt(s, p, i)
    decreases |s| - from
  {
    if OccursAt(s, p, from) then from
    else if from == |s| then -1
    else IndexOfFrom(s, p, from + 1)
  }

  /** `s.contains(p)`. */
  predicate Contains(s: string, p: string)
    ensures Contains(s, p) <==> exists i | 0 <= i <= |s| :: OccursAt(s, p, i)
  {
    IndexOfFrom(s, p, 0) != -1
  }

  /** `s.endsWith(suffix)`. */
  predicate EndsWith(s: string, suffix: string)
  {
    |suffix| <= |s| && s[|s| - |suffix|..] == suffix
  }

  /** `Character.toLowerCase` on the ASCII letters; other characters are kept. */
  function LowerChar(c: char): char
  {
    if 'A' <= c <= 'Z' then (c as int + 32) as char else c
  }

  /** `String.toLowerCase`, restricted to ASCII case mapping. */
  function ToLower(s: string): (r: string)
    ensures |r| == |s|
    ensures forall i | 0 <= i < |s| :: r[i] == LowerChar(s[i])
  {
    if s == [] then [] else [LowerChar(s[0])] + ToLower(s[1..])
  }

  /** `Character.toUpperCase` on the ASCII letters; other characters are kept. */
  function UpperChar(c: char): char
  {
    if 'a' <= c <= 'z' then (c as int - 32) as char else c
  }

  /** `String.toUpperCase`, restricted to ASCII case mapping. */
  function ToUpper(s: string): (r: string)
    ensures |r| == |s|
    ensures forall i | 0 <= i < |s| :: r[i] == UpperChar(s[i])
  {
    if s == [] then [] else [UpperChar(s[0])] + ToUpper(s[1..])
  }

  /** `\d` in a Java regular expression (ASCII digits only). */
  predicate IsDigit(c: char)
  {
    '0' <= c <= '9'
  }
}
