/**
 * String helpers behind the scripts' regular expressions and string methods:
 * ASCII case folding (the `i` flag and `toLowerCase` on the extensions the scripts
 * compare against), prefix/suffix/substring tests, `split`/`join` on a separator,
 * and decimal digit runs (`\d+` read with `parseInt(…, 10)`).
 */
module Text {
  import opened Common

  predicate IsDigit(c: char) { '0' <= c <= '9' }

  /** ASCII lower-casing; every other character is left as it is. */
  function LowerChar(c: char): char
  {
    if 'A' <= c <= 'Z' then (c as int + 32) as char else c
  }

  function Lower(s: string): string
  {
    seq(|s|, i requires 0 <= i < |s| => LowerChar(s[i]))
  }

  predicate StartsWith(s: string, prefix: string)
  {
    |prefix| <= |s| && s[..|prefix|] == prefix
  }

  predicate EndsWith(s: string, suffix: string)
  {
    |suffix| <= |s| && s[|s| - |suffix|..] == suffix
  }

  /** `s` ends with `lowerSuffix` up to ASCII case, as a regular expression with the `i` flag matches it. */
  predicate EndsWithIgnoreCase(s: string, lowerSuffix: string)
  {
    |lowerSuffix| <= |s| && Lower(s[|s| - |lowerSuffix|..]) == lowerSuffix
  }

  predicate OccursAt(s: string, sub: string, i: int)
  {
    0 <= i && i + |sub| <= |s| && s[i..i + |sub|] == sub
  }

  /** `s.includes(sub)`. */
  predicate Contains(s: string, sub: string)
  {
    exists i | 0 <= i <= |s| - |sub| :: OccursAt(s, sub, i)
  }

  /** `s.indexOf(sub, from)`: the first occurrence at or after `from`. */
  function IndexOfFrom(s: string, sub: string, from: nat): (r: Option<nat>)
    ensures r.Some? ==> from <= r.value && OccursAt(s, sub, r.value)
    ensures r.Some? ==> forall j | from <= j < r.value :: !OccursAt(s, sub, j)
    ensures r.None? ==> forall j | from <= j :: !OccursAt(s, sub, j)
    decreases |s| - from
  {
    if from + |sub| > |s| then None
    else if OccursAt(s, sub, from) then Some(from)
    else IndexOfFrom(s, sub, from + 1)
  }

  /** Within the middle part of a concatenation, an occurrence reads as one in that part. */
  lemma OccursInMiddle(pre: string, mid: string, post: string, sub: string, j: int)
    requires |pre| <= j && j + |sub| <= |pre| + |mid|
    ensures OccursAt(pre + mid + post, sub, j) == OccursAt(mid, sub, j - |pre|)
  {
    assert (pre + mid + post)[j..j + |sub|] == mid[j - |pre|..j - |pre| + |sub|];
  }

  /** An occurrence with none before it, from `from` on, is what `indexOf` finds. */
  lemma IndexOfFromIs(s: string, sub: string, from: nat, i: nat)
    requires from <= i && OccursAt(s, sub, i)
    requires forall j | from <= j < i :: !OccursAt(s, sub, j)
    ensures IndexOfFrom(s, sub, from) == Some(i)
  {
  }

  lemma ContainsIffFound(s: string, sub: string)
    ensures Contains(s, sub) <==> IndexOfFrom(s, sub, 0).Some?
  {
    var r := IndexOfFrom(s, sub, 0);
    if r.Some? {
      assert OccursAt(s, sub, r.value);
    }
  }

  /** A string that lacks one of `t`'s characters does not contain `t`. */
  lemma CharMissing(s: string, t: string, i: nat)
    requires i < |t| && t[i] !in s
    ensures !Contains(s, t)
  {
    forall k | 0 <= k <= |s| - |t| ensures !OccursAt(s, t, k) {
      assert s[k + i] in s;
    }
  }

  /** The first index of `c` in `s`. */
  function IndexOfChar(s: string, c: char): (r: Option<nat>)
    ensures r.Some? ==> r.value < |s| && s[r.value] == c && c !in s[..r.value]
    ensures r.None? ==> c !in s
  {
    if c !in s then None
    else if s[0] == c then Some(0)
    else
      var k := IndexOfChar(s[1..], c).value;
      assert s[1..][..k] == s[1..k + 1];
      assert s[..k + 1] == [s[0]] + s[1..k + 1];
      Some(k + 1)
  }

  /** The last index of `c` in `s`. */
  function LastIndexOfChar(s: string, c: char): (r: Option<nat>)
    ensures r.Some? ==> r.value < |s| && s[r.value] == c
    ensures r.Some? ==> forall k | r.value < k < |s| :: s[k] != c
    ensures r.None? ==> c !in s
  {
    if c !in s then None
    else if s[|s| - 1] == c then Some(|s| - 1)
    else
      var k := LastIndexOfChar(s[..|s| - 1], c).value;
      Some(k)
  }

  /** The last occurrence of `c` is at `i` when `s[i]` is `c` and no later character is. */
  lemma LastIndexOfCharIs(s: string, c: char, i: nat)
    requires i < |s| && s[i] == c
    requires forall k | i < k < |s| :: s[k] != c
    ensures LastIndexOfChar(s, c) == Some(i)
  {
    assert s[i] in s;
  }

  /** `parts.join(sep)`. */
  function Join(parts: seq<string>, sep: string): string
  {
    if |parts| == 0 then ""
    else if |parts| == 1 then parts[0]
    else parts[0] + sep + Join(parts[1..], sep)
  }

  /** `s.split(sep)` for a one-character separator: always at least one piece, none containing `sep`. */
  function Split(s: string, sep: char): (parts: seq<string>)
    ensures |parts| >= 1
    ensures forall i | 0 <= i < |parts| :: sep !in parts[i]
    ensures Join(parts, [sep]) == s
    decreases |s|
  {
    match IndexOfChar(s, sep)
    case None => [s]
    case Some(i) =>
      var rest := Split(s[i + 1..], sep);
      assert s == s[..i] + [sep] + s[i + 1..];
      [s[..i]] + rest
  }

  /** Splitting a join of separator-free pieces gives the pieces back. */
  lemma {:induction false} SplitJoin(parts: seq<string>, sep: char)
    requires |parts| >= 1
    requires forall i | 0 <= i < |parts| :: sep !in parts[i]
    ensures Split(Join(parts, [sep]), sep) == parts
    decreases |parts|
  {
    if |parts| == 1 {
      assert Join(parts, [sep]) == parts[0];
    } else {
      var tail := Join(parts[1..], [sep]);
      var s := parts[0] + [sep] + tail;
      assert Join(parts, [sep]) == s;
      assert s[|parts[0]|] == sep;
      assert s[..|parts[0]|] == parts[0];
      assert IndexOfChar(s, sep) == Some(|parts[0]|);
      assert s[|parts[0]| + 1..] == tail;
      SplitJoin(parts[1..], sep);
    }
  }

  predicate AllDigits(s: string)
  {
    forall i | 0 <= i < |s| :: IsDigit(s[i])
  }

  function DigitValue(c: char): nat
    requires IsDigit(c)
  {
    c as int - '0' as int
  }

  function DigitChar(d: nat): char
    requires d < 10
  {
    ('0' as int + d) as char
  }

  /** `parseInt(s, 10)` of a string of decimal digits (JavaScript's float rounding of huge values is not modelled). */
  function DecimalValue(s: string): nat
    requires AllDigits(s)
    decreases |s|
  {
    if s == [] then 0 else 10 * DecimalValue(s[..|s| - 1]) + DigitValue(s[|s| - 1])
  }

  /** The decimal spelling of `n`, without leading zeros. */
  function NatToDecimal(n: nat): (r: string)
    ensures 1 <= |r| && AllDigits(r) && DecimalValue(r) == n
    ensures r[0] == '0' ==> n == 0
  {
    if n < 10 then [DigitChar(n)]
    else
      var r := NatToDecimal(n / 10) + [DigitChar(n % 10)];
      assert r[..|r| - 1] == NatToDecimal(n / 10);
      r
  }

  /** The end of the maximal run of digits that starts at `i`. */
  function RunEnd(s: string, i: nat): (e: nat)
    requires i <= |s|
    ensures i <= e <= |s|
    ensures forall k | i <= k < e :: IsDigit(s[k])
    ensures e < |s| ==> !IsDigit(s[e])
    decreases |s| - i
  {
    if i < |s| && IsDigit(s[i]) then RunEnd(s, i + 1) else i
  }

  /** The first index at or after `from` that holds a digit. */
  function FirstDigitFrom(s: string, from: nat): (r: Option<nat>)
    ensures r.Some? ==> from <= r.value < |s| && IsDigit(s[r.value])
    ensures r.Some? ==> forall k | from <= k < r.value :: !IsDigit(s[k])
    ensures r.None? ==> forall k | from <= k < |s| :: !IsDigit(s[k])
    decreases |s| - from
  {
    if from >= |s| then None
    else if IsDigit(s[from]) then Some(from)
    else FirstDigitFrom(s, from + 1)
  }

  /** `c.repeat(n)`. */
  function Repeat(c: char, n: nat): (r: string)
    ensures |r| == n && forall i | 0 <= i < n :: r[i] == c
  {
    if n == 0 then "" else [c] + Repeat(c, n - 1)
  }
}
