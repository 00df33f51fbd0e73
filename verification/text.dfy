/** The Python string operations the modelled code relies on, over `string`
    (a sequence of Unicode code points, as Python 3 `str` is). */
module Text {

  /** Python's `str.isspace()` for one character: the ASCII whitespace
      characters, the information separators 0x1C-0x1F, and the Unicode
      space and line/paragraph separator characters. */
  predicate IsSpace(c: char) {
    var n := c as int;
    || n == 0x20 || 0x09 <= n <= 0x0D || 0x1C <= n <= 0x1F
    || n == 0x85 || n == 0xA0 || n == 0x1680 || 0x2000 <= n <= 0x200A
    || n == 0x2028 || n == 0x2029 || n == 0x202F || n == 0x205F || n == 0x3000
  }

  /** `s.lstrip()`: drops the leading whitespace. */
  function TrimStart(s: string): (r: string)
    ensures |r| <= |s| && r == s[|s| - |r|..]
    ensures forall k :: 0 <= k < |s| - |r| ==> IsSpace(s[k])
    ensures |r| == 0 || !IsSpace(r[0])
    decreases |s|
  {
    if |s| > 0 && IsSpace(s[0]) then TrimStart(s[1..]) else s
  }

  /** `s.rstrip()`: drops the trailing whitespace. */
  function TrimEnd(s: string): (r: string)
    ensures |r| <= |s| && r == s[..|r|]
    ensures forall k :: |r| <= k < |s| ==> IsSpace(s[k])
    ensures |r| == 0 || !IsSpace(r[|r| - 1])
    decreases |s|
  {
    if |s| > 0 && IsSpace(s[|s| - 1]) then TrimEnd(s[..|s| - 1]) else s
  }

  /** The number of leading whitespace characters `strip()` drops. */
  function LeadingSpace(s: string): (n: nat)
    ensures n <= |s|
  {
    |s| - |TrimStart(s)|
  }

  /** `s.strip()`: the longest infix of `s` that neither starts nor ends with
      whitespace, once the surrounding whitespace is removed. */
  function Strip(s: string): (r: string)
    ensures |r| <= |s|
    ensures |r| == 0 || (!IsSpace(r[0]) && !IsSpace(r[|r| - 1]))
    ensures LeadingSpace(s) + |r| <= |s| && r == s[LeadingSpace(s)..LeadingSpace(s) + |r|]
  {
    var t := TrimStart(s);
    var r := TrimEnd(t);
    PrefixOfSuffix(s, t, r);
    r
  }

  lemma PrefixOfSuffix(s: string, t: string, r: string)
    requires |r| <= |t| <= |s| && t == s[|s| - |t|..] && r == t[..|r|]
    ensures r == s[|s| - |t|..|s| - |t| + |r|]
    ensures |r| > 0 ==> r[0] == t[0]
  {
  }

  /** A string with no surrounding whitespace is its own `strip()`. */
  lemma StripClean(s: string)
    requires |s| == 0 || (!IsSpace(s[0]) && !IsSpace(s[|s| - 1]))
    ensures Strip(s) == s
  {
  }

  /** Python's `str.lower()` on one character, restricted to ASCII letters.
      Every comparison the model makes after lowering is against an ASCII
      word, and only ASCII upper-case letters lower to ASCII letters without
      also producing a combining mark, so this restriction is exact there. */
  function LowerChar(c: char): (r: char)
    ensures 'A' <= c <= 'Z' ==> r as int == c as int + 32
    ensures !('A' <= c <= 'Z') ==> r == c
  {
    if 'A' <= c <= 'Z' then (c as int + 32) as char else c
  }

  function Lower(s: string): (r: string)
    ensures |r| == |s|
    ensures forall k :: 0 <= k < |s| ==> r[k] == LowerChar(s[k])
  {
    seq(|s|, k requires 0 <= k < |s| => LowerChar(s[k]))
  }

  /** `s.replace(a, b)` for single characters `a` and `b`. */
  function ReplaceChar(s: string, a: char, b: char): (r: string)
    ensures |r| == |s|
    ensures forall k :: 0 <= k < |s| ==> r[k] == (if s[k] == a then b else s[k])
  {
    seq(|s|, k requires 0 <= k < |s| => if s[k] == a then b else s[k])
  }

  /** `s.startswith(p)`. */
  predicate StartsWith(s: string, p: string) {
    |p| <= |s| && s[..|p|] == p
  }

  /** `s.endswith(p)`. */
  predicate EndsWith(s: string, p: string) {
    |p| <= |s| && s[|s| - |p|..] == p
  }

  /** True when `sub` occurs in `s` at position `i`. */
  predicate OccursAt(s: string, sub: string, i: int) {
    0 <= i && i + |sub| <= |s| && s[i..i + |sub|] == sub
  }

  /** Python's `sub in s` for strings. */
  predicate Contains(s: string, sub: string) {
    exists i | 0 <= i <= |s| - |sub| :: OccursAt(s, sub, i)
  }

  /** `s.find(sub)` when it is not -1: the first position where `sub` occurs. */
  function Find(s: string, sub: string): (r: int)
    ensures -1 <= r <= |s|
    ensures r >= 0 ==> OccursAt(s, sub, r)
    ensures forall i :: 0 <= i < (if r < 0 then |s| + 1 else r) ==> !OccursAt(s, sub, i)
    decreases |s|
  {
    FindFrom(s, sub, 0)
  }

  function FindFrom(s: string, sub: string, from: nat): (r: int)
    requires from <= |s| + 1
    ensures -1 <= r <= |s|
    ensures r >= 0 ==> from <= r && OccursAt(s, sub, r)
    ensures forall i :: from <= i < (if r < 0 then |s| + 1 else r) ==> !OccursAt(s, sub, i)
    decreases |s| + 1 - from
  {
    if from + |sub| > |s| then -1
    else if s[from..from + |sub|] == sub then from
    else FindFrom(s, sub, from + 1)
  }

  lemma FindIsContains(s: string, sub: string)
    ensures Find(s, sub) >= 0 <==> Contains(s, sub)
  {
    var r := Find(s, sub);
    if r >= 0 {
      assert OccursAt(s, sub, r);
    }
  }

  /** Position of the first `c` in `s`, or `|s|` when there is none. */
  function IndexOf(s: string, c: char): (i: nat)
    ensures i <= |s|
    ensures i < |s| ==> s[i] == c
    ensures c !in s[..i]
    decreases |s|
  {
    if |s| == 0 then 0
    else if s[0] == c then 0
    else 1 + IndexOf(s[1..], c)
  }

  /** `sep.join(parts)`. */
  function Join(parts: seq<string>, sep: string): (r: string)
    decreases |parts|
  {
    if |parts| == 0 then ""
    else if |parts| == 1 then parts[0]
    else parts[0] + sep + Join(parts[1..], sep)
  }

  /** `s.split(sep)` for a one-character separator: the pieces between the
      separators, including empty ones, in order. */
  function Split(s: string, sep: char): (parts: seq<string>)
    ensures |parts| >= 1
    ensures forall k :: 0 <= k < |parts| ==> sep !in parts[k]
    ensures Join(parts, [sep]) == s
    decreases |s|
  {
    var i := IndexOf(s, sep);
    if i == |s| then
      assert s[..i] == s;
      [s]
    else
      var rest := Split(s[i + 1..], sep);
      assert s == s[..i] + [sep] + s[i + 1..];
      [s[..i]] + rest
  }

  /** Splitting a joined list gives the list back when no piece contains the
      separator. */
  lemma {:induction false} SplitJoin(parts: seq<string>, sep: char)
    requires |parts| >= 1
    requires forall k :: 0 <= k < |parts| ==> sep !in parts[k]
    ensures Split(Join(parts, [sep]), sep) == parts
    decreases |parts|
  {
    var s := Join(parts, [sep]);
    if |parts| == 1 {
      assert IndexOf(s, sep) == |s|;
    } else {
      var tail := Join(parts[1..], [sep]);
      assert s == parts[0] + ([sep] + tail);
      IndexOfAfterClean(parts[0], [sep] + tail, sep);
      var i := |parts[0]|;
      assert IndexOf(s, sep) == i && i < |s|;
      assert s[i + 1..] == tail;
      assert s[..i] == parts[0];
      assert Split(s, sep) == [s[..i]] + Split(s[i + 1..], sep);
      SplitJoin(parts[1..], sep);
      assert parts == [parts[0]] + parts[1..];
    }
  }

  lemma {:induction false} IndexOfAfterClean(a: string, b: string, c: char)
    requires c !in a
    requires |b| > 0 && b[0] == c
    ensures IndexOf(a + b, c) == |a|
    decreases |a|
  {
    if |a| > 0 {
      assert (a + b)[1..] == a[1..] + b;
      IndexOfAfterClean(a[1..], b, c);
    }
  }

  /** The decimal digits of a natural number, as Python's `str(n)`. */
  function NatToString(n: nat): (r: string)
    ensures |r| >= 1
    ensures forall k :: 0 <= k < |r| ==> '0' <= r[k] <= '9'
    ensures |r| > 1 ==> r[0] != '0'
    decreases n
  {
    if n < 10 then [DigitChar(n)] else NatToString(n / 10) + [DigitChar(n % 10)]
  }

  function DigitChar(d: nat): (c: char)
    requires d < 10
    ensures '0' <= c <= '9'
  {
    ('0' as int + d) as char
  }
}
