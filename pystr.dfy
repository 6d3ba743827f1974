/**
 * The Python `str` operations the pipeline relies on (`strip`, `find`,
 * `split`, `join`, `startswith`, `endswith`, slicing with a negative stop,
 * `lower`, `rfind`, `str(int)`), stated over Dafny strings. A Dafny `char`
 * is a Unicode scalar value, as a Python `str` element is a code point.
 */
module PyStr {

  /** Python's `str.isspace()`; `\s` in a `str` pattern matches the same characters. */
  predicate IsSpace(c: char)
  {
    ('\t' <= c <= '\r') || ('\U{1C}' <= c <= '\U{1F}') || c == ' ' || c == '\U{85}' || c == '\U{A0}'
    || c == '\U{1680}' || ('\U{2000}' <= c <= '\U{200A}') || c == '\U{2028}' || c == '\U{2029}'
    || c == '\U{202F}' || c == '\U{205F}' || c == '\U{3000}'
  }

  predicate AllSpace(s: string)
  {
    forall i :: 0 <= i < |s| ==> IsSpace(s[i])
  }

  /** What `str.strip()` leaves: no whitespace at either end. */
  predicate IsStripped(s: string)
  {
    s == [] || (!IsSpace(s[0]) && !IsSpace(s[|s| - 1]))
  }

  /** The first index at or after `j` whose character fails `p`, or `|s|`. */
  function SkipWhile(s: string, j: nat, p: char -> bool): (k: nat)
    requires j <= |s|
    ensures j <= k <= |s|
    ensures forall i :: j <= i < k ==> p(s[i])
    ensures k < |s| ==> !p(s[k])
    decreases |s| - j
  {
    if j < |s| && p(s[j]) then SkipWhile(s, j + 1, p) else j
  }

  /** Length of the whitespace run at the end of `s`. */
  function TrailingSpace(s: string): (k: nat)
    ensures k <= |s|
    decreases |s|
  {
    if s != [] && IsSpace(s[|s| - 1]) then TrailingSpace(s[..|s| - 1]) + 1 else 0
  }

  /** The trailing run is all whitespace and is preceded by a non-space character, if any. */
  lemma {:induction false} TrailingSpaceRun(s: string)
    ensures forall i :: |s| - TrailingSpace(s) <= i < |s| ==> IsSpace(s[i])
    ensures TrailingSpace(s) < |s| ==> !IsSpace(s[|s| - TrailingSpace(s) - 1])
    decreases |s|
  {
    if s != [] && IsSpace(s[|s| - 1]) {
      var s' := s[..|s| - 1];
      TrailingSpaceRun(s');
      forall i | |s| - TrailingSpace(s) <= i < |s| - 1 ensures IsSpace(s[i]) {
        assert s[i] == s'[i];
      }
    }
  }

  /** Trailing whitespace stops at the last non-space character. */
  lemma {:induction false} TrailingSpaceBefore(s: string, i: nat)
    requires i < |s| && !IsSpace(s[i])
    ensures i < |s| - TrailingSpace(s)
    decreases |s|
  {
    if IsSpace(s[|s| - 1]) {
      TrailingSpaceBefore(s[..|s| - 1], i);
    }
  }

  /** Python's `s.strip()`: whitespace removed from both ends and nothing else. */
  function Strip(s: string): string
  {
    var a := SkipWhile(s, 0, IsSpace);
    var t := s[a..];
    t[..|t| - TrailingSpace(t)]
  }

  /** What `strip()` leaves: a stripped slice of the input, the input itself when already stripped. */
  lemma StripFacts(s: string)
    ensures var r := Strip(s); var a := SkipWhile(s, 0, IsSpace);
      && IsStripped(r)
      && a + |r| <= |s| && r == s[a..a + |r|]
      && (forall c | c in r :: c in s)
      && (IsStripped(s) ==> r == s)
  {
    var a := SkipWhile(s, 0, IsSpace);
    var t := s[a..];
    var k := TrailingSpace(t);
    TrailingSpaceRun(t);
    var b := |t| - k;
    assert b > 0 ==> t[0] == s[a] && t[b - 1] == t[|t| - k - 1];
    assert t[..b] == s[a..a + b];
    if IsStripped(s) && s != [] {
      TrailingSpaceRun(s);
      assert a == 0;
      assert k == 0;
    }
  }

  /** Stripping removes exactly the leading and the trailing whitespace. */
  lemma StripLength(s: string)
    ensures var a := SkipWhile(s, 0, IsSpace); |Strip(s)| == |s| - a - TrailingSpace(s[a..])
  {
  }

  /** `SkipWhile` stops at the first character from `j` on that fails the test. */
  lemma SkipWhileStops(s: string, j: nat, k: nat, p: char -> bool)
    requires j <= k < |s| && !p(s[k])
    requires forall i :: j <= i < k ==> p(s[i])
    ensures SkipWhile(s, j, p) == k
  {
  }

  /** `t` occurs in `s` starting at index `i`. */
  predicate OccursAt(s: string, t: string, i: nat)
  {
    i + |t| <= |s| && s[i..i + |t|] == t
  }

  lemma OccursAtChar(s: string, t: string, i: nat, j: nat)
    requires OccursAt(s, t, i) && j < |t|
    ensures s[i + j] == t[j]
  {
    assert s[i..i + |t|][j] == s[i + j];
  }

  predicate StartsWith(s: string, prefix: string)
  {
    OccursAt(s, prefix, 0)
  }

  predicate EndsWith(s: string, suffix: string)
  {
    |suffix| <= |s| && s[|s| - |suffix|..] == suffix
  }

  /** Python's `s.find(t, from)`: the first occurrence at or after `from`, or -1. */
  function Find(s: string, t: string, from: nat): (r: int)
    requires from <= |s|
    ensures r == -1 || (from <= r && OccursAt(s, t, r))
    ensures forall i :: from <= i && (r == -1 || i < r) ==> !OccursAt(s, t, i)
    decreases |s| - from
  {
    if OccursAt(s, t, from) then from
    else if from + |t| >= |s| then -1
    else Find(s, t, from + 1)
  }

  /** `find` returns the first occurrence at or after its start. */
  lemma FindFirst(s: string, t: string, from: nat, k: nat)
    requires from <= k && OccursAt(s, t, k)
    requires forall i :: from <= i < k ==> !OccursAt(s, t, i)
    ensures from <= |s| && Find(s, t, from) == k
  {
  }

  /** `t` occurs where it is appended. */
  lemma OccursAtEnd(a: string, t: string)
    ensures OccursAt(a + t, t, |a|)
  {
    assert (a + t)[|a|..|a| + |t|] == t;
  }

  /** Python's `t in s` for strings. */
  predicate Contains(s: string, t: string)
  {
    Find(s, t, 0) != -1
  }

  lemma ContainsIff(s: string, t: string)
    ensures Contains(s, t) <==> exists i: nat :: OccursAt(s, t, i)
  {
    if !Contains(s, t) {
      forall i: nat ensures !OccursAt(s, t, i) {
      }
    }
  }

  /** An occurrence inside a slice of `s` is an occurrence in `s`. */
  lemma ContainsInSlice(s: string, lo: nat, hi: nat, t: string)
    requires lo <= hi <= |s|
    requires Contains(s[lo..hi], t)
    ensures Contains(s, t)
  {
    ContainsIff(s[lo..hi], t);
    var i: nat :| OccursAt(s[lo..hi], t, i);
    forall j | 0 <= j < |t| ensures s[lo + i..lo + i + |t|][j] == t[j] {
      assert s[lo..hi][i + j] == t[j];
    }
    assert OccursAt(s, t, lo + i);
    ContainsIff(s, t);
  }

  /** A slice in which no occurrence of `t` starts holds no `t`. */
  lemma NoOccurrenceInSlice(s: string, lo: nat, hi: nat, t: string)
    requires lo <= hi <= |s|
    requires forall i :: lo <= i && i + |t| <= hi ==> !OccursAt(s, t, i)
    ensures !Contains(s[lo..hi], t)
  {
    var body := s[lo..hi];
    forall j: nat ensures !OccursAt(body, t, j) {
      if j + |t| <= |body| {
        assert !OccursAt(s, t, lo + j);
        forall k | j <= k < j + |t| ensures body[k] == s[lo + k] {
        }
        assert body[j..j + |t|] == s[lo + j..lo + j + |t|];
      }
    }
    ContainsIff(body, t);
  }

  /** Python's `s[a:b]` for a start inside the string and any stop (a negative stop counts from the end). */
  function PySlice(s: string, a: nat, b: int): (r: string)
    requires a <= |s|
    ensures a <= b <= |s| ==> r == s[a..b]
    ensures b == -1 ==> r == if a < |s| then s[a..|s| - 1] else []
  {
    var e := if b < 0 then (if |s| + b < 0 then 0 else |s| + b) else if b > |s| then |s| else b;
    if e <= a then [] else s[a..e]
  }

  /** Index of the first `c` in `s`. */
  function IndexOf(s: string, c: char): (i: nat)
    requires c in s
    ensures i < |s| && s[i] == c && c !in s[..i]
  {
    if s[0] == c then 0 else 1 + IndexOf(s[1..], c)
  }

  /** The first `c` of `a + [c] + b` is at `|a|` when `a` holds none. */
  lemma IndexOfAfter(a: string, c: char, b: string)
    requires c !in a
    ensures c in a + [c] + b && IndexOf(a + [c] + b, c) == |a|
  {
    var s := a + [c] + b;
    assert s[|a|] == c;
  }

  /** Python's `s.rfind(c)` for a single character. */
  function RFind(s: string, c: char): (i: int)
    ensures -1 <= i < |s|
    ensures i >= 0 ==> s[i] == c && forall j :: i < j < |s| ==> s[j] != c
    ensures i == -1 ==> c !in s
  {
    RFindBelow(s, c, |s|)
  }

  /** The last index below `n` that holds `c`, or -1. */
  function RFindBelow(s: string, c: char, n: nat): (i: int)
    requires n <= |s|
    ensures -1 <= i < n
    ensures i >= 0 ==> s[i] == c && forall j :: i < j < n ==> s[j] != c
    ensures i == -1 ==> forall j :: 0 <= j < n ==> s[j] != c
  {
    if n == 0 then -1
    else if s[n - 1] == c then n - 1
    else RFindBelow(s, c, n - 1)
  }

  /** Python's `s.split(sep)` for a one-character separator. */
  function Split(s: string, sep: char): (parts: seq<string>)
    ensures |parts| >= 1
    ensures forall i :: 0 <= i < |parts| ==> sep !in parts[i]
    decreases |s|
  {
    if sep in s then
      var i := IndexOf(s, sep);
      [s[..i]] + Split(s[i + 1..], sep)
    else [s]
  }

  /** A text with a separator is its first part, the separator and the rest, and splits accordingly. */
  lemma SplitAtFirst(s: string, sep: char)
    requires sep in s
    ensures var i := IndexOf(s, sep);
      && s == s[..i] + [sep] + s[i + 1..]
      && Split(s, sep) == [s[..i]] + Split(s[i + 1..], sep)
  {
    var i := IndexOf(s, sep);
    assert s == s[..i] + [sep] + s[i + 1..];
  }

  /** Python's `sep.join(parts)`. */
  function Join(parts: seq<string>, sep: char): string
  {
    if parts == [] then []
    else if |parts| == 1 then parts[0]
    else parts[0] + [sep] + Join(parts[1..], sep)
  }

  /** Splitting and re-joining on the same separator gives back the text. */
  lemma {:induction false} JoinSplit(s: string, sep: char)
    ensures Join(Split(s, sep), sep) == s
    decreases |s|
  {
    if sep in s {
      var i := IndexOf(s, sep);
      var ps := Split(s[i + 1..], sep);
      SplitAtFirst(s, sep);
      JoinSplit(s[i + 1..], sep);
      JoinCons(s[..i], ps, sep);
    }
  }

  /** Joining a part in front of a non-empty list puts one separator between them. */
  lemma JoinCons(a: string, ps: seq<string>, sep: char)
    requires ps != []
    ensures Join([a] + ps, sep) == a + [sep] + Join(ps, sep)
  {
    assert ([a] + ps)[1..] == ps;
  }

  /** Joining separator-free parts and splitting again gives back the parts. */
  lemma {:induction false} SplitJoin(parts: seq<string>, sep: char)
    requires |parts| >= 1
    requires forall i :: 0 <= i < |parts| ==> sep !in parts[i]
    ensures Split(Join(parts, sep), sep) == parts
  {
    if |parts| > 1 {
      var tail := parts[1..];
      forall i | 0 <= i < |tail| ensures sep !in tail[i] {
        assert tail[i] == parts[i + 1];
      }
      SplitJoin(tail, sep);
      SplitCons(parts[0], sep, Join(tail, sep));
      assert parts == [parts[0]] + tail;
    }
  }

  /** Splitting a text whose first separator closes the part `a`. */
  lemma SplitCons(a: string, sep: char, b: string)
    requires sep !in a
    ensures Split(a + [sep] + b, sep) == [a] + Split(b, sep)
  {
    var s := a + [sep] + b;
    IndexOfAfter(a, sep, b);
    assert s[..|a|] == a;
    assert s[|a| + 1..] == b;
  }

  function LowerChar(c: char): char
  {
    if 'A' <= c <= 'Z' then (c as int + 32) as char else c
  }

  /** Python's `s.lower()` on ASCII letters; every other character is kept. */
  function Lower(s: string): (r: string)
    ensures |r| == |s|
    ensures forall i :: 0 <= i < |s| ==> r[i] == LowerChar(s[i])
  {
    seq(|s|, i requires 0 <= i < |s| => LowerChar(s[i]))
  }

  predicate IsAsciiLetter(c: char)
  {
    ('a' <= c <= 'z') || ('A' <= c <= 'Z')
  }

  predicate IsDigit(c: char)
  {
    '0' <= c <= '9'
  }

  /** Python's `str(n)` for a natural number. */
  function NatToString(n: nat): (r: string)
    ensures r != [] && forall i :: 0 <= i < |r| ==> IsDigit(r[i])
  {
    if n < 10 then [(48 + n) as char]
    else NatToString(n / 10) + [(48 + n % 10) as char]
  }

  /** Python's `str(n)` (and an f-string `{n}`) for an integer. */
  function IntToString(n: int): (r: string)
    ensures r != [] && IsDigit(r[|r| - 1])
  {
    if n < 0 then "-" + NatToString(-n) else NatToString(n)
  }
}
