/**
 * The parts of Python's `str` and `os.path` that the core relies on:
 * `strip`, `lower`, `in`, `replace`, SQLite's text ordering, `os.path.join`
 * and `os.path.splitext`.  Case folding and whitespace are ASCII-only.
 */
module Text {

  /** Python's `str.isspace` on the ASCII range. */
  predicate IsSpace(c: char) {
    c == ' ' || c == '\t' || c == '\n' || c == '\r' || c == '\U{B}' || c == '\U{C}' || '\U{1C}' <= c <= '\U{1F}'
  }

  /** The left half of `str.strip()`: drops leading whitespace. */
  function StripStart(s: string): (r: string)
    ensures |r| <= |s| && r == s[|s| - |r|..]
    ensures forall i :: 0 <= i < |s| - |r| ==> IsSpace(s[i])
    ensures r == [] || !IsSpace(r[0])
  {
    if s != [] && IsSpace(s[0]) then StripStart(s[1..]) else s
  }

  /** The right half of `str.strip()`: drops trailing whitespace. */
  function StripEnd(s: string): (r: string)
    ensures |r| <= |s| && r == s[..|r|]
    ensures forall i :: |r| <= i < |s| ==> IsSpace(s[i])
    ensures r == [] || !IsSpace(r[|r| - 1])
  {
    if s != [] && IsSpace(s[|s| - 1]) then StripEnd(s[..|s| - 1]) else s
  }

  /** `str.strip()`: a slice of `s` that neither starts nor ends with whitespace, empty exactly when `s` is all whitespace. */
  function Strip(s: string): (r: string)
    ensures r == [] <==> forall i :: 0 <= i < |s| ==> IsSpace(s[i])
    ensures r != [] ==> !IsSpace(r[0]) && !IsSpace(r[|r| - 1])
    ensures |r| <= |s|
  {
    StripEnd(StripStart(s))
  }

  /** `str.lower()` on one character (ASCII letters only). */
  function LowerChar(c: char): char {
    if 'A' <= c <= 'Z' then (c as int - 'A' as int + 'a' as int) as char else c
  }

  /** `str.lower()`. */
  function Lower(s: string): (r: string)
    ensures |r| == |s| && forall i :: 0 <= i < |s| ==> r[i] == LowerChar(s[i])
  {
    seq(|s|, i requires 0 <= i < |s| => LowerChar(s[i]))
  }

  /** `needle` occurs in `haystack` starting at index `i`. */
  ghost predicate OccursAt(haystack: string, needle: string, i: int) {
    0 <= i <= |haystack| - |needle| && haystack[i..i + |needle|] == needle
  }

  /** Python's `needle in haystack` on strings: true exactly when `needle` occurs somewhere in `haystack`. */
  function Contains(haystack: string, needle: string): (b: bool)
    ensures b <==> exists i :: OccursAt(haystack, needle, i)
    decreases |haystack|
  {
    if needle <= haystack then
      assert OccursAt(haystack, needle, 0);
      true
    else if |haystack| <= |needle| then
      assert forall i :: !OccursAt(haystack, needle, i) by {
        forall i | OccursAt(haystack, needle, i) ensures false {
        }
      }
      false
    else
      var b := Contains(haystack[1..], needle);
      forall i | 1 <= i
        ensures OccursAt(haystack, needle, i) <==> OccursAt(haystack[1..], needle, i - 1)
      {
        if i <= |haystack| - |needle| {
          var here, there := haystack[i..i + |needle|], haystack[1..][i - 1..i - 1 + |needle|];
          forall k | 0 <= k < |needle| ensures here[k] == there[k] {
            assert here[k] == haystack[i + k];
          }
          assert here == there;
        }
      }
      assert !OccursAt(haystack, needle, 0);
      assert b ==> exists i :: OccursAt(haystack, needle, i) by {
        if b {
          var j :| OccursAt(haystack[1..], needle, j);
          assert OccursAt(haystack, needle, j + 1);
        }
      }
      b
  }

  /** A match survives lower-casing both sides, so a case-insensitive search finds every exact match. */
  lemma ContainsLower(haystack: string, needle: string)
    requires Contains(haystack, needle)
    ensures Contains(Lower(haystack), Lower(needle))
  {
    var i :| OccursAt(haystack, needle, i);
    var lh, ln := Lower(haystack), Lower(needle);
    forall k | 0 <= k < |needle| ensures lh[i + k] == ln[k] {
      assert haystack[i + k] == haystack[i..i + |needle|][k];
    }
    assert lh[i..i + |needle|] == ln;
    assert OccursAt(lh, ln, i);
  }

  /** Every character `c` of `s` becomes `d`; the others are kept. */
  function Substitute(s: string, c: char, d: char): (r: string)
    ensures |r| == |s|
    ensures forall i :: 0 <= i < |s| ==> r[i] == if s[i] == c then d else s[i]
  {
    seq(|s|, i requires 0 <= i < |s| => if s[i] == c then d else s[i])
  }

  /**
   * Python's `s.replace(pattern, replacement)`: every non-overlapping occurrence,
   * scanning from the left; an empty pattern inserts the replacement around
   * every character.
   */
  function ReplaceAll(s: string, pattern: string, replacement: string): string
    decreases |s|
  {
    if pattern == [] then
      if s == [] then replacement else replacement + [s[0]] + ReplaceAll(s[1..], pattern, replacement)
    else if pattern <= s then replacement + ReplaceAll(s[|pattern|..], pattern, replacement)
    else if s == [] then []
    else [s[0]] + ReplaceAll(s[1..], pattern, replacement)
  }

  /** Replacing a one-character pattern by a one-character string substitutes character by character. */
  lemma {:induction false} ReplaceAllOneChar(s: string, c: char, d: char)
    ensures ReplaceAll(s, [c], [d]) == Substitute(s, c, d)
    decreases |s|
  {
    if s != [] {
      ReplaceAllOneChar(s[1..], c, d);
      if [c] <= s {
        assert s[|[c]|..] == s[1..];
      }
    }
  }

  /** A pattern holding a character that `s` lacks never occurs in `s`, so `replace` leaves `s` as it is. */
  lemma {:induction false} ReplaceAllAbsent(s: string, pattern: string, replacement: string, c: char)
    requires c in pattern && c !in s
    ensures ReplaceAll(s, pattern, replacement) == s
    decreases |s|
  {
    if s != [] {
      ReplaceAllAbsent(s[1..], pattern, replacement, c);
    }
  }

  /** When `s` starts with a non-empty pattern, the first occurrence is the prefix. */
  lemma ReplaceAllPrefix(pattern: string, rest: string, replacement: string)
    requires pattern != []
    ensures ReplaceAll(pattern + rest, pattern, replacement) == replacement + ReplaceAll(rest, pattern, replacement)
  {
    assert pattern <= pattern + rest;
    assert (pattern + rest)[|pattern|..] == rest;
  }

  /**
   * Code-point order on strings, a proper prefix first: the order SQLite's
   * default BINARY collation gives to UTF-8 TEXT in `ORDER BY`.
   */
  predicate LexLeq(a: string, b: string)
    decreases |a|
  {
    a == [] || (b != [] && (a[0] < b[0] || (a[0] == b[0] && LexLeq(a[1..], b[1..]))))
  }

  lemma {:induction false} LexLeqTotal(a: string, b: string)
    ensures LexLeq(a, b) || LexLeq(b, a)
    decreases |a|
  {
    if a != [] && b != [] && a[0] == b[0] {
      LexLeqTotal(a[1..], b[1..]);
    }
  }

  lemma {:induction false} LexLeqTransitive(a: string, b: string, c: string)
    requires LexLeq(a, b) && LexLeq(b, c)
    ensures LexLeq(a, c)
    decreases |a|
  {
    if a != [] && a[0] == b[0] && b[0] == c[0] {
      LexLeqTransitive(a[1..], b[1..], c[1..]);
    }
  }

  lemma {:induction false} LexLeqAntisymmetric(a: string, b: string)
    requires LexLeq(a, b) && LexLeq(b, a)
    ensures a == b
    decreases |a|
  {
    if a != [] {
      LexLeqAntisymmetric(a[1..], b[1..]);
    }
  }

  /** The directory separator `os.path.join` inserts. */
  const Separator: char := '/'

  /** `os.path.join(directory, name)` for a relative `name`. */
  function Join(directory: string, name: string): string {
    directory + [Separator] + name
  }

  /** The index of the last `c` in `s`, or -1. */
  function LastIndexOf(s: string, c: char): (k: int)
    ensures -1 <= k < |s|
    ensures k >= 0 ==> s[k] == c
    ensures forall i :: k < i < |s| ==> s[i] != c
  {
    if s == [] then -1 else if s[|s| - 1] == c then |s| - 1 else LastIndexOf(s[..|s| - 1], c)
  }

  function Max(a: int, b: int): int {
    if a < b then b else a
  }

  /**
   * The second half of `os.path.splitext(path)` (Windows rules: both `/` and
   * `\` separate components): from the last dot of the final component, unless
   * only dots precede that dot in the component; otherwise empty.
   */
  function Extension(path: string): (ext: string)
    ensures ext == [] || (ext[0] == '.' && |ext| <= |path| && ext == path[|path| - |ext|..])
    ensures forall i :: 0 <= i < |ext| ==> ext[i] != '/' && ext[i] != '\\'
    ensures forall i :: 0 < i < |ext| ==> ext[i] != '.'
  {
    var sep := Max(LastIndexOf(path, '/'), LastIndexOf(path, '\\'));
    var dot := LastIndexOf(path, '.');
    if sep < dot && exists k :: sep < k < dot && path[k] != '.' then path[dot..] else ""
  }

  /** The last `c` is at `k` when `s[k]` is `c` and no `c` follows. */
  lemma LastIndexOfAt(s: string, c: char, k: int)
    requires 0 <= k < |s| && s[k] == c
    requires forall i :: k < i < |s| ==> s[i] != c
    ensures LastIndexOf(s, c) == k
  {
  }

  /** The last `c` is before `k` when no `c` occurs from `k` on. */
  lemma LastIndexOfBefore(s: string, c: char, k: int)
    requires 0 <= k <= |s|
    requires forall i :: k <= i < |s| ==> s[i] != c
    ensures LastIndexOf(s, c) < k
  {
  }

  /**
   * The extension of `directory/base + ext`, where `ext` is a dot followed by
   * no dot and neither part holds a separator, is `ext` as long as `base`
   * holds a character other than a dot.
   */
  lemma ExtensionOfJoin(directory: string, base: string, ext: string, m: int)
    requires forall i :: 0 <= i < |base| ==> base[i] != '/' && base[i] != '\\'
    requires forall i :: 0 <= i < |ext| ==> ext[i] != '/' && ext[i] != '\\'
    requires |ext| > 0 && ext[0] == '.' && forall i :: 0 < i < |ext| ==> ext[i] != '.'
    requires 0 <= m < |base| && base[m] != '.'
    ensures Extension(Join(directory, base + ext)) == ext
  {
    var s := Join(directory, base + ext);
    var dot := |directory| + 1 + |base|;
    forall i | dot < i < |s| ensures s[i] != '.' {
      assert s[i] == ext[i - dot];
    }
    LastIndexOfAt(s, '.', dot);
    forall i | |directory| < i < |s| ensures s[i] != '/' && s[i] != '\\' {
      if i < dot {
        assert s[i] == base[i - |directory| - 1];
      } else {
        assert s[i] == ext[i - dot];
      }
    }
    LastIndexOfAt(s, '/', |directory|);
    LastIndexOfBefore(s, '\\', |directory|);
    assert s[|directory| + 1 + m] == base[m];
    assert s[dot..] == ext;
  }
}
