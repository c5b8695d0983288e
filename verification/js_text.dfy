/** The few JavaScript string operations the handlers rely on: ASCII case
    folding (`toLowerCase` and the `i` flag of a regular expression, as far as
    the ASCII patterns compared here can tell), `trim`, `split` on a single
    character, suffix tests (a regular expression anchored with `$`),
    unanchored substring search (`RegExp.prototype.test` with a plain
    alternation) and the decimal rendering of a number in a template string. */
module JsText {

  // ---------------------------------------------------------------------------
  // Case folding

  function LowerChar(c: char): char {
    if 'A' <= c <= 'Z' then (c as int + 32) as char else c
  }

  /** Folds ASCII upper-case letters to lower case and leaves every other
      character alone. No non-ASCII character folds onto one of the ASCII
      letters of the patterns matched in this model, so comparisons of a
      folded string against those patterns agree with `toLowerCase` and with
      the `i` flag. */
  function Lower(s: string): (r: string)
    ensures |r| == |s|
    ensures forall i :: 0 <= i < |s| ==> r[i] == LowerChar(s[i])
    ensures forall i :: 0 <= i < |r| ==> !('A' <= r[i] <= 'Z')
  {
    seq(|s|, i requires 0 <= i < |s| => LowerChar(s[i]))
  }

  /** Folding twice is folding once. */
  lemma LowerIdempotent(s: string)
    ensures Lower(Lower(s)) == Lower(s)
  {
  }

  // ---------------------------------------------------------------------------
  // Prefixes, suffixes and substrings

  predicate EndsWith(s: string, suffix: string) {
    |suffix| <= |s| && s[|s| - |suffix|..] == suffix
  }

  /** `p` occurs in `s` starting at index `i`. */
  predicate OccursAt(s: string, p: string, i: int) {
    0 <= i && i + |p| <= |s| && s[i..i + |p|] == p
  }

  /** `p` occurs somewhere in `s`: what `/p/.test(s)` decides. */
  predicate Contains(s: string, p: string) {
    exists i :: 0 <= i <= |s| - |p| && OccursAt(s, p, i)
  }

  /** One differing character rules out an occurrence at `i`. */
  lemma Mismatch(s: string, p: string, i: int, k: int)
    requires 0 <= i && i + |p| <= |s| && 0 <= k < |p| && s[i + k] != p[k]
    ensures !OccursAt(s, p, i)
  {
  }

  /** A suffix is an occurrence. */
  lemma EndsWithContains(s: string, p: string)
    requires EndsWith(s, p)
    ensures Contains(s, p)
  {
    assert OccursAt(s, p, |s| - |p|);
  }

  /** Case folding works character by character, so it distributes over concatenation. */
  lemma LowerConcat(a: string, b: string)
    ensures Lower(a + b) == Lower(a) + Lower(b)
  {
    assert forall i :: 0 <= i < |a + b| ==> (a + b)[i] == if i < |a| then a[i] else b[i - |a|];
  }

  /** Folded, a dot followed by `e` contains `e` folded. */
  lemma FoldedDotContains(e: string)
    ensures Contains(Lower("." + e), Lower(e))
  {
    var p := Lower("." + e);
    var f := Lower(e);
    forall i | 0 <= i < |f| ensures p[1..1 + |f|][i] == f[i] {
      assert ("." + e)[1 + i] == e[i];
    }
    assert OccursAt(p, f, 1);
  }

  /** The last index below `n` holding `c`, or -1. */
  function LastIndexBelow(s: string, c: char, n: nat): (r: int)
    requires n <= |s|
    ensures -1 <= r < n
    ensures r >= 0 ==> s[r] == c
    ensures forall i :: r < i < n ==> s[i] != c
    decreases n
  {
    if n == 0 then -1
    else if s[n - 1] == c then n - 1
    else LastIndexBelow(s, c, n - 1)
  }

  /** `s.lastIndexOf(c)`: the index of the last `c` in `s`, or -1. */
  function LastIndexOf(s: string, c: char): (r: int)
    ensures -1 <= r < |s|
    ensures r >= 0 ==> s[r] == c
    ensures forall i :: r < i < |s| ==> s[i] != c
  {
    LastIndexBelow(s, c, |s|)
  }

  /** An index holding `c` with no `c` after it is the last index of `c`. */
  lemma LastIndexOfIs(s: string, c: char, k: int)
    requires 0 <= k < |s| && s[k] == c
    requires forall i :: k < i < |s| ==> s[i] != c
    ensures LastIndexOf(s, c) == k
  {
  }

  /** The last `c` of `x + [c] + e` is the one before `e` when `e` has none. */
  lemma LastIndexOfJoin(x: string, c: char, e: string)
    requires c !in e
    ensures LastIndexOf(x + [c] + e, c) == |x|
  {
    var s := x + [c] + e;
    forall i | |x| < i < |s| ensures s[i] != c {
      assert s[i] == e[i - |x| - 1];
    }
    LastIndexOfIs(s, c, |x|);
  }

  // ---------------------------------------------------------------------------
  // Extension patterns: `/\.(a|b|c)$/i`

  /** No extension of the set contains a dot. */
  predicate DotFree(exts: set<string>) {
    forall e :: e in exts ==> '.' !in e
  }

  /** `/\.(e1|e2|…)$/i.test(s)`: `s` ends, ignoring case, with a dot and one
      of the extensions. */
  predicate EndsWithExt(s: string, exts: set<string>) {
    exists e :: e in exts && EndsWith(Lower(s), "." + e)
  }

  /** A string the extension pattern matches has a dot. */
  lemma EndsWithExtHasDot(s: string, exts: set<string>)
    ensures EndsWithExt(s, exts) ==> '.' in s
  {
    if EndsWithExt(s, exts) {
      var e :| e in exts && EndsWith(Lower(s), "." + e);
      var k := |s| - |e| - 1;
      assert Lower(s)[k] == ("." + e)[0];
      assert s[k] == '.';
    }
  }

  /** When `s`, folded, ends in a dot and a dot-free `e`, its last dot is that one. */
  lemma SuffixIsLastDot(s: string, e: string)
    requires '.' !in e && EndsWith(Lower(s), "." + e)
    ensures LastIndexOf(s, '.') == |s| - |e| - 1
    ensures Lower(s[|s| - |e|..]) == e
  {
    var p := Lower(s);
    var d := |s| - |e| - 1;
    assert p[d..] == "." + e;
    assert p[d] == p[d..][0];
    forall i | d < i < |s| ensures s[i] != '.' {
      assert p[i] == p[d..][i - d];
      assert e[i - d - 1] in e;
    }
    LastIndexOfIs(s, '.', d);
    var tail := s[d + 1..];
    forall i | 0 <= i < |tail| ensures Lower(tail)[i] == e[i] {
      assert tail[i] == s[d + 1 + i];
      assert p[d + 1 + i] == p[d..][1 + i];
    }
  }

  /** Folded, `s` ends with a dot and the folded text after its last dot. */
  lemma LastDotIsSuffix(s: string)
    requires LastIndexOf(s, '.') >= 0
    ensures var k := LastIndexOf(s, '.');
            EndsWith(Lower(s), "." + Lower(s[k + 1..]))
  {
    var k := LastIndexOf(s, '.');
    var p := Lower(s);
    var e := Lower(s[k + 1..]);
    forall j | 0 <= j < |s| - k ensures p[k..][j] == ("." + e)[j] {
      if j > 0 {
        assert s[k + 1..][j - 1] == s[k + j];
      }
    }
    assert p[k..] == "." + e;
  }

  lemma ExtSuffixHasLastDot(s: string, exts: set<string>)
    requires DotFree(exts) && EndsWithExt(s, exts)
    ensures LastIndexOf(s, '.') >= 0 && Lower(s[LastIndexOf(s, '.') + 1..]) in exts
  {
    var e :| e in exts && EndsWith(Lower(s), "." + e);
    SuffixIsLastDot(s, e);
  }

  lemma LastDotHasExtSuffix(s: string, exts: set<string>)
    requires LastIndexOf(s, '.') >= 0 && Lower(s[LastIndexOf(s, '.') + 1..]) in exts
    ensures EndsWithExt(s, exts)
  {
    LastDotIsSuffix(s);
  }

  /** For dot-free extensions, the suffix pattern decides on the text after
      the last dot alone. */
  lemma EndsWithExtIsLastDot(s: string, exts: set<string>)
    requires DotFree(exts)
    ensures EndsWithExt(s, exts) <==>
              (LastIndexOf(s, '.') >= 0 && Lower(s[LastIndexOf(s, '.') + 1..]) in exts)
  {
    if EndsWithExt(s, exts) {
      ExtSuffixHasLastDot(s, exts);
    }
    if LastIndexOf(s, '.') >= 0 && Lower(s[LastIndexOf(s, '.') + 1..]) in exts {
      LastDotHasExtSuffix(s, exts);
    }
  }

  // ---------------------------------------------------------------------------
  // trim

  /** The characters `String.prototype.trim` removes: the ECMAScript
      WhiteSpace and LineTerminator productions. */
  predicate IsJsSpace(c: char) {
    || ('\U{0009}' <= c <= '\U{000D}')
    || c == '\U{0020}' || c == '\U{00A0}' || c == '\U{1680}'
    || ('\U{2000}' <= c <= '\U{200A}')
    || c == '\U{2028}' || c == '\U{2029}' || c == '\U{202F}' || c == '\U{205F}'
    || c == '\U{3000}' || c == '\U{FEFF}'
  }

  predicate AllSpace(s: string) {
    forall i :: 0 <= i < |s| ==> IsJsSpace(s[i])
  }

  function TrimStart(s: string): (r: string)
    ensures |r| <= |s| && r == s[|s| - |r|..]
    ensures AllSpace(s[..|s| - |r|])
    ensures |r| > 0 ==> !IsJsSpace(r[0])
  {
    if |s| > 0 && IsJsSpace(s[0]) then
      var r := TrimStart(s[1..]);
      assert s[..|s| - |r|] == [s[0]] + s[1..][..|s[1..]| - |r|];
      r
    else s
  }

  function TrimEnd(s: string): (r: string)
    ensures |r| <= |s| && r == s[..|r|]
    ensures AllSpace(s[|r|..])
    ensures |r| > 0 ==> !IsJsSpace(r[|r| - 1])
  {
    if |s| > 0 && IsJsSpace(s[|s| - 1]) then
      var r := TrimEnd(s[..|s| - 1]);
      assert s[|r|..] == s[..|s| - 1][|r|..] + [s[|s| - 1]];
      r
    else s
  }

  /** `s.trim()`: the slice of `s` left after removing leading and trailing
      white space. */
  function Trim(s: string): string {
    TrimEnd(TrimStart(s))
  }

  /** The trimmed text is a slice of the input that starts and ends with a
      non-space character, and only white space was cut off either side. */
  lemma {:induction false} TrimIsCore(s: string)
    ensures exists i, j :: 0 <= i <= j <= |s| && Trim(s) == s[i..j]
              && AllSpace(s[..i]) && AllSpace(s[j..])
    ensures |Trim(s)| > 0 ==> !IsJsSpace(Trim(s)[0]) && !IsJsSpace(Trim(s)[|Trim(s)| - 1])
  {
    var t := TrimStart(s);
    var i := |s| - |t|;
    var r := TrimEnd(t);
    var j := i + |r|;
    assert r == s[i..j];
    assert s[j..] == t[|r|..];
  }

  /** `!s.trim()` holds exactly when every character of `s` is white space. */
  lemma {:induction false} TrimEmptyIffAllSpace(s: string)
    ensures Trim(s) == "" <==> AllSpace(s)
  {
    TrimIsCore(s);
    if Trim(s) == "" {
      var i, j :| 0 <= i <= j <= |s| && Trim(s) == s[i..j] && AllSpace(s[..i]) && AllSpace(s[j..]);
      assert i == j;
      forall k | 0 <= k < |s| ensures IsJsSpace(s[k]) {
        if k < i { assert s[..i][k] == s[k]; } else { assert s[j..][k - j] == s[k]; }
      }
    } else {
      var c := Trim(s)[0];
      var i, j :| 0 <= i <= j <= |s| && Trim(s) == s[i..j] && AllSpace(s[..i]) && AllSpace(s[j..]);
      assert s[i] == c && !IsJsSpace(c);
    }
  }

  // ---------------------------------------------------------------------------
  // split on one character

  /** `s.split(c)` for a one-character separator: the maximal runs between
      separators, empty runs included. */
  function Split(s: string, c: char): (r: seq<string>)
    ensures |r| >= 1
    ensures forall k :: 0 <= k < |r| ==> c !in r[k]
    decreases |s|
  {
    if |s| == 0 then [""]
    else
      var rest := Split(s[1..], c);
      if s[0] == c then [""] + rest
      else [[s[0]] + rest[0]] + rest[1..]
  }

  /** `parts.join(c)`. */
  function Join(parts: seq<string>, c: char): string
    requires |parts| >= 1
  {
    if |parts| == 1 then parts[0] else parts[0] + [c] + Join(parts[1..], c)
  }

  /** Joining the fields of a split restores the string. */
  lemma {:induction false} JoinSplit(s: string, c: char)
    ensures Join(Split(s, c), c) == s
    decreases |s|
  {
    if |s| > 0 {
      var rest := Split(s[1..], c);
      JoinSplit(s[1..], c);
      if s[0] != c {
        if |rest| == 1 {
        } else {
          assert rest[1..][..] == rest[1..];
          assert Join(rest, c) == rest[0] + [c] + Join(rest[1..], c);
          assert Join(Split(s, c), c) == [s[0]] + rest[0] + [c] + Join(rest[1..], c);
        }
        assert s == [s[0]] + s[1..];
      } else {
        assert s == [c] + s[1..];
      }
    }
  }

  /** Splitting a join of separator-free fields gives back the fields. */
  lemma {:induction false} SplitJoin(parts: seq<string>, c: char)
    requires |parts| >= 1
    requires forall k :: 0 <= k < |parts| ==> c !in parts[k]
    ensures Split(Join(parts, c), c) == parts
    decreases |parts|, |parts[0]|
  {
    if |parts[0]| == 0 {
      if |parts| > 1 {
        SplitJoin(parts[1..], c);
        var j := Join(parts, c);
        assert j == [c] + Join(parts[1..], c);
        assert j[1..] == Join(parts[1..], c);
        assert parts == [""] + parts[1..];
      }
    } else {
      var head := parts[0];
      var shorter := [head[1..]] + parts[1..];
      assert head[0] != c by { assert head[0] in head; }
      assert forall k :: 0 <= k < |shorter| ==> c !in shorter[k] by {
        forall k | 0 <= k < |shorter| ensures c !in shorter[k] {
          if k == 0 {
            assert forall x :: x in head[1..] ==> x in head;
          } else {
            assert shorter[k] == parts[k];
          }
        }
      }
      SplitJoin(shorter, c);
      JoinTail(parts, c);
      assert Join(parts, c)[1..] == Join(shorter, c);
      var rest := Split(Join(shorter, c), c);
      assert [head[0]] + rest[0] == head;
      assert [head] + rest[1..] == parts;
    }
  }

  /** Dropping the first character of a join drops it from the first field. */
  lemma JoinTail(parts: seq<string>, c: char)
    requires |parts| >= 1 && |parts[0]| > 0
    ensures |Join(parts, c)| > 0 && Join(parts, c)[0] == parts[0][0]
    ensures Join(parts, c)[1..] == Join([parts[0][1..]] + parts[1..], c)
  {
    var h := parts[0];
    var shorter := [h[1..]] + parts[1..];
    assert h == [h[0]] + h[1..];
    if |parts| > 1 {
      var rest := Join(parts[1..], c);
      assert shorter[1..] == parts[1..];
      assert Join(shorter, c) == h[1..] + [c] + rest;
      assert Join(parts, c) == [h[0]] + (h[1..] + [c] + rest);
    }
  }

  // ---------------------------------------------------------------------------
  // Decimal rendering of a number in a template string

  function DigitChar(d: nat): (r: char)
    requires d < 10
    ensures '0' <= r <= '9' && r as int - '0' as int == d
  {
    ('0' as int + d) as char
  }

  /** `${n}` for a non-negative integer `n`. */
  function Decimal(n: nat): (r: string)
    ensures |r| >= 1
    ensures forall i :: 0 <= i < |r| ==> '0' <= r[i] <= '9'
  {
    if n < 10 then [DigitChar(n)] else Decimal(n / 10) + [DigitChar(n % 10)]
  }

  /** Reads back a string of decimal digits. */
  function DecimalValue(s: string): nat
    requires forall i :: 0 <= i < |s| ==> '0' <= s[i] <= '9'
  {
    if |s| == 0 then 0 else 10 * DecimalValue(s[..|s| - 1]) + (s[|s| - 1] as int - '0' as int)
  }

  /** The rendering reads back as the number it renders. */
  lemma {:induction false} DecimalRoundTrip(n: nat)
    ensures DecimalValue(Decimal(n)) == n
  {
    if n >= 10 {
      DecimalRoundTrip(n / 10);
      var r := Decimal(n);
      assert r[..|r| - 1] == Decimal(n / 10);
    }
  }
}
