/**
 * Models of the JavaScript `String` built-ins that the reconciliation code uses:
 * the `\s` class and `trim()`, `includes`, `split` with a one-character separator,
 * `replace` with a global literal pattern, and per-character `replace` callbacks.
 * A string is a sequence of characters; every character is taken to be one UTF-16
 * code unit (the Basic Multilingual Plane).
 */
module JsText {

  /** The characters of JavaScript's `\s` class, which are also the ones `trim()` removes. */
  predicate IsSpace(c: char) {
    || c == '\t' || c == '\n' || c == '\U{000B}' || c == '\U{000C}' || c == '\r' || c == ' '
    || c == '\U{00A0}' || c == '\U{1680}' || ('\U{2000}' <= c <= '\U{200A}')
    || c == '\U{2028}' || c == '\U{2029}' || c == '\U{202F}' || c == '\U{205F}'
    || c == '\U{3000}' || c == '\U{FEFF}'
  }

  predicate NoSpace(s: string) {
    forall i :: 0 <= i < |s| ==> !IsSpace(s[i])
  }

  /** A string with no white space at either end, as `trim()` leaves it. */
  predicate IsTrimmed(s: string) {
    s == [] || (!IsSpace(s[0]) && !IsSpace(s[|s| - 1]))
  }

  /** The end of the run of white space that starts at `i`. */
  function SpaceEnd(s: string, i: nat): (n: nat)
    requires i <= |s|
    ensures i <= n <= |s|
    ensures forall k :: i <= k < n ==> IsSpace(s[k])
    ensures n < |s| ==> !IsSpace(s[n])
    decreases |s| - i
  {
    if i < |s| && IsSpace(s[i]) then SpaceEnd(s, i + 1) else i
  }

  /** The start of the run of white space that ends at `j`, going no lower than `lo`. */
  function SpaceStart(s: string, lo: nat, j: nat): (n: nat)
    requires lo <= j <= |s|
    ensures lo <= n <= j
    ensures forall k :: n <= k < j ==> IsSpace(s[k])
    ensures lo < n ==> !IsSpace(s[n - 1])
    decreases j - lo
  {
    if lo < j && IsSpace(s[j - 1]) then SpaceStart(s, lo, j - 1) else j
  }

  /** `s[i..j]` is `s` without white space before `i` and from `j` on. */
  predicate SpaceAround(s: string, i: int, j: int)
  {
    && 0 <= i <= j <= |s|
    && (forall k :: 0 <= k < i ==> IsSpace(s[k]))
    && (forall k :: j <= k < |s| ==> IsSpace(s[k]))
  }

  /** `s.trim()`: drops the white space at both ends and nothing else. */
  function Trim(s: string): (r: string)
    ensures IsTrimmed(r)
    ensures exists i, j :: SpaceAround(s, i, j) && r == s[i..j]
    ensures r == [] <==> forall i :: 0 <= i < |s| ==> IsSpace(s[i])
    ensures IsTrimmed(s) ==> r == s
  {
    var i := SpaceEnd(s, 0);
    var j := SpaceStart(s, i, |s|);
    assert SpaceAround(s, i, j);
    assert IsTrimmed(s) && s != [] ==> i == 0 && j == |s|;
    s[i..j]
  }

  /** Where `trim()` cuts: the bounds of the slice it keeps. */
  lemma TrimBounds(s: string) returns (i: nat, j: nat)
    ensures SpaceAround(s, i, j) && Trim(s) == s[i..j]
  {
    i := SpaceEnd(s, 0);
    j := SpaceStart(s, i, |s|);
  }

  /**
   * `trim()` is determined by its two properties: a slice with only white space around
   * it and none at its own ends is what `trim()` returns.
   */
  lemma TrimOfSpaceAround(s: string, i: nat, j: nat)
    requires SpaceAround(s, i, j) && IsTrimmed(s[i..j])
    ensures Trim(s) == s[i..j]
  {
    if i < j {
      assert s[i] == s[i..j][0] && s[j - 1] == s[i..j][j - i - 1];
      var i', j' := TrimBounds(s);
      assert i' == i && j' == j;
    }
  }

  /** `w` occurs in `s` starting at index `i`. */
  predicate OccursAt(s: string, w: string, i: int) {
    0 <= i <= |s| - |w| && s[i..i + |w|] == w
  }

  /** `s.includes(w)`: `w` occurs in `s` at some position (the empty string occurs everywhere). */
  predicate Contains(s: string, w: string)
    ensures Contains(s, w) ==> |w| <= |s|
    ensures w <= s ==> Contains(s, w)
  {
    assert w <= s ==> OccursAt(s, w, 0);
    exists i :: 0 <= i <= |s| - |w| && OccursAt(s, w, i)
  }

  /** An occurrence of an occurrence is an occurrence. */
  lemma ContainsTransitive(a: string, b: string, c: string)
    requires Contains(a, b) && Contains(b, c)
    ensures Contains(a, c)
  {
    var i :| 0 <= i <= |a| - |b| && OccursAt(a, b, i);
    var j :| 0 <= j <= |b| - |c| && OccursAt(b, c, j);
    forall k | 0 <= k < |c|
      ensures a[i + j + k] == c[k]
    {
      assert a[i + j + k] == a[i..i + |b|][j + k] == b[j + k] == b[j..j + |c|][k];
    }
    assert a[i + j..i + j + |c|] == c;
    assert OccursAt(a, c, i + j);
  }

  lemma ContainsChar(s: string, w: string, k: nat)
    requires Contains(s, w) && k < |w|
    ensures w[k] in s
  {
    var i :| 0 <= i <= |s| - |w| && OccursAt(s, w, i);
    assert s[i + k] == s[i..i + |w|][k];
  }

  /** `s.replace(/pat/g, rep)` for a literal pattern: every occurrence, left to right, without overlap. */
  function ReplaceAll(s: string, pat: string, rep: string): (r: string)
    requires pat != []
    ensures forall i :: 0 <= i < |r| ==> r[i] in s || r[i] in rep
    ensures rep == [] ==> |r| <= |s|
    decreases |s|
  {
    if s == [] then []
    else if pat <= s then rep + ReplaceAll(s[|pat|..], pat, rep)
    else [s[0]] + ReplaceAll(s[1..], pat, rep)
  }

  lemma {:induction false} ReplaceAllAbsent(s: string, pat: string, rep: string)
    requires pat != [] && !Contains(s, pat)
    ensures ReplaceAll(s, pat, rep) == s
    decreases |s|
  {
    if s != [] {
      assert !(pat <= s) by {
        assert !OccursAt(s, pat, 0);
      }
      assert !Contains(s[1..], pat) by {
        if Contains(s[1..], pat) {
          var i :| 0 <= i <= |s[1..]| - |pat| && OccursAt(s[1..], pat, i);
          assert s[1..][i..i + |pat|] == s[i + 1..i + 1 + |pat|];
          assert OccursAt(s, pat, i + 1);
        }
      }
      ReplaceAllAbsent(s[1..], pat, rep);
    }
  }

  /** A pattern whose first character does not occur before it is replaced once, at the end. */
  lemma {:induction false} ReplaceAllAtEnd(a: string, pat: string, rep: string)
    requires pat != [] && pat[0] !in a
    ensures ReplaceAll(a + pat, pat, rep) == a + rep
  {
    if a == [] {
      assert a + pat == pat;
      assert pat[|pat|..] == [];
    } else {
      assert (a + pat)[0] == a[0] != pat[0];
      assert (a + pat)[1..] == a[1..] + pat;
      ReplaceAllAtEnd(a[1..], pat, rep);
      assert [a[0]] + (a[1..] + rep) == a + rep;
    }
  }

  /** ASCII case folding, the only folding the `i` flag does for the ASCII patterns of the source. */
  function FoldCase(c: char): char {
    if 'A' <= c <= 'Z' then (c as int + 32) as char else c
  }

  /** `pat` is a prefix of `s` up to ASCII case. */
  predicate PrefixIgnoringCase(pat: string, s: string) {
    |pat| <= |s| && forall k :: 0 <= k < |pat| ==> FoldCase(pat[k]) == FoldCase(s[k])
  }

  /** `s.replace(/pat/gi, rep)`. */
  function ReplaceAllIgnoringCase(s: string, pat: string, rep: string): (r: string)
    requires pat != []
    ensures forall i :: 0 <= i < |r| ==> r[i] in s || r[i] in rep
    ensures rep == [] ==> |r| <= |s|
    decreases |s|
  {
    if s == [] then []
    else if PrefixIgnoringCase(pat, s) then rep + ReplaceAllIgnoringCase(s[|pat|..], pat, rep)
    else [s[0]] + ReplaceAllIgnoringCase(s[1..], pat, rep)
  }

  /** A case-insensitive pattern holding a space never matches text that has no white space. */
  lemma {:induction false} ReplaceIgnoringCaseNeedsSpace(s: string, pat: string, rep: string)
    requires pat != [] && ' ' in pat && NoSpace(s)
    ensures ReplaceAllIgnoringCase(s, pat, rep) == s
    decreases |s|
  {
    if s != [] {
      var k :| 0 <= k < |pat| && pat[k] == ' ';
      if |pat| <= |s| {
        assert FoldCase(s[k]) != FoldCase(pat[k]);
      }
      ReplaceIgnoringCaseNeedsSpace(s[1..], pat, rep);
    }
  }

  /** `s.replace(/[...]/g, f)` with a callback: every character mapped on its own. */
  function MapChars(f: char -> char, s: string): string
  {
    if s == [] then [] else [f(s[0])] + MapChars(f, s[1..])
  }

  /** `xs.map(f)` on an array. */
  function ArrayMap<T, U>(f: T -> U, xs: seq<T>): (ys: seq<U>)
    ensures |ys| == |xs|
  {
    if xs == [] then [] else ArrayMap(f, xs[..|xs| - 1]) + [f(xs[|xs| - 1])]
  }

  /** Element `k` of the mapped array is `f` of element `k`. */
  lemma {:induction false} ArrayMapAt<T, U>(f: T -> U, xs: seq<T>, k: nat)
    requires k < |xs|
    ensures ArrayMap(f, xs)[k] == f(xs[k])
  {
    var n := |xs| - 1;
    if k < n {
      var init := xs[..n];
      ArrayMapAt(f, init, k);
      assert init[k] == xs[k];
    }
  }

  /** `s.replace(/[...]/g, '')`: every character of a class removed. */
  function RemoveWhere(p: char -> bool, s: string): string
  {
    if s == [] then [] else (if p(s[0]) then [] else [s[0]]) + RemoveWhere(p, s[1..])
  }

  lemma {:induction false} MapCharsAppend(f: char -> char, a: string, b: string)
    ensures MapChars(f, a + b) == MapChars(f, a) + MapChars(f, b)
  {
    if a != [] {
      assert (a + b)[0] == a[0];
      assert (a + b)[1..] == a[1..] + b;
      MapCharsAppend(f, a[1..], b);
    } else {
      assert a + b == b;
    }
  }

  /** Nothing is removed from a string none of whose characters satisfies `p`. */
  lemma {:induction false} RemoveWhereNone(p: char -> bool, s: string)
    requires forall i :: 0 <= i < |s| ==> !p(s[i])
    ensures RemoveWhere(p, s) == s
  {
    if s != [] {
      RemoveWhereNone(p, s[1..]);
    }
  }

  lemma {:induction false} RemoveWhereAppend(p: char -> bool, a: string, b: string)
    ensures RemoveWhere(p, a + b) == RemoveWhere(p, a) + RemoveWhere(p, b)
  {
    if a != [] {
      assert (a + b)[0] == a[0];
      assert (a + b)[1..] == a[1..] + b;
      RemoveWhereAppend(p, a[1..], b);
      var h := if p(a[0]) then [] else [a[0]];
      calc {
        RemoveWhere(p, a + b);
        h + RemoveWhere(p, a[1..] + b);
        h + (RemoveWhere(p, a[1..]) + RemoveWhere(p, b));
        (h + RemoveWhere(p, a[1..])) + RemoveWhere(p, b);
        RemoveWhere(p, a) + RemoveWhere(p, b);
      }
    } else {
      assert a + b == b;
    }
  }

  /** `s.split(d)` for a one-character separator. */
  function Split(s: string, d: char): (parts: seq<string>)
    ensures |parts| >= 1
    ensures forall k :: 0 <= k < |parts| ==> d !in parts[k]
    ensures d !in s ==> parts == [s]
  {
    if s == [] then [[]]
    else
      var rest := Split(s[1..], d);
      assert s == [s[0]] + s[1..];
      if s[0] == d then [[]] + rest else [[s[0]] + rest[0]] + rest[1..]
  }

  /** `parts.join(d)`, the inverse of `Split`. */
  function Join(parts: seq<string>, d: char): string
    requires |parts| >= 1
  {
    if |parts| == 1 then parts[0] else parts[0] + [d] + Join(parts[1..], d)
  }

  lemma {:induction false} JoinSplit(s: string, d: char)
    ensures Join(Split(s, d), d) == s
  {
    if s != [] {
      var rest := Split(s[1..], d);
      JoinSplit(s[1..], d);
      if s[0] != d && |rest| > 1 {
        assert rest[1..][1..] == rest[2..];
        assert Join(rest, d) == rest[0] + [d] + Join(rest[1..], d);
      }
    }
  }

  lemma {:induction false} SplitJoin(parts: seq<string>, d: char)
    requires |parts| >= 1
    requires forall k :: 0 <= k < |parts| ==> d !in parts[k]
    ensures Split(Join(parts, d), d) == parts
    decreases |Join(parts, d)|
  {
    if |parts| == 1 {
    } else {
      var s := Join(parts, d);
      SplitJoin(parts[1..], d);
      SplitPrefix(parts[0], Join(parts[1..], d), d);
    }
  }

  /** Splitting `p + [d] + t` where `p` holds no separator puts `p` first. */
  lemma {:induction false} SplitPrefix(p: string, t: string, d: char)
    requires d !in p
    ensures Split(p + [d] + t, d) == [p] + Split(t, d)
    decreases |p|
  {
    if p == [] {
      assert ([d] + t)[1..] == t;
    } else {
      var s, s' := p + [d] + t, p[1..] + [d] + t;
      assert s[0] == p[0] != d && s[1..] == s';
      SplitPrefix(p[1..], t, d);
      var rest := Split(s', d);
      assert rest[0] == p[1..] && rest[1..] == Split(t, d);
      assert Split(s, d) == [[p[0]] + rest[0]] + rest[1..];
      assert [p[0]] + p[1..] == p;
    }
  }

  /** The separator occurs in `s` exactly when the split gives more than one part. */
  lemma {:induction false} SplitSingle(s: string, d: char)
    ensures |Split(s, d)| == 1 <==> d !in s
  {
    if s != [] {
      SplitSingle(s[1..], d);
    }
  }
}
