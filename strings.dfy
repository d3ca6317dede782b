/**
 * The handful of Python `str` operations the analysis engine relies on:
 * `strip`, `lstrip(chars)`, ASCII `lower`, substring search (`in`),
 * `sep.join(parts)` and `s.split(sep)`.
 */
module Strings {

  /** The code points Python's `str.isspace()` accepts; `strip()` removes exactly these. */
  predicate IsSpace(c: char) {
    var n := c as int;
    n == 0x20 || 0x09 <= n <= 0x0d || 0x1c <= n <= 0x1f || n == 0x85 || n == 0xa0
    || n == 0x1680 || 0x2000 <= n <= 0x200a || n == 0x2028 || n == 0x2029
    || n == 0x202f || n == 0x205f || n == 0x3000
  }

  /** Neither end of `s` is whitespace. */
  predicate IsStripped(s: string) {
    s == [] || (!IsSpace(s[0]) && !IsSpace(s[|s| - 1]))
  }

  /** The first position at or after `i` that does not hold whitespace, or `|s|`. */
  function SkipSpace(s: string, i: nat): (j: nat)
    requires i <= |s|
    ensures i <= j <= |s|
    ensures forall k :: i <= k < j ==> IsSpace(s[k])
    ensures j == |s| || !IsSpace(s[j])
    decreases |s| - i
  {
    if i < |s| && IsSpace(s[i]) then SkipSpace(s, i + 1) else i
  }

  /** The end of `s[lo..hi]` once its trailing whitespace is dropped. */
  function TrimEnd(s: string, lo: nat, hi: nat): (e: nat)
    requires lo <= hi <= |s|
    ensures lo <= e <= hi
    ensures forall k :: e <= k < hi ==> IsSpace(s[k])
    ensures e == lo || !IsSpace(s[e - 1])
    decreases hi
  {
    if hi > lo && IsSpace(s[hi - 1]) then TrimEnd(s, lo, hi - 1) else hi
  }

  /** `s.strip()`: drop whitespace at both ends. */
  function Strip(s: string): (r: string)
    ensures IsStripped(r) && |r| <= |s|
  {
    var a := SkipSpace(s, 0);
    var e := TrimEnd(s, a, |s|);
    assert a < |s| ==> a < e;
    s[a..e]
  }

  /** `s.strip()` is empty exactly when `s` is all whitespace. */
  lemma StripEmptyIff(s: string)
    ensures Strip(s) == [] <==> forall i :: 0 <= i < |s| ==> IsSpace(s[i])
  {
    var a := SkipSpace(s, 0);
    var e := TrimEnd(s, a, |s|);
    assert Strip(s) == s[a..e];
    if a < |s| {
      assert a < e;
    }
  }

  /** Stripping leaves a string with no whitespace at either end unchanged. */
  lemma StrippedIsFixed(s: string)
    requires IsStripped(s)
    ensures Strip(s) == s
  {
    if s != [] {
      assert SkipSpace(s, 0) == 0;
      assert TrimEnd(s, 0, |s|) == |s|;
      assert s[0..|s|] == s;
    }
  }

  /** `strip` is idempotent. */
  lemma StripIdempotent(s: string)
    ensures Strip(Strip(s)) == Strip(s)
  {
    StrippedIsFixed(Strip(s));
  }

  /** The first position at or after `i` whose character is not in `chars`, or `|s|`. */
  function SkipChars(s: string, chars: set<char>, i: nat): (j: nat)
    requires i <= |s|
    ensures i <= j <= |s|
    ensures forall k :: i <= k < j ==> s[k] in chars
    ensures j == |s| || s[j] !in chars
    decreases |s| - i
  {
    if i < |s| && s[i] in chars then SkipChars(s, chars, i + 1) else i
  }

  /** `s.lstrip(chars)`: drop the leading characters that belong to `chars`. */
  function LStripChars(s: string, chars: set<char>): (r: string)
    ensures |r| <= |s| && OccursAt(s, r, |s| - |r|)
    ensures forall k :: 0 <= k < |s| - |r| ==> s[k] in chars
    ensures r == [] || r[0] !in chars
  {
    s[SkipChars(s, chars, 0)..]
  }

  /** ASCII lower-casing of one character. */
  function LowerChar(c: char): (d: char)
    ensures !('A' <= d <= 'Z')
    ensures 'A' <= c <= 'Z' ==> d as int == c as int + 32
    ensures !('A' <= c <= 'Z') ==> d == c
  {
    if 'A' <= c <= 'Z' then (c as int + 32) as char else c
  }

  /** `s.lower()`, restricted to ASCII letters. */
  function Lower(s: string): (r: string)
    ensures |r| == |s|
    ensures forall i :: 0 <= i < |s| ==> r[i] == LowerChar(s[i])
  {
    seq(|s|, i requires 0 <= i < |s| => LowerChar(s[i]))
  }

  /** `p` occurs in `s` at position `i`. */
  predicate OccursAt(s: string, p: string, i: int) {
    0 <= i && i + |p| <= |s| && s[i..i + |p|] == p
  }

  /** Python's `p in s` on strings: `p` occurs somewhere in `s`. */
  predicate Contains(s: string, p: string)
    ensures Contains(s, p) ==> |p| <= |s|
    ensures |p| == 0 ==> Contains(s, p)
    decreases |s|
  {
    if |s| < |p| then false else s[..|p|] == p || Contains(s[1..], p)
  }

  /** `Contains` holds exactly when some position holds an occurrence. */
  lemma {:induction false} ContainsIff(s: string, p: string)
    ensures Contains(s, p) <==> exists i :: OccursAt(s, p, i)
    decreases |s|
  {
    if |s| >= |p| && s[..|p|] == p {
      assert OccursAt(s, p, 0);
    } else if |s| >= |p| {
      assert |s| > 0;
      ContainsIff(s[1..], p);
      if Contains(s[1..], p) {
        var i :| OccursAt(s[1..], p, i);
        assert s[1..][i..i + |p|] == s[i + 1..i + 1 + |p|];
        assert OccursAt(s, p, i + 1);
      }
      if i :| OccursAt(s, p, i) {
        assert i != 0;
        if i > 0 {
          assert s[1..][i - 1..i - 1 + |p|] == s[i..i + |p|];
          assert OccursAt(s[1..], p, i - 1);
        }
      }
    }
  }

  /** A slice of a slice is a slice of the original. */
  lemma SliceOfSlice(s: string, a: nat, b: nat, c: nat, d: nat)
    requires a <= b <= |s| && c <= d <= b - a
    ensures s[a..b][c..d] == s[a + c..a + d]
  {
    var x, y := s[a..b][c..d], s[a + c..a + d];
    assert |x| == |y|;
    forall k | 0 <= k < |x| ensures x[k] == y[k] {
      assert x[k] == s[a..b][c + k];
    }
  }

  /** An occurrence at a known position is a witness for `Contains`. */
  lemma ContainsAt(s: string, p: string, i: int)
    requires OccursAt(s, p, i)
    ensures Contains(s, p)
  {
    ContainsIff(s, p);
  }

  /** `any(k in s for k in keys)`. */
  predicate ContainsAny(s: string, keys: seq<string>) {
    exists k :: k in keys && Contains(s, k)
  }

  /** `sep.join(parts)`. */
  function Join(parts: seq<string>, sep: string): (r: string)
    ensures |parts| == 0 ==> r == ""
    ensures |parts| == 1 ==> r == parts[0]
    ensures |parts| > 0 ==> |r| >= |parts[0]|
    decreases |parts|
  {
    if |parts| == 0 then ""
    else if |parts| == 1 then parts[0]
    else parts[0] + sep + Join(parts[1..], sep)
  }

  /** Joining `p :: rest` puts `p` and a separator in front of joining `rest`. */
  lemma JoinCons(p: string, rest: seq<string>, sep: string)
    requires |rest| > 0
    ensures Join([p] + rest, sep) == p + sep + Join(rest, sep)
  {
    assert ([p] + rest)[1..] == rest;
  }

  /** No occurrence of `sep` starts in `s[from..to]`. */
  predicate NoOccurrenceIn(s: string, sep: string, from: int, to: int) {
    forall j :: from <= j < to ==> !OccursAt(s, sep, j)
  }

  /**
   * The scan behind `s.split(sep)`: the current piece began at `start`, and
   * positions `start..i` have been checked and hold no separator.
   */
  function SplitFrom(s: string, sep: string, start: nat, i: nat): (r: seq<string>)
    requires |sep| > 0 && start <= i <= |s|
    requires NoOccurrenceIn(s, sep, start, i)
    ensures |r| >= 1
    ensures Join(r, sep) == s[start..]
    ensures forall k :: 0 <= k < |r| ==> !Contains(r[k], sep)
    decreases |s| - i
  {
    if i + |sep| > |s| then
      var piece := s[start..];
      assert piece == s[start..|s|];
      assert !Contains(piece, sep) by { NoOccurrenceInPiece(s, sep, start, i, |s|); }
      [piece]
    else if s[i..i + |sep|] == sep then
      var piece := s[start..i];
      assert !Contains(piece, sep) by { NoOccurrenceInPiece(s, sep, start, i, i); }
      var rest := SplitFrom(s, sep, i + |sep|, i + |sep|);
      JoinCons(piece, rest, sep);
      SliceInThree(s, start, i, i + |sep|);
      [piece] + rest
    else
      SplitFrom(s, sep, start, i + 1)
  }

  /** Cutting a suffix at two positions gives three consecutive slices. */
  lemma SliceInThree(s: string, a: nat, b: nat, c: nat)
    requires a <= b <= c <= |s|
    ensures s[a..] == s[a..b] + s[b..c] + s[c..]
  {
    var x := s[a..b] + s[b..c] + s[c..];
    forall k | 0 <= k < |x| ensures x[k] == s[a..][k] {
      if k < b - a {
        assert x[k] == s[a + k];
      } else if k < c - a {
        assert x[k] == s[b..c][k - (b - a)];
      } else {
        assert x[k] == s[c..][k - (c - a)];
      }
    }
  }

  /** A piece `s[start..end]` whose possible separator starts were all checked holds none. */
  lemma NoOccurrenceInPiece(s: string, sep: string, start: nat, i: nat, end: nat)
    requires |sep| > 0 && start <= i <= end <= |s|
    requires NoOccurrenceIn(s, sep, start, i)
    requires end == i || end < i + |sep|
    ensures !Contains(s[start..end], sep)
  {
    NoOccurrenceAtAll(s, sep, start, i, end);
    ContainsIff(s[start..end], sep);
  }

  lemma NoOccurrenceAtAll(s: string, sep: string, start: nat, i: nat, end: nat)
    requires |sep| > 0 && start <= i <= end <= |s|
    requires NoOccurrenceIn(s, sep, start, i)
    requires end == i || end < i + |sep|
    ensures forall j :: !OccursAt(s[start..end], sep, j)
  {
    var piece := s[start..end];
    forall j | 0 <= j && j + |sep| <= |piece| ensures !OccursAt(piece, sep, j) {
      assert start <= start + j < i;
      assert !OccursAt(s, sep, start + j);
      SliceOfSlice(s, start, end, j, j + |sep|);
    }
  }

  /** `s.split(sep)` for a non-empty separator. */
  function Split(s: string, sep: string): (r: seq<string>)
    requires |sep| > 0
    ensures |r| >= 1
    ensures forall k :: 0 <= k < |r| ==> !Contains(r[k], sep)
  {
    SplitFrom(s, sep, 0, 0)
  }

  /** Joining the pieces of a split with the same separator gives back the string. */
  lemma JoinSplit(s: string, sep: string)
    requires |sep| > 0
    ensures Join(Split(s, sep), sep) == s
  {
    assert s[0..] == s;
  }

  /** An occurrence inside `s` is an occurrence inside `a + s + b`, shifted by `|a|`. */
  lemma OccursInContext(a: string, s: string, b: string, p: string, i: int)
    requires OccursAt(s, p, i)
    ensures OccursAt(a + s + b, p, |a| + i)
  {
    assert (a + s + b)[|a| + i..|a| + i + |p|] == s[i..i + |p|];
  }

  /** An occurrence inside `a` is an occurrence inside `a + b` at the same place. */
  lemma OccursInPrefix(a: string, b: string, p: string, i: int)
    requires OccursAt(a, p, i)
    ensures OccursAt(a + b, p, i)
  {
    assert (a + b)[i..i + |p|] == a[i..i + |p|];
  }

  /** Every part of a join occurs in it. */
  lemma {:induction false} JoinHasParts(parts: seq<string>, sep: string, k: nat)
    requires k < |parts|
    ensures exists i :: OccursAt(Join(parts, sep), parts[k], i)
    decreases |parts|
  {
    if |parts| == 1 {
      assert OccursAt(Join(parts, sep), parts[k], 0);
    } else if k == 0 {
      assert OccursAt(Join(parts, sep), parts[0], 0);
    } else {
      JoinHasParts(parts[1..], sep, k - 1);
      var i :| OccursAt(Join(parts[1..], sep), parts[1..][k - 1], i);
      OccursInContext(parts[0] + sep, Join(parts[1..], sep), "", parts[k], i);
      assert parts[0] + sep + Join(parts[1..], sep) + "" == Join(parts, sep);
    }
  }

  /** An occurrence inside an occurrence is an occurrence, at the summed offset. */
  lemma OccursWithin(s: string, t: string, i: int, p: string, j: int)
    requires OccursAt(s, t, i) && OccursAt(t, p, j)
    ensures OccursAt(s, p, i + j)
  {
    SliceOfSlice(s, i, i + |t|, j, j + |p|);
  }

  /** A string that occurs in `s` contains nothing `s` does not contain. */
  lemma InfixKeepsAbsence(s: string, t: string, i: int, p: string)
    requires OccursAt(s, t, i) && !Contains(s, p)
    ensures !Contains(t, p)
  {
    ContainsIff(s, p);
    ContainsIff(t, p);
    if j :| OccursAt(t, p, j) {
      OccursWithin(s, t, i, p, j);
    }
  }

  /** Lower-casing distributes over concatenation. */
  lemma LowerConcat(a: string, b: string)
    ensures Lower(a + b) == Lower(a) + Lower(b)
  {
  }

  /** A piece of `s` whose lower-cased form contains `p` puts `p` into the lower-cased `s`. */
  lemma LoweredPieceOccurs(pre: string, piece: string, post: string, p: string)
    requires Contains(Lower(piece), p)
    ensures Contains(Lower(pre + piece + post), p)
  {
    ContainsIff(Lower(piece), p);
    var i :| OccursAt(Lower(piece), p, i);
    LowerConcat(pre + piece, post);
    LowerConcat(pre, piece);
    OccursInContext(Lower(pre), Lower(piece), Lower(post), p, i);
    ContainsAt(Lower(pre + piece + post), p, |pre| + i);
  }

  /** A character that `p` does not hold cannot lie inside an occurrence of `p`. */
  lemma AbsentAround(a: string, c: char, b: string, p: string)
    requires forall k :: 0 <= k < |p| ==> p[k] != c
    requires !Contains(a, p) && !Contains(b, p)
    ensures !Contains(a + [c] + b, p)
  {
    var s := a + [c] + b;
    ContainsIff(s, p);
    ContainsIff(a, p);
    ContainsIff(b, p);
    forall i | 0 <= i && i + |p| <= |s| ensures !OccursAt(s, p, i) {
      var x := s[i..i + |p|];
      if i + |p| <= |a| {
        var y := a[i..i + |p|];
        assert !OccursAt(a, p, i);
        forall k | 0 <= k < |p| ensures x[k] == y[k] {
          assert s[i + k] == a[i + k];
        }
        assert x == y;
      } else if i > |a| {
        var j := i - |a| - 1;
        var y := b[j..j + |p|];
        assert !OccursAt(b, p, j);
        forall k | 0 <= k < |p| ensures x[k] == y[k] {
          assert s[i + k] == b[j + k];
        }
        assert x == y;
      } else {
        assert x[|a| - i] == c;
      }
    }
  }

  /** A string that does not contain `q` contains nothing that has `q` inside it. */
  lemma AbsentInfixAbsent(s: string, p: string, q: string, j: int)
    requires OccursAt(p, q, j) && !Contains(s, q)
    ensures !Contains(s, p)
  {
    ContainsIff(s, p);
    ContainsIff(s, q);
    if i :| OccursAt(s, p, i) {
      OccursWithin(s, p, i, q, j);
    }
  }

  /** A word shorter than `q`, or lacking one of the characters `q[j1]` and `q[j2]`, does not contain `q`. */
  lemma WordMisses(w: string, q: string, j1: nat, j2: nat)
    requires j1 < |q| && j2 < |q|
    requires |w| < |q| || q[j1] !in w || q[j2] !in w
    ensures !Contains(w, q)
  {
    ContainsIff(w, q);
    forall i | 0 <= i && i + |q| <= |w| ensures !OccursAt(w, q, i) {
      assert w[i..i + |q|][j1] == w[i + j1] && w[i..i + |q|][j2] == w[i + j2];
    }
  }

  /** From word `k` of `ws` on, every word is shorter than `q` or lacks `q[j1]` or `q[j2]`. */
  predicate WordsFail(ws: seq<string>, q: string, j1: nat, j2: nat, k: nat)
    requires j1 < |q| && j2 < |q|
    decreases |ws| - k
  {
    k >= |ws| || ((|ws[k]| < |q| || q[j1] !in ws[k] || q[j2] !in ws[k]) && WordsFail(ws, q, j1, j2, k + 1))
  }

  /**
   * A space-free `q` that every word of `ws` fails to contain by the test of
   * WordMisses does not occur in the words joined by single spaces.
   */
  lemma {:induction false} WordsMiss(ws: seq<string>, q: string, j1: nat, j2: nat, k: nat)
    requires j1 < |q| && j2 < |q| && forall m :: 0 <= m < |q| ==> q[m] != ' '
    requires k <= |ws| && WordsFail(ws, q, j1, j2, k)
    ensures !Contains(Join(ws[k..], " "), q)
    decreases |ws| - k
  {
    if |ws| - k == 0 {
      ContainsIff("", q);
    } else if |ws| - k == 1 {
      WordMisses(ws[k], q, j1, j2);
    } else {
      var rest := Join(ws[k + 1..], " ");
      WordMisses(ws[k], q, j1, j2);
      WordsMiss(ws, q, j1, j2, k + 1);
      AbsentAround(ws[k], ' ', rest, q);
      assert ws[k..] == [ws[k]] + ws[k + 1..];
      assert ws[k] + " " + rest == ws[k] + [' '] + rest;
    }
  }

  /**
   * A space-free `q` absent from the first word, which every later word fails
   * by the test of WordMisses, does not occur in the words joined by single spaces.
   */
  lemma FirstWordAbsent(ws: seq<string>, q: string, j1: nat, j2: nat)
    requires j1 < |q| && j2 < |q| && forall m :: 0 <= m < |q| ==> q[m] != ' '
    requires |ws| > 1 && !Contains(ws[0], q) && WordsFail(ws, q, j1, j2, 1)
    ensures !Contains(Join(ws, " "), q)
  {
    var rest := Join(ws[1..], " ");
    WordsMiss(ws, q, j1, j2, 1);
    AbsentAround(ws[0], ' ', rest, q);
    assert ws[0] + " " + rest == ws[0] + [' '] + rest;
  }

  /** Lower-casing words one by one lower-cases the sentence they make. */
  lemma {:induction false} LowerJoin(ws: seq<string>, lws: seq<string>)
    requires |ws| == |lws| && forall k :: 0 <= k < |ws| ==> Lower(ws[k]) == lws[k]
    ensures Lower(Join(ws, " ")) == Join(lws, " ")
    decreases |ws|
  {
    if |ws| > 1 {
      LowerJoin(ws[1..], lws[1..]);
      LowerConcat(ws[0] + " ", Join(ws[1..], " "));
      LowerConcat(ws[0], " ");
      assert Lower(" ") == " ";
    }
  }

  /** `Strip(s)` is the piece of `s` left once the whitespace before and after it is dropped: the position at which it occurs. */
  lemma StripOffset(s: string) returns (i: int)
    ensures OccursAt(s, Strip(s), i)
    ensures forall k :: 0 <= k < i ==> IsSpace(s[k])
    ensures forall k :: i + |Strip(s)| <= k < |s| ==> IsSpace(s[k])
  {
    i := SkipSpace(s, 0);
    assert Strip(s) == s[i..TrimEnd(s, i, |s|)];
  }

  /** Whatever occurs in a part of a join occurs in the join. */
  lemma OccursInJoin(parts: seq<string>, sep: string, k: nat, t: string, j: int)
    requires k < |parts| && OccursAt(parts[k], t, j)
    ensures Contains(Join(parts, sep), t)
  {
    JoinHasParts(parts, sep, k);
    var p :| OccursAt(Join(parts, sep), parts[k], p);
    OccursWithin(Join(parts, sep), parts[k], p, t, j);
    ContainsAt(Join(parts, sep), t, p + j);
  }

  /** `a.lstrip(chars).strip()` is a piece of `a`. */
  lemma LStripStripIsInfix(a: string, chars: set<char>) returns (j: int)
    ensures OccursAt(a, Strip(LStripChars(a, chars)), j)
  {
    var b := LStripChars(a, chars);
    assert exists k :: OccursAt(b, Strip(b), k) by {
      var k := StripOffset(b);
    }
    var k :| OccursAt(b, Strip(b), k);
    j := |a| - |b| + k;
    OccursWithin(a, b, |a| - |b|, Strip(b), k);
    assert OccursAt(a, Strip(b), j);
  }

  /** `s.strip().lstrip(chars).strip()` is a piece of `s`. */
  lemma StripLStripStripIsInfix(s: string, chars: set<char>)
    ensures exists i :: OccursAt(s, Strip(LStripChars(Strip(s), chars)), i)
  {
    var t := Strip(s);
    var w := Strip(LStripChars(t, chars));
    assert exists i :: OccursAt(s, t, i) by {
      var i := StripOffset(s);
    }
    var i :| OccursAt(s, t, i);
    var j := LStripStripIsInfix(t, chars);
    OccursWithin(s, t, i, w, j);
    assert OccursAt(s, w, i + j);
  }
}
