/**
 * The JavaScript string primitives the popup relies on, over `seq<char>`:
 * `String.prototype.includes` and `split` with a non-empty string separator,
 * both built on a first-occurrence search with `indexOf`'s semantics.
 */
module JsString {
  import opened Wrappers

  /** `pat` occurs in `s` starting at index `i`. */
  predicate OccursAt(s: string, pat: string, i: nat) {
    i + |pat| <= |s| && s[i..i + |pat|] == pat
  }

  /** `s.indexOf(pat)`: the first index where `pat` occurs, `None` for JavaScript's -1. */
  function IndexOf(s: string, pat: string): (r: Option<nat>)
    ensures r.Some? ==> OccursAt(s, pat, r.value)
    ensures r.Some? ==> forall j: nat :: j < r.value ==> !OccursAt(s, pat, j)
    ensures r.None? ==> forall j: nat :: !OccursAt(s, pat, j)
    decreases |s|
  {
    if |s| < |pat| then None
    else if s[..|pat|] == pat then Some(0)
    else
      var rest := IndexOf(s[1..], pat);
      assert !OccursAt(s, pat, 0) by { assert s[0..|pat|] == s[..|pat|]; }
      assert forall j: nat :: 0 < j ==> (OccursAt(s, pat, j) <==> OccursAt(s[1..], pat, j - 1)) by {
        forall j: nat | 0 < j ensures OccursAt(s, pat, j) <==> OccursAt(s[1..], pat, j - 1) {
          if j + |pat| <= |s| {
            assert s[1..][j - 1..j - 1 + |pat|] == s[j..j + |pat|];
          }
        }
      }
      match rest
      case None => None
      case Some(i) => Some(i + 1)
  }

  /** `s.includes(pat)`. */
  predicate Includes(s: string, pat: string)
  {
    IndexOf(s, pat).Some?
  }

  /** `includes` holds exactly when the pattern occurs somewhere. */
  lemma IncludesIff(s: string, pat: string)
    ensures Includes(s, pat) <==> exists j: nat :: OccursAt(s, pat, j)
  {
  }

  /** `parts.join(sep)`, the inverse of `Split`. */
  function Join(parts: seq<string>, sep: string): string
  {
    if |parts| == 0 then ""
    else if |parts| == 1 then parts[0]
    else parts[0] + sep + Join(parts[1..], sep)
  }

  /** An occurrence inside a prefix of `s` is an occurrence in `s`. */
  lemma OccursInPrefix(s: string, n: nat, pat: string, j: nat)
    requires n <= |s| && OccursAt(s[..n], pat, j)
    ensures OccursAt(s, pat, j)
  {
    assert s[..n][j..j + |pat|] == s[j..j + |pat|];
  }

  /** A string that includes `pat` passes it on to every string it is a prefix of. */
  lemma IncludesExtends(a: string, b: string, pat: string)
    requires a <= b && Includes(a, pat)
    ensures Includes(b, pat)
  {
    var j := IndexOf(a, pat).value;
    assert b[..|a|] == a;
    OccursInPrefix(b, |a|, pat, j);
  }

  /**
   * `s.split(sep)` for a non-empty `sep`: the pieces between consecutive
   * non-overlapping occurrences of `sep`, scanning left to right.
   */
  function Split(s: string, sep: string): (parts: seq<string>)
    requires sep != ""
    ensures |parts| >= 1
    ensures Join(parts, sep) == s
    ensures forall k :: 0 <= k < |parts| ==> !Includes(parts[k], sep)
    ensures |parts| == 1 <==> !Includes(s, sep)
    decreases |s|
  {
    match IndexOf(s, sep)
    case None => [s]
    case Some(i) =>
      BeforeFirstExcludes(s, sep);
      CutAround(s, i, sep);
      var tail := Split(s[i + |sep|..], sep);
      assert ([s[..i]] + tail)[1..] == tail;
      [s[..i]] + tail
  }

  /** A string is the text before an occurrence, the pattern, and the text after it. */
  lemma CutAround(s: string, i: nat, pat: string)
    requires OccursAt(s, pat, i)
    ensures s == s[..i] + pat + s[i + |pat|..]
  {
  }

  /** The first piece of a split is a prefix of the string split, ended by its end or by `sep`. */
  lemma SplitHead(s: string, sep: string)
    requires sep != ""
    ensures Split(s, sep)[0] <= s
    ensures !Includes(s, sep) ==> Split(s, sep)[0] == s
    ensures Includes(s, sep) ==> OccursAt(s, sep, |Split(s, sep)[0]|)
  {
    if Includes(s, sep) {
      SplitFirst(s, sep);
    }
  }

  /** An occurrence at `i` is an occurrence at the start of the text from `i` on. */
  lemma OccursFrom(s: string, pat: string, i: nat)
    requires OccursAt(s, pat, i)
    ensures OccursAt(s[i..], pat, 0)
  {
    assert s[i..][..|pat|] == s[i..i + |pat|];
  }

  /** No occurrence of `pat` in `s` starts before index `n`. */
  predicate NoOccurrenceBefore(s: string, pat: string, n: nat)
  {
    forall j: nat :: j < n ==> !OccursAt(s, pat, j)
  }

  /** Where a split cuts when the first occurrence of `sep` is at `n`. */
  lemma SplitAt(s: string, sep: string, n: nat)
    requires sep != ""
    requires NoOccurrenceBefore(s, sep, n) && OccursAt(s, sep, n)
    ensures IndexOf(s, sep) == Some(n)
    ensures Split(s, sep) == [s[..n]] + Split(s[n + |sep|..], sep)
  {
  }

  /** Splitting a string that does not include `sep` gives the string back whole. */
  lemma SplitWhole(s: string, sep: string)
    requires sep != "" && !Includes(s, sep)
    ensures Split(s, sep) == [s]
  {
  }

  /** A pattern placed between two strings is included in the result. */
  lemma IncludesMiddle(x: string, pat: string, y: string)
    ensures Includes(x + pat + y, pat)
  {
    assert (x + pat + y)[|x|..|x| + |pat|] == pat;
    assert OccursAt(x + pat + y, pat, |x|);
  }

  /** A string lacking one character of `pat` does not include `pat`. */
  lemma ExcludedByChar(s: string, pat: string, t: nat)
    requires t < |pat| && pat[t] !in s
    ensures !Includes(s, pat)
  {
  }

  /** An occurrence wholly inside `a` of `a + b` is an occurrence in `a`. */
  lemma OccursInLeft(a: string, b: string, pat: string, j: nat)
    requires j + |pat| <= |a| && OccursAt(a + b, pat, j)
    ensures Includes(a, pat)
  {
    assert (a + b)[j..j + |pat|] == a[j..j + |pat|];
    assert OccursAt(a, pat, j);
  }

  /** The split of a string that includes `sep`, cut at the first occurrence. */
  lemma SplitFirst(s: string, sep: string)
    requires sep != "" && Includes(s, sep)
    ensures IndexOf(s, sep).Some?
    ensures Split(s, sep) == [s[..IndexOf(s, sep).value]] + Split(s[IndexOf(s, sep).value + |sep|..], sep)
  {
  }

  /** The text before the first occurrence of `pat` does not include it. */
  lemma BeforeFirstExcludes(s: string, pat: string)
    requires pat != "" && IndexOf(s, pat).Some?
    ensures !Includes(s[..IndexOf(s, pat).value], pat)
  {
    var i := IndexOf(s, pat).value;
    if Includes(s[..i], pat) {
      OccursInPrefix(s, i, pat, IndexOf(s[..i], pat).value);
    }
  }

  /**
   * The expression `s.split(a)[1]?.split(b)[0]`: the text between the first
   * and the second occurrence of `a`, cut at its first `b`; `None` (the
   * optional chain's `undefined`) when `s` has no `a`.
   */
  function CutBetween(s: string, a: string, b: string): (r: Option<string>)
    requires a != "" && b != ""
    ensures r.None? <==> !Includes(s, a)
    ensures r.Some? ==> !Includes(r.value, a) && !Includes(r.value, b)
  {
    var parts := Split(s, a);
    if |parts| < 2 then None
    else
      var r := Split(parts[1], b)[0];
      SplitHead(parts[1], b);
      assert !Includes(r, a) by {
        if Includes(r, a) { IncludesExtends(r, parts[1], a); }
      }
      Some(r)
  }

  /** `rest.split(a)[0].split(b)[0]`: the text before the first `a` and the first `b`. */
  function HeadCut(rest: string, a: string, b: string): string
    requires a != "" && b != ""
  {
    Split(Split(rest, a)[0], b)[0]
  }

  /** No proper prefix of `a` is also a suffix of it, so its occurrences never overlap. */
  predicate NoBorder(a: string)
  {
    forall d :: 0 < d < |a| ==> a[d..] != a[..|a| - d]
  }

  /** Two occurrences of a border-free pattern lie at least its length apart. */
  lemma OccurrencesApart(s: string, a: string, j: nat, k: nat)
    requires NoBorder(a) && j < k && OccursAt(s, a, j) && OccursAt(s, a, k)
    ensures j + |a| <= k
  {
    if k < j + |a| {
      Overlap(s, a, j, k);
    }
  }

  /** Two overlapping occurrences make a proper prefix of the pattern equal to a suffix of it. */
  lemma Overlap(s: string, a: string, j: nat, k: nat)
    requires j < k < j + |a| && OccursAt(s, a, j) && OccursAt(s, a, k)
    ensures a[k - j..] == a[..|a| - (k - j)]
  {
    assert s[j..j + |a|][k - j..] == s[k..j + |a|];
    assert s[k..k + |a|][..|a| - (k - j)] == s[k..j + |a|];
  }

  /** Every character covered by an occurrence is a character of the pattern. */
  lemma CoveredChar(s: string, a: string, j: nat, m: nat)
    requires OccursAt(s, a, j) && j <= m < j + |a|
    ensures s[m] in a
  {
    assert s[j..j + |a|][m - j] == s[m];
  }

  /** After a prefix without `a`, an appended border-free `a` is the first one. */
  lemma FirstAfter(pre: string, a: string, rest: string)
    requires NoBorder(a) && !Includes(pre, a)
    ensures NoOccurrenceBefore(pre + a + rest, a, |pre|)
    ensures OccursAt(pre + a + rest, a, |pre|)
  {
    var s := pre + a + rest;
    assert s[|pre|..|pre| + |a|] == a;
    forall j: nat | j < |pre| ensures !OccursAt(s, a, j) {
      if OccursAt(s, a, j) {
        if j + |a| <= |pre| {
          OccursInLeft(pre, a + rest, a, j);
        } else {
          OccurrencesApart(s, a, j, |pre|);
        }
      }
    }
  }

  /** The cut text is a prefix of `rest`, followed by its end, a `b` or an `a`. */
  lemma HeadCutShape(rest: string, a: string, b: string)
    requires a != "" && b != ""
    ensures HeadCut(rest, a, b) <= rest
    ensures var tail := rest[|HeadCut(rest, a, b)|..];
      tail == [] || OccursAt(tail, b, 0) || OccursAt(tail, a, 0)
  {
    var p := Split(rest, a)[0];
    var id := Split(p, b)[0];
    SplitHead(rest, a);
    SplitHead(p, b);
    assert rest[..|p|] == p;
    if Includes(p, b) {
      OccursInPrefix(rest, |p|, b, |id|);
      OccursFrom(rest, b, |id|);
    } else if Includes(rest, a) {
      OccursFrom(rest, a, |p|);
    }
  }

  /**
   * Every value of the expression sits right after the first `a` of `s` and
   * is followed by the end of `s`, a `b` or the next `a`.
   */
  lemma CutBetweenShape(s: string, a: string, b: string)
    requires a != "" && b != "" && CutBetween(s, a, b).Some?
    ensures var i := IndexOf(s, a).value;
      var r := CutBetween(s, a, b).value;
      && OccursAt(s, a, i)
      && !Includes(s[..i], a)
      && r <= s[i + |a|..]
      && var tail := s[i + |a| + |r|..];
         tail == [] || OccursAt(tail, b, 0) || OccursAt(tail, a, 0)
  {
    var i := IndexOf(s, a).value;
    var rest := s[i + |a|..];
    SplitFirst(s, a);
    BeforeFirstExcludes(s, a);
    var r := HeadCut(rest, a, b);
    assert CutBetween(s, a, b).value == r;
    HeadCutShape(rest, a, b);
    assert s[i + |a| + |r|..] == rest[|r|..];
  }

  /** After a prefix without `a` and one `a`, the expression cuts what follows. */
  lemma CutBetweenAfter(pre: string, a: string, b: string, rest: string)
    requires NoBorder(a) && b != "" && !Includes(pre, a)
    ensures CutBetween(pre + a + rest, a, b) == Some(HeadCut(rest, a, b))
  {
    var s := pre + a + rest;
    FirstAfter(pre, a, rest);
    SplitAt(s, a, |pre|);
    assert s[|pre| + |a|..] == rest;
  }

  /** A text free of `a` and `b` is cut whole. */
  lemma HeadCutWhole(id: string, a: string, b: string)
    requires a != "" && b != "" && !Includes(id, a) && !Includes(id, b)
    ensures HeadCut(id, a, b) == id
  {
    SplitWhole(id, a);
    SplitWhole(id, b);
  }

  /** A text free of `a` and `b` followed by `a` is cut at that `a`. */
  lemma HeadCutBeforeA(id: string, a: string, b: string, more: string)
    requires NoBorder(a) && b != "" && !Includes(id, a) && !Includes(id, b)
    ensures HeadCut(id + a + more, a, b) == id
  {
    var t := id + a + more;
    FirstAfter(id, a, more);
    SplitAt(t, a, |id|);
    assert t[..|id|] == id;
    SplitWhole(id, b);
  }

  /** A text free of `a` and `b` followed by a one-character `b` not in `a` is cut at that `b`. */
  lemma HeadCutBeforeB(id: string, a: string, b: string, tail: string)
    requires a != "" && |b| == 1 && b[0] !in a
    requires !Includes(id, a) && !Includes(id, b)
    requires OccursAt(tail, b, 0)
    ensures HeadCut(id + tail, a, b) == id
  {
    FirstPieceReaches(id, a, b, tail);
    CutAtChar(id, Split(id + tail, a)[0], b);
  }

  /** The first piece of `id + tail` split on `a` runs past `id` into the `b` that starts `tail`. */
  lemma FirstPieceReaches(id: string, a: string, b: string, tail: string)
    requires a != "" && |b| == 1 && b[0] !in a
    requires !Includes(id, a) && OccursAt(tail, b, 0)
    ensures var p := Split(id + tail, a)[0];
      id <= p && |p| > |id| && p[|id|] == b[0]
  {
    var t := id + tail;
    assert t[|id|] == b[0] by { FirstChar(tail, b, 0); }
    forall j: nat | j < |id| + 1 ensures !OccursAt(t, a, j) {
      if OccursAt(t, a, j) {
        if j + |a| <= |id| {
          OccursInLeft(id, tail, a, j);
        } else {
          CoveredChar(t, a, j, |id|);
        }
      }
    }
    var p := Split(t, a)[0];
    SplitHead(t, a);
    assert t[..|p|] == p;
  }

  /** A text without the one-character `b`, continued by `b`, is the first piece of a split on `b`. */
  lemma CutAtChar(id: string, p: string, b: string)
    requires |b| == 1 && !Includes(id, b)
    requires id <= p && |p| > |id| && p[|id|] == b[0]
    ensures Split(p, b)[0] == id
  {
    CharAbsent(id, b);
    forall j: nat | j < |id| ensures !OccursAt(p, b, j) {
      if OccursAt(p, b, j) {
        FirstChar(p, b, j);
      }
    }
    SingleCharAt(p, b, |id|);
    SplitAt(p, b, |id|);
    assert p[..|id|] == id;
  }

  /** An occurrence of `pat` starts with its first character. */
  lemma FirstChar(s: string, pat: string, j: nat)
    requires pat != "" && OccursAt(s, pat, j)
    ensures s[j] == pat[0]
  {
    assert s[j..j + |pat|][0] == s[j];
  }

  /** A one-character pattern occurs wherever its character stands. */
  lemma SingleCharAt(s: string, pat: string, j: nat)
    requires |pat| == 1 && j < |s| && s[j] == pat[0]
    ensures OccursAt(s, pat, j)
  {
    assert s[j..j + 1] == [s[j]];
  }

  /** A string that does not include a one-character pattern lacks its character. */
  lemma CharAbsent(s: string, pat: string)
    requires |pat| == 1 && !Includes(s, pat)
    ensures forall j :: 0 <= j < |s| ==> s[j] != pat[0]
  {
    forall j | 0 <= j < |s| ensures s[j] != pat[0] {
      if s[j] == pat[0] {
        SingleCharAt(s, pat, j);
      }
    }
  }

  /**
   * The converse of `CutBetweenShape`: a prefix without `a`, then `a`, then
   * a text free of `a` and `b`, then the end, a `b` or another `a`, gives
   * exactly that text.
   */
  lemma CutBetweenOf(pre: string, id: string, tail: string, a: string, b: string)
    requires NoBorder(a) && |b| == 1 && b[0] !in a
    requires !Includes(pre, a) && !Includes(id, a) && !Includes(id, b)
    requires tail == [] || OccursAt(tail, b, 0) || OccursAt(tail, a, 0)
    ensures CutBetween(pre + a + id + tail, a, b) == Some(id)
  {
    assert pre + a + id + tail == pre + a + (id + tail);
    CutBetweenAfter(pre, a, b, id + tail);
    HeadCutOf(id, tail, a, b);
  }

  /** A text free of `a` and `b`, followed by the end, a `b` or an `a`, is cut exactly there. */
  lemma HeadCutOf(id: string, tail: string, a: string, b: string)
    requires NoBorder(a) && |b| == 1 && b[0] !in a
    requires !Includes(id, a) && !Includes(id, b)
    requires tail == [] || OccursAt(tail, b, 0) || OccursAt(tail, a, 0)
    ensures HeadCut(id + tail, a, b) == id
  {
    if tail == [] {
      assert id + tail == id;
      HeadCutWhole(id, a, b);
    } else if OccursAt(tail, b, 0) {
      HeadCutBeforeB(id, a, b, tail);
    } else {
      CutAround(tail, 0, a);
      assert id + tail == id + a + tail[|a|..];
      HeadCutBeforeA(id, a, b, tail[|a|..]);
    }
  }
}
