/** The Python string primitives that the essay parser and the generation driver are built on:
    slicing, `str.index`, `re.finditer` over a literal pattern and `str.replace`. Strings are
    sequences of characters; a pattern is always searched left to right. */
module PyStr {
  import opened Wrappers

  /** Python's normalisation of one slice bound for a sequence of length n: a negative bound
      counts from the end, and the bound is then clamped into [0, n]. */
  function ClampIndex(i: int, n: nat): (r: nat)
    ensures r <= n
  {
    if i < 0 then (if n + i < 0 then 0 else n + i)
    else if i > n then n
    else i
  }

  /** `s[lo:hi]`. When the clamped start is not before the clamped stop the slice is empty. */
  function Slice<T>(s: seq<T>, lo: int, hi: int): (r: seq<T>)
    ensures |r| == if ClampIndex(lo, |s|) < ClampIndex(hi, |s|)
                   then ClampIndex(hi, |s|) - ClampIndex(lo, |s|) else 0
    ensures forall k :: 0 <= k < |r| ==> r[k] == s[ClampIndex(lo, |s|) + k]
  {
    var a, b := ClampIndex(lo, |s|), ClampIndex(hi, |s|);
    if a < b then s[a..b] else []
  }

  /** `q` occurs in `s` starting at position `i`. */
  predicate OccursAt(s: string, q: string, i: nat)
  {
    i + |q| <= |s| && s[i..i + |q|] == q
  }

  /** `q in s` */
  predicate Contains(s: string, q: string)
  {
    exists i: nat | i <= |s| :: OccursAt(s, q, i)
  }

  /** Every character of `q` after the first differs from the first one. An occurrence of a
      pattern that shares such a first character never begins strictly inside one of `q`; all three essay markers
      begin with '[' and have no other '['. */
  predicate HeadOnly(q: string)
  {
    |q| > 0 && forall k :: 0 < k < |q| ==> q[k] != q[0]
  }

  /** An occurrence of a pattern `p` with the same first character as a head-only pattern `q`
      never begins strictly inside an occurrence of `q`. */
  lemma {:induction false} NoOverlap(s: string, q: string, p: string, i: nat, j: nat)
    requires HeadOnly(q) && |p| > 0 && p[0] == q[0]
    requires OccursAt(s, q, i) && OccursAt(s, p, j)
    ensures j <= i || i + |q| <= j
  {
    OccursAtHead(s, p, j);
  }

  /** An occurrence starting at position `i` forces the character there to be the pattern's first. */
  lemma OccursAtHead(s: string, q: string, i: nat)
    requires |q| > 0 && OccursAt(s, q, i)
    ensures i < |s| && s[i] == q[0]
  {
    assert s[i] == s[i..i + |q|][0];
  }

  // ---------------------------------------------------------------------------------------------
  // str.index

  /** `s.index(q, i)`: the first occurrence of `q` at or after `i`; None where Python raises
      ValueError("substring not found"). */
  function IndexFrom(s: string, q: string, i: nat): (r: Option<nat>)
    requires i <= |s|
    ensures r.Some? ==> i <= r.value && OccursAt(s, q, r.value)
    ensures r.Some? ==> forall j: nat :: i <= j < r.value ==> !OccursAt(s, q, j)
    ensures r.None? ==> forall j: nat :: i <= j ==> !OccursAt(s, q, j)
    decreases |s| - i
  {
    if i + |q| > |s| then None
    else if OccursAt(s, q, i) then Some(i)
    else IndexFrom(s, q, i + 1)
  }

  /** `s.index(q)`: fails exactly when `q` is not a substring of `s`. */
  function Index(s: string, q: string): (r: Option<nat>)
    ensures r.None? <==> !Contains(s, q)
    ensures r.Some? ==> OccursAt(s, q, r.value) && forall j: nat :: j < r.value ==> !OccursAt(s, q, j)
  {
    IndexFrom(s, q, 0)
  }

  // ---------------------------------------------------------------------------------------------
  // re.finditer over a literal pattern

  /** Start positions of the matches `re.finditer` reports for the literal pattern `q` from
      position `i` on: a left-to-right scan that resumes right after each match. The positions
      are occurrences, in increasing order and pairwise non-overlapping. */
  function FindFrom(s: string, q: string, i: nat): (r: seq<nat>)
    requires |q| > 0 && i <= |s|
    ensures forall k :: 0 <= k < |r| ==> i <= r[k] && OccursAt(s, q, r[k])
    ensures forall a, b :: 0 <= a < b < |r| ==> r[a] + |q| <= r[b]
    decreases |s| - i
  {
    if i + |q| > |s| then []
    else if OccursAt(s, q, i) then [i] + FindFrom(s, q, i + |q|)
    else FindFrom(s, q, i + 1)
  }

  /** `[m.start() for m in re.finditer(q, s)]` */
  function FindAll(s: string, q: string): (r: seq<nat>)
    requires |q| > 0
    ensures forall k :: 0 <= k < |r| ==> OccursAt(s, q, r[k])
    ensures forall a, b :: 0 <= a < b < |r| ==> r[a] + |q| <= r[b]
  {
    FindFrom(s, q, 0)
  }

  /** For a head-only pattern the scan misses nothing: every occurrence at or after `i` is reported. */
  lemma {:induction false} FindFromComplete(s: string, q: string, i: nat, j: nat)
    requires HeadOnly(q) && i <= |s|
    requires i <= j && OccursAt(s, q, j)
    ensures j in FindFrom(s, q, i)
    decreases |s| - i
  {
    if i + |q| > |s| {
    } else if OccursAt(s, q, i) {
      if j != i {
        NoOverlap(s, q, q, i, j);
        FindFromComplete(s, q, i + |q|, j);
      }
    } else {
      FindFromComplete(s, q, i + 1, j);
    }
  }

  /** Positions before `j` that hold no occurrence are skipped by the scan. */
  lemma {:induction false} FindFromSkip(s: string, q: string, i: nat, j: nat)
    requires |q| > 0 && i <= j <= |s|
    requires forall k: nat :: i <= k < j ==> !OccursAt(s, q, k)
    ensures FindFrom(s, q, i) == FindFrom(s, q, j)
    decreases j - i
  {
    if i < j {
      FindFromSkip(s, q, i + 1, j);
    }
  }

  // ---------------------------------------------------------------------------------------------
  // str.replace

  /** `s.replace(q, r)` for a non-empty `q`: CPython's left-to-right, non-overlapping
      substitution. A match at the front is replaced and the scan resumes after it; otherwise the
      first character is kept and the scan moves on by one. A replacement no longer than the
      pattern (as removing a marker with `''` is) never lengthens the string. */
  function Replace(s: string, q: string, r: string): (out: string)
    requires |q| > 0
    ensures |r| <= |q| ==> |out| <= |s|
    decreases |s|
  {
    if |s| < |q| then s
    else if s[..|q|] == q then r + Replace(s[|q|..], q, r)
    else [s[0]] + Replace(s[1..], q, r)
  }

  /** An occurrence in a suffix is an occurrence in the whole string, further right. */
  lemma OccursInSuffix(s: string, q: string, k: nat, j: nat)
    requires k <= |s| && OccursAt(s[k..], q, j)
    ensures OccursAt(s, q, k + j)
  {
    assert s[k + j..k + j + |q|] == s[k..][j..j + |q|];
  }

  /** If `q` does not occur in `s`, `s.replace(q, r)` is `s`. */
  lemma {:induction false} ReplaceAbsent(s: string, q: string, r: string)
    requires |q| > 0 && !Contains(s, q)
    ensures Replace(s, q, r) == s
    decreases |s|
  {
    if |s| >= |q| {
      assert !OccursAt(s, q, 0);
      assert s[..|q|] != q;
      if Contains(s[1..], q) {
        var j: nat :| j <= |s[1..]| && OccursAt(s[1..], q, j);
        OccursInSuffix(s, q, 1, j);
        assert false;
      }
      ReplaceAbsent(s[1..], q, r);
      assert s == [s[0]] + s[1..];
    }
  }

  /** A pattern at the front of the text is replaced, and the scan goes on after it. */
  lemma ReplaceMatchFront(q: string, t: string, r: string)
    requires |q| > 0
    ensures Replace(q + t, q, r) == r + Replace(t, q, r)
  {
    var s := q + t;
    assert s[..|q|] == q && s[|q|..] == t;
  }

  /** A first character that cannot start the pattern is kept, and the scan goes on after it. */
  lemma ReplaceKeepFront(c: char, t: string, q: string, r: string)
    requires |q| > 0 && c != q[0]
    ensures Replace([c] + t, q, r) == [c] + Replace(t, q, r)
  {
    var s := [c] + t;
    assert s[1..] == t;
    if |s| >= |q| {
      assert s[..|q|][0] == c;
      assert Replace(s, q, r) == [s[0]] + Replace(s[1..], q, r);
    } else {
      assert Replace(t, q, r) == t;
    }
  }

  /** A front none of whose characters can start the pattern passes through unchanged. */
  lemma {:induction false} ReplaceKeepPrefix(a: string, b: string, q: string, r: string)
    requires |q| > 0 && q[0] !in a
    ensures Replace(a + b, q, r) == a + Replace(b, q, r)
    decreases |a|
  {
    if |a| > 0 {
      ReplaceKeepPrefix(a[1..], b, q, r);
      assert a + b == [a[0]] + (a[1..] + b);
      ReplaceKeepFront(a[0], a[1..] + b, q, r);
      assert a == [a[0]] + a[1..];
    } else {
      assert a + b == b;
    }
  }

  /** A front that starts like the pattern but parts from it at its second character, and holds
      no other character that could start the pattern, passes through unchanged. */
  lemma ReplaceKeepNearMatch(m: string, t: string, q: string, r: string)
    requires |q| >= 2 && |m| >= 2 && m[1] != q[1] && q[0] !in m[1..]
    ensures Replace(m + t, q, r) == m + Replace(t, q, r)
  {
    var s := m + t;
    if |s| < |q| {
      assert Replace(t, q, r) == t;
    } else {
      ReplaceStepOff(s, q, r);
      assert s[1..] == m[1..] + t;
      ReplaceKeepPrefix(m[1..], t, q, r);
      assert m == [m[0]] + m[1..];
    }
  }

  /** A string whose second character parts from the pattern's keeps its first character. */
  lemma ReplaceStepOff(s: string, q: string, r: string)
    requires |s| >= |q| >= 2 && s[1] != q[1]
    ensures Replace(s, q, r) == [s[0]] + Replace(s[1..], q, r)
  {
    assert s[..|q|][1] == s[1];
  }
}
