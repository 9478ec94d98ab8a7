/**
 * The handful of Python `str` operations the memory layer relies on:
 * `isspace`, `lower`, `split()`, `sep.join`, `strip()`, `in` and
 * `split(sep)[1]`, each as a function on `seq<char>`.
 */
module Text {
  import opened Wrappers

  /** Python's `str.isspace()` for one character: the characters `split()` and `strip()` treat as blanks. */
  predicate IsSpace(c: char) {
    var n := c as int;
    (0x09 <= n <= 0x0D) || (0x1C <= n <= 0x20) || n == 0x85 || n == 0xA0 || n == 0x1680 ||
    (0x2000 <= n <= 0x200A) || n == 0x2028 || n == 0x2029 || n == 0x202F || n == 0x205F || n == 0x3000
  }

  /** Lower-casing of one character, for the ASCII letters only. */
  function LowerChar(c: char): char {
    if 'A' <= c <= 'Z' then (c as int + 32) as char else c
  }

  /** Lower-casing maps the upper-case letters onto the lower-case ones, and keeps every other character, blanks included. */
  lemma LowerCharShape(c: char)
    ensures IsSpace(LowerChar(c)) <==> IsSpace(c)
    ensures 'A' <= c <= 'Z' ==> 'a' <= LowerChar(c) <= 'z'
    ensures !('A' <= c <= 'Z') ==> LowerChar(c) == c
  {
  }

  /** `s.lower()`, character by character. */
  function Lower(s: string): (r: string)
    ensures |r| == |s|
    ensures forall i :: 0 <= i < |s| ==> r[i] == LowerChar(s[i])
  {
    seq(|s|, i requires 0 <= i < |s| => LowerChar(s[i]))
  }

  lemma LowerAppend(a: string, b: string)
    ensures Lower(a + b) == Lower(a) + Lower(b)
  {
    assert forall i :: 0 <= i < |a + b| ==> Lower(a + b)[i] == (Lower(a) + Lower(b))[i];
  }

  // ---------------------------------------------------------------------
  // split()

  /** One past the last character of the word that starts at `i`. */
  function WordEnd(s: string, i: nat): (j: nat)
    requires i <= |s|
    ensures i <= j <= |s|
    ensures forall k :: i <= k < j ==> !IsSpace(s[k])
    ensures j < |s| ==> IsSpace(s[j])
    decreases |s| - i
  {
    if i == |s| || IsSpace(s[i]) then i else WordEnd(s, i + 1)
  }

  predicate NoSpace(w: string) {
    forall k :: 0 <= k < |w| ==> !IsSpace(w[k])
  }

  /** `s.split()`: the maximal runs of non-blank characters, in order. */
  function Words(s: string): seq<string>
    decreases |s|
  {
    if s == [] then []
    else if IsSpace(s[0]) then Words(s[1..])
    else
      var n := WordEnd(s, 0);
      [s[..n]] + Words(s[n..])
  }

  /** Every word of `s.split()` is non-empty and blank-free. */
  lemma {:induction false} WordsAreNonBlank(s: string)
    ensures forall k :: 0 <= k < |Words(s)| ==> Words(s)[k] != [] && NoSpace(Words(s)[k])
    decreases |s|
  {
    if s != [] {
      if IsSpace(s[0]) {
        WordsAreNonBlank(s[1..]);
      } else {
        WordsAreNonBlank(s[WordEnd(s, 0)..]);
      }
    }
  }

  /** `set(s.split())`. */
  function WordSet(s: string): set<string> {
    set w | w in Words(s)
  }

  /** `WordEnd` is determined by its postcondition. */
  lemma WordEndUnique(s: string, i: nat, j: nat)
    requires i <= j <= |s|
    requires forall k :: i <= k < j ==> !IsSpace(s[k])
    requires j < |s| ==> IsSpace(s[j])
    ensures WordEnd(s, i) == j
  {
  }

  /** A word list is cut at a blank: the words on either side of it are kept apart. */
  lemma {:induction false} WordsSplitAtSpace(a: string, c: char, b: string)
    requires IsSpace(c)
    ensures Words(a + [c] + b) == Words(a) + Words(b)
    decreases |a|
  {
    var s := a + [c] + b;
    if a == [] {
      assert s[1..] == b;
    } else if IsSpace(a[0]) {
      assert s[1..] == a[1..] + [c] + b;
      WordsSplitAtSpace(a[1..], c, b);
    } else {
      var m := WordEnd(a, 0);
      var n := WordEnd(s, 0);

      forall k | 0 <= k < m ensures s[k] == a[k] { }
      if m < |a| { assert s[m] == a[m]; } else { assert s[m] == c; }
      WordEndUnique(s, 0, m);
      assert s[..n] == a[..m];
      assert s[n..] == a[m..] + [c] + b;
      WordsSplitAtSpace(a[m..], c, b);
    }
  }

  /** Lower-cased text: a blank stays a blank. */
  lemma LowerSpace(a: string, c: char, b: string)
    requires IsSpace(c)
    ensures Lower(a + [c] + b) == Lower(a) + [LowerChar(c)] + Lower(b) && IsSpace(LowerChar(c))
  {
    LowerAppend(a + [c], b);
    LowerAppend(a, [c]);
  }

  // ---------------------------------------------------------------------
  // sep.join(xs)

  /** `sep.join(xs)`. */
  function Join(sep: string, xs: seq<string>): string
    decreases |xs|
  {
    if |xs| == 0 then ""
    else if |xs| == 1 then xs[0]
    else xs[0] + sep + Join(sep, xs[1..])
  }

  /** Three parts joined: each separator sits between two parts. */
  lemma JoinThree(sep: string, a: string, b: string, c: string)
    ensures Join(sep, [a, b, c]) == a + sep + b + sep + c
  {
    assert [a, b, c][1..] == [b, c] && [b, c][1..] == [c];
    assert Join(sep, [c]) == c;
    assert Join(sep, [b, c]) == b + sep + c;
  }

  /** Every word of every part is a word of the parts joined by a single space, after lower-casing. */
  lemma {:induction false} JoinedWordsContain(xs: seq<string>, i: nat)
    requires i < |xs|
    ensures WordSet(Lower(xs[i])) <= WordSet(Lower(Join(" ", xs)))
    decreases |xs|
  {
    if |xs| > 1 {
      var rest := Join(" ", xs[1..]);
      assert Join(" ", xs) == xs[0] + [' '] + rest;
      LowerSpace(xs[0], ' ', rest);
      WordsSplitAtSpace(Lower(xs[0]), ' ', Lower(rest));
      if i > 0 {
        JoinedWordsContain(xs[1..], i - 1);
        assert xs[1..][i - 1] == xs[i];
      }
    }
  }

  // ---------------------------------------------------------------------
  // strip()

  /** Index of the first non-blank character at or after `i` (or `|s|`). */
  function SkipSpaces(s: string, i: nat): (j: nat)
    requires i <= |s|
    ensures i <= j <= |s|
    ensures forall k :: i <= k < j ==> IsSpace(s[k])
    ensures j < |s| ==> !IsSpace(s[j])
    decreases |s| - i
  {
    if i == |s| || !IsSpace(s[i]) then i else SkipSpaces(s, i + 1)
  }

  /** Index just past the last non-blank character before `j` (or 0). */
  function TrimEnd(s: string, j: nat): (e: nat)
    requires j <= |s|
    ensures e <= j
    ensures forall k :: e <= k < j ==> IsSpace(s[k])
    ensures e > 0 ==> !IsSpace(s[e - 1])
  {
    if j == 0 || !IsSpace(s[j - 1]) then j else TrimEnd(s, j - 1)
  }

  /**
   * `s.strip()`: the result has no blank at either end, it is the slice of
   * `s` that starts at the first non-blank character, and whatever follows
   * it in `s` is blank.
   */
  function Strip(s: string): (r: string)
    ensures r == [] || (!IsSpace(r[0]) && !IsSpace(r[|r| - 1]))
    ensures var a := SkipSpaces(s, 0);
      a + |r| <= |s| && s[a..a + |r|] == r &&
      forall k :: a + |r| <= k < |s| ==> IsSpace(s[k])
  {
    var a := SkipSpaces(s, 0);
    var b := TrimEnd(s, |s|);
    if b <= a then
      []
    else
      s[a..b]
  }

  // ---------------------------------------------------------------------
  // pat in s, s.split(sep)[1]

  predicate OccursAt(s: string, pat: string, j: nat) {
    j + |pat| <= |s| && s[j..j + |pat|] == pat
  }

  /** The first position at or after `from` where `pat` occurs in `s`. */
  function IndexFrom(s: string, pat: string, from: nat): (r: Option<nat>)
    ensures r.Some? ==> from <= r.value && OccursAt(s, pat, r.value)
    ensures r.Some? ==> forall j :: from <= j < r.value ==> !OccursAt(s, pat, j)
    ensures r.None? ==> forall j :: from <= j ==> !OccursAt(s, pat, j)
    decreases |s| - from
  {
    if from + |pat| > |s| then None
    else if s[from..from + |pat|] == pat then Some(from)
    else IndexFrom(s, pat, from + 1)
  }

  /** `s.find(pat)`, as an option: the first occurrence of `pat` in `s`. */
  function IndexOf(s: string, pat: string): (r: Option<nat>)
    ensures r.Some? <==> exists j :: OccursAt(s, pat, j)
    ensures r.Some? ==> OccursAt(s, pat, r.value) && forall j :: 0 <= j < r.value ==> !OccursAt(s, pat, j)
  {
    IndexFrom(s, pat, 0)
  }

  /** `pat in s`. */
  predicate Contains(s: string, pat: string) {
    IndexOf(s, pat).Some?
  }

  /** A slice that ends before the first occurrence of `pat` does not contain it. */
  lemma NoOccurrenceBefore(t: string, pat: string, j: nat)
    requires pat != [] && j <= |t|
    requires forall k :: 0 <= k < j ==> !OccursAt(t, pat, k)
    ensures !Contains(t[..j], pat)
  {
    forall k: nat | OccursAt(t[..j], pat, k) ensures false {
      assert t[..j][k..k + |pat|] == t[k..k + |pat|];
      assert k < j && OccursAt(t, pat, k);
    }
  }

  /** An occurrence in a suffix is exactly an occurrence in the whole string, shifted by the suffix's start. */
  lemma OccursInSuffix(s: string, pat: string, start: nat, j: nat)
    requires start <= |s|
    ensures OccursAt(s[start..], pat, j) <==> OccursAt(s, pat, start + j)
  {
    if start + j + |pat| <= |s| {
      assert s[start + j..start + j + |pat|] == s[start..][j..j + |pat|];
    }
  }

  /**
   * `s.split(sep)[1]`: the text between the first occurrence of `sep`
   * and the next one (or the end of `s`). No occurrence of `sep` starts
   * inside the piece, even one that would run past its end.
   */
  function SecondPiece(s: string, sep: string): (r: string)
    requires sep != [] && Contains(s, sep)
    ensures var start := IndexOf(s, sep).value + |sep|;
      start + |r| <= |s| && s[start..start + |r|] == r &&
      (start + |r| == |s| || OccursAt(s, sep, start + |r|)) &&
      (forall j :: start <= j < start + |r| ==> !OccursAt(s, sep, j)) &&
      !Contains(r, sep)
  {
    var start := IndexOf(s, sep).value + |sep|;
    var t := s[start..];
    match IndexOf(t, sep)
    case Some(j) =>
      OccursInSuffix(s, sep, start, j);
      NoOccurrenceBefore(t, sep, j);
      assert s[start..start + j] == t[..j];
      forall k | start <= k < start + j
        ensures !OccursAt(s, sep, k)
      {
        OccursInSuffix(s, sep, start, k - start);
      }
      t[..j]
    case None =>
      assert s[start..start + |t|] == t;
      forall k | start <= k < |s|
        ensures !OccursAt(s, sep, k)
      {
        OccursInSuffix(s, sep, start, k - start);
      }
      t
  }
}
