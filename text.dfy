/** Character and string primitives shared by the three scripts: Python's
    whitespace class, substring search, `str.strip`, `str.lower`,
    `str.replace` and `str.count`, each on `string` (a `seq<char>`). */
module Text {

  datatype Option<T> = None | Some(value: T)

  /** Python's `str.isspace()`; the `\s` class of a `str` regular expression
      matches exactly the same characters. */
  predicate IsSpace(c: char) {
    ('\t' <= c <= '\r') || ('\U{1C}' <= c <= '\U{1F}') || c == ' '
    || c == '\U{85}' || c == '\U{A0}' || c == '\U{1680}'
    || ('\U{2000}' <= c <= '\U{200A}') || c == '\U{2028}' || c == '\U{2029}'
    || c == '\U{202F}' || c == '\U{205F}' || c == '\U{3000}'
  }

  /** `pat` occurs in `s` starting at index `i`. */
  predicate HasAt(s: string, i: nat, pat: string) {
    i + |pat| <= |s| && s[i..i + |pat|] == pat
  }

  /** The first occurrence of `pat` at or after `from`; `pat in s` asks
      whether there is one from 0. */
  function IndexOf(s: string, pat: string, from: nat): (r: Option<nat>)
    ensures r.Some? ==> from <= r.value && HasAt(s, r.value, pat)
    ensures r.Some? ==> forall k: nat :: from <= k < r.value ==> !HasAt(s, k, pat)
    ensures r.None? ==> forall k: nat :: from <= k ==> !HasAt(s, k, pat)
    decreases |s| - from
  {
    if from + |pat| > |s| then None
    else if HasAt(s, from, pat) then Some(from)
    else IndexOf(s, pat, from + 1)
  }

  /** The first `c` at or after `from`. */
  function FindChar(s: string, c: char, from: nat): (r: Option<nat>)
    ensures r.Some? ==> from <= r.value < |s| && s[r.value] == c
    ensures r.Some? ==> forall k :: from <= k < r.value ==> s[k] != c
    ensures r.None? ==> forall k :: from <= k < |s| ==> s[k] != c
    decreases |s| - from
  {
    if from >= |s| then None
    else if s[from] == c then Some(from)
    else FindChar(s, c, from + 1)
  }

  /** Python's `pat in s`. */
  predicate Contains(s: string, pat: string) {
    IndexOf(s, pat, 0).Some?
  }

  lemma ContainsAt(s: string, pat: string, k: nat)
    requires HasAt(s, k, pat)
    ensures Contains(s, pat)
  {
  }

  /** An occurrence inside a slice of `s` is an occurrence in `s`. */
  lemma ContainsInSlice(s: string, a: nat, b: nat, pat: string)
    requires a <= b <= |s| && Contains(s[a..b], pat)
    ensures Contains(s, pat)
  {
    var k := IndexOf(s[a..b], pat, 0).value;
    HasAtInSlice(s, a, b, pat, k);
    ContainsAt(s, pat, a + k);
  }

  /** An occurrence inside the slice `s[a..b]` is one in `s`, shifted by `a`. */
  lemma HasAtInSlice(s: string, a: nat, b: nat, pat: string, k: nat)
    requires a <= b <= |s| && HasAt(s[a..b], k, pat)
    ensures HasAt(s, a + k, pat)
  {
    assert a + k + |pat| <= b;
    assert forall m :: 0 <= m < |pat| ==> s[a + k + m] == s[a..b][k + m] == pat[m];
    assert s[a + k..a + k + |pat|] == pat;
  }

  /** `HasAtInSlice` with the shifted position given as `q`. */
  lemma HasAtInSliceAt(s: string, a: nat, b: nat, pat: string, k: nat, q: nat)
    requires a <= b <= |s| && HasAt(s[a..b], k, pat) && q == a + k
    ensures HasAt(s, q, pat)
  {
    HasAtInSlice(s, a, b, pat, k);
  }

  /** Every occurrence inside a slice of `s` is one in `s`. */
  lemma SliceOccurrences(s: string, a: nat, b: nat, pat: string)
    requires a <= b <= |s|
    ensures forall k: nat :: HasAt(s[a..b], k, pat) ==> HasAt(s, a + k, pat)
  {
    forall k: nat | HasAt(s[a..b], k, pat) ensures HasAt(s, a + k, pat) {
      HasAtInSlice(s, a, b, pat, k);
    }
  }

  /** A slice in which no occurrence starts has none inside it either. */
  lemma AbsentInSlice(s: string, a: nat, b: nat, pat: string)
    requires a <= b <= |s| && |pat| > 0
    requires forall k: nat :: a <= k < b ==> !HasAt(s, k, pat)
    ensures !Contains(s[a..b], pat)
  {
    forall k: nat | k < b - a ensures !HasAt(s[a..b], k, pat) {
      assert !HasAt(s, a + k, pat);
      if k + |pat| <= b - a {
        assert s[a..b][k..k + |pat|] == s[a + k..a + k + |pat|];
      }
    }
  }

  /** An opening pattern at `o` and a closing one at `c` frame the text between. */
  lemma HasAtFramed(s: string, o: nat, open: string, c: nat, close: string)
    requires HasAt(s, o, open) && o + |open| <= c && HasAt(s, c, close)
    ensures HasAt(s, o, open + s[o + |open|..c] + close)
  {
    assert s[o..c + |close|] == s[o..o + |open|] + s[o + |open|..c] + s[c..c + |close|];
  }

  /** An occurrence that lies inside `s[a..b]` is one in the slice. */
  lemma HasAtToSlice(s: string, a: nat, b: nat, pat: string, k: nat)
    requires a <= b <= |s| && a + k + |pat| <= b && HasAt(s, a + k, pat)
    ensures HasAt(s[a..b], k, pat)
  {
    assert forall m :: 0 <= m < |pat| ==> s[a..b][k..k + |pat|][m] == s[a + k + m] == pat[m];
    assert s[a..b][k..k + |pat|] == pat;
  }

  /** What an insertion at `e` leaves around the inserted text. */
  lemma InsertAt(s: string, e: nat, x: string)
    requires e <= |s|
    ensures var r := s[..e] + x + s[e..];
      r[..e] == s[..e] && HasAt(r, e, x) && r[e + |x|..] == s[e..]
  {
    var r := s[..e] + x + s[e..];
    assert r[..e] == s[..e];
    assert r[e..e + |x|] == x;
    assert r[e + |x|..] == s[e..];
  }

  /** The middle part of a concatenation occurs right after the first. */
  lemma HasAtMiddle(a: string, b: string, c: string)
    ensures HasAt(a + b + c, |a|, b)
  {
    assert (a + b + c)[|a|..|a| + |b|] == b;
  }

  /** Replacing `pat` at `q` by `add + pat` is inserting `add` at `q`. */
  lemma InsertBefore(s: string, q: nat, add: string, pat: string)
    requires HasAt(s, q, pat)
    ensures s[..q] + (add + pat) + s[q + |pat|..] == s[..q] + add + s[q..]
  {
    assert s[q..] == pat + s[q + |pat|..];
  }

  /** Peeling a known prefix `a` off the text that starts at `p`. */
  lemma PeelPrefix(r: string, p: nat, a: string, b: string)
    requires p <= |r| && r[p..] == a + b
    ensures HasAt(r, p, a) && r[p + |a|..] == b
  {
    assert r[p..p + |a|] == (a + b)[..|a|];
    assert r[p + |a|..] == (a + b)[|a|..];
  }

  /** Two patterns that differ at offset `k` cannot both start at `p`. */
  lemma DiffersAt(s: string, p: nat, x: string, y: string, k: nat)
    requires HasAt(s, p, x) && k < |x| && k < |y| && x[k] != y[k]
    ensures !HasAt(s, p, y)
  {
    if p + |y| <= |s| {
      assert s[p..p + |x|][k] == s[p + k];
      assert s[p..p + |y|][k] == s[p + k];
    }
  }

  /** The first `c` at or after `p`, when the text from `p` is `a + (b + rest)`,
      neither `a` nor `b` holds `c`, and `rest` starts with it. */
  lemma FirstCharAfterParts(s: string, p: nat, a: string, b: string, rest: string, c: char)
    requires p <= |s| && s[p..] == a + (b + rest)
    requires c !in a && c !in b && rest != [] && rest[0] == c
    ensures IndexOf(s, [c], p) == Some(p + |a| + |b|)
  {
    var at := p + |a| + |b|;
    forall j | p <= j < at ensures s[j] != c {
      assert s[j] == s[p..][j - p];
      if j < p + |a| {
        assert s[p..][j - p] == a[j - p];
      } else {
        assert s[p..][j - p] == b[j - p - |a|];
      }
    }
    assert s[at] == s[p..][at - p] == rest[0];
    FirstCharAt(s, c, p, at);
  }

  /** A string that lacks one character of `pat` cannot contain `pat`. */
  lemma AbsentByChar(s: string, pat: string, k: nat)
    requires k < |pat| && pat[k] !in s
    ensures !Contains(s, pat)
  {
    forall i: nat | i + |pat| <= |s| ensures !HasAt(s, i, pat) {
      assert s[i + k] in s;
      assert s[i..i + |pat|][k] == s[i + k];
    }
  }

  /** The first `c` at or after `from` is at `at`. */
  /** `FindChar` stops at the first `c` from `from`. */
  lemma FindCharAt(s: string, c: char, from: nat, at: nat)
    requires from <= at < |s| && s[at] == c
    requires forall j :: from <= j < at ==> s[j] != c
    ensures FindChar(s, c, from) == Some(at)
  {
  }

  lemma FirstCharAt(s: string, c: char, from: nat, at: nat)
    requires from <= at < |s| && s[at] == c
    requires forall j :: from <= j < at ==> s[j] != c
    ensures IndexOf(s, [c], from) == Some(at)
  {
    assert HasAt(s, at, [c]);
    forall j: nat | from <= j < at ensures !HasAt(s, j, [c]) {
      assert s[j..j + 1] == [s[j]];
    }
  }

  /** Substring containment is transitive: a string that contains `big`
      contains everything `big` contains. */
  lemma ContainsTransitive(s: string, big: string, small: string)
    requires Contains(s, big) && Contains(big, small)
    ensures Contains(s, small)
  {
    var i := IndexOf(s, big, 0).value;
    assert s[i..i + |big|] == big;
    ContainsInSlice(s, i, i + |big|, small);
  }

  /** A one-character search in terms of characters. */
  lemma IndexOfChar(s: string, c: char, from: nat)
    ensures IndexOf(s, [c], from).Some? ==>
      (var q := IndexOf(s, [c], from).value;
       q < |s| && s[q] == c && forall k :: from <= k < q ==> s[k] != c)
    ensures IndexOf(s, [c], from).None? ==> forall k :: from <= k < |s| ==> s[k] != c
  {
    forall k | from <= k < |s| && s[k] == c ensures HasAt(s, k, [c]) {
      assert s[k..k + 1] == [s[k]];
    }
    if IndexOf(s, [c], from).Some? {
      var q := IndexOf(s, [c], from).value;
      assert s[q..q + 1] == [s[q]];
    }
  }

  /** The end of the whitespace run that starts at `i` (a greedy `\s*`). */
  function SkipSpace(s: string, i: nat): (j: nat)
    requires i <= |s|
    ensures i <= j <= |s|
    ensures j == |s| || !IsSpace(s[j])
    decreases |s| - i
  {
    if i < |s| && IsSpace(s[i]) then SkipSpace(s, i + 1) else i
  }

  /** Everything `SkipSpace` passes over is whitespace. */
  lemma {:induction false} SkipSpaceSpaces(s: string, i: nat)
    requires i <= |s|
    ensures forall k :: i <= k < SkipSpace(s, i) ==> IsSpace(s[k])
    decreases |s| - i
  {
    if i < |s| && IsSpace(s[i]) {
      SkipSpaceSpaces(s, i + 1);
    }
  }

  /** The start of the whitespace run that ends at `j`, not going below `lo`. */
  function SkipSpaceBack(s: string, lo: nat, j: nat): (k: nat)
    requires lo <= j <= |s|
    ensures lo <= k <= j
    ensures k == lo || !IsSpace(s[k - 1])
    decreases j
  {
    if lo < j && IsSpace(s[j - 1]) then SkipSpaceBack(s, lo, j - 1) else j
  }

  /** No whitespace at either end. */
  predicate IsTrimmed(s: string) {
    s == [] || (!IsSpace(s[0]) && !IsSpace(s[|s| - 1]))
  }

  /** Python's `str.strip()` with no argument. */
  function Trim(s: string): (r: string)
    ensures IsTrimmed(r)
    ensures forall c :: c in r ==> c in s
  {
    var a := SkipSpace(s, 0);
    var b := SkipSpaceBack(s, a, |s|);
    assert a < b ==> !IsSpace(s[a]) && !IsSpace(s[b - 1]);
    s[a..b]
  }

  /** Whitespace in front of a string does not reach through `Trim`. */
  lemma {:induction false} TrimDropsLeadingSpace(s: string, k: nat)
    requires k <= |s|
    requires forall m :: 0 <= m < k ==> IsSpace(s[m])
    ensures Trim(s[k..]) == Trim(s)
  {
    var t := s[k..];
    SkipSpaceShift(s, k, 0);
    var a := SkipSpace(s, 0);
    var b := SkipSpaceBack(s, a, |s|);
    var a2 := SkipSpace(t, 0);
    SkipSpaceBackShift(s, k, a, a2);
    var b2 := SkipSpaceBack(t, a2, |t|);
    SliceOfSuffix(s, k, a2, b2, a, b);
  }

  /** A slice of a suffix is a slice of the whole. */
  lemma SliceOfSuffix(s: string, k: nat, a: nat, b: nat, a': nat, b': nat)
    requires k <= |s| && a <= b <= |s| - k && a' == k + a && b' == k + b
    ensures s[k..][a..b] == s[a'..b']
  {
  }

  lemma {:induction false} SkipSpaceShift(s: string, k: nat, i: nat)
    requires k <= |s| && i <= k
    requires forall m :: i <= m < k ==> IsSpace(s[m])
    ensures SkipSpace(s[k..], 0) + k == SkipSpace(s, i)
    decreases k - i
  {
    if i < k {
      SkipSpaceShift(s, k, i + 1);
    } else {
      SkipSpaceFrom(s, k, 0);
    }
  }

  lemma {:induction false} SkipSpaceFrom(s: string, k: nat, i: nat)
    requires k <= |s| && i <= |s| - k
    ensures SkipSpace(s[k..], i) + k == SkipSpace(s, k + i)
    decreases |s| - k - i
  {
    if i < |s| - k && IsSpace(s[k + i]) {
      SkipSpaceFrom(s, k, i + 1);
    }
  }

  lemma SkipSpaceBackShift(s: string, k: nat, a: nat, a2: nat)
    requires k <= a <= |s| && a2 + k == a
    ensures SkipSpaceBack(s[k..], a2, |s[k..]|) + k == SkipSpaceBack(s, a, |s|)
  {
    SkipSpaceBackFrom(s, k, a, |s|);
    assert a - k == a2 && |s| - k == |s[k..]|;
  }

  lemma {:induction false} SkipSpaceBackFrom(s: string, k: nat, a: nat, j: nat)
    requires k <= a <= j <= |s|
    ensures SkipSpaceBack(s[k..], a - k, j - k) + k == SkipSpaceBack(s, a, j)
    decreases j
  {
    if a < j && IsSpace(s[j - 1]) {
      SkipSpaceBackFrom(s, k, a, j - 1);
    }
  }

  /** Python's `str.lower()` on ASCII letters. */
  function LowerChar(c: char): char {
    if 'A' <= c <= 'Z' then (c as int + 32) as char else c
  }

  function Lower(s: string): (r: string)
    ensures |r| == |s|
    ensures forall k :: 0 <= k < |s| ==> r[k] == LowerChar(s[k])
  {
    seq(|s|, k requires 0 <= k < |s| => LowerChar(s[k]))
  }

  /** Python's `s.replace(pat, rep)` from index `i` on: every occurrence found
      scanning left to right, without overlap, is replaced. */
  function ReplaceFrom(s: string, pat: string, rep: string, i: nat): string
    requires |pat| > 0 && i <= |s|
    decreases |s| - i
  {
    if i == |s| then []
    else if HasAt(s, i, pat) then rep + ReplaceFrom(s, pat, rep, i + |pat|)
    else [s[i]] + ReplaceFrom(s, pat, rep, i + 1)
  }

  function ReplaceAll(s: string, pat: string, rep: string): (r: string)
    requires |pat| > 0
    ensures !Contains(s, pat) ==> r == s
  {
    var r := ReplaceFrom(s, pat, rep, 0);
    assert !Contains(s, pat) ==> r == s by {
      if !Contains(s, pat) { ReplaceUntouched(s, pat, rep, 0); }
    }
    r
  }

  /** The scan copies text in which no occurrence starts. */
  lemma {:induction false} ReplaceSkip(s: string, pat: string, rep: string, i: nat, q: nat)
    requires |pat| > 0 && i <= q <= |s|
    requires forall k: nat :: i <= k < q ==> !HasAt(s, k, pat)
    ensures ReplaceFrom(s, pat, rep, i) == s[i..q] + ReplaceFrom(s, pat, rep, q)
    decreases q - i
  {
    if i < q {
      var tail := ReplaceFrom(s, pat, rep, q);
      ReplaceSkip(s, pat, rep, i + 1, q);
      assert !HasAt(s, i, pat);
      assert ReplaceFrom(s, pat, rep, i) == [s[i]] + ReplaceFrom(s, pat, rep, i + 1);
      assert s[i..q] == [s[i]] + s[i + 1..q];
      assert [s[i]] + (s[i + 1..q] + tail) == ([s[i]] + s[i + 1..q]) + tail;
    }
  }

  /** A text whose first occurrence of `pat` is at `q` keeps everything before
      it, gets `rep` in its place, and the scan resumes after it. */
  lemma ReplaceFirst(s: string, pat: string, rep: string, q: nat)
    requires |pat| > 0 && HasAt(s, q, pat)
    requires forall k: nat :: k < q ==> !HasAt(s, k, pat)
    ensures ReplaceAll(s, pat, rep) == s[..q] + rep + ReplaceFrom(s, pat, rep, q + |pat|)
  {
    var tail := ReplaceFrom(s, pat, rep, q + |pat|);
    ReplaceSkip(s, pat, rep, 0, q);
    assert ReplaceFrom(s, pat, rep, q) == rep + tail;
    assert s[0..q] + (rep + tail) == s[..q] + rep + tail;
  }

  /** A single occurrence is replaced and nothing else changes. */
  lemma ReplaceOnly(s: string, pat: string, rep: string, q: nat)
    requires |pat| > 0 && HasAt(s, q, pat)
    requires forall k: nat :: k != q ==> !HasAt(s, k, pat)
    ensures ReplaceAll(s, pat, rep) == s[..q] + rep + s[q + |pat|..]
  {
    ReplaceFirst(s, pat, rep, q);
    ReplaceUntouched(s, pat, rep, q + |pat|);
  }

  /** Python's `s.count(pat)` from index `i` on: non-overlapping occurrences. */
  function CountFrom(s: string, pat: string, i: nat): nat
    requires |pat| > 0 && i <= |s|
    decreases |s| - i
  {
    if i == |s| then 0
    else if HasAt(s, i, pat) then 1 + CountFrom(s, pat, i + |pat|)
    else CountFrom(s, pat, i + 1)
  }

  function Count(s: string, pat: string): (n: nat)
    requires |pat| > 0
    ensures n == 0 <==> !Contains(s, pat)
  {
    CountZeroIffAbsent(s, pat, 0);
    CountFrom(s, pat, 0)
  }

  /** Where `pat` does not occur, replacing it changes nothing. */
  lemma {:induction false} ReplaceUntouched(s: string, pat: string, rep: string, i: nat)
    requires |pat| > 0 && i <= |s|
    requires forall k: nat :: i <= k ==> !HasAt(s, k, pat)
    ensures ReplaceFrom(s, pat, rep, i) == s[i..]
    decreases |s| - i
  {
    if i < |s| {
      ReplaceUntouched(s, pat, rep, i + 1);
    }
  }

  /** The count is zero exactly when there is no occurrence at or after `i`. */
  lemma {:induction false} CountZeroIffAbsent(s: string, pat: string, i: nat)
    requires |pat| > 0 && i <= |s|
    ensures CountFrom(s, pat, i) == 0 <==> IndexOf(s, pat, i).None?
    decreases |s| - i
  {
    if i < |s| && !HasAt(s, i, pat) {
      CountZeroIffAbsent(s, pat, i + 1);
      assert IndexOf(s, pat, i) == IndexOf(s, pat, i + 1);
    }
  }

  /** An occurrence of `pat` in `a + (rep + b)`, where `rep` is non-empty
      and shares no character with `pat`, lies wholly in `a` or wholly in
      `b`. */
  lemma OccurrenceAvoids(a: string, rep: string, b: string, pat: string, j: nat)
    requires |pat| > 0 && rep != [] && forall c :: c in rep ==> c !in pat
    requires HasAt(a + (rep + b), j, pat)
    ensures (j + |pat| <= |a| && HasAt(a, j, pat)) || (|a| + |rep| <= j && HasAt(b, j - |a| - |rep|, pat))
  {
    var w := a + (rep + b);
    if j + |pat| <= |a| {
      assert a[j..j + |pat|] == w[j..j + |pat|];
    } else if |a| + |rep| <= j {
      assert b[j - |a| - |rep|..j - |a| - |rep| + |pat|] == w[j..j + |pat|];
    } else {
      SharedChar(a, rep, b, pat, j);
      assert false;
    }
  }

  /** An occurrence of `pat` that overlaps `rep` in `a + (rep + b)` puts one
      character of `rep` inside `pat`. */
  lemma SharedChar(a: string, rep: string, b: string, pat: string, j: nat)
    requires |pat| > 0 && rep != [] && HasAt(a + (rep + b), j, pat)
    requires |a| < j + |pat| && j < |a| + |rep|
    ensures exists c :: c in rep && c in pat
  {
    var w := a + (rep + b);
    var m := if j < |a| then |a| else j;
    assert w[m] == rep[m - |a|] && rep[m - |a|] in rep;
    assert w[m] == w[j..j + |pat|][m - j] == pat[m - j];
  }

  /** When `rep` is non-empty and shares no character with `pat`, no
      occurrence of `pat` is left after the scan from `i`: each one found is
      replaced, and none can form across a replacement. */
  lemma {:induction false} ReplaceFromLeavesNone(s: string, pat: string, rep: string, i: nat, j: nat)
    requires |pat| > 0 && rep != [] && i <= |s|
    requires forall c :: c in rep ==> c !in pat
    ensures !HasAt(ReplaceFrom(s, pat, rep, i), j, pat)
    decreases |s| - i
  {
    match IndexOf(s, pat, i)
    case None =>
      ReplaceUntouched(s, pat, rep, i);
      if HasAt(s[i..], j, pat) {
        assert s[i..] == s[i..|s|];
        HasAtInSlice(s, i, |s|, pat, j);
      }
    case Some(q) =>
      ReplaceSkip(s, pat, rep, i, q);
      var tail := ReplaceFrom(s, pat, rep, q + |pat|);
      assert ReplaceFrom(s, pat, rep, q) == rep + tail;
      if HasAt(s[i..q] + (rep + tail), j, pat) {
        OccurrenceAvoids(s[i..q], rep, tail, pat, j);
        if j + |pat| <= q - i {
          HasAtInSlice(s, i, q, pat, j);
        } else {
          ReplaceFromLeavesNone(s, pat, rep, q + |pat|, j - (q - i) - |rep|);
        }
      }
  }

  /** `ReplaceFromLeavesNone` over the whole text. */
  lemma ReplaceLeavesNone(s: string, pat: string, rep: string)
    requires |pat| > 0 && rep != [] && forall c :: c in rep ==> c !in pat
    ensures !Contains(ReplaceAll(s, pat, rep), pat)
  {
    var r := ReplaceAll(s, pat, rep);
    if Contains(r, pat) {
      ReplaceFromLeavesNone(s, pat, rep, 0, IndexOf(r, pat, 0).value);
    }
  }

  /** `rep` holds no `pat`, and no `pat` can run into it from either side:
      its last character is not in `pat`, its character at `x` is not in
      `pat`, and its first character is not among the last `x` characters
      of `pat`. */
  predicate Sealed(rep: string, pat: string, x: nat) {
    x < |rep| && x <= |pat| && rep[x] !in pat && rep[|rep| - 1] !in pat
    && rep[0] !in pat[|pat| - x..] && !Contains(rep, pat)
  }

  /** An occurrence of `pat` in `a + (rep + b)`, with `rep` sealed against
      `pat`, lies wholly in `a` or wholly in `b`. */
  lemma OccurrenceAround(a: string, rep: string, b: string, pat: string, x: nat, j: nat)
    requires |pat| > 0 && Sealed(rep, pat, x) && HasAt(a + (rep + b), j, pat)
    ensures (j + |pat| <= |a| && HasAt(a, j, pat)) || (|a| + |rep| <= j && HasAt(b, j - |a| - |rep|, pat))
  {
    var w := a + (rep + b);
    if j + |pat| <= |a| {
      assert a[j..j + |pat|] == w[j..j + |pat|];
    } else if |a| + |rep| <= j {
      assert b[j - |a| - |rep|..j - |a| - |rep| + |pat|] == w[j..j + |pat|];
    } else if |a| <= j && j + |pat| <= |a| + |rep| {
      assert rep[j - |a|..j - |a| + |pat|] == w[j..j + |pat|];
      ContainsAt(rep, pat, j - |a|);
      assert false;
    } else if |a| + |rep| < j + |pat| {
      CoveredChar(a, rep, b, pat, j, |a| + |rep| - 1);
      assert false;
    } else if |a| + x < j + |pat| {
      CoveredChar(a, rep, b, pat, j, |a| + x);
      assert false;
    } else {
      CoveredChar(a, rep, b, pat, j, |a|);
      assert false;
    }
  }

  /** A character of `rep` that an occurrence of `pat` covers is the
      matching character of `pat`. */
  lemma CoveredChar(a: string, rep: string, b: string, pat: string, j: nat, m: nat)
    requires HasAt(a + (rep + b), j, pat) && j <= m < j + |pat| && |a| <= m < |a| + |rep|
    ensures rep[m - |a|] == pat[m - j] && rep[m - |a|] in pat
  {
    var w := a + (rep + b);
    assert w[m] == rep[m - |a|];
    assert w[m] == w[j..j + |pat|][m - j];
  }

  /** Inserting a sealed `rep` into a text without `pat` makes no `pat`. */
  lemma InsertKeepsAbsent(s: string, e: nat, rep: string, pat: string, x: nat)
    requires e <= |s| && |pat| > 0 && Sealed(rep, pat, x) && !Contains(s, pat)
    ensures !Contains(s[..e] + rep + s[e..], pat)
  {
    var w := s[..e] + rep + s[e..];
    assert w == s[..e] + (rep + s[e..]);
    assert s[..e] == s[0..e] && s[e..] == s[e..|s|];
    SliceOccurrences(s, 0, e, pat);
    SliceOccurrences(s, e, |s|, pat);
    if Contains(w, pat) {
      OccurrenceAround(s[..e], rep, s[e..], pat, x, IndexOf(w, pat, 0).value);
    }
  }

  /** Replacing occurrences of `target` by a `rep` sealed against `pat`, in a
      text without `pat`, makes no `pat`. */
  lemma {:induction false} ReplaceFromKeepsAbsent(s: string, target: string, rep: string, pat: string, x: nat, i: nat, j: nat)
    requires |target| > 0 && |pat| > 0 && i <= |s| && Sealed(rep, pat, x) && !Contains(s, pat)
    ensures !HasAt(ReplaceFrom(s, target, rep, i), j, pat)
    decreases |s| - i
  {
    match IndexOf(s, target, i)
    case None =>
      ReplaceUntouched(s, target, rep, i);
      assert s[i..] == s[i..|s|];
      SliceOccurrences(s, i, |s|, pat);
    case Some(q) =>
      ReplaceSkip(s, target, rep, i, q);
      var tail := ReplaceFrom(s, target, rep, q + |target|);
      assert ReplaceFrom(s, target, rep, q) == rep + tail;
      SliceOccurrences(s, i, q, pat);
      if HasAt(s[i..q] + (rep + tail), j, pat) {
        OccurrenceAround(s[i..q], rep, tail, pat, x, j);
        if j + |pat| > q - i {
          ReplaceFromKeepsAbsent(s, target, rep, pat, x, q + |target|, j - (q - i) - |rep|);
        }
      }
  }

  /** `ReplaceFromKeepsAbsent` over the whole text. */
  lemma ReplaceKeepsAbsent(s: string, target: string, rep: string, pat: string, x: nat)
    requires |target| > 0 && |pat| > 0 && Sealed(rep, pat, x) && !Contains(s, pat)
    ensures !Contains(ReplaceAll(s, target, rep), pat)
  {
    var r := ReplaceAll(s, target, rep);
    if Contains(r, pat) {
      ReplaceFromKeepsAbsent(s, target, rep, pat, x, 0, IndexOf(r, pat, 0).value);
    }
  }
}
