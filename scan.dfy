/** A small interpreter for the regular expressions of the scripts that need
    no backtracking beyond their lazy runs: a pattern is a sequence of steps,
    each of which can end in at most one place. */
module Scan {
  import opened Text
  import opened Substitution

  datatype Step =
    | Lit(t: string)                 // the literal `t`
    | SpaceLit(t: string)            // `\s*` then the literal `t`
    | UpTo(c: char)                  // `[^c]*c`
    | UpToWith(c: char, w: string)   // `[^c]*w[^c]*c`
    | Opt(c: char)                   // `c?`

  /** Where the whole pattern that starts at `p` ends. Each step can end in
      only one place: `\s*t` because the greedy run of spaces gives nothing
      back when `t` starts with a non-space character, `[^c]*w[^c]*c`
      because neither run can pass a `c` (when `w` has none), and `c?`
      because it is greedy and, in the patterns here, what follows it cannot
      start with `c`. */
  function Run(s: string, p: nat, prog: seq<Step>): (r: Option<nat>)
    requires p <= |s|
    ensures r.Some? ==> p <= r.value <= |s|
    decreases |prog|
  {
    if prog == [] then Some(p)
    else match prog[0]
      case Lit(t) => if HasAt(s, p, t) then Run(s, p + |t|, prog[1..]) else None
      case SpaceLit(t) =>
        (match SpaceThen(s, p, t)
         case None => None
         case Some(q) => Run(s, q, prog[1..]))
      case UpTo(c) =>
        (match FindChar(s, c, p)
         case None => None
         case Some(g) => Run(s, g + 1, prog[1..]))
      case UpToWith(c, w) =>
        (match FindChar(s, c, p)
         case None => None
         case Some(g) => if Contains(s[p..g], w) then Run(s, g + 1, prog[1..]) else None)
      case Opt(c) => if p < |s| && s[p] == c then Run(s, p + 1, prog[1..]) else Run(s, p, prog[1..])
  }

  /** `\s*` followed by the literal `lit`, from `p`. */
  function SpaceThen(s: string, p: nat, lit: string): (r: Option<nat>)
    requires p <= |s|
    ensures r.Some? ==> p + |lit| <= r.value <= |s| && HasAt(s, r.value - |lit|, lit)
    ensures r.Some? ==> forall m :: p <= m < r.value - |lit| ==> IsSpace(s[m])
  {
    var j := SkipSpace(s, p);
    SkipSpaceSpaces(s, p);
    if HasAt(s, j, lit) then Some(j + |lit|) else None
  }

  /** The greedy run of spaces gives nothing back: any run of spaces
      followed by `lit` is the one found. */
  lemma SpaceThenComplete(s: string, p: nat, lit: string, k: nat)
    requires p <= |s| && lit != [] && !IsSpace(lit[0])
    requires p <= k && HasAt(s, k, lit) && forall m :: p <= m < k ==> IsSpace(s[m])
    ensures SpaceThen(s, p, lit) == Some(k + |lit|)
  {
    var j := SkipSpace(s, p);
    SkipSpaceSpaces(s, p);
    assert s[k] == s[k..k + |lit|][0];
    assert k == j;
  }

  /** `[^c]*w[^c]*c` matches from `p` to just past the first `c` exactly when
      the text before that `c` contains `w`. */
  lemma UpToWithComplete(s: string, p: nat, c: char, w: string, g: nat)
    requires p <= g < |s| && s[g] == c && c !in w
    requires forall k :: p <= k < g ==> s[k] != c
    ensures Run(s, p, [UpToWith(c, w)]) == (if Contains(s[p..g], w) then Some(g + 1) else None)
  {
    var f := FindChar(s, c, p);
    assert f.Some? && f.value == g;
  }

  /** Where a non-empty match of `prog` starting at `i` ends. */
  function MatchEnd(s: string, prog: seq<Step>, i: nat): (r: Option<nat>)
    ensures r.Some? ==> i < r.value <= |s|
  {
    if i > |s| then None
    else match Run(s, i, prog)
      case Some(e) => if i < e then Some(e) else None
      case None => None
  }

  /** The non-empty match of `prog` at every index of `s`, and at its end. */
  function RunTable(s: string, prog: seq<Step>): (t: seq<Option<nat>>)
    ensures |t| == |s| + 1 && Table(t)
    ensures forall i :: 0 <= i < |t| ==> t[i] == MatchEnd(s, prog, i)
  {
    Tabulate(i => MatchEnd(s, prog, i), 0, |s| + 1)
  }

  /** The replacement function that puts `rep` in place of any match. */
  function Fixed(rep: string): string -> string {
    _ => rep
  }

  /** `re.sub(prog, rep, s)` with a replacement holding no backslash: every
      match the scan finds is replaced by `rep`, the text between is kept. */
  function SubAll(s: string, prog: seq<Step>, rep: string): (r: string)
    ensures r == Spliced(s, MatchesIn(RunTable(s, prog), 0), Fixed(rep), 0)
  {
    SubstituteIn(s, RunTable(s, prog), Fixed(rep), 0)
  }

  /** Where `prog` matches at `p` only, `re.sub` puts `rep` in place of that
      match and keeps the text around it. */
  lemma SubAllOne(s: string, prog: seq<Step>, rep: string, p: nat, e: nat)
    requires MatchEnd(s, prog, p) == Some(e)
    requires forall k :: 0 <= k <= |s| && k != p ==> MatchEnd(s, prog, k).None?
    ensures SubAll(s, prog, rep) == s[..p] + rep + s[e..]
  {
    SubstituteOne(s, RunTable(s, prog), Fixed(rep), p, e);
  }

  /** Where `prog` matches nowhere, `re.sub` returns the text as it is. */
  lemma SubAllNoMatch(s: string, prog: seq<Step>, rep: string)
    requires forall i :: 0 <= i <= |s| ==> MatchEnd(s, prog, i).None?
    ensures SubAll(s, prog, rep) == s
  {
    var t := RunTable(s, prog);
    assert NextIn(t, 0).None?;
  }

  /** A pattern that opens with a literal matches only where the literal
      stands. */
  lemma LitFirst(s: string, i: nat, lit: string, prog: seq<Step>)
    requires MatchEnd(s, prog, i).Some? && prog != [] && prog[0] == Lit(lit)
    ensures HasAt(s, i, lit)
  {
  }

  /** One literal step of a pattern. */
  lemma RunLitStep(s: string, p: nat, lit: string, rest: seq<Step>)
    requires p <= |s| && HasAt(s, p, lit)
    ensures Run(s, p, [Lit(lit)] + rest) == Run(s, p + |lit|, rest)
  {
    assert ([Lit(lit)] + rest)[1..] == rest;
  }

  /** One `\s*lit` step of a pattern. */
  lemma RunSpaceLitStep(s: string, p: nat, lit: string, rest: seq<Step>)
    requires p <= |s| && SpaceThen(s, p, lit).Some?
    ensures Run(s, p, [SpaceLit(lit)] + rest) == Run(s, SpaceThen(s, p, lit).value, rest)
  {
    assert ([SpaceLit(lit)] + rest)[1..] == rest;
  }

  /** A run that gets through a `\s*lit` step found `lit` there. */
  lemma RunSpaceLitSome(s: string, p: nat, lit: string, rest: seq<Step>)
    requires p <= |s| && Run(s, p, [SpaceLit(lit)] + rest).Some?
    ensures SpaceThen(s, p, lit).Some?
    ensures Run(s, p, [SpaceLit(lit)] + rest) == Run(s, SpaceThen(s, p, lit).value, rest)
  {
    assert ([SpaceLit(lit)] + rest)[1..] == rest;
  }

  /** One `c?` step of a pattern. */
  lemma RunOptStep(s: string, p: nat, c: char, rest: seq<Step>)
    requires p <= |s|
    ensures Run(s, p, [Opt(c)] + rest) == if p < |s| && s[p] == c then Run(s, p + 1, rest) else Run(s, p, rest)
  {
    assert ([Opt(c)] + rest)[1..] == rest;
  }

  /** `w` is a run of whitespace (possibly empty), as `\s*` takes it. */
  predicate AllSpace(w: string) {
    forall c :: c in w ==> IsSpace(c)
  }

  /** The steps `\s*l` for each literal `l` of `lits`, in order. */
  function SpaceLits(lits: seq<string>): (prog: seq<Step>)
    ensures |prog| == |lits|
  {
    if lits == [] then [] else [SpaceLit(lits[0])] + SpaceLits(lits[1..])
  }

  /** Each literal of `lits` preceded by the gap at the same place in `gaps`. */
  function Spaced(gaps: seq<string>, lits: seq<string>): string
    requires |gaps| == |lits|
  {
    if lits == [] then [] else (gaps[0] + lits[0]) + Spaced(gaps[1..], lits[1..])
  }

  /** A text that is the literal `a` followed by `rest`. */
  lemma SliceParts(s: string, p: nat, a: string, rest: string)
    requires p + |a| + |rest| <= |s| && s[p..p + |a| + |rest|] == a + rest
    ensures HasAt(s, p, a) && s[p + |a|..p + |a| + |rest|] == rest
  {
    assert s[p..p + |a|] == (a + rest)[..|a|];
    assert s[p + |a|..p + |a| + |rest|] == (a + rest)[|a|..];
  }

  /** `\s*lit` takes exactly a whitespace gap `w` written before `lit`. */
  lemma GapThen(s: string, p: nat, w: string, lit: string, rest: string)
    requires AllSpace(w) && lit != [] && !IsSpace(lit[0])
    requires p + |w| + |lit| + |rest| <= |s| && s[p..p + |w| + |lit| + |rest|] == w + (lit + rest)
    ensures SpaceThen(s, p, lit) == Some(p + |w| + |lit|)
    ensures s[p + |w| + |lit|..p + |w| + |lit| + |rest|] == rest
  {
    SliceParts(s, p, w, lit + rest);
    SliceParts(s, p + |w|, lit, rest);
    forall m | p <= m < p + |w| ensures IsSpace(s[m]) {
      assert s[m] == w[m - p];
    }
    SpaceThenComplete(s, p, lit, p + |w|);
  }

  /** The text `x` stands in `s` from `p` on, character by character. */
  predicate Written(s: string, p: nat, x: string)
    decreases |x|
  {
    if x == [] then p <= |s| else p < |s| && s[p] == x[0] && Written(s, p + 1, x[1..])
  }

  /** `Written` is the slice of `s` from `p` being `x`. */
  lemma {:induction false} WrittenSlice(s: string, p: nat, x: string)
    ensures Written(s, p, x) <==> p + |x| <= |s| && s[p..p + |x|] == x
    decreases |x|
  {
    if x != [] {
      WrittenSlice(s, p + 1, x[1..]);
      if p + |x| <= |s| {
        var y := s[p..p + |x|];
        assert p + 1 + |x[1..]| == p + |x|;
        assert y[0] == s[p] && y[1..] == s[p + 1..p + 1 + |x[1..]|];
        assert y == x <==> y[0] == x[0] && y[1..] == x[1..];
      } else {
        assert !Written(s, p, x);
      }
    }
  }

  /** A text is written only where it fits. */
  lemma WrittenInRange(s: string, p: nat, x: string)
    requires Written(s, p, x)
    ensures p <= |s|
  {
  }

  /** A text written at `p` is its two halves written one after the other. */
  lemma {:induction false} WrittenSplit(s: string, p: nat, a: string, b: string)
    requires Written(s, p, a + b)
    ensures Written(s, p, a) && Written(s, p + |a|, b)
    decreases |a|
  {
    if a == [] {
      assert a + b == b;
      WrittenInRange(s, p, b);
    } else {
      assert (a + b)[0] == a[0] && (a + b)[1..] == a[1..] + b;
      WrittenSplit(s, p + 1, a[1..], b);
    }
  }

  /** `\s*lit` takes exactly a whitespace gap `w` written before `lit`. */
  lemma WrittenGap(s: string, p: nat, w: string, lit: string)
    requires AllSpace(w) && lit != [] && !IsSpace(lit[0])
    requires Written(s, p, w + lit)
    ensures SpaceThen(s, p, lit) == Some(p + |w| + |lit|)
  {
    WrittenSlice(s, p, w + lit);
    assert w + lit == w + (lit + []);
    GapThen(s, p, w, lit, []);
  }

  /** Every gap of `gaps` is whitespace only. */
  predicate Gaps(gaps: seq<string>)
    decreases |gaps|
  {
    gaps == [] || (AllSpace(gaps[0]) && Gaps(gaps[1..]))
  }

  /** Every literal of `lits` starts with a character that is not
      whitespace, so `\s*` cannot run into it. */
  predicate Heads(lits: seq<string>)
    decreases |lits|
  {
    lits == [] || (lits[0] != [] && !IsSpace(lits[0][0]) && Heads(lits[1..]))
  }

  /** `\s*l` for each literal `l` of `lits` in turn, from `p`. */
  function SpaceRun(s: string, p: nat, lits: seq<string>): (r: Option<nat>)
    requires p <= |s|
    decreases |lits|
  {
    if lits == [] then Some(p)
    else match SpaceThen(s, p, lits[0])
      case None => None
      case Some(q) => SpaceRun(s, q, lits[1..])
  }

  /** The pattern `SpaceLits(lits)` runs as `SpaceRun`. */
  lemma {:induction false} RunSpaceLits(s: string, p: nat, lits: seq<string>)
    requires p <= |s|
    ensures Run(s, p, SpaceLits(lits)) == SpaceRun(s, p, lits)
    decreases |lits|
  {
    if lits != [] {
      assert SpaceLits(lits)[1..] == SpaceLits(lits[1..]);
      match SpaceThen(s, p, lits[0])
      case None =>
      case Some(q) => RunSpaceLits(s, q, lits[1..]);
    }
  }

  /** The steps `\s*l` match literals written with any whitespace gaps
      before them, and end right after the last one, at `e`. */
  lemma {:induction false} SpacedMatches(s: string, p: nat, gaps: seq<string>, lits: seq<string>, e: nat)
    requires |gaps| == |lits|
    requires Gaps(gaps) && Heads(lits)
    requires Written(s, p, Spaced(gaps, lits)) && e == p + |Spaced(gaps, lits)|
    ensures SpaceRun(s, p, lits) == Some(e)
    decreases |lits|
  {
    if lits != [] {
      var q := p + |gaps[0]| + |lits[0]|;
      SpacedStep(s, p, gaps, lits, q);
      SpacedMatches(s, q, gaps[1..], lits[1..], e);
      SpaceRunStep(s, p, lits, q);
    }
  }

  /** One literal passed, `SpaceRun` goes on from where it ended. */
  lemma SpaceRunStep(s: string, p: nat, lits: seq<string>, q: nat)
    requires p <= |s| && lits != [] && SpaceThen(s, p, lits[0]) == Some(q)
    ensures q <= |s| && SpaceRun(s, p, lits) == SpaceRun(s, q, lits[1..])
  {
  }

  /** The first gap and literal of a spaced text are passed by one step, to
      `q`. */
  lemma SpacedStep(s: string, p: nat, gaps: seq<string>, lits: seq<string>, q: nat)
    requires |gaps| == |lits| && lits != []
    requires AllSpace(gaps[0]) && lits[0] != [] && !IsSpace(lits[0][0])
    requires Written(s, p, Spaced(gaps, lits)) && q == p + |gaps[0]| + |lits[0]|
    ensures SpaceThen(s, p, lits[0]) == Some(q)
    ensures Written(s, q, Spaced(gaps[1..], lits[1..]))
  {
    var head := gaps[0] + lits[0];
    WrittenSplit(s, p, head, Spaced(gaps[1..], lits[1..]));
    WrittenGap(s, p, gaps[0], lits[0]);
  }

  /** The same, stated on the pattern. */
  lemma SpacedRuns(s: string, p: nat, gaps: seq<string>, lits: seq<string>, e: nat)
    requires |gaps| == |lits|
    requires Gaps(gaps) && Heads(lits)
    requires Written(s, p, Spaced(gaps, lits)) && e == p + |Spaced(gaps, lits)|
    ensures p <= |s| && Run(s, p, SpaceLits(lits)) == Some(e)
  {
    WrittenInRange(s, p, Spaced(gaps, lits));
    SpacedMatches(s, p, gaps, lits, e);
    RunSpaceLits(s, p, lits);
  }

  /** A literal written at `p` is passed by a literal step. */
  lemma WrittenLitRuns(s: string, p: nat, lit: string, rest: seq<Step>, e: nat)
    requires Written(s, p, lit) && p + |lit| <= |s| && Run(s, p + |lit|, rest) == Some(e)
    ensures Run(s, p, [Lit(lit)] + rest) == Some(e)
  {
    WrittenSlice(s, p, lit);
    RunLitStep(s, p, lit, rest);
  }

  /** A literal, then literals each after a whitespace gap: the pattern
      `lit\s*l1\s*l2...` matches all of it. */
  lemma LitThenSpacedMatches(s: string, p: nat, lit: string, gaps: seq<string>, lits: seq<string>)
    requires lit != [] && |gaps| == |lits|
    requires Gaps(gaps) && Heads(lits)
    requires Written(s, p, lit + Spaced(gaps, lits))
    ensures MatchEnd(s, [Lit(lit)] + SpaceLits(lits), p) == Some(p + |lit| + |Spaced(gaps, lits)|)
  {
    var q := p + |lit|;
    var e := q + |Spaced(gaps, lits)|;
    WrittenSplit(s, p, lit, Spaced(gaps, lits));
    SpacedRuns(s, q, gaps, lits, e);
    LitRunMatches(s, p, lit, SpaceLits(lits), e);
  }

  /** A pattern opening with a literal written at `p` matches where the rest
      of it, run after the literal, ends. */
  lemma LitRunMatches(s: string, p: nat, lit: string, rest: seq<Step>, e: nat)
    requires lit != [] && Written(s, p, lit) && p + |lit| <= |s| && Run(s, p + |lit|, rest) == Some(e)
    ensures MatchEnd(s, [Lit(lit)] + rest, p) == Some(e)
  {
    WrittenLitRuns(s, p, lit, rest, e);
  }
}
