/** `add_imports` of migrate_collapsible.py: unless the file already mentions
    `CollapsibleHeader`, insert the service import after the first services
    import, then append the missing icon names to the first `react-icons/fi`
    import. */
module CollapsibleImports {
  import opened Text

  const GUARD := "CollapsibleHeader"
  const SERVICE_MODULE := "../../services/collapsibleHeaderService"
  const IMPORT_LINE := "\nimport { " + GUARD + " } from '" + SERVICE_MODULE + "';"

  // ---------------------------------------------------------------------
  // import.*from '../../services/[^']+';   (no DOTALL: `.` stops at newlines)
  // ---------------------------------------------------------------------

  const IMPORT_WORD := "import"
  const SERVICES_FROM := "from '../../services/"

  /** No newline in `s[a..b]`: what `.*` can run over. */
  predicate SameLine(s: string, a: nat, b: nat)
    requires a <= b <= |s|
  {
    forall k :: a <= k < b ==> s[k] != '\n'
  }

  /** The end of the line that `p` is on (the first newline at or after `p`). */
  function LineEnd(s: string, p: nat): (e: nat)
    requires p <= |s|
    ensures p <= e <= |s| && SameLine(s, p, e)
    ensures e == |s| || s[e] == '\n'
    decreases |s| - p
  {
    if p < |s| && s[p] != '\n' then LineEnd(s, p + 1) else p
  }

  /** `[^']+';` from `t`: the class crosses newlines and runs to the first
      quote, which must close at least one character and be followed by `;`. */
  function QuoteEnd(s: string, t: nat): (r: Option<nat>)
    ensures r.Some? ==> t + 2 < r.value <= |s| && s[r.value - 2] == '\'' && s[r.value - 1] == ';'
    ensures r.Some? ==> forall k :: t <= k < r.value - 2 ==> s[k] != '\''
  {
    match FindChar(s, '\'', t)
    case None => None
    case Some(q) => if q > t && q + 1 < |s| && s[q + 1] == ';' then Some(q + 2) else None
  }

  /** `from '../../services/[^']+';` at `j`, and where it ends. */
  function ServiceTailAt(s: string, j: nat): (r: Option<nat>)
    ensures r.Some? ==> HasAt(s, j, SERVICES_FROM) && r == QuoteEnd(s, j + |SERVICES_FROM|)
  {
    if HasAt(s, j, SERVICES_FROM) then QuoteEnd(s, j + |SERVICES_FROM|) else None
  }

  /** A match of the services pattern that starts at `i` with its `from` at `j`. */
  predicate IsServiceMatch(s: string, i: nat, j: nat) {
    HasAt(s, i, IMPORT_WORD) && i + |IMPORT_WORD| <= j <= |s|
    && SameLine(s, i + |IMPORT_WORD|, j) && ServiceTailAt(s, j).Some?
  }

  /** The greedy `.*`: the right-most `from` in `[lo, hi]` whose tail matches. */
  function LastServiceTail(s: string, lo: nat, hi: nat): (r: Option<nat>)
    requires lo <= hi
    ensures r.Some? ==> lo <= r.value <= hi && ServiceTailAt(s, r.value).Some?
    ensures r.Some? ==> forall j :: r.value < j <= hi ==> ServiceTailAt(s, j).None?
    ensures r.None? ==> forall j :: lo <= j <= hi ==> ServiceTailAt(s, j).None?
    decreases hi - lo
  {
    if ServiceTailAt(s, hi).Some? then Some(hi)
    else if hi == lo then None
    else LastServiceTail(s, lo, hi - 1)
  }

  /** The match that starts at `i`, as the position of its `from`: the last one
      on the line, as the backtracking `.*` settles on. */
  function ServiceImportAt(s: string, i: nat): (r: Option<nat>)
    ensures r.Some? ==> IsServiceMatch(s, i, r.value)
    ensures r.Some? ==> forall j :: r.value < j ==> !IsServiceMatch(s, i, j)
    ensures r.None? ==> forall j :: !IsServiceMatch(s, i, j)
  {
    if !HasAt(s, i, IMPORT_WORD) then None
    else
      var lo := i + |IMPORT_WORD|;
      var e := LineEnd(s, lo);
      var r := LastServiceTail(s, lo, e);
      assert forall j :: e < j <= |s| ==> !SameLine(s, lo, j) by {
        forall j | e < j <= |s| ensures !SameLine(s, lo, j) {
          assert s[e] == '\n';
        }
      }
      r
  }

  /** `re.sub(..., count=1)` finds the leftmost match: its start and end. */
  function FirstServiceImport(s: string, from: nat): (r: Option<(nat, nat)>)
    ensures r.Some? ==>
      (from <= r.value.0 < r.value.1 <= |s| && ServiceImportAt(s, r.value.0).Some?
       && r.value.1 == ServiceTailAt(s, ServiceImportAt(s, r.value.0).value).value)
    ensures r.Some? ==> forall k :: from <= k < r.value.0 ==> ServiceImportAt(s, k).None?
    ensures r.None? ==> forall k :: from <= k ==> ServiceImportAt(s, k).None?
    decreases |s| - from
  {
    if from + |IMPORT_WORD| > |s| then
      NoServiceImportNearEnd(s, from);
      None
    else match ServiceImportAt(s, from)
      case Some(j) =>
        ServiceImportEnds(s, from);
        Some((from, ServiceTailAt(s, j).value))
      case None => FirstServiceImport(s, from + 1)
  }

  /** Too close to the end for `import`, no services import starts. */
  lemma NoServiceImportNearEnd(s: string, from: nat)
    requires from + |IMPORT_WORD| > |s|
    ensures forall k :: from <= k ==> ServiceImportAt(s, k).None?
  {
    forall k | from <= k ensures ServiceImportAt(s, k).None? {
      assert !HasAt(s, k, IMPORT_WORD);
    }
  }

  /** A services import that starts at `i` ends after it, within the text. */
  lemma ServiceImportEnds(s: string, i: nat)
    requires ServiceImportAt(s, i).Some?
    ensures ServiceTailAt(s, ServiceImportAt(s, i).value).Some?
    ensures i < ServiceTailAt(s, ServiceImportAt(s, i).value).value <= |s|
  {
  }

  /** Lines 19-24: the fixed import line goes right after the first services
      import; without one, the text is unchanged. */
  function ServiceImportAdded(s: string): (r: string)
    ensures FirstServiceImport(s, 0).None? ==> r == s
    ensures FirstServiceImport(s, 0).Some? ==>
      (var e := FirstServiceImport(s, 0).value.1;
       e <= |s| && |r| == |s| + |IMPORT_LINE|
       && r[..e] == s[..e] && HasAt(r, e, IMPORT_LINE) && r[e + |IMPORT_LINE|..] == s[e..])
  {
    match FirstServiceImport(s, 0)
    case None => s
    case Some((_, e)) =>
      InsertAt(s, e, IMPORT_LINE);
      s[..e] + IMPORT_LINE + s[e..]
  }

  // ---------------------------------------------------------------------
  // import \{[^}]+\} from 'react-icons/fi';
  // ---------------------------------------------------------------------

  const ICON_OPEN := "import {"
  const ICON_TAIL := "} from 'react-icons/fi';"

  /** The whole of `x` is one icon import statement: a non-empty list with no
      `}` between the brace and the tail. */
  predicate IsIconImport(x: string) {
    |x| > |ICON_OPEN| + |ICON_TAIL| && HasAt(x, 0, ICON_OPEN)
    && HasAt(x, |x| - |ICON_TAIL|, ICON_TAIL)
    && forall k :: |ICON_OPEN| <= k < |x| - |ICON_TAIL| ==> x[k] != '}'
  }

  /** The icon import that starts at `i`, by its end. It ends at the first `}`,
      so there is at most one, and it exists exactly when some slice from `i`
      is an import statement. */
  function IconImportAt(s: string, i: nat): (r: Option<nat>)
    ensures r.Some? ==> i < r.value <= |s| && IsIconImport(s[i..r.value])
    ensures forall e :: i <= e <= |s| && IsIconImport(s[i..e]) ==> r == Some(e)
  {
    if !HasAt(s, i, ICON_OPEN) then
      NoIconImportWithoutOpen(s, i);
      None
    else
      var t := i + |ICON_OPEN|;
      match FindChar(s, '}', t)
      case None =>
        NoImportPastBrace(s, i, t);
        None
      case Some(q) =>
        if q > t && HasAt(s, q, ICON_TAIL) then
          IconImportFromParts(s, i, q);
          OnlyImportEnd(s, i, t, q);
          Some(q + |ICON_TAIL|)
        else
          NoImportPastBrace(s, i, t);
          None
  }

  /** Where the first `}` after the brace does not open a tail (or there is
      none), no import statement starts at `i`. */
  lemma NoImportPastBrace(s: string, i: nat, t: nat)
    requires HasAt(s, i, ICON_OPEN) && t == i + |ICON_OPEN|
    requires FindChar(s, '}', t).None?
      || !(FindChar(s, '}', t).value > t && HasAt(s, FindChar(s, '}', t).value, ICON_TAIL))
    ensures forall e :: i <= e <= |s| ==> !IsIconImport(s[i..e])
  {
    IconImportOnlyAtFirstBrace(s, i);
  }

  /** Where the first `}` after the brace at `t` is at `q` and opens a tail,
      any import statement from `i` ends with that tail. */
  lemma OnlyImportEnd(s: string, i: nat, t: nat, q: nat)
    requires HasAt(s, i, ICON_OPEN) && t == i + |ICON_OPEN| && FindChar(s, '}', t) == Some(q)
    ensures forall e :: i <= e <= |s| && IsIconImport(s[i..e]) ==> e == q + |ICON_TAIL|
  {
    IconImportOnlyAtFirstBrace(s, i);
  }

  lemma NoIconImportWithoutOpen(s: string, i: nat)
    requires !HasAt(s, i, ICON_OPEN)
    ensures forall e :: i <= e <= |s| ==> !IsIconImport(s[i..e])
  {
    forall e | i <= e <= |s| && IsIconImport(s[i..e]) ensures false {
      HasAtInSlice(s, i, e, ICON_OPEN, 0);
    }
  }

  lemma IconImportFromParts(s: string, i: nat, q: nat)
    requires HasAt(s, i, ICON_OPEN) && q > i + |ICON_OPEN| && HasAt(s, q, ICON_TAIL)
    requires forall k :: i + |ICON_OPEN| <= k < q ==> s[k] != '}'
    ensures IsIconImport(s[i..q + |ICON_TAIL|])
  {
    var e := q + |ICON_TAIL|;
    HasAtToSlice(s, i, e, ICON_OPEN, 0);
    HasAtToSlice(s, i, e, ICON_TAIL, q - i);
    forall k | |ICON_OPEN| <= k < q - i ensures s[i..e][k] != '}' {
      assert s[i..e][k] == s[i + k];
    }
  }

  /** Any import statement from `i` ends where the first `}` after the brace
      starts its tail. */
  lemma IconImportOnlyAtFirstBrace(s: string, i: nat)
    requires HasAt(s, i, ICON_OPEN)
    ensures forall e :: i <= e <= |s| && IsIconImport(s[i..e]) ==>
      (FindChar(s, '}', i + |ICON_OPEN|) == Some(e - |ICON_TAIL|)
       && e - |ICON_TAIL| > i + |ICON_OPEN| && HasAt(s, e - |ICON_TAIL|, ICON_TAIL))
  {
    forall e | i <= e <= |s| && IsIconImport(s[i..e])
      ensures FindChar(s, '}', i + |ICON_OPEN|) == Some(e - |ICON_TAIL|)
      ensures HasAt(s, e - |ICON_TAIL|, ICON_TAIL)
    {
      ImportEndsAtTail(s, i, e, e - |ICON_TAIL|);
    }
  }

  /** An import statement `s[i..e]` has its tail at `q`, and that tail's `}`
      is the first one after the opening. */
  lemma ImportEndsAtTail(s: string, i: nat, e: nat, q: nat)
    requires HasAt(s, i, ICON_OPEN) && i <= e <= |s| && IsIconImport(s[i..e])
    requires q == e - |ICON_TAIL|
    ensures FindChar(s, '}', i + |ICON_OPEN|) == Some(q)
    ensures HasAt(s, q, ICON_TAIL)
  {
    HasAtInSliceAt(s, i, e, ICON_TAIL, |s[i..e]| - |ICON_TAIL|, q);
    TailOpensWithBrace(s, q);
    NoBraceInList(s, i, e, q);
    FindCharAt(s, '}', i + |ICON_OPEN|, q);
  }

  /** Between the brace and the tail of an import statement `s[i..e]` there
      is no `}`. */
  lemma NoBraceInList(s: string, i: nat, e: nat, q: nat)
    requires i <= e <= |s| && IsIconImport(s[i..e]) && q == e - |ICON_TAIL|
    ensures forall k :: i + |ICON_OPEN| <= k < q ==> s[k] != '}'
  {
    var x := s[i..e];
    forall k | i + |ICON_OPEN| <= k < q ensures s[k] != '}' {
      assert s[k] == x[k - i];
    }
  }

  /** The tail of an icon import starts with its `}`. */
  lemma TailOpensWithBrace(s: string, q: nat)
    requires HasAt(s, q, ICON_TAIL)
    ensures q < |s| && s[q] == '}'
  {
    assert s[q] == s[q..q + |ICON_TAIL|][0];
  }

  /** `re.search`: the leftmost icon import at or after `from`. */
  function FirstIconImport(s: string, from: nat): (r: Option<(nat, nat)>)
    ensures r.Some? ==> from <= r.value.0 && IconImportAt(s, r.value.0) == Some(r.value.1)
    ensures r.Some? ==> forall k :: from <= k < r.value.0 ==> IconImportAt(s, k).None?
    ensures r.None? ==> forall k :: from <= k ==> IconImportAt(s, k).None?
    decreases |s| - from
  {
    if from > |s| then None
    else match IconImportAt(s, from)
      case Some(e) => Some((from, e))
      case None => FirstIconImport(s, from + 1)
  }

  const ICONS: seq<string> := ["FiBook", "FiPackage", "FiSend", "FiSettings"]

  /** `sub` is `xs` with some of its elements left out and the rest kept in
      their order. */
  predicate Subsequence<T(==)>(sub: seq<T>, xs: seq<T>)
    decreases |xs|
  {
    sub == []
    || (xs != [] && ((sub[0] == xs[0] && Subsequence(sub[1..], xs[1..])) || Subsequence(sub, xs[1..])))
  }

  predicate NoDuplicates<T(==)>(xs: seq<T>) {
    forall a, b :: 0 <= a < b < |xs| ==> xs[a] != xs[b]
  }

  /** The icons of `icons` that do not occur in `m`, in their order. */
  function MissingFrom(m: string, icons: seq<string>): (r: seq<string>)
    ensures forall x :: x in r <==> x in icons && !Contains(m, x)
    ensures Subsequence(r, icons)
    ensures NoDuplicates(icons) ==> NoDuplicates(r)
  {
    if icons == [] then []
    else
      var rest := MissingFrom(m, icons[1..]);
      if Contains(m, icons[0]) then rest
      else
        assert ([icons[0]] + rest)[1..] == rest;
        [icons[0]] + rest
  }

  function Missing(m: string): seq<string> {
    MissingFrom(m, ICONS)
  }

  /** `', '.join(names)`. */
  function Join(names: seq<string>): string {
    if names == [] then ""
    else if |names| == 1 then names[0]
    else names[0] + ", " + Join(names[1..])
  }

  /** Line 39: the names go in front of the `} from` of the statement. */
  function ExtendImport(m: string, needed: seq<string>): string {
    ReplaceAll(m, "} from", ",\n\t" + Join(needed) + ",\n} from")
  }

  /** Lines 33-41: the first icon import gains the missing names; every copy
      of that statement in the text is rewritten the same way. */
  function IconsAdded(s: string): string {
    match FirstIconImport(s, 0)
    case None => s
    case Some((i, e)) =>
      var m := s[i..e];
      var needed := Missing(m);
      if needed == [] then s else ReplaceAll(s, m, ExtendImport(m, needed))
  }

  /** A character in none of the names, and not in the separator, is not in
      the joined list. */
  lemma {:induction false} JoinAvoids(names: seq<string>, c: char)
    requires c != ',' && c != ' '
    requires forall x :: x in names ==> c !in x
    ensures c !in Join(names)
  {
    if |names| > 1 {
      JoinAvoids(names[1..], c);
    }
  }

  /** Every name is in the joined list. */
  lemma {:induction false} JoinContains(names: seq<string>, x: string)
    requires x in names
    ensures Contains(Join(names), x)
  {
    if |names| == 1 || names[0] == x {
      var j := Join(names);
      assert j[..|x|] == x;
      ContainsAt(j, x, 0);
    } else {
      JoinContains(names[1..], x);
      var j := Join(names);
      var k := |names[0]| + 2;
      assert j[k..|j|] == Join(names[1..]);
      ContainsInSlice(j, k, |j|, x);
    }
  }

  /** The fixed parts of an icon import hold no `}` but the one that opens
      the tail. */
  lemma BraceOnlyOpensTail()
    ensures '}' !in ICON_OPEN && '}' !in ICON_TAIL[1..]
  {
  }

  /** The only `} from` of an import statement is the start of its tail. */
  lemma OnlyBraceFrom(m: string)
    requires IsIconImport(m)
    ensures HasAt(m, |m| - |ICON_TAIL|, "} from")
    ensures forall k: nat :: k != |m| - |ICON_TAIL| ==> !HasAt(m, k, "} from")
  {
    var q := |m| - |ICON_TAIL|;
    BraceOnlyOpensTail();
    assert m[q..q + |ICON_TAIL|] == ICON_TAIL;
    assert m[q..q + 6] == ICON_TAIL[..6] == "} from";
    forall k: nat | k != q && k + 6 <= |m| ensures m[k] != '}' {
      if k < |ICON_OPEN| {
        assert m[k] == m[0..|ICON_OPEN|][k] == ICON_OPEN[k];
      } else if k > q {
        assert m[k] == m[q..q + |ICON_TAIL|][k - q] == ICON_TAIL[1..][k - q - 1];
      }
    }
    forall k: nat | k != q ensures !HasAt(m, k, "} from") {
      if k + 6 <= |m| {
        assert m[k..k + 6][0] == m[k];
      }
    }
  }

  /** Line 39 inserts `,\n\t` and the joined names and `,\n` right before the
      closing brace, and keeps the rest of the statement. */
  lemma ExtendImportShape(m: string, needed: seq<string>)
    requires IsIconImport(m)
    ensures var q := |m| - |ICON_TAIL|;
      ExtendImport(m, needed) == m[..q] + (",\n\t" + Join(needed) + ",\n") + m[q..]
  {
    var q := |m| - |ICON_TAIL|;
    var add := ",\n\t" + Join(needed) + ",\n";
    OnlyBraceFrom(m);
    assert ",\n\t" + Join(needed) + ",\n} from" == add + "} from";
    ReplaceOnly(m, "} from", add + "} from", q);
    InsertBefore(m, q, add, "} from");
  }

  /** The extended statement is still one icon import statement. */
  lemma ExtendImportIsImport(m: string, needed: seq<string>)
    requires IsIconImport(m)
    requires forall x :: x in needed ==> '}' !in x
    ensures IsIconImport(ExtendImport(m, needed))
  {
    var q := |m| - |ICON_TAIL|;
    var add := ",\n\t" + Join(needed) + ",\n";
    var w := ExtendImport(m, needed);
    ExtendImportShape(m, needed);
    JoinAvoids(needed, '}');
    assert w == m[..q] + add + m[q..];
    assert w[..|ICON_OPEN|] == m[..|ICON_OPEN|];
    assert w[|w| - |ICON_TAIL|..] == m[q..];
    forall k | |ICON_OPEN| <= k < |w| - |ICON_TAIL| ensures w[k] != '}' {
      if k < q {
        assert w[k] == m[k];
      } else {
        assert w[k] == add[k - q];
      }
    }
  }

  /** After the extension every one of the four icons is in the statement, so
      a second pass would find none missing. */
  lemma ExtendImportComplete(m: string)
    requires IsIconImport(m)
    ensures forall x :: x in ICONS ==> Contains(ExtendImport(m, Missing(m)), x)
    ensures Missing(ExtendImport(m, Missing(m))) == []
  {
    var w := ExtendImport(m, Missing(m));
    forall x | x in ICONS ensures Contains(w, x) {
      IconNames(x);
      IconKept(m, x);
    }
    NoneMissing(w, ICONS);
  }

  lemma NoneMissing(w: string, icons: seq<string>)
    requires forall x :: x in icons ==> Contains(w, x)
    ensures MissingFrom(w, icons) == []
  {
  }

  lemma IconNames(x: string)
    requires x in ICONS
    ensures x != [] && x[0] == 'F' && '}' !in x
  {
  }

  /** One icon, missing or not, is in the extended statement. */
  lemma IconKept(m: string, x: string)
    requires IsIconImport(m) && x in ICONS
    requires x != [] && x[0] == 'F' && '}' !in x
    ensures Contains(ExtendImport(m, Missing(m)), x)
  {
    var needed := Missing(m);
    if x in needed {
      AddedIconKept(m, needed, x);
    } else {
      assert Contains(m, x);
      PresentIconKept(m, needed, x);
    }
  }

  /** A name being added is in the joined names the extension inserts. */
  lemma AddedIconKept(m: string, needed: seq<string>, x: string)
    requires IsIconImport(m) && x in needed
    ensures Contains(ExtendImport(m, needed), x)
  {
    ExtendImportShape(m, needed);
    JoinContains(needed, x);
    ContainsInMiddle(m[..|m| - |ICON_TAIL|], ",\n\t", Join(needed), ",\n", m[|m| - |ICON_TAIL|..], x);
  }

  /** A name the statement already holds stays before its closing brace. */
  lemma PresentIconKept(m: string, needed: seq<string>, x: string)
    requires IsIconImport(m) && Contains(m, x)
    requires x != [] && x[0] == 'F' && '}' !in x
    ensures Contains(ExtendImport(m, needed), x)
  {
    ExtendImportShape(m, needed);
    TailLacksF();
    KeptIconBeforeBrace(m, x);
    ContainsInPrefix(m, |m| - |ICON_TAIL|, ",\n\t" + Join(needed) + ",\n", x);
  }

  /** No letter `F` in the tail of an icon import, so no icon name starts
      inside it. */
  lemma TailLacksF()
    ensures 'F' !in ICON_TAIL
  {
  }

  lemma ContainsInMiddle(a: string, b: string, j: string, c: string, d: string, x: string)
    requires Contains(j, x)
    ensures Contains(a + (b + j + c) + d, x)
  {
    var w := a + (b + j + c) + d;
    assert w[|a| + |b|..|a| + |b| + |j|] == j;
    ContainsInSlice(w, |a| + |b|, |a| + |b| + |j|, x);
  }

  lemma ContainsInPrefix(m: string, q: nat, add: string, x: string)
    requires q <= |m| && Contains(m, x) && IndexOf(m, x, 0).value + |x| <= q
    ensures Contains(m[..q] + add + m[q..], x)
  {
    var w := m[..q] + add + m[q..];
    var k := IndexOf(m, x, 0).value;
    assert w[k..k + |x|] == m[k..k + |x|];
    ContainsAt(w, x, k);
  }

  /** A name already in the statement lies before its closing brace: the name
      has no `}`, and the tail does not have its first letter. */
  lemma KeptIconBeforeBrace(m: string, x: string)
    requires IsIconImport(m) && Contains(m, x)
    requires x != [] && x[0] !in ICON_TAIL && '}' !in x
    ensures IndexOf(m, x, 0).value + |x| <= |m| - |ICON_TAIL|
  {
    var k := IndexOf(m, x, 0).value;
    OccurrenceBeforeTail(m, |m| - |ICON_TAIL|, ICON_TAIL, k, x);
  }

  /** An occurrence of `x` ends before a tail `t` that starts with `}`, when
      `x` has no `}` and the tail lacks `x`'s first letter. */
  lemma OccurrenceBeforeTail(m: string, q: nat, t: string, k: nat, x: string)
    requires q + |t| == |m| && HasAt(m, q, t) && t != [] && t[0] == '}'
    requires HasAt(m, k, x) && x != [] && x[0] !in t && '}' !in x
    ensures k + |x| <= q
  {
    assert forall p :: q <= p < |m| ==> m[p] == t[p - q];
    assert forall p :: k <= p < k + |x| ==> m[p] == x[p - k];
    assert m[k] == x[0];
  }

  /** The first icon import is rewritten in place: the text before it is kept
      and the extended statement stands where it stood. */
  lemma IconsAddedAtFirstImport(s: string, i: nat, e: nat)
    requires FirstIconImport(s, 0) == Some((i, e)) && Missing(s[i..e]) != []
    ensures var w := ExtendImport(s[i..e], Missing(s[i..e]));
      IconsAdded(s) == s[..i] + w + ReplaceFrom(s, s[i..e], w, e)
  {
    IconsAddedReplaces(s, i, e);
    FirstOccurrenceIsFirstImport(s, i, e);
    ReplaceFirstUpTo(s, s[i..e], ExtendImport(s[i..e], Missing(s[i..e])), i, e);
  }

  /** With names missing, `IconsAdded` replaces every copy of the first
      import statement by its extension. */
  lemma IconsAddedReplaces(s: string, i: nat, e: nat)
    requires FirstIconImport(s, 0) == Some((i, e)) && Missing(s[i..e]) != []
    ensures IconsAdded(s) == ReplaceAll(s, s[i..e], ExtendImport(s[i..e], Missing(s[i..e])))
  {
  }

  /** `ReplaceFirst` with the end of the first occurrence given as `e`. */
  lemma ReplaceFirstUpTo(s: string, pat: string, rep: string, q: nat, e: nat)
    requires |pat| > 0 && HasAt(s, q, pat) && e == q + |pat|
    requires forall k: nat :: k < q ==> !HasAt(s, k, pat)
    ensures ReplaceAll(s, pat, rep) == s[..q] + rep + ReplaceFrom(s, pat, rep, e)
  {
    ReplaceFirst(s, pat, rep, q);
  }

  /** The statement text occurs nowhere before the first import: any copy of
      it would be an import statement too. */
  lemma FirstOccurrenceIsFirstImport(s: string, i: nat, e: nat)
    requires FirstIconImport(s, 0) == Some((i, e))
    ensures |s[i..e]| > 0 && HasAt(s, i, s[i..e])
    ensures forall k: nat :: k < i ==> !HasAt(s, k, s[i..e])
  {
    var m := s[i..e];
    assert HasAt(s, i, m);
    NoCopyBefore(s, i, m);
  }

  /** Where no import statement starts before `i`, no copy of one does. */
  lemma NoCopyBefore(s: string, i: nat, m: string)
    requires IsIconImport(m)
    requires forall k :: 0 <= k < i ==> IconImportAt(s, k).None?
    ensures forall k: nat :: k < i ==> !HasAt(s, k, m)
  {
    forall k: nat | k < i ensures !HasAt(s, k, m) {
      if HasAt(s, k, m) {
        ImportCopyAt(s, k, m);
      }
    }
  }

  /** A copy of an import statement is itself recognised as one. */
  lemma ImportCopyAt(s: string, k: nat, m: string)
    requires IsIconImport(m) && HasAt(s, k, m)
    ensures IconImportAt(s, k) == Some(k + |m|)
  {
    assert s[k..k + |m|] == m;
  }

  /** `add_imports`. */
  method AddImports(content: string) returns (r: string)
    ensures Contains(content, GUARD) ==> r == content
    ensures !Contains(content, GUARD) ==> r == IconsAdded(ServiceImportAdded(content))
  {
    if Contains(content, GUARD) {
      return content;
    }
    r := ServiceImportAdded(content);
    match FirstIconImport(r, 0)
    case None =>
    case Some((i, e)) =>
      var existing := r[i..e];
      var needed := Missing(existing);
      if needed != [] {
        var newImport := ExtendImport(existing, needed);
        r := ReplaceAll(r, existing, newImport);
      }
  }

  /** A file that still holds the old `<CollapsibleHeaderButton` pattern
      already contains the guard, so the import step leaves it alone. */
  lemma OldPatternBlocksImports(content: string)
    requires Contains(content, "<CollapsibleHeaderButton")
    ensures Contains(content, GUARD)
  {
    assert "<CollapsibleHeaderButton" == "<" + GUARD + "Button";
    HasAtMiddle("<", GUARD, "Button");
    ContainsAt("<CollapsibleHeaderButton", GUARD, 1);
    ContainsTransitive(content, "<CollapsibleHeaderButton", GUARD);
  }

  /** The import line opens with a newline, ends with `;` and has no `<`,
      so no `<CollapsibleHeaderButton` runs into or through it. */
  lemma ImportLineSealed()
    ensures Sealed(IMPORT_LINE, "<CollapsibleHeaderButton", 0)
  {
    var p := "<CollapsibleHeaderButton";
    assert '<' !in IMPORT_LINE by {
      assert '<' !in "\nimport { " && '<' !in GUARD && '<' !in " } from '" && '<' !in SERVICE_MODULE && '<' !in "';";
    }
    AbsentByChar(IMPORT_LINE, p, 0);
    assert IMPORT_LINE[0] == '\n' && IMPORT_LINE[|IMPORT_LINE| - 1] == ';';
    assert '\n' !in p && ';' !in p;
  }

  /** Inserting the service import makes no `<CollapsibleHeaderButton`. */
  lemma ServiceImportAddsNoButton(s: string)
    requires !Contains(s, "<CollapsibleHeaderButton")
    ensures !Contains(ServiceImportAdded(s), "<CollapsibleHeaderButton")
  {
    match FirstServiceImport(s, 0)
    case None =>
    case Some((_, e)) =>
      ImportLineSealed();
      InsertKeepsAbsent(s, e, IMPORT_LINE, "<CollapsibleHeaderButton", 0);
  }

  /** The extension of a statement without `<CollapsibleHeaderButton` has
      none either, and no copy of the tag runs into it: it opens with
      `import {` and ends with `;`. */
  lemma ExtendImportSealed(m: string)
    requires IsIconImport(m) && !Contains(m, "<CollapsibleHeaderButton")
    ensures Sealed(ExtendImport(m, Missing(m)), "<CollapsibleHeaderButton", 6)
  {
    ExtendSealed(m, Missing(m));
  }

  /** The same for any list of icon names. */
  lemma ExtendSealed(m: string, needed: seq<string>)
    requires IsIconImport(m) && !Contains(m, "<CollapsibleHeaderButton")
    requires forall x :: x in needed ==> x in ICONS
    ensures Sealed(ExtendImport(m, needed), "<CollapsibleHeaderButton", 6)
  {
    var q := |m| - |ICON_TAIL|;
    var add := ",\n\t" + Join(needed) + ",\n";
    var w := ExtendImport(m, needed);
    var p := "<CollapsibleHeaderButton";
    ExtendImportShape(m, needed);
    ExtendedEnds(m, add, w);
    ListSealed(needed, add);
    ExtendedLacksButton(m, q, add, w);
    assert w[0] !in p[|p| - 6..];
  }

  /** Text sealed against `<CollapsibleHeaderButton` inserted before the tail
      of a statement without the tag leaves it without the tag. */
  lemma ExtendedLacksButton(m: string, q: nat, add: string, w: string)
    requires q <= |m| && w == m[..q] + add + m[q..]
    requires !Contains(m, "<CollapsibleHeaderButton") && Sealed(add, "<CollapsibleHeaderButton", 0)
    ensures !Contains(w, "<CollapsibleHeaderButton")
  {
    InsertKeepsAbsent(m, q, add, "<CollapsibleHeaderButton", 0);
  }

  /** A statement with text inserted before its tail still opens with
      `import {` and ends with `;`. */
  lemma ExtendedEnds(m: string, add: string, w: string)
    requires IsIconImport(m) && w == m[..|m| - |ICON_TAIL|] + add + m[|m| - |ICON_TAIL|..]
    ensures |w| > 6 && w[0] == 'i' && w[6] == ' ' && w[|w| - 1] == ';'
    ensures 'i' !in "<CollapsibleHeaderButton"[18..] && ' ' !in "<CollapsibleHeaderButton"
    ensures ';' !in "<CollapsibleHeaderButton"
  {
    var q := |m| - |ICON_TAIL|;
    assert w[0] == m[..|ICON_OPEN|][0] && w[6] == m[..|ICON_OPEN|][6];
    assert w[|w| - 1] == m[q..][|ICON_TAIL| - 1];
    assert "<CollapsibleHeaderButton"[18..] == "Button";
  }

  /** The inserted list opens with `,`, ends with a newline and has no `<`. */
  lemma ListSealed(needed: seq<string>, add: string)
    requires forall x :: x in needed ==> x in ICONS
    requires add == ",\n\t" + Join(needed) + ",\n"
    ensures Sealed(add, "<CollapsibleHeaderButton", 0)
  {
    forall x | x in needed ensures '<' !in x {
      IconLacksOpen(x);
    }
    JoinAvoids(needed, '<');
    assert '<' !in add;
    AbsentByChar(add, "<CollapsibleHeaderButton", 0);
    assert add[0] == ',' && add[|add| - 1] == '\n';
  }

  lemma TailLacksOpen()
    ensures '<' !in ICON_TAIL
  {
  }

  lemma IconLacksOpen(x: string)
    requires x in ICONS
    ensures '<' !in x
  {
  }

  /** Extending the icon import makes no `<CollapsibleHeaderButton`. */
  lemma IconsAddedAddsNoButton(s: string)
    requires !Contains(s, "<CollapsibleHeaderButton")
    ensures !Contains(IconsAdded(s), "<CollapsibleHeaderButton")
  {
    match FirstIconImport(s, 0)
    case None =>
    case Some((i, e)) =>
      var m := s[i..e];
      if Missing(m) != [] {
        if Contains(m, "<CollapsibleHeaderButton") {
          ContainsInSlice(s, i, e, "<CollapsibleHeaderButton");
        }
        ExtendImportSealed(m);
        ReplaceKeepsAbsent(s, m, ExtendImport(m, Missing(m)), "<CollapsibleHeaderButton", 6);
      }
  }
}
