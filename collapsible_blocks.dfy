/** The old section pattern of `migrate_file`: a `<CollapsibleSection>` whose
    header button is followed by a `{...collapsedSections...} && (...)` gate
    around a `<CollapsibleContent>` body. The regular expression is matched by
    hand, in the order Python's backtracking engine tries the alternatives,
    and the text is scanned for non-overlapping matches as `re.findall` and
    `re.sub` do.

    The expression has the shape `H .*? B G .*? C T`: fixed parts `H`, `G`,
    `T` that can end in only one place, two lazy runs, and the closing tags
    `B` and `C` that end them. The matcher is written for any pattern of
    that shape; `SECTION` is the one the script uses. */
module CollapsibleBlocks {
  import opened Text
  import opened Scan
  import opened CollapsibleSections
  import opened Substitution

  /** A fixed part of the expression: where it ends when it starts at a
      given index of a text, if it matches there. */
  type Part = (string, nat) -> Option<nat>

  datatype Pattern = Pattern(
    header: Part,            // H
    buttonClose: string,     // B, ends the first lazy run
    gate: Part,              // G
    contentClose: string,    // C, ends the second lazy run
    tail: Part)              // T

  const SECTION_OPEN := "<CollapsibleSection>"
  const BUTTON_OPEN := "<CollapsibleHeaderButton"
  const BUTTON_CLOSE := "</CollapsibleHeaderButton>"
  const GATE_WORD := "collapsedSections"
  const SECTION_CLOSE := "</CollapsibleSection>"

  /** `<CollapsibleSection>\s*<CollapsibleHeaderButton[^>]*>`. */
  function SectionHeader(s: string, p: nat): Option<nat> {
    if p <= |s| then Run(s, p, [Lit(SECTION_OPEN), SpaceLit(BUTTON_OPEN), UpTo('>')]) else None
  }

  /** `\s*\{[^}]*collapsedSections[^}]*\}\s*&&\s*\(\s*<CollapsibleContent>`.
      Inside the braces no `}` can occur, so the closing brace is the first
      `}` after the opening one, and the text between must contain
      `collapsedSections`. */
  function SectionGate(s: string, p: nat): Option<nat> {
    if p <= |s| then
      Run(s, p, [SpaceLit("{"), UpToWith('}', GATE_WORD), SpaceLit("&&"), SpaceLit("("), SpaceLit(CONTENT_OPEN)])
    else None
  }

  /** `\s*\)\s*\}\s*</CollapsibleSection>`. */
  function SectionTail(s: string, p: nat): Option<nat> {
    if p <= |s| then Run(s, p, [SpaceLit(")"), SpaceLit("}"), SpaceLit(SECTION_CLOSE)]) else None
  }

  /** The expression of the script: the header, `.*?</CollapsibleHeaderButton>`,
      the gate, `.*?</CollapsibleContent>` and the tail. */
  const SECTION := Pattern(SectionHeader, BUTTON_CLOSE, SectionGate, CONTENT_CLOSE, SectionTail)

  /** Where the part `f` ends when it starts at `p`; a part never goes
      backwards nor past the end of the text. */
  function PartEnd(f: Part, s: string, p: nat): (r: Option<nat>)
    ensures r.Some? ==> p <= r.value <= |s|
  {
    match f(s, p)
    case Some(q) => if p <= q <= |s| then Some(q) else None
    case None => None
  }

  /** Where `H` ends for a block starting at `i`. */
  function HeaderEnd(s: string, pat: Pattern, i: nat): (r: Option<nat>)
    ensures r.Some? ==> i <= r.value <= |s|
  {
    PartEnd(pat.header, s, i)
  }

  /** Where `G` ends after a button closing tag at `c1`. */
  function GateEnd(s: string, pat: Pattern, c1: nat): (r: Option<nat>)
    ensures r.Some? ==> c1 + |pat.buttonClose| <= r.value <= |s|
  {
    PartEnd(pat.gate, s, c1 + |pat.buttonClose|)
  }

  /** Where `T` ends after a content closing tag at `c2`. */
  function TailEnd(s: string, pat: Pattern, c2: nat): (r: Option<nat>)
    ensures r.Some? ==> c2 + |pat.contentClose| <= r.value <= |s|
  {
    PartEnd(pat.tail, s, c2 + |pat.contentClose|)
  }

  /** A closing tag `C` at `c2` after which `T` matches. */
  predicate ContentViable(s: string, pat: Pattern, c2: nat) {
    HasAt(s, c2, pat.contentClose) && TailEnd(s, pat, c2).Some?
  }

  /** The lazy `.*?C` from `from`, followed by `T`: the first viable `C`, and
      the end of the block after it. */
  function ContentMatch(s: string, pat: Pattern, from: nat): (r: Option<(nat, nat)>)
    requires from <= |s|
    ensures r.Some? ==> from <= r.value.0 && ContentViable(s, pat, r.value.0)
    ensures r.Some? ==> TailEnd(s, pat, r.value.0) == Some(r.value.1)
    decreases |s| - from
  {
    if ContentViable(s, pat, from) then Some((from, TailEnd(s, pat, from).value))
    else if from == |s| then None
    else ContentMatch(s, pat, from + 1)
  }

  /** No closing tag before the one found is viable, and none at all when
      nothing is found. */
  lemma {:induction false} ContentMatchFirst(s: string, pat: Pattern, from: nat, c: nat)
    requires from <= c && from <= |s| && ContentViable(s, pat, c)
    ensures ContentMatch(s, pat, from).Some? && ContentMatch(s, pat, from).value.0 <= c
    decreases |s| - from
  {
    if !ContentViable(s, pat, from) {
      if from < |s| {
        ContentMatchFirst(s, pat, from + 1, c);
      }
    }
  }

  /** A closing tag `B` at `c1` after which `G` matches and some viable `C`
      follows. */
  predicate ButtonViable(s: string, pat: Pattern, c1: nat) {
    HasAt(s, c1, pat.buttonClose)
    && GateEnd(s, pat, c1).Some?
    && ContentMatch(s, pat, GateEnd(s, pat, c1).value).Some?
  }

  /** The lazy `.*?B` from `from`: the first viable `B`. */
  function ButtonMatch(s: string, pat: Pattern, from: nat): (r: Option<nat>)
    requires from <= |s|
    ensures r.Some? ==> from <= r.value && ButtonViable(s, pat, r.value)
    decreases |s| - from
  {
    if ButtonViable(s, pat, from) then Some(from)
    else if from == |s| then None
    else ButtonMatch(s, pat, from + 1)
  }

  /** No closing tag before the one found is viable, and none at all when
      nothing is found. */
  lemma {:induction false} ButtonMatchFirst(s: string, pat: Pattern, from: nat, c: nat)
    requires from <= c && from <= |s| && ButtonViable(s, pat, c)
    ensures ButtonMatch(s, pat, from).Some? && ButtonMatch(s, pat, from).value <= c
    decreases |s| - from
  {
    if !ButtonViable(s, pat, from) {
      if from < |s| {
        ButtonMatchFirst(s, pat, from + 1, c);
      }
    }
  }

  /** Where a match's two lazy runs stop, and where it ends. */
  datatype Block = Block(buttonClose: nat, contentClose: nat, end: nat)

  /** The expression matches the text from `i` to `e` when its lazy runs
      stop at the closing tags at `c1` and `c2`. */
  predicate IsBlock(s: string, pat: Pattern, i: nat, c1: nat, c2: nat, e: nat) {
    HeaderEnd(s, pat, i).Some? && HeaderEnd(s, pat, i).value <= c1
    && HasAt(s, c1, pat.buttonClose)
    && GateEnd(s, pat, c1).Some?
    && GateEnd(s, pat, c1).value <= c2
    && HasAt(s, c2, pat.contentClose)
    && TailEnd(s, pat, c2) == Some(e)
  }

  /** The match the engine reports at `i`. */
  function BlockAt(s: string, pat: Pattern, i: nat): (r: Option<Block>)
    requires pat.contentClose != []
    ensures r.Some? ==> i < r.value.end <= |s|
  {
    match HeaderEnd(s, pat, i)
    case None => None
    case Some(h) =>
      match ButtonMatch(s, pat, h)
      case None => None
      case Some(c1) =>
        var m := ContentMatch(s, pat, GateEnd(s, pat, c1).value).value;
        Some(Block(c1, m.0, m.1))
  }

  /** What is reported is a match. */
  lemma BlockAtIsBlock(s: string, pat: Pattern, i: nat)
    requires pat.contentClose != [] && BlockAt(s, pat, i).Some?
    ensures var b := BlockAt(s, pat, i).value; IsBlock(s, pat, i, b.buttonClose, b.contentClose, b.end)
  {
    var h := HeaderEnd(s, pat, i).value;
    var c1 := ButtonMatch(s, pat, h).value;
    var g := GateEnd(s, pat, c1).value;
    var m := ContentMatch(s, pat, g).value;
    assert BlockAt(s, pat, i) == Some(Block(c1, m.0, m.1));
  }

  /** Of all ways to match at `i`, the one reported has the shortest first
      lazy run, and then the shortest second one. */
  lemma BlockAtLeast(s: string, pat: Pattern, i: nat, c1: nat, c2: nat, e: nat)
    requires pat.contentClose != [] && IsBlock(s, pat, i, c1, c2, e)
    ensures BlockAt(s, pat, i).Some?
    ensures var b := BlockAt(s, pat, i).value;
      b.buttonClose < c1 || (b.buttonClose == c1 && b.contentClose <= c2)
  {
    var h := HeaderEnd(s, pat, i).value;
    var g := GateEnd(s, pat, c1).value;
    assert ContentViable(s, pat, c2);
    ContentMatchFirst(s, pat, g, c2);
    assert ButtonViable(s, pat, c1);
    ButtonMatchFirst(s, pat, h, c1);
    var b1 := ButtonMatch(s, pat, h).value;
    if b1 == c1 {
      ContentMatchFirst(s, pat, g, c2);
    }
  }

  /** A header `a\s*b[^>]*>` holds `a` where it starts and `b` after it. */
  lemma HeaderHolds(s: string, i: nat, a: string, b: string)
    requires i <= |s| && Run(s, i, [Lit(a), SpaceLit(b), UpTo('>')]).Some?
    ensures HasAt(s, i, a) && Contains(s, b)
  {
    var j := SpaceThen(s, i + |a|, b).value;
    ContainsAt(s, b, j - |b|);
  }

  /** A tail `\s*x\s*y\s*z` ends with `z`. */
  lemma TailHolds(s: string, p: nat, x: string, y: string, z: string, e: nat)
    requires p <= |s| && Run(s, p, [SpaceLit(x), SpaceLit(y), SpaceLit(z)]) == Some(e)
    ensures |z| <= e && HasAt(s, e - |z|, z)
  {
    var r2: seq<Step> := [SpaceLit(z)] + [];
    var r1 := [SpaceLit(y)] + r2;
    assert [SpaceLit(x), SpaceLit(y), SpaceLit(z)] == [SpaceLit(x)] + r1;
    RunSpaceLitSome(s, p, x, r1);
    var t1 := SpaceThen(s, p, x).value;
    RunSpaceLitSome(s, t1, y, r2);
    var t2 := SpaceThen(s, t1, y).value;
    RunSpaceLitSome(s, t2, z, []);
  }

  /** A match of the script's expression opens with `<CollapsibleSection>`
      followed by the old `<CollapsibleHeaderButton` tag, its lazy runs stop
      at the two closing tags, and it ends with `</CollapsibleSection>`. */
  lemma SectionShape(s: string, i: nat)
    requires BlockAt(s, SECTION, i).Some?
    ensures HasAt(s, i, SECTION_OPEN) && Contains(s, BUTTON_OPEN)
    ensures var b := BlockAt(s, SECTION, i).value;
      HasAt(s, b.buttonClose, BUTTON_CLOSE) && HasAt(s, b.contentClose, CONTENT_CLOSE)
  {
    var b := BlockAt(s, SECTION, i).value;
    BlockAtIsBlock(s, SECTION, i);
    assert SectionHeader(s, i).Some?;
    HeaderHolds(s, i, SECTION_OPEN, BUTTON_OPEN);
  }

  /** A match of the script's expression ends with `</CollapsibleSection>`. */
  lemma SectionEnd(s: string, i: nat)
    requires BlockAt(s, SECTION, i).Some?
    ensures var e := BlockAt(s, SECTION, i).value.end;
      |SECTION_CLOSE| <= e && HasAt(s, e - |SECTION_CLOSE|, SECTION_CLOSE)
  {
    var b := BlockAt(s, SECTION, i).value;
    BlockAtIsBlock(s, SECTION, i);
    SectionTailHolds(s, b.contentClose, b.end);
  }

  lemma SectionTailHolds(s: string, c2: nat, e: nat)
    requires TailEnd(s, SECTION, c2) == Some(e)
    ensures |SECTION_CLOSE| <= e && HasAt(s, e - |SECTION_CLOSE|, SECTION_CLOSE)
  {
    var p := c2 + |CONTENT_CLOSE|;
    assert SectionTail(s, p) == Some(e);
    TailHolds(s, p, ")", "}", SECTION_CLOSE, e);
  }

  /** Where the match the engine reports at `i` ends, if there is one. */
  function BlockEnd(s: string, pat: Pattern, i: nat): (r: Option<nat>)
    requires pat.contentClose != []
    ensures r.Some? <==> BlockAt(s, pat, i).Some?
    ensures r.Some? ==> r.value == BlockAt(s, pat, i).value.end
  {
    match BlockAt(s, pat, i)
    case Some(b) => Some(b.end)
    case None => None
  }

  /** The engine's match at every index of `s`, and at its end. */
  function BlockTable(s: string, pat: Pattern): (t: seq<Option<nat>>)
    requires pat.contentClose != []
    ensures |t| == |s| + 1 && Table(t)
    ensures forall i :: 0 <= i < |t| ==> t[i] == BlockEnd(s, pat, i)
  {
    Tabulate(i => BlockEnd(s, pat, i), 0, |s| + 1)
  }

  /** The successive non-overlapping matches of `pat` in `s`, as
      `re.findall` finds them; none exactly when the engine finds no match
      at any index. */
  function FindAll(s: string, pat: Pattern): (r: seq<(nat, nat)>)
    requires pat.contentClose != []
    ensures r == [] <==> forall i :: 0 <= i <= |s| ==> BlockAt(s, pat, i).None?
  {
    var t := BlockTable(s, pat);
    assert forall i :: 0 <= i < |t| ==> (t[i].None? <==> BlockAt(s, pat, i).None?);
    MatchesIn(t, 0)
  }

  /** The matches of the script's expression in `s`. */
  function Sections(s: string): (r: seq<(nat, nat)>) {
    FindAll(s, SECTION)
  }

  /** `len(re.findall(pattern, content, re.DOTALL))`. */
  function CountBlocks(s: string): (n: nat)
    ensures n == 0 <==> forall i :: 0 <= i <= |s| ==> BlockAt(s, SECTION, i).None?
  {
    |Sections(s)|
  }

  /** `re.sub(pattern, convert_section, content, flags=re.DOTALL)`. */
  function Substitute(s: string): string {
    SubstituteIn(s, BlockTable(s, SECTION), ConvertSection, 0)
  }

  /** Where `convert_section` leaves every match as it is (no title or no
      content to extract), the substitution changes nothing. */
  lemma ConvertedNothingUnchanged(s: string)
    requires forall m :: m in Sections(s) ==> m.0 <= m.1 <= |s| && ConvertSection(s[m.0..m.1]) == s[m.0..m.1]
    ensures Substitute(s) == s
  {
    SubstituteUnchanged(s, BlockTable(s, SECTION), ConvertSection, 0);
  }

  /** With no match at all, the substitution is the identity. */
  lemma NoBlocksUnchanged(s: string)
    requires CountBlocks(s) == 0
    ensures Substitute(s) == s
  {
    ConvertedNothingUnchanged(s);
  }
}
