/** The badge migration of the sidebar: an ordered table of badge
    expressions, each rewritten everywhere into a `MenuVersionBadge`
    element; then every `FiCheckCircle` is stripped together with the
    commas and whitespace around it, and what is left of it is counted. */
module Badges {
  import opened Text
  import opened Substitution
  import opened Scan

  /** The version group a badge is migrated to. */
  datatype Kind = V8 | V7 | Production

  /** The element that replaces a badge of the given group. */
  function Replacement(kind: Kind): string {
    REPLACEMENT_OPEN + Version(kind) + REPLACEMENT_MID + TypeName(kind) + REPLACEMENT_CLOSE
  }

  const REPLACEMENT_OPEN := "badge: <MenuVersionBadge version=\""
  const REPLACEMENT_MID := "\" type=\""
  const REPLACEMENT_CLOSE := "\" />"

  /** The version a group is shown at. */
  function Version(kind: Kind): string {
    match kind
    case V8 => "9.11.76"
    case V7 => "7.2.0"
    case Production => "9.11.76"
  }

  /** The badge type a group is shown as. */
  function TypeName(kind: Kind): string {
    match kind
    case V8 => "v8"
    case V7 => "v7"
    case Production => "production"
  }

  /** The table, in order: each title as the expression matches it (its
      escaped parentheses and dots stand for themselves) and its group. */
  const BADGES: seq<(string, Kind)> := [
    ("PingOne Token Exchange (RFC 8693) - New Feature Implementation", V8),
    ("V8: Demonstrating Proof of Possession (RFC 9449) with mock server", V8),
    ("V8: Simplified UI with educational content in modals", V8),
    ("Test ALL OAuth/OIDC flow types: Auth Code, Implicit, Hybrid, Device Code, Client Credentials", V8),
    ("Test RFC 9126 Pushed Authorization Request (PAR) flow", V8),
    ("V7.2: Adds optional redirectless (pi.flow) with Custom Login", V7),
    ("V7: Unified OAuth/OIDC implementation with variant selector", V7),
    ("V7: Unified OAuth/OIDC device authorization", V7),
    ("V7: Enhanced client credentials", V7),
    ("V7: CIBA (RFC 9436) Client Initiated Backchannel Authentication - Real PingOne API", V7),
    ("V7: Unified OAuth/OIDC hybrid flow implementation", V7),
    ("V7: Enhanced Pushed Authorization Request with Authorization Details", V7),
    ("V7: Enhanced PingOne Multi-Factor Authentication", V7),
    ("V7: PingOne Workflow Library Steps 11-20 - Authorization Code with MFA", V7),
    ("V7: PingOne Redirectless Flow (pi.flow)", V7),
    ("V7: Enhanced worker token flow", V7),
    ("Real-world MFA experience - Kroger Grocery Store mockup", Production),
    ("PingOne Authentication Flow", Production),
    ("Pushed Authorization Request Flow", Production),
    ("Validate and test PingOne worker tokens", Production),
    ("Token Analysis and Management", Production),
    ("Token Introspection - Inspect and validate OAuth tokens", Production),
    ("Token Revocation - Revoke access and refresh tokens", Production),
    ("UserInfo Flow - Retrieve user profile information", Production),
    ("PingOne Logout - RP-initiated logout with PingOne SSO", Production),
    ("PingOne User Profile & Information", Production),
    ("PingOne Total Identities metrics explorer", Production),
    ("PingOne Password Reset Operations", Production),
    ("Query and analyze PingOne audit events", Production),
    ("Real-time webhook event monitoring", Production),
    ("View organization licensing and usage information", Production),
    ("OIDC Discovery and Configuration", Production),
    ("Advanced Configuration Options", Production),
    ("JWKS Troubleshooting Guide", Production),
    ("Production-ready OAuth code in multiple languages", Production),
    ("Production-ready DaVinci SDK integration with real PingOne APIs", Production)]

  const BADGE_OPEN := "badge: ("
  const CHECK := "FiCheckCircle"
  const CHECK_TAG := "<FiCheckCircle />"
  const BADGE_CLOSE := "</MigrationBadge>"

  /** The opening tag of a badge with the given title. */
  function TitleTag(title: string): string {
    "<MigrationBadge title=\"" + title + "\">"
  }

  /** `badge: \(\s*<MigrationBadge title="T">\s*<FiCheckCircle />\s*</MigrationBadge>\s*\)`. */
  function BadgeShape(title: string): seq<Step> {
    [Lit(BADGE_OPEN)] + SpaceLits(BadgeParts(title))
  }

  /** The parts of a badge expression after `badge: (`, each of which may be
      preceded by whitespace. */
  function BadgeParts(title: string): seq<string> {
    [TitleTag(title), CHECK_TAG, BADGE_CLOSE, ")"]
  }

  /** `,?\s*FiCheckCircle,?`. */
  const STRIP: seq<Step> := [Opt(','), SpaceLit(CHECK), Opt(',')]

  /** The text after the first `|table|` entries, applied in order, each to
      all of its matches. */
  function ApplyTable(s: string, table: seq<(string, Kind)>): string {
    if table == [] then s
    else
      var (title, kind) := table[|table| - 1];
      SubAll(ApplyTable(s, table[..|table| - 1]), BadgeShape(title), Replacement(kind))
  }

  /** `re.sub(r',?\s*FiCheckCircle,?', '', content)`. */
  function Strip(s: string): string {
    SubAll(s, STRIP, "")
  }

  /** Each entry of `table` in turn, rewriting every badge with its title
      into the element of its group. */
  method ApplyEntries(content: string, table: seq<(string, Kind)>) returns (result: string)
    ensures result == ApplyTable(content, table)
  {
    result := content;
    var i := 0;
    while i < |table|
      invariant 0 <= i <= |table|
      invariant result == ApplyTable(content, table[..i])
    {
      var (title, kind) := table[i];
      ApplyTableStep(content, table, i);
      result := SubAll(result, BadgeShape(title), Replacement(kind));
      i := i + 1;
    }
    assert table[..i] == table;
  }

  /** One more entry of the table is one more substitution. */
  lemma ApplyTableStep(s: string, table: seq<(string, Kind)>, i: nat)
    requires i < |table|
    ensures ApplyTable(s, table[..i + 1])
      == SubAll(ApplyTable(s, table[..i]), BadgeShape(table[i].0), Replacement(table[i].1))
  {
    assert table[..i + 1][..i] == table[..i];
  }

  /** The script: apply the table, strip what is left of `FiCheckCircle`,
      count the occurrences that remain, and warn when there are any. */
  method MigrateBadges(content: string) returns (result: string, remaining: nat, warned: bool)
    ensures result == Strip(ApplyTable(content, BADGES))
    ensures remaining == Count(result, CHECK)
    ensures remaining == 0 <==> !Contains(result, CHECK)
    ensures warned <==> Contains(result, CHECK)
  {
    result := ApplyEntries(content, BADGES);
    result := Strip(result);
    remaining := Count(result, CHECK);
    warned := remaining > 0;
  }

  /** The table has five V8 entries, then eleven V7 entries, then twenty
      production entries. */
  lemma TableGroups()
    ensures |BADGES| == 36
    ensures forall k :: 0 <= k < 5 ==> BADGES[k].1 == V8
    ensures forall k :: 5 <= k < 16 ==> BADGES[k].1 == V7
    ensures forall k :: 16 <= k < 36 ==> BADGES[k].1 == Production
  {
  }

  /** No replacement holds `FiCheckCircle`, nor the `badge: (` that every
      badge expression opens with, so no replacement is matched again by a
      later entry or touched by the strip. */
  lemma ReplacementsClean(kind: Kind)
    ensures !Contains(Replacement(kind), CHECK)
    ensures !Contains(Replacement(kind), BADGE_OPEN)
  {
    var r := Replacement(kind);
    CharsAbsent(kind);
    assert CHECK[0] == 'F' && BADGE_OPEN[7] == '(';
    AbsentByChar(r, CHECK, 0);
    AbsentByChar(r, BADGE_OPEN, 7);
  }

  lemma CharsAbsent(kind: Kind)
    ensures 'F' !in Replacement(kind) && '(' !in Replacement(kind)
  {
    PartsAbsent(kind);
    FixedPartsAbsent();
  }

  lemma PartsAbsent(kind: Kind)
    ensures 'F' !in Version(kind) && '(' !in Version(kind)
    ensures 'F' !in TypeName(kind) && '(' !in TypeName(kind)
  {
  }

  lemma FixedPartsAbsent()
    ensures 'F' !in REPLACEMENT_OPEN && '(' !in REPLACEMENT_OPEN
    ensures 'F' !in REPLACEMENT_MID && '(' !in REPLACEMENT_MID
    ensures 'F' !in REPLACEMENT_CLOSE && '(' !in REPLACEMENT_CLOSE
  {
  }

  /** A badge as written, with the four whitespace gaps `gaps`. */
  function BadgeText(title: string, gaps: seq<string>): string
    requires |gaps| == 4
  {
    BADGE_OPEN + Spaced(gaps, BadgeParts(title))
  }

  /** The whitespace gap before each part may be any run of whitespace,
      newlines included: a badge written with any gaps is matched in full. */
  lemma BadgeMatches(s: string, p: nat, title: string, gaps: seq<string>)
    requires |gaps| == 4 && forall k :: 0 <= k < 4 ==> AllSpace(gaps[k])
    requires Written(s, p, BadgeText(title, gaps))
    ensures MatchEnd(s, BadgeShape(title), p) == Some(p + |BadgeText(title, gaps)|)
  {
    var parts := BadgeParts(title);
    assert parts[0][0] == '<' && parts[1][0] == '<' && parts[2][0] == '<' && parts[3][0] == ')';
    assert Heads(parts[3..]) && Heads(parts[2..]) && Heads(parts[1..]) && Heads(parts);
    assert Gaps(gaps[3..]) && Gaps(gaps[2..]) && Gaps(gaps[1..]) && Gaps(gaps);
    LitThenSpacedMatches(s, p, BADGE_OPEN, gaps, parts);
  }

  /** A text holding no `badge: (` is left as it is by the whole table:
      text outside the badge expressions is never touched. */
  lemma {:induction false} NoBadgeUnchanged(s: string, table: seq<(string, Kind)>)
    requires !Contains(s, BADGE_OPEN)
    ensures ApplyTable(s, table) == s
  {
    if table != [] {
      var (title, kind) := table[|table| - 1];
      NoBadgeUnchanged(s, table[..|table| - 1]);
      forall i | 0 <= i <= |s| ensures MatchEnd(s, BadgeShape(title), i).None? {
        if MatchEnd(s, BadgeShape(title), i).Some? {
          LitFirst(s, i, BADGE_OPEN, BadgeShape(title));
          ContainsAt(s, BADGE_OPEN, i);
        }
      }
      SubAllNoMatch(s, BadgeShape(title), Replacement(kind));
    }
  }

  /** The strip matches at every `FiCheckCircle`: no whitespace is needed
      before it and no comma around it. */
  lemma StripMatchesAtCheck(s: string, k: nat)
    requires HasAt(s, k, CHECK)
    ensures MatchEnd(s, STRIP, k).Some?
  {
    assert s[k] == CHECK[0];
    assert SkipSpace(s, k) == k;
    var q := SpaceThen(s, k, CHECK).value;
    assert STRIP == [Opt(',')] + ([SpaceLit(CHECK)] + ([Opt(',')] + []));
    RunOptStep(s, k, ',', [SpaceLit(CHECK)] + ([Opt(',')] + []));
    RunSpaceLitStep(s, k, CHECK, [Opt(',')] + []);
    RunOptStep(s, q, ',', []);
  }

  /** Every `FiCheckCircle` present before the strip lies inside a span the
      strip deletes; any left afterwards was spliced together from the
      text around the deletions. */
  lemma CheckStripped(s: string, k: nat)
    requires HasAt(s, k, CHECK)
    ensures exists m :: m in MatchesIn(RunTable(s, STRIP), 0) && m.0 <= k < m.1
  {
    StripMatchesAtCheck(s, k);
    Covered(RunTable(s, STRIP), 0, k);
  }

  /** A list entry `, FiCheckCircle,` loses both of its commas and the
      whitespace before the name. */
  lemma StripTakesBothCommas(s: string, p: nat, w: string)
    requires AllSpace(w)
    requires var x := "," + (w + (CHECK + ",")); p + |x| <= |s| && s[p..p + |x|] == x
    ensures MatchEnd(s, STRIP, p) == Some(p + |w| + |CHECK| + 2)
  {
    SliceParts(s, p, ",", w + (CHECK + ","));
    assert s[p] == ',';
    GapThen(s, p + 1, w, CHECK, ",");
    var q := p + 1 + |w| + |CHECK|;
    assert s[q..q + 1] == ",";
    assert s[q] == ',';
    assert STRIP == [Opt(',')] + ([SpaceLit(CHECK)] + ([Opt(',')] + []));
    RunOptStep(s, p, ',', [SpaceLit(CHECK)] + ([Opt(',')] + []));
    RunSpaceLitStep(s, p + 1, CHECK, [Opt(',')] + []);
    RunOptStep(s, q, ',', []);
  }

  /** `badge: (` stands in `s` at `p` and nowhere else. */
  ghost predicate SoleBadgeAt(s: string, p: nat) {
    forall j :: HasAt(s, j, BADGE_OPEN) ==> j == p
  }

  /** One entry rewrites a badge written with its title: the text before
      the badge and after it is kept, and the replacement stands in its
      place. */
  lemma EntryRewritesBadge(s: string, p: nat, title: string, gaps: seq<string>, rep: string)
    requires |gaps| == 4 && forall k :: 0 <= k < 4 ==> AllSpace(gaps[k])
    requires Written(s, p, BadgeText(title, gaps)) && SoleBadgeAt(s, p)
    ensures p + |BadgeText(title, gaps)| <= |s|
    ensures SubAll(s, BadgeShape(title), rep) == s[..p] + rep + s[p + |BadgeText(title, gaps)|..]
  {
    var shape := BadgeShape(title);
    BadgeMatches(s, p, title, gaps);
    assert shape[0] == Lit(BADGE_OPEN);
    forall k | 0 <= k <= |s| && k != p ensures MatchEnd(s, shape, k).None? {
      if MatchEnd(s, shape, k).Some? {
        LitFirst(s, k, BADGE_OPEN, shape);
      }
    }
    SubAllOne(s, shape, rep, p, p + |BadgeText(title, gaps)|);
  }

  /** A written badge has `badge: (` at `p` and its title tag after the
      first gap. */
  lemma WrittenTitle(s: string, p: nat, title: string, gaps: seq<string>)
    requires |gaps| == 4 && forall k :: 0 <= k < 4 ==> AllSpace(gaps[k])
    requires Written(s, p, BadgeText(title, gaps))
    ensures HasAt(s, p, BADGE_OPEN)
    ensures SpaceThen(s, p + |BADGE_OPEN|, TitleTag(title)).Some?
  {
    var rest := Spaced(gaps[1..], BadgeParts(title)[1..]);
    assert BadgeText(title, gaps) == BADGE_OPEN + ((gaps[0] + TitleTag(title)) + rest);
    WrittenSplit(s, p, BADGE_OPEN, (gaps[0] + TitleTag(title)) + rest);
    WrittenSplit(s, p + |BADGE_OPEN|, gaps[0] + TitleTag(title), rest);
    WrittenSlice(s, p, BADGE_OPEN);
    WrittenGap(s, p + |BADGE_OPEN|, gaps[0], TitleTag(title));
  }

  /** A match of an entry's shape at `p` has that entry's title tag after
      `badge: (` and the first gap. */
  lemma MatchHasTitle(s: string, p: nat, title: string)
    requires MatchEnd(s, BadgeShape(title), p).Some? && HasAt(s, p, BADGE_OPEN)
    ensures SpaceThen(s, p + |BADGE_OPEN|, TitleTag(title)).Some?
  {
    var parts := BadgeParts(title);
    assert SpaceLits(parts) == [SpaceLit(TitleTag(title))] + SpaceLits(parts[1..]);
    RunLitStep(s, p, BADGE_OPEN, SpaceLits(parts));
    RunSpaceLitSome(s, p + |BADGE_OPEN|, TitleTag(title), SpaceLits(parts[1..]));
  }

  /** After the same gap there is room for one title tag only. */
  lemma OneTitleAt(s: string, q: nat, a: string, b: string)
    requires q <= |s| && a != b && '"' !in a && '"' !in b
    ensures !(SpaceThen(s, q, TitleTag(a)).Some? && SpaceThen(s, q, TitleTag(b)).Some?)
  {
    if SpaceThen(s, q, TitleTag(a)).Some? && SpaceThen(s, q, TitleTag(b)).Some? {
      var j := SkipSpace(s, q);
      var ta, tb := TitleTag(a), TitleTag(b);
      assert HasAt(s, j, ta) && HasAt(s, j, tb);
      TitleTagsPart(a, b);
    }
  }

  /** An entry whose title is another one does not match a written badge. */
  lemma OtherTitleMisses(s: string, p: nat, title: string, gaps: seq<string>, other: string)
    requires |gaps| == 4 && forall k :: 0 <= k < 4 ==> AllSpace(gaps[k])
    requires Written(s, p, BadgeText(title, gaps))
    requires other != title && '"' !in title && '"' !in other
    ensures MatchEnd(s, BadgeShape(other), p).None?
  {
    WrittenTitle(s, p, title, gaps);
    OneTitleAt(s, p + |BADGE_OPEN|, title, other);
    if MatchEnd(s, BadgeShape(other), p).Some? {
      MatchHasTitle(s, p, other);
    }
  }

  /** Two different titles without quotes give title tags that differ at
      some character both of them have. */
  lemma TitleTagsPart(a: string, b: string)
    requires a != b && '"' !in a && '"' !in b
    ensures exists i :: 0 <= i < |TitleTag(a)| && i < |TitleTag(b)| && TitleTag(a)[i] != TitleTag(b)[i]
  {
    var n := |"<MigrationBadge title=\""|;
    var ta, tb := TitleTag(a), TitleTag(b);
    if k :| 0 <= k < |a| && k < |b| && a[k] != b[k] {
      assert ta[n + k] == a[k] && tb[n + k] == b[k];
    } else if |a| < |b| {
      assert ta[n + |a|] == '"' && tb[n + |a|] == b[|a|] && b[|a|] in b;
    } else if |b| < |a| {
      assert tb[n + |b|] == '"' && ta[n + |b|] == a[|b|] && a[|b|] in a;
    } else {
      assert false;
    }
  }

  /** An entry with another title leaves a text whose only badge is
      written with a different title as it is. */
  lemma EntryMissesBadge(s: string, p: nat, title: string, gaps: seq<string>, other: string, rep: string)
    requires |gaps| == 4 && forall k :: 0 <= k < 4 ==> AllSpace(gaps[k])
    requires Written(s, p, BadgeText(title, gaps)) && SoleBadgeAt(s, p)
    requires other != title && '"' !in title && '"' !in other
    ensures SubAll(s, BadgeShape(other), rep) == s
  {
    forall i | 0 <= i <= |s| ensures MatchEnd(s, BadgeShape(other), i).None? {
      if MatchEnd(s, BadgeShape(other), i).Some? {
        assert BadgeShape(other)[0] == Lit(BADGE_OPEN);
        LitFirst(s, i, BADGE_OPEN, BadgeShape(other));
        OtherTitleMisses(s, p, title, gaps, other);
      }
    }
    SubAllNoMatch(s, BadgeShape(other), rep);
  }

  /** A replacement opens with `badge: ` and then `<`, ends with `>`, and
      holds no `badge: (`: no `badge: (` runs into it or through it. */
  lemma ReplacementSealed(kind: Kind)
    ensures Sealed(Replacement(kind), BADGE_OPEN, 7)
  {
    ReplacementsClean(kind);
    ReplacementEnds(kind);
    assert BADGE_OPEN[1..] == "adge: (";
  }

  /** A replacement opens with `b`, has `<` at index 7 and ends with `>`. */
  lemma ReplacementEnds(kind: Kind)
    ensures var r := Replacement(kind); |r| > 7 && r[0] == 'b' && r[7] == '<' && r[|r| - 1] == '>'
  {
    var r := Replacement(kind);
    var rest := Version(kind) + REPLACEMENT_MID + TypeName(kind);
    assert r == REPLACEMENT_OPEN + rest + REPLACEMENT_CLOSE;
    assert r[0] == REPLACEMENT_OPEN[0] && r[7] == REPLACEMENT_OPEN[7];
    assert r[|r| - 1] == REPLACEMENT_CLOSE[|REPLACEMENT_CLOSE| - 1];
  }

  /** Once the only badge is replaced, no `badge: (` is left. */
  lemma RewrittenHasNoBadge(s: string, p: nat, e: nat, rep: string)
    requires p < e <= |s| && SoleBadgeAt(s, p) && Sealed(rep, BADGE_OPEN, 7)
    ensures !Contains(s[..p] + rep + s[e..], BADGE_OPEN)
  {
    var w := s[..p] + rep + s[e..];
    assert w == s[..p] + (rep + s[e..]);
    assert s[..p] == s[0..p] && s[e..] == s[e..|s|];
    SliceOccurrences(s, 0, p, BADGE_OPEN);
    SliceOccurrences(s, e, |s|, BADGE_OPEN);
    if Contains(w, BADGE_OPEN) {
      OccurrenceAround(s[..p], rep, s[e..], BADGE_OPEN, 7, IndexOf(w, BADGE_OPEN, 0).value);
    }
  }

  /** Applying two tables one after the other is applying their
      concatenation. */
  lemma {:induction false} ApplyTableConcat(s: string, a: seq<(string, Kind)>, b: seq<(string, Kind)>)
    ensures ApplyTable(s, a + b) == ApplyTable(ApplyTable(s, a), b)
    decreases |b|
  {
    if b == [] {
      assert a + b == a;
    } else {
      ApplyTableConcat(s, a, b[..|b| - 1]);
      assert (a + b)[..|a + b| - 1] == a + b[..|b| - 1];
      assert (a + b)[|a + b| - 1] == b[|b| - 1];
    }
  }

  /** A table none of whose entries changes the text leaves it as it is. */
  lemma {:induction false} AllMiss(s: string, table: seq<(string, Kind)>)
    requires forall j :: 0 <= j < |table| ==> SubAll(s, BadgeShape(table[j].0), Replacement(table[j].1)) == s
    ensures ApplyTable(s, table) == s
    decreases |table|
  {
    if table != [] {
      var init := table[..|table| - 1];
      forall j | 0 <= j < |init| ensures SubAll(s, BadgeShape(init[j].0), Replacement(init[j].1)) == s {
        assert init[j] == table[j];
      }
      AllMiss(s, init);
    }
  }

  /** The entries before `k` have other titles and leave the badge as it
      is. */
  lemma EarlierEntriesMiss(s: string, p: nat, table: seq<(string, Kind)>, k: nat, gaps: seq<string>)
    requires k < |table| && |gaps| == 4 && forall g :: 0 <= g < 4 ==> AllSpace(gaps[g])
    requires Written(s, p, BadgeText(table[k].0, gaps)) && SoleBadgeAt(s, p)
    requires forall j :: 0 <= j <= k ==> '"' !in table[j].0
    requires forall j :: 0 <= j < k ==> table[j].0 != table[k].0
    ensures ApplyTable(s, table[..k]) == s
  {
    var before := table[..k];
    forall j | 0 <= j < |before|
      ensures SubAll(s, BadgeShape(before[j].0), Replacement(before[j].1)) == s
    {
      assert before[j] == table[j];
      EntryMissesBadge(s, p, table[k].0, gaps, table[j].0, Replacement(table[j].1));
    }
    AllMiss(s, before);
  }

  /** Once no `badge: (` is left after entry `k`, the rest of the table
      changes nothing. */
  lemma LaterEntriesKeep(s: string, table: seq<(string, Kind)>, k: nat)
    requires k < |table| && !Contains(ApplyTable(s, table[..k + 1]), BADGE_OPEN)
    ensures ApplyTable(s, table) == ApplyTable(s, table[..k + 1])
  {
    assert table[..k + 1] + table[k + 1..] == table;
    ApplyTableConcat(s, table[..k + 1], table[k + 1..]);
    NoBadgeUnchanged(ApplyTable(s, table[..k + 1]), table[k + 1..]);
  }

  /** When the entries before `k` change nothing, the table up to `k` is
      entry `k` alone. */
  lemma StepAfterMisses(s: string, table: seq<(string, Kind)>, k: nat)
    requires k < |table| && ApplyTable(s, table[..k]) == s
    ensures ApplyTable(s, table[..k + 1]) == SubAll(s, BadgeShape(table[k].0), Replacement(table[k].1))
  {
    ApplyTableStep(s, table, k);
  }

  /** The entries up to `k` leave the text with the replacement of entry
      `k` in the badge's place, and with no `badge: (` left. */
  lemma EntriesUpToRewrite(s: string, p: nat, table: seq<(string, Kind)>, k: nat, gaps: seq<string>)
    requires k < |table| && |gaps| == 4 && forall g :: 0 <= g < 4 ==> AllSpace(gaps[g])
    requires Written(s, p, BadgeText(table[k].0, gaps)) && SoleBadgeAt(s, p)
    requires forall j :: 0 <= j <= k ==> '"' !in table[j].0
    requires forall j :: 0 <= j < k ==> table[j].0 != table[k].0
    ensures p + |BadgeText(table[k].0, gaps)| <= |s|
    ensures ApplyTable(s, table[..k + 1])
      == s[..p] + Replacement(table[k].1) + s[p + |BadgeText(table[k].0, gaps)|..]
    ensures !Contains(ApplyTable(s, table[..k + 1]), BADGE_OPEN)
  {
    var e := p + |BadgeText(table[k].0, gaps)|;
    EarlierEntriesMiss(s, p, table, k, gaps);
    StepAfterMisses(s, table, k);
    EntryRewritesBadge(s, p, table[k].0, gaps, Replacement(table[k].1));
    var w := s[..p] + Replacement(table[k].1) + s[e..];
    assert e >= p + |BADGE_OPEN| > p;
    ReplacementSealed(table[k].1);
    RewrittenHasNoBadge(s, p, e, Replacement(table[k].1));
    assert !Contains(w, BADGE_OPEN);
  }

  /** A sidebar text whose only badge is written with the title of entry
      `k` comes out of the table with that entry's replacement in the
      badge's place and every other character kept: the entries before it
      have other titles and miss it, and the replacement holds no
      `badge: (` for the entries after it to match. */
  lemma TableRewritesBadge(s: string, p: nat, table: seq<(string, Kind)>, k: nat, gaps: seq<string>)
    requires k < |table| && |gaps| == 4 && forall g :: 0 <= g < 4 ==> AllSpace(gaps[g])
    requires Written(s, p, BadgeText(table[k].0, gaps)) && SoleBadgeAt(s, p)
    requires forall j :: 0 <= j <= k ==> '"' !in table[j].0
    requires forall j :: 0 <= j < k ==> table[j].0 != table[k].0
    ensures p + |BadgeText(table[k].0, gaps)| <= |s|
    ensures ApplyTable(s, table)
      == s[..p] + Replacement(table[k].1) + s[p + |BadgeText(table[k].0, gaps)|..]
  {
    EntriesUpToRewrite(s, p, table, k, gaps);
    LaterEntriesKeep(s, table, k);
  }
}
