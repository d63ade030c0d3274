/** `convert_section` of migrate_collapsible.py: take one matched block of the
    old pattern, find its title and its inner content, classify the title,
    and rebuild the block as a single `<CollapsibleHeader>` element. */
module CollapsibleSections {
  import opened Text

  // ---------------------------------------------------------------------
  // Title search: opening tag, optional icon, a run without `<`, closing tag
  // ---------------------------------------------------------------------

  const TITLE_OPEN := "<CollapsibleTitle>"
  const TITLE_CLOSE := "</CollapsibleTitle>"

  /** The `\w` class, on ASCII. */
  predicate IsWordChar(c: char) {
    ('a' <= c <= 'z') || ('A' <= c <= 'Z') || ('0' <= c <= '9') || c == '_'
  }

  /** The end of the run of word characters that starts at `i` (a greedy `\w*`). */
  function WordEnd(s: string, i: nat): (j: nat)
    requires i <= |s|
    ensures i <= j <= |s|
    ensures forall k :: i <= k < j ==> IsWordChar(s[k])
    ensures j == |s| || !IsWordChar(s[j])
    decreases |s| - i
  {
    if i < |s| && IsWordChar(s[i]) then WordEnd(s, i + 1) else i
  }

  /** The optional icon group at `a` (`<Fi`, word characters, optional
      whitespace, `/>`); its end when present.
      Every quantifier in it is followed by a character it cannot match, so
      there is a single way to match it. */
  function IconEnd(s: string, a: nat): (r: Option<nat>)
    requires a <= |s|
    ensures r.Some? ==> a + 5 < r.value <= |s| && HasAt(s, a, "<Fi") && HasAt(s, r.value - 2, "/>")
  {
    if !HasAt(s, a, "<Fi") then None
    else
      var w := WordEnd(s, a + 3);
      if w == a + 3 then None
      else
        var t := SkipSpace(s, w);
        if HasAt(s, t, "/>") then Some(t + 2) else None
  }

  /** `\s*([^<]+)</CollapsibleTitle>` from `lo`, with the capture bounds the
      backtracking matcher settles on: the greedy `\s*` first takes the whole
      whitespace run; if that leaves `[^<]+` nothing before a `<`, it gives
      back one whitespace character, which the capture then holds. */
  function CaptureAfter(s: string, lo: nat): (r: Option<(nat, nat)>)
    requires lo <= |s|
    ensures r.Some? ==> lo <= r.value.0 < r.value.1 && HasAt(s, r.value.1, TITLE_CLOSE)
    ensures r.Some? ==> forall k :: r.value.0 <= k < r.value.1 ==> s[k] != '<'
    ensures r.Some? ==> forall k :: lo <= k < r.value.0 ==> IsSpace(s[k])
  {
    var a := SkipSpace(s, lo);
    SkipSpaceSpaces(s, lo);
    match IndexOf(s, "<", a)
    case None => None
    case Some(l) =>
      if HasAt(s, l, TITLE_CLOSE) && (l > a || a > lo) then
        assert forall k: nat :: a <= k < l ==> !HasAt(s, k, "<");
        assert forall k :: a <= k < l ==> s[k] != '<' by {
          forall k | a <= k < l ensures s[k] != '<' {
            assert !HasAt(s, k, "<");
            assert s[k..k + 1] == [s[k]];
          }
        }
        Some(if l > a then (a, l) else (a - 1, l))
      else None
  }

  /** The title capture of a match that starts at `i`: the icon group is tried
      first (it is greedy), then the pattern without it. */
  function TitleCaptureAt(s: string, i: nat): (r: Option<(nat, nat)>)
    ensures r.Some? ==> HasAt(s, i, TITLE_OPEN) && i + |TITLE_OPEN| <= r.value.0 < r.value.1
    ensures r.Some? ==> HasAt(s, r.value.1, TITLE_CLOSE)
    ensures r.Some? ==> forall k :: r.value.0 <= k < r.value.1 ==> s[k] != '<'
  {
    if !HasAt(s, i, TITLE_OPEN) then None
    else
      var p0 := i + |TITLE_OPEN|;
      var a := SkipSpace(s, p0);
      var viaIcon := match IconEnd(s, a) case None => None case Some(g) => CaptureAfter(s, g);
      if viaIcon.Some? then viaIcon else CaptureAfter(s, p0)
  }

  /** The capture of the leftmost match at or after `from` (`re.search`). */
  function FirstTitleCapture(s: string, from: nat): (r: Option<(nat, nat)>)
    ensures r.Some? ==> exists i: nat :: from <= i && TitleCaptureAt(s, i) == r
                          && forall j: nat :: from <= j < i ==> TitleCaptureAt(s, j).None?
    ensures r.None? ==> forall i: nat :: from <= i ==> TitleCaptureAt(s, i).None?
    decreases |s| - from
  {
    if from + |TITLE_OPEN| > |s| then
      assert forall i: nat :: from <= i ==> !HasAt(s, i, TITLE_OPEN);
      None
    else if TitleCaptureAt(s, from).Some? then TitleCaptureAt(s, from)
    else FirstTitleCapture(s, from + 1)
  }

  /** `title_match.group(1).strip()`, or None when the title search fails. */
  function TitleOf(m: string): (r: Option<string>)
    ensures r.Some? ==> '<' !in r.value && IsTrimmed(r.value)
  {
    match FirstTitleCapture(m, 0)
    case None => None
    case Some((c, l)) =>
      var raw := m[c..l];
      assert '<' !in raw;
      Some(Trim(raw))
  }

  /** Which whitespace the backtracking leaves at the front of the capture does
      not reach the title: after `strip()` it equals the text from the end of
      the tag (or of the icon) to the closing tag, stripped. */
  lemma CaptureTrimIndependent(s: string, lo: nat)
    requires lo <= |s| && CaptureAfter(s, lo).Some?
    ensures var (c, l) := CaptureAfter(s, lo).value; Trim(s[c..l]) == Trim(s[lo..l])
  {
    var (c, l) := CaptureAfter(s, lo).value;
    TrimAfterSpaces(s, lo, c, l);
  }

  /** Whitespace from `lo` to `c` does not reach through `strip()`. */
  lemma TrimAfterSpaces(s: string, lo: nat, c: nat, l: nat)
    requires lo <= c <= l <= |s|
    requires forall k :: lo <= k < c ==> IsSpace(s[k])
    ensures Trim(s[c..l]) == Trim(s[lo..l])
  {
    var t := s[lo..l];
    var d := c - lo;
    assert t[d..] == s[c..l];
    forall m | 0 <= m < d ensures IsSpace(t[m]) {
      assert t[m] == s[lo + m];
    }
    TrimDropsLeadingSpace(t, d);
  }

  // ---------------------------------------------------------------------
  // Content search: <CollapsibleContent>(.*?)</CollapsibleContent> (DOTALL)
  // ---------------------------------------------------------------------

  const CONTENT_OPEN := "<CollapsibleContent>"
  const CONTENT_CLOSE := "</CollapsibleContent>"

  /** `content_match.group(1)`: the text after the first opening tag up to the
      next closing tag. Should that fail, a later opening tag cannot succeed
      either, since any closing tag after it is after the first one too. */
  function ContentOf(m: string): (r: Option<string>)
    ensures r.Some? ==>
      (IndexOf(m, CONTENT_OPEN, 0).Some?
       && HasAt(m, IndexOf(m, CONTENT_OPEN, 0).value, CONTENT_OPEN + r.value + CONTENT_CLOSE))
    ensures r.Some? ==> !Contains(r.value, CONTENT_CLOSE)
    ensures r.None? ==> forall o: nat, c: nat ::
      HasAt(m, o, CONTENT_OPEN) && HasAt(m, c, CONTENT_CLOSE) ==> c < o + |CONTENT_OPEN|
  {
    match IndexOf(m, CONTENT_OPEN, 0)
    case None => None
    case Some(o) =>
      match IndexOf(m, CONTENT_CLOSE, o + |CONTENT_OPEN|)
      case None => None
      case Some(c) =>
        var body := m[o + |CONTENT_OPEN|..c];
        HasAtFramed(m, o, CONTENT_OPEN, c, CONTENT_CLOSE);
        AbsentInSlice(m, o + |CONTENT_OPEN|, c, CONTENT_CLOSE);
        Some(body)
  }

  // ---------------------------------------------------------------------
  // Title classifier
  // ---------------------------------------------------------------------

  datatype Icon = FiBook | FiSettings | FiSend | FiPackage | FiCheckCircle
  datatype Theme = NoTheme | Yellow | Orange | Blue | Green
  datatype Classification = Classification(icon: Icon, theme: Theme)

  const BOOK_WORDS: seq<string> := ["overview", "what is", "how", "education", "learn", "understand"]
  const SETTINGS_WORDS: seq<string> := ["configuration", "credentials", "settings", "parameters", "advanced", "pkce"]
  const SEND_WORDS: seq<string> := ["request", "authorization", "generate", "create"]
  const PACKAGE_WORDS: seq<string> := ["response", "received", "token", "code", "result"]
  const DONE_WORDS: seq<string> := ["complete", "success", "done", "next steps"]
  const DETAIL_WORDS: seq<string> := ["deep dive", "details"]

  /** `any(word in t for word in words)`. */
  predicate AnyIn(t: string, words: seq<string>) {
    exists k :: 0 <= k < |words| && Contains(t, words[k])
  }

  /** The if/elif chain over `title.lower()`; the first group with a keyword
      that occurs as a substring decides, and the default is the settings
      icon with no theme. */
  function Classify(title: string): Classification {
    var t := Lower(title);
    if AnyIn(t, BOOK_WORDS) then Classification(FiBook, Yellow)
    else if AnyIn(t, SETTINGS_WORDS) then Classification(FiSettings, Orange)
    else if AnyIn(t, SEND_WORDS) then Classification(FiSend, Blue)
    else if AnyIn(t, PACKAGE_WORDS) then Classification(FiPackage, NoTheme)
    else if AnyIn(t, DONE_WORDS) then Classification(FiCheckCircle, Green)
    else if Contains(t, "deep dive") || Contains(t, "details") then Classification(FiBook, Green)
    else Classification(FiSettings, NoTheme)
  }

  /** The same rules written as an ordered table, read by a generic
      first-match-wins evaluator. */
  datatype Rule = Rule(words: seq<string>, result: Classification)

  const RULES: seq<Rule> := [
    Rule(BOOK_WORDS, Classification(FiBook, Yellow)),
    Rule(SETTINGS_WORDS, Classification(FiSettings, Orange)),
    Rule(SEND_WORDS, Classification(FiSend, Blue)),
    Rule(PACKAGE_WORDS, Classification(FiPackage, NoTheme)),
    Rule(DONE_WORDS, Classification(FiCheckCircle, Green)),
    Rule(DETAIL_WORDS, Classification(FiBook, Green))
  ]
  const DEFAULT_CLASSIFICATION := Classification(FiSettings, NoTheme)

  /** The index of the first rule with a keyword in `t`, or `|rules|` when
      no rule has one. */
  function FirstRule(t: string, rules: seq<Rule>): (k: nat)
    ensures k <= |rules|
    ensures k < |rules| ==> AnyIn(t, rules[k].words)
    ensures forall j :: 0 <= j < k ==> !AnyIn(t, rules[j].words)
  {
    if rules == [] || AnyIn(t, rules[0].words) then 0
    else
      var k := FirstRule(t, rules[1..]);
      assert forall j :: 1 <= j <= k ==> rules[j] == rules[1..][j - 1];
      1 + k
  }

  /** Generic first-match-wins evaluation of a rule table. */
  function FirstMatch(t: string, rules: seq<Rule>, default: Classification): Classification {
    var k := FirstRule(t, rules);
    if k < |rules| then rules[k].result else default
  }

  /** The if/elif chain is the table evaluated first-match-wins. */
  lemma ClassifyIsFirstMatch(title: string)
    ensures Classify(title) == FirstMatch(Lower(title), RULES, DEFAULT_CLASSIFICATION)
  {
    var t := Lower(title);
    assert RULES[0].words == BOOK_WORDS && RULES[1].words == SETTINGS_WORDS;
    assert RULES[2].words == SEND_WORDS && RULES[3].words == PACKAGE_WORDS;
    assert RULES[4].words == DONE_WORDS && RULES[5].words == DETAIL_WORDS;
    if Contains(t, "deep dive") {
      assert Contains(t, DETAIL_WORDS[0]);
    }
    if Contains(t, "details") {
      assert Contains(t, DETAIL_WORDS[1]);
    }
    assert AnyIn(t, DETAIL_WORDS) <==> Contains(t, "deep dive") || Contains(t, "details");
  }

  /** A title with keywords of two groups takes the earlier group: rule 2
      ("configuration") wins over rule 4 ("token", "response"). */
  lemma ClassifyTokenResponseConfiguration(title: string)
    requires title == "Token Response Configuration"
    ensures Classify(title) == Classification(FiSettings, Orange)
  {
    var t := Lower(title);
    LowerTokenResponseConfiguration(title);
    NoBookWordInTokenResponseConfiguration(t);
    assert HasAt(t, 15, "configuration");
    ContainsAt(t, "configuration", 15);
    assert Contains(t, SETTINGS_WORDS[0]);
  }

  lemma LowerTokenResponseConfiguration(title: string)
    requires title == "Token Response Configuration"
    ensures Lower(title) == "token response configuration"
  {
  }

  lemma NoBookWordInTokenResponseConfiguration(t: string)
    requires t == "token response configuration"
    ensures !AnyIn(t, BOOK_WORDS)
  {
    assert 'v' !in t && 'w' !in t;
    assert 'd' !in t && 'l' !in t;
    NoBookWord(t);
  }

  /** Every keyword of rule 1 has a `v`, `w`, `d` or `l`. */
  lemma NoBookWord(t: string)
    requires 'v' !in t && 'w' !in t && 'd' !in t && 'l' !in t
    ensures !AnyIn(t, BOOK_WORDS)
  {
    forall k | 0 <= k < |BOOK_WORDS| ensures !Contains(t, BOOK_WORDS[k]) {
      if k == 0 { AbsentByChar(t, BOOK_WORDS[k], 1); }
      else if k == 1 { AbsentByChar(t, BOOK_WORDS[k], 0); }
      else if k == 2 { AbsentByChar(t, BOOK_WORDS[k], 2); }
      else if k == 3 { AbsentByChar(t, BOOK_WORDS[k], 1); }
      else if k == 4 { AbsentByChar(t, BOOK_WORDS[k], 0); }
      else { AbsentByChar(t, BOOK_WORDS[k], 2); }
    }
  }

  /** Keywords are substrings, not words: "show" contains "how". */
  lemma ClassifyShowToken(title: string)
    requires title == "Show token"
    ensures Classify(title) == Classification(FiBook, Yellow)
  {
    var t := Lower(title);
    assert t == "show token";
    assert HasAt(t, 1, "how");
    ContainsAt(t, "how", 1);
    assert Contains(t, BOOK_WORDS[2]);
  }

  // ---------------------------------------------------------------------
  // Rebuilding the block, and reading a rebuilt block back
  // ---------------------------------------------------------------------

  const HEADER_OPEN := "<CollapsibleHeader\n\t\t\t\t\ttitle=\""
  const ICON_ATTR := "\"\n\t\t\t\t\ticon={"
  const COLLAPSED_ATTR := "\n\t\t\t\t\tdefaultCollapsed={false}\n\t\t\t\t>\n"
  const HEADER_CLOSE := "\n\t\t\t\t</CollapsibleHeader>"

  function IconTag(icon: Icon): string {
    match icon
    case FiBook => "<FiBook />"
    case FiSettings => "<FiSettings />"
    case FiSend => "<FiSend />"
    case FiPackage => "<FiPackage />"
    case FiCheckCircle => "<FiCheckCircle />"
  }

  /** `theme_attr`: a line of its own, or nothing for the default theme. */
  function ThemeAttr(theme: Theme): string {
    match theme
    case NoTheme => ""
    case Yellow => "\n\t\t\t\t\ttheme=\"yellow\""
    case Orange => "\n\t\t\t\t\ttheme=\"orange\""
    case Blue => "\n\t\t\t\t\ttheme=\"blue\""
    case Green => "\n\t\t\t\t\ttheme=\"green\""
  }

  /** The f-string template of the new element, grouped from the right so
      that each piece can be peeled off in turn. */
  function Rebuild(title: string, cls: Classification, content: string): string {
    HEADER_OPEN + (title + (ICON_ATTR + (IconTag(cls.icon) + ("}" + (ThemeAttr(cls.theme)
      + (COLLAPSED_ATTR + (content + HEADER_CLOSE)))))))
  }

  datatype Header = Header(title: string, cls: Classification, content: string)

  /** The icon whose tag stands at `p` in a rebuilt element. */
  function IconAt(r: string, p: nat): (icon: Option<Icon>)
    ensures icon.Some? ==> HasAt(r, p, IconTag(icon.value))
  {
    IconAmong(r, p, ICON_ORDER)
  }

  /** The order in which the icon tags are tried. */
  const ICON_ORDER: seq<Icon> := [FiBook, FiSettings, FiSend, FiPackage, FiCheckCircle]

  /** The first icon of `icons` whose tag stands at `p`. */
  function IconAmong(r: string, p: nat, icons: seq<Icon>): (icon: Option<Icon>)
    ensures icon.Some? ==> HasAt(r, p, IconTag(icon.value))
    decreases |icons|
  {
    if icons == [] then None
    else if HasAt(r, p, IconTag(icons[0])) then Some(icons[0])
    else IconAmong(r, p, icons[1..])
  }

  /** The scan settles on the `k`-th icon when its tag stands at `p` and
      none before it does. */
  lemma {:induction false} IconAmongPicks(r: string, p: nat, icons: seq<Icon>, k: nat)
    requires k < |icons| && HasAt(r, p, IconTag(icons[k]))
    requires forall j :: 0 <= j < k ==> !HasAt(r, p, IconTag(icons[j]))
    ensures IconAmong(r, p, icons) == Some(icons[k])
    decreases k
  {
    if k > 0 {
      assert !HasAt(r, p, IconTag(icons[0]));
      forall j | 0 <= j < k - 1 ensures !HasAt(r, p, IconTag(icons[1..][j])) {
        assert icons[1..][j] == icons[j + 1];
      }
      IconAmongPicks(r, p, icons[1..], k - 1);
    }
  }

  /** The theme whose line stands at `p`, or the default theme. */
  function ThemeAt(r: string, p: nat): (theme: Theme)
    ensures theme != NoTheme ==> HasAt(r, p, ThemeAttr(theme))
  {
    ThemeAmong(r, p, THEME_ORDER)
  }

  /** The order in which the theme lines are tried. */
  const THEME_ORDER: seq<Theme> := [Yellow, Orange, Blue, Green]

  /** The first theme of `themes` whose line stands at `p`, or the default. */
  function ThemeAmong(r: string, p: nat, themes: seq<Theme>): (theme: Theme)
    ensures theme != NoTheme ==> HasAt(r, p, ThemeAttr(theme))
    decreases |themes|
  {
    if themes == [] then NoTheme
    else if themes[0] != NoTheme && HasAt(r, p, ThemeAttr(themes[0])) then themes[0]
    else ThemeAmong(r, p, themes[1..])
  }

  /** The scan settles on the `k`-th theme when its line stands at `p` and
      none before it does; it gives the default when none does. */
  lemma {:induction false} ThemeAmongPicks(r: string, p: nat, themes: seq<Theme>, k: nat)
    requires k <= |themes| && NoTheme !in themes
    requires k < |themes| ==> HasAt(r, p, ThemeAttr(themes[k]))
    requires forall j :: 0 <= j < k ==> !HasAt(r, p, ThemeAttr(themes[j]))
    ensures ThemeAmong(r, p, themes) == if k < |themes| then themes[k] else NoTheme
    decreases k
  {
    if k > 0 {
      assert !HasAt(r, p, ThemeAttr(themes[0]));
      forall j | 0 <= j < k - 1 ensures !HasAt(r, p, ThemeAttr(themes[1..][j])) {
        assert themes[1..][j] == themes[j + 1];
      }
      assert NoTheme !in themes[1..];
      ThemeAmongPicks(r, p, themes[1..], k - 1);
    } else if themes != [] {
      assert themes[0] in themes;
    }
  }

  /** Reads title, icon, theme and content back out of a rebuilt element. The
      title ends where the icon tag's `<` begins: a title has no `<` in it. */
  function ParseRebuilt(r: string): Option<Header> {
    if !HasAt(r, 0, HEADER_OPEN) then None
    else match IndexOf(r, "<", |HEADER_OPEN|)
      case None => None
      case Some(lt) =>
        if lt < |HEADER_OPEN| + |ICON_ATTR| || !HasAt(r, lt - |ICON_ATTR|, ICON_ATTR) then None
        else match ParseAttributes(r, lt)
          case None => None
          case Some((cls, content)) => Some(Header(r[|HEADER_OPEN|..lt - |ICON_ATTR|], cls, content))
  }

  /** The icon, the optional theme line, the fixed `defaultCollapsed` line and
      the content, read from the icon tag at `lt` to the end. */
  function ParseAttributes(r: string, lt: nat): Option<(Classification, string)> {
    match IconAt(r, lt)
    case None => None
    case Some(icon) => ParseAfterIcon(r, lt + |IconTag(icon)|, icon)
  }

  /** The `}` that closes the icon attribute, then the theme and the content. */
  function ParseAfterIcon(r: string, k: nat, icon: Icon): Option<(Classification, string)> {
    if !HasAt(r, k, "}") then None
    else
      var theme := ThemeAt(r, k + 1);
      match ParseContent(r, k + 1 + |ThemeAttr(theme)|)
      case None => None
      case Some(content) => Some((Classification(icon, theme), content))
  }

  /** The `defaultCollapsed` line at `t`, then the content up to the closing line. */
  function ParseContent(r: string, t: nat): Option<string> {
    var c := t + |COLLAPSED_ATTR|;
    if !HasAt(r, t, COLLAPSED_ATTR) || c + |HEADER_CLOSE| > |r|
      || !HasAt(r, |r| - |HEADER_CLOSE|, HEADER_CLOSE) then None
    else Some(r[c..|r| - |HEADER_CLOSE|])
  }

  /** The rebuilt element carries its title, classification and content
      verbatim: reading it back gives them all, the theme line included
      exactly when the theme is not the default one. */
  lemma RebuildRoundTrip(title: string, cls: Classification, content: string)
    requires '<' !in title
    ensures ParseRebuilt(Rebuild(title, cls, content)) == Some(Header(title, cls, content))
  {
    var r := Rebuild(title, cls, content);
    var rest := IconTag(cls.icon) + ("}" + (ThemeAttr(cls.theme) + (COLLAPSED_ATTR + (content + HEADER_CLOSE))));
    HeadRoundTrip(r, title, rest);
    AttributesRoundTrip(r, |HEADER_OPEN| + |title| + |ICON_ATTR|, cls, content);
    ParseRebuiltFrom(r, title, |HEADER_OPEN| + |title| + |ICON_ATTR|, cls, content);
  }

  /** The fixed head, the title and the `icon={` line, up to the icon's `<`. */
  lemma HeadRoundTrip(r: string, title: string, rest: string)
    requires r == HEADER_OPEN + (title + (ICON_ATTR + rest))
    requires '<' !in title && rest != [] && rest[0] == '<'
    ensures HasAt(r, 0, HEADER_OPEN)
    ensures IndexOf(r, "<", |HEADER_OPEN|) == Some(|HEADER_OPEN| + |title| + |ICON_ATTR|)
    ensures HasAt(r, |HEADER_OPEN| + |title|, ICON_ATTR)
    ensures r[|HEADER_OPEN|..|HEADER_OPEN| + |title|] == title
    ensures r[|HEADER_OPEN| + |title| + |ICON_ATTR|..] == rest
  {
    var h := |HEADER_OPEN|;
    PeelPrefix(r, 0, HEADER_OPEN, title + (ICON_ATTR + rest));
    PeelPrefix(r, h, title, ICON_ATTR + rest);
    PeelPrefix(r, h + |title|, ICON_ATTR, rest);
    assert '<' !in ICON_ATTR;
    FirstCharAfterParts(r, h, title, ICON_ATTR, rest, '<');
  }

  lemma ParseRebuiltFrom(r: string, title: string, lt: nat, cls: Classification, content: string)
    requires HasAt(r, 0, HEADER_OPEN)
    requires IndexOf(r, "<", |HEADER_OPEN|) == Some(lt)
    requires lt == |HEADER_OPEN| + |title| + |ICON_ATTR|
    requires HasAt(r, |HEADER_OPEN| + |title|, ICON_ATTR)
    requires r[|HEADER_OPEN|..|HEADER_OPEN| + |title|] == title
    requires ParseAttributes(r, lt) == Some((cls, content))
    ensures ParseRebuilt(r) == Some(Header(title, cls, content))
  {
  }

  lemma AttributesRoundTrip(r: string, lt: nat, cls: Classification, content: string)
    requires lt <= |r|
    requires r[lt..] == IconTag(cls.icon) + ("}" + (ThemeAttr(cls.theme)
      + (COLLAPSED_ATTR + (content + HEADER_CLOSE))))
    ensures ParseAttributes(r, lt) == Some((cls, content))
  {
    var k := lt + |IconTag(cls.icon)|;
    var p := k + 1;
    var t := p + |ThemeAttr(cls.theme)|;
    IconRoundTrip(r, lt, k, cls.icon, ThemeAttr(cls.theme) + (COLLAPSED_ATTR + (content + HEADER_CLOSE)));
    ThemeRoundTrip(r, p, t, cls.theme, content);
    AfterIconFrom(r, k, t, cls, content);
    ParseAttributesFrom(r, lt, k, cls, content);
  }

  lemma ParseAttributesFrom(r: string, lt: nat, k: nat, cls: Classification, content: string)
    requires IconAt(r, lt) == Some(cls.icon) && k == lt + |IconTag(cls.icon)|
    requires ParseAfterIcon(r, k, cls.icon) == Some((cls, content))
    ensures ParseAttributes(r, lt) == Some((cls, content))
  {
  }

  lemma AfterIconFrom(r: string, k: nat, t: nat, cls: Classification, content: string)
    requires HasAt(r, k, "}") && ThemeAt(r, k + 1) == cls.theme
    requires t == k + 1 + |ThemeAttr(cls.theme)| && ParseContent(r, t) == Some(content)
    ensures ParseAfterIcon(r, k, cls.icon) == Some((cls, content))
  {
  }

  lemma IconRoundTrip(r: string, lt: nat, k: nat, icon: Icon, rest: string)
    requires lt <= |r| && r[lt..] == IconTag(icon) + ("}" + rest)
    requires k == lt + |IconTag(icon)|
    ensures IconAt(r, lt) == Some(icon)
    ensures HasAt(r, k, "}")
    ensures r[k + 1..] == rest
  {
    PeelPrefix(r, lt, IconTag(icon), "}" + rest);
    IconTagsDistinct(r, lt, icon);
    PeelPrefix(r, k, "}", rest);
  }

  lemma ThemeRoundTrip(r: string, p: nat, t: nat, theme: Theme, content: string)
    requires p <= |r| && r[p..] == ThemeAttr(theme) + (COLLAPSED_ATTR + (content + HEADER_CLOSE))
    requires t == p + |ThemeAttr(theme)|
    ensures ThemeAt(r, p) == theme
    ensures ParseContent(r, t) == Some(content)
  {
    PeelPrefix(r, p, ThemeAttr(theme), COLLAPSED_ATTR + (content + HEADER_CLOSE));
    PeelPrefix(r, t, COLLAPSED_ATTR, content + HEADER_CLOSE);
    ThemeAttrsDistinct(r, p, theme);
    ContentRoundTrip(r, t, content);
  }

  lemma ContentRoundTrip(r: string, t: nat, content: string)
    requires HasAt(r, t, COLLAPSED_ATTR)
    requires r[t + |COLLAPSED_ATTR|..] == content + HEADER_CLOSE
    ensures ParseContent(r, t) == Some(content)
  {
    PeelPrefix(r, t + |COLLAPSED_ATTR|, content, HEADER_CLOSE);
  }

  /** Reading the icon tag back at `p` gives the tag written there: the tags
      differ at index 3, or at index 5 for the two that start `<FiS`. */
  lemma IconTagsDistinct(r: string, p: nat, icon: Icon)
    requires HasAt(r, p, IconTag(icon))
    ensures IconAt(r, p) == Some(icon)
  {
    var tag := IconTag(icon);
    if icon != FiBook { DiffersAt(r, p, tag, IconTag(FiBook), 3); }
    if icon == FiSend { DiffersAt(r, p, tag, IconTag(FiSettings), 5); }
    if icon != FiSettings && icon != FiSend { DiffersAt(r, p, tag, IconTag(FiSettings), 3); }
    if icon == FiPackage || icon == FiCheckCircle { DiffersAt(r, p, tag, IconTag(FiSend), 3); }
    if icon == FiCheckCircle { DiffersAt(r, p, tag, IconTag(FiPackage), 3); }
    var k := match icon
      case FiBook => 0 case FiSettings => 1 case FiSend => 2 case FiPackage => 3 case FiCheckCircle => 4;
    assert ICON_ORDER[k] == icon;
    IconAmongPicks(r, p, ICON_ORDER, k);
  }

  /** Reading the theme back at `p`: a theme line has its colour's initial at
      index 13; without a theme line the `defaultCollapsed` line follows
      directly, and it has `d` where a theme line has `t`, at index 6. */
  lemma ThemeAttrsDistinct(r: string, p: nat, theme: Theme)
    requires HasAt(r, p, ThemeAttr(theme))
    requires HasAt(r, p + |ThemeAttr(theme)|, COLLAPSED_ATTR)
    ensures ThemeAt(r, p) == theme
  {
    if theme == NoTheme {
      DiffersAt(r, p, COLLAPSED_ATTR, ThemeAttr(Yellow), 6);
      DiffersAt(r, p, COLLAPSED_ATTR, ThemeAttr(Orange), 6);
      DiffersAt(r, p, COLLAPSED_ATTR, ThemeAttr(Blue), 6);
      DiffersAt(r, p, COLLAPSED_ATTR, ThemeAttr(Green), 6);
    } else {
      var attr := ThemeAttr(theme);
      if theme != Yellow { DiffersAt(r, p, attr, ThemeAttr(Yellow), 13); }
      if theme == Blue || theme == Green { DiffersAt(r, p, attr, ThemeAttr(Orange), 13); }
      if theme == Green { DiffersAt(r, p, attr, ThemeAttr(Blue), 13); }
    }
    var k := match theme
      case Yellow => 0 case Orange => 1 case Blue => 2 case Green => 3 case NoTheme => 4;
    assert k < 4 ==> THEME_ORDER[k] == theme;
    ThemeAmongPicks(r, p, THEME_ORDER, k);
  }

  // ---------------------------------------------------------------------
  // convert_section
  // ---------------------------------------------------------------------

  /** One block rewritten; a block whose title or content cannot be found is
      returned byte-identical. */
  function ConvertSection(m: string): (r: string)
    ensures TitleOf(m).None? || ContentOf(m).None? ==> r == m
    ensures TitleOf(m).Some? && ContentOf(m).Some? ==>
      ParseRebuilt(r) == Some(Header(TitleOf(m).value, Classify(TitleOf(m).value), ContentOf(m).value))
  {
    match TitleOf(m)
    case None => m
    case Some(title) =>
      match ContentOf(m)
      case None => m
      case Some(content) =>
        RebuildRoundTrip(title, Classify(title), content);
        Rebuild(title, Classify(title), content)
  }
}
