# Migration scripts of the OAuth playground, modelled in Dafny

This project models three maintenance scripts of the OAuth playground
repository and proves properties of them.

- `migrate_collapsible.py` rewrites the old collapsible sections of the
  flow pages into the new `CollapsibleHeader` element. `add_imports` adds
  the service import and the missing icon names. `migrate_file` finds the
  old section blocks with a regular expression and rewrites each with
  `convert_section`, which extracts the title and the content, classifies
  the title into an icon and a theme, and rebuilds the element. `main`
  migrates a list of files and counts those it wrote.
- `migrate-badges.py` rewrites the `FiCheckCircle` migration badges of the
  sidebar into `MenuVersionBadge` elements. A table of 36 badge
  expressions is applied in order. Then every `FiCheckCircle` is stripped
  together with the commas and whitespace around it, and what remains is
  counted.
- `company-portal-login-mocks/generate.py` fills the placeholder tokens of
  a portal template and a login template for each company and writes both
  pages.

Python's `str` operations (`in`, `replace`, `count`, `strip`, `lower`)
are modelled once in module `Text`; `in` is whether a leftmost occurrence
exists. The regular expressions are
not run by a general engine. Each one is a hand-written matcher that
settles where Python's backtracking engine settles:

- `Scan` is a small step language for the patterns that need no
  backtracking: the badge expressions, the strip, and the parts of the
  section pattern.
- `CollapsibleBlocks` matches the section pattern with its two lazy runs.
- `CollapsibleImports` and `CollapsibleSections` match the import, title
  and content searches.
- `Substitution` is the scan of `re.findall` and `re.sub`: leftmost match,
  then resume where it ended.

The file system is a map from path to text. A path missing from the map
is a file that does not exist. Lists the scripts hard-code (the four flow
files, the sidebar path, the company list, the two templates) are
parameters.

The model follows the code as written:

- The block pattern is a flat regular expression with lazy runs. It does
  not track nesting. A section whose content holds a second
  `</CollapsibleContent>` is cut at the first one.
- The service import goes after the first services import, not the last.
  Without one, nothing is inserted and there is no fallback.
- A file without an icon import is still migrated.
- The title is written out unescaped.
- The rebuilt element uses fixed tabs. It is not re-indented to the
  original block.
- There are no per-block warnings.
- A file is written whenever its final text differs from what was read.
- The imports `add_imports` inserts never reach the disk. The guard
  `'CollapsibleHeader' in content` already fires on the old
  `<CollapsibleHeaderButton` tag, so a file with a section gets no import.
  A file without the guard has no section even after the import step,
  because neither import adds that tag. Such a file is not written, and
  its edited text is dropped (`CollapsibleMigration.SectionsGetNoImports`,
  `CollapsibleMigration.UnguardedNeverWritten`).

Each script's loop is an imperative method proved against a function over
the list it walks: `CollapsibleMigration.MigrateAll`,
`Badges.ApplyEntries` and `PortalPages.GeneratePages`.

## Model

| member | source | states |
|---|---|---|
| Text.IndexOf | migrate_collapsible.py:14 | the leftmost occurrence from `from`, which decides `pat in s`: the index found holds `pat`, no earlier index from `from` does, and None means `pat` occurs at no index from `from` |
| Text.ReplaceAll | migrate_collapsible.py:40 | `str.replace` leaves a text without an occurrence of the pattern unchanged |
| Text.ReplaceOnly | migrate_collapsible.py:40 | a text with a single occurrence gets the replacement there and keeps everything around it |
| Text.ReplaceLeavesNone | company-portal-login-mocks/generate.py:27 | when the replacement is non-empty and shares no character with the pattern, no occurrence is left afterwards, not even one spliced across a replacement |
| Text.InsertKeepsAbsent | migrate_collapsible.py:24 | inserting a text sealed against a pattern (no copy inside it, and no copy can start before it and run into it or run out of it) into a text without the pattern leaves the pattern absent |
| Text.ReplaceKeepsAbsent | migrate_collapsible.py:40 | replacing every occurrence of a target by a text sealed against a pattern, in a text without the pattern, leaves the pattern absent |
| Text.Count | migrate-badges.py:141 | `str.count` is zero exactly when the pattern does not occur |
| Text.Trim | migrate_collapsible.py:54 | `strip()` leaves no whitespace at either end and only characters of the input |
| Text.TrimDropsLeadingSpace | migrate_collapsible.py:54 | whitespace in front of a text does not change its `strip()` |
| Text.Lower | migrate_collapsible.py:60 | `lower()` keeps the length and lowers each character in place |
| Scan.SpaceThen | migrate-badges.py:18 | `\s*lit` matches whitespace only, then `lit`, and ends right after it |
| Scan.SpaceThenComplete | migrate-badges.py:18 | any whitespace run followed by `lit` is the match `\s*lit` finds: the greedy run gives nothing back |
| Scan.UpToWithComplete | migrate_collapsible.py:110 | `[^}]*collapsedSections[^}]*\}` matches up to the first `}` exactly when the text before it holds `collapsedSections` |
| Scan.MatchEnd | migrate-badges.py:131 | a match is non-empty and ends within the text |
| Scan.RunTable | migrate-badges.py:131 | the table of matches holds, for every index, the match found there |
| Scan.SubAll | migrate-badges.py:131 | `re.sub` with a fixed replacement is the text with each leftmost match, taken in turn, replaced and the gaps between matches kept |
| Scan.SubAllOne | migrate-badges.py:131 | when the pattern matches at a single index, `re.sub` puts the replacement in place of that match and keeps the text before and after it |
| Scan.SubAllNoMatch | migrate-badges.py:131 | `re.sub` with no match anywhere returns the text unchanged |
| Scan.LitFirst | migrate-badges.py:18 | a pattern that opens with a literal matches only where the literal stands |
| Scan.SpacedMatches | migrate-badges.py:18 | literals written with any whitespace gaps before them are all matched, up to the end of the last one |
| Scan.LitThenSpacedMatches | migrate-badges.py:18 | `lit\s*l1\s*l2...` matches the literal and the gapped literals in full |
| Substitution.NextIn | migrate_collapsible.py:112 | the leftmost match from an index: none before it, and None only when there is none at all |
| Substitution.MatchesIn | migrate_collapsible.py:112 | `re.findall` finds nothing exactly when there is no leftmost match, and the spans it lists are ordered, non-overlapping and within the text |
| Substitution.SubstituteIn | migrate_collapsible.py:120 | `re.sub` with a function is the text with each listed match replaced by the function's value on it and every gap between matches kept |
| Substitution.SubstituteOne | migrate_collapsible.py:120 | with a single match, `re.sub` puts the function's value on it in its place and keeps the text around it |
| Substitution.MatchesInOrder | migrate_collapsible.py:112 | the matches listed are real matches, in order and without overlap |
| Substitution.Covered | migrate_collapsible.py:112 | every index where a match starts lies inside a listed match: nothing is skipped |
| Substitution.SubstituteUnchanged | migrate_collapsible.py:120 | `re.sub` with a function that returns each match as it is returns the text unchanged |
| CollapsibleImports.LineEnd | migrate_collapsible.py:19 | `.*` runs to the end of the line and no further |
| CollapsibleImports.QuoteEnd | migrate_collapsible.py:19 | `[^']+';` runs over at least one non-quote up to the first quote, then `;` |
| CollapsibleImports.LastServiceTail | migrate_collapsible.py:19 | the greedy `.*` settles on the right-most `from '../../services/` whose tail matches |
| CollapsibleImports.ServiceImportAt | migrate_collapsible.py:19 | the services import at an index is a match, no later `from` on its line gives one, and None means no match starts there |
| CollapsibleImports.FirstServiceImport | migrate_collapsible.py:24 | `re.sub(count=1)` takes the leftmost services import, and None means there is none |
| CollapsibleImports.ServiceImportAdded | migrate_collapsible.py:19-24 | the import line is inserted right after the first services import and the rest is kept; without one the text is unchanged |
| CollapsibleImports.IconImportAt | migrate_collapsible.py:30 | an icon import at an index is found exactly when some slice from there is an import statement, and it is the only one |
| CollapsibleImports.IconImportOnlyAtFirstBrace | migrate_collapsible.py:30 | an icon import ends at the first `}` after its brace |
| CollapsibleImports.FirstIconImport | migrate_collapsible.py:30-31 | `re.search` takes the leftmost icon import, and None means there is none |
| CollapsibleImports.MissingFrom | migrate_collapsible.py:35 | an icon is listed as needed exactly when it is one of the four and not a substring of the statement; the needed icons keep the order of the list, and none is listed twice when the list has no repeats |
| CollapsibleImports.JoinContains | migrate_collapsible.py:39 | every needed name is in the joined list |
| CollapsibleImports.OnlyBraceFrom | migrate_collapsible.py:39 | an import statement has exactly one `} from`, the start of its tail |
| CollapsibleImports.ExtendImportShape | migrate_collapsible.py:39 | the names go in just before the closing brace and the statement is otherwise kept |
| CollapsibleImports.ExtendImportIsImport | migrate_collapsible.py:39 | the extended statement is still one icon import statement |
| CollapsibleImports.ExtendImportComplete | migrate_collapsible.py:35-39 | after the extension all four icons are in the statement, so a second pass finds none missing |
| CollapsibleImports.IconKept | migrate_collapsible.py:39 | each of the four icons, missing before or not, is in the extended statement |
| CollapsibleImports.IconsAddedAtFirstImport | migrate_collapsible.py:40 | the text before the first icon import is kept and the extended statement stands where the old one stood |
| CollapsibleImports.FirstOccurrenceIsFirstImport | migrate_collapsible.py:40 | the statement's text occurs nowhere before the statement, so `replace` first rewrites the statement itself |
| CollapsibleImports.AddImports | migrate_collapsible.py:11-43 | a text holding `CollapsibleHeader` is returned as it is; otherwise the service import is added and then the icons |
| CollapsibleImports.ImportLineSealed | migrate_collapsible.py:22 | the inserted service import line holds no `<CollapsibleHeaderButton` and no copy of the tag can run into it or out of it |
| CollapsibleImports.ServiceImportAddsNoButton | migrate_collapsible.py:19-24 | adding the service import to a text without `<CollapsibleHeaderButton` leaves it without the tag |
| CollapsibleImports.ExtendImportSealed | migrate_collapsible.py:35-39 | the extended icon import holds no `<CollapsibleHeaderButton`, opens with `import {` and ends with `;`, so no copy of the tag runs into it or out of it |
| CollapsibleImports.IconsAddedAddsNoButton | migrate_collapsible.py:30-40 | adding the icons to a text without `<CollapsibleHeaderButton` leaves it without the tag |
| CollapsibleImports.OldPatternBlocksImports | migrate_collapsible.py:14-16 | a text that holds `<CollapsibleHeaderButton` already contains the guard, so no import is added |
| CollapsibleSections.WordEnd | migrate_collapsible.py:50 | greedy `\w*`: word characters up to a non-word character or the end |
| CollapsibleSections.IconEnd | migrate_collapsible.py:50 | the optional `<Fi\w+\s*/>` group opens with `<Fi` and ends with `/>` |
| CollapsibleSections.CaptureAfter | migrate_collapsible.py:50 | the capture `[^<]+` holds no `<`, is followed by `</CollapsibleTitle>` and has only whitespace before it |
| CollapsibleSections.TitleCaptureAt | migrate_collapsible.py:50 | a title match opens with `<CollapsibleTitle>`, and its capture holds no `<` and is followed by the closing tag |
| CollapsibleSections.FirstTitleCapture | migrate_collapsible.py:50 | `re.search` gives the capture of the leftmost match, and None only when none matches |
| CollapsibleSections.TitleOf | migrate_collapsible.py:50-54 | the title holds no `<` and no whitespace at either end |
| CollapsibleSections.CaptureTrimIndependent | migrate_collapsible.py:50-54 | whatever whitespace the backtracking leaves at the front of the capture, the stripped title is the same |
| CollapsibleSections.FirstRule | migrate_collapsible.py:56-77 | the rule picked has a keyword in the title and no earlier rule has one |
| CollapsibleSections.ClassifyIsFirstMatch | migrate_collapsible.py:56-77 | the if/elif chain equals the ordered rule table read first-match-wins |
| CollapsibleSections.ClassifyTokenResponseConfiguration | migrate_collapsible.py:60-65 | "Token Response Configuration" gets the settings icon and the orange theme: an earlier rule beats "token" |
| CollapsibleSections.NoBookWord | migrate_collapsible.py:60 | a title without `v`, `w`, `d` and `l` has no keyword of the first rule |
| CollapsibleSections.ClassifyShowToken | migrate_collapsible.py:60-62 | "Show token" gets the book icon and yellow: "show" contains "how" |
| CollapsibleSections.ContentOf | migrate_collapsible.py:80-84 | the content lies between the first `<CollapsibleContent>` and the next closing tag and holds no closing tag; None means no closing tag follows any opening one |
| CollapsibleSections.RebuildRoundTrip | migrate_collapsible.py:86-94 | the rebuilt element gives back its title, icon, theme (a theme line exactly when the theme is not the default) and content verbatim |
| CollapsibleSections.IconTagsDistinct | migrate_collapsible.py:90 | an icon tag written in the element is read back as that icon |
| CollapsibleSections.ThemeAttrsDistinct | migrate_collapsible.py:87-91 | a theme line, or its absence before `defaultCollapsed`, is read back as that theme |
| CollapsibleSections.ConvertSection | migrate_collapsible.py:45-96 | a block without a title or content comes back byte-identical; otherwise the new element carries the title, its classification and the content |
| CollapsibleBlocks.ContentMatch | migrate_collapsible.py:110 | lazy `.*?</CollapsibleContent>`: the closing tag found is followed by the tail |
| CollapsibleBlocks.ContentMatchFirst | migrate_collapsible.py:110 | no earlier closing tag is followed by the tail |
| CollapsibleBlocks.ButtonMatch | migrate_collapsible.py:110 | lazy `.*?</CollapsibleHeaderButton>`: the closing tag found lets the rest of the pattern match |
| CollapsibleBlocks.ButtonMatchFirst | migrate_collapsible.py:110 | no earlier closing tag lets the rest of the pattern match |
| CollapsibleBlocks.BlockAt | migrate_collapsible.py:110 | a match at an index is non-empty and ends within the text |
| CollapsibleBlocks.BlockAtIsBlock | migrate_collapsible.py:110 | the match reported is a match of the pattern |
| CollapsibleBlocks.BlockAtLeast | migrate_collapsible.py:110 | wherever the pattern can match, a match is reported, with the shortest first lazy run and then the shortest second |
| CollapsibleBlocks.SectionShape | migrate_collapsible.py:110 | a match opens with `<CollapsibleSection>`, holds `<CollapsibleHeaderButton` and its runs stop at the two closing tags |
| CollapsibleBlocks.SectionEnd | migrate_collapsible.py:110 | a match ends with `</CollapsibleSection>` |
| CollapsibleBlocks.BlockTable | migrate_collapsible.py:112 | the table holds the match found at every index |
| CollapsibleBlocks.FindAll | migrate_collapsible.py:112 | `re.findall` finds nothing exactly when the pattern matches at no index |
| CollapsibleBlocks.CountBlocks | migrate_collapsible.py:112 | the count is zero exactly when the pattern matches at no index |
| CollapsibleBlocks.ConvertedNothingUnchanged | migrate_collapsible.py:120 | when `convert_section` returns every match as it is, the text is unchanged |
| CollapsibleBlocks.NoBlocksUnchanged | migrate_collapsible.py:120 | with no match, the substitution changes nothing |
| CollapsibleMigration.MigrateFile | migrate_collapsible.py:98-132 | the sections are counted after the imports; the text on disk is the migrated text; the file is written exactly when that differs from the original; when no section is found, nothing is written and the disk keeps the original |
| CollapsibleMigration.MatchedHoldsOldButton | migrate_collapsible.py:110 | a text where the pattern matches holds `<CollapsibleHeaderButton` |
| CollapsibleMigration.SectionsGetNoImports | migrate_collapsible.py:106-120 | a file with sections gets no import: its text is the original with the sections converted |
| CollapsibleMigration.NoSectionsNoWrite | migrate_collapsible.py:106-117 | a file in which no section is found after the import step is left exactly as it was, whatever that step added |
| CollapsibleMigration.UnguardedHasNoSections | migrate_collapsible.py:106-112 | a file without `CollapsibleHeader` still has no section once the imports are added, since neither import writes `<CollapsibleHeaderButton` |
| CollapsibleMigration.UnguardedNeverWritten | migrate_collapsible.py:106-117 | a file without `CollapsibleHeader` is never written, so the imports added to it are dropped |
| CollapsibleMigration.UnconvertibleNoWrite | migrate_collapsible.py:106-132 | a file whose sections all lack a title or content is left as it was and not reported migrated, with or without the guard |
| CollapsibleMigration.Applied | migrate_collapsible.py:147-154 | migrating files never creates or deletes a path |
| CollapsibleMigration.ChangedCount | migrate_collapsible.py:146-154 | no more files are counted migrated than are listed |
| CollapsibleMigration.AppliedEach | migrate_collapsible.py:147-154 | with distinct paths, each existing listed file ends up as the migration of its text, and every other file is untouched |
| CollapsibleMigration.MigrateAll | migrate_collapsible.py:134-159 | the loop leaves the file system as each listed file migrated in turn, and counts the files it changed |
| CollapsibleMigration.MigrateAllEach | migrate_collapsible.py:147-154 | after the loop over distinct paths, each existing listed file holds its migrated text and the rest are as they were |
| Badges.TableGroups | migrate-badges.py:16-127 | the table has 36 entries: five V8, then eleven V7, then twenty production |
| Badges.ReplacementsClean | migrate-badges.py:17-126 | no replacement holds `FiCheckCircle` or `badge: (` |
| Badges.ReplacementSealed | migrate-badges.py:17-126 | a replacement opens with `badge: <`, ends with `>` and holds no `badge: (`, so no `badge: (` can run into it or out of it |
| Badges.BadgeMatches | migrate-badges.py:18 | a badge written with any whitespace, newlines included, in each of its four gaps is matched in full |
| Badges.EntryRewritesBadge | migrate-badges.py:131 | an entry applied to a text whose only `badge: (` opens a badge written with the entry's title puts the replacement in place of the whole badge and keeps the text before and after it |
| Badges.TitleTagsPart | migrate-badges.py:16-127 | two different titles without quotes give title tags that differ at a character both have |
| Badges.OtherTitleMisses | migrate-badges.py:131 | an entry does not match at a badge written with a different title |
| Badges.EntryMissesBadge | migrate-badges.py:131 | an entry leaves a text whose only badge has a different title unchanged |
| Badges.RewrittenHasNoBadge | migrate-badges.py:131 | once the only badge is replaced, no `badge: (` is left |
| Badges.ApplyTableConcat | migrate-badges.py:130-131 | applying two tables in turn is applying their concatenation |
| Badges.AllMiss | migrate-badges.py:130-131 | a table none of whose entries changes the text leaves it unchanged |
| Badges.TableRewritesBadge | migrate-badges.py:130-131 | a sidebar text whose only badge is written with the title of entry `k` comes out of the whole table with that entry's replacement in the badge's place and every other character kept |
| Badges.NoBadgeUnchanged | migrate-badges.py:131 | a text without `badge: (` comes through the whole table unchanged |
| Badges.ApplyEntries | migrate-badges.py:130-131 | the loop applies the entries in table order, each to all its matches, which rewrites a written badge into its entry's replacement and keeps the text around it (`Badges.TableRewritesBadge`) |
| Badges.StripMatchesAtCheck | migrate-badges.py:134 | the strip matches at every `FiCheckCircle` |
| Badges.CheckStripped | migrate-badges.py:134 | every `FiCheckCircle` present before the strip lies inside a span it deletes |
| Badges.StripTakesBothCommas | migrate-badges.py:134 | `, FiCheckCircle,` is deleted with both commas and the whitespace before the name |
| Badges.MigrateBadges | migrate-badges.py:130-149 | the result is the table then the strip; `remaining` is the count of `FiCheckCircle` left, zero exactly when none is left, and the warning is given exactly when some are |
| PortalPages.Fill | company-portal-login-mocks/generate.py:24-27 | no year token is ever left, and a template holding none of the three tokens is returned unchanged |
| PortalPages.CompanyTokenFilled | company-portal-login-mocks/generate.py:25-27 | for any id and prefix, the company token becomes the id with its shared tokens replaced by the prefix and then its year tokens by the year: the id is inserted first, so the later steps rewrite the tokens it holds |
| PortalPages.YearInIdBecomesYear | company-portal-login-mocks/generate.py:25-27 | a company id that is the year token comes out as `2026` |
| PortalPages.SharedTokenFilled | company-portal-login-mocks/generate.py:25-27 | for any id and prefix, the shared token becomes the prefix with its year tokens replaced by the year: the prefix is inserted after the company step, so the company tokens it holds stay |
| PortalPages.CompanyTokenInPrefixSurvives | company-portal-login-mocks/generate.py:25-27 | a prefix that is the company token is written out as it is |
| PortalPages.YearInPrefixBecomesYear | company-portal-login-mocks/generate.py:25-27 | a prefix that is the year token comes out as `2026` |
| PortalPages.PathsDistinct | company-portal-login-mocks/generate.py:33-36 | distinct companies write to distinct paths, and no portal page lands on a login page's path |
| PortalPages.GeneratedPages | company-portal-login-mocks/generate.py:32-36 | each listed company has both pages, filled with its own id and `../../shared/` |
| PortalPages.GeneratedOthers | company-portal-login-mocks/generate.py:32-36 | a path that is no company's page keeps its text, and no other path is created |
| PortalPages.GeneratePages | company-portal-login-mocks/generate.py:32-36 | the loop writes the portal page, then the login page, of each company in turn |

## Left out

- File and console I/O is not modelled. That covers reading and writing
  files, `Path.exists`, `mkdir`, `json.loads`, loading the templates at
  import time and every `print`. Text comes in as a parameter and goes out
  as a result or a map update. Read and write errors are not modelled.
- The hard-coded lists are parameters: the four flow files, the sidebar
  path, the companies of `companies.json` (by their `id` field) and the two
  templates. A company record without an `id` is not modelled.
- Python's `re` engine in general is not modelled. Only the expressions
  the scripts use are matched, by hand.
- Text.Lower: lowers ASCII letters only, where Python's `lower()` also
  lowers other letters and can change the length of the text (`İ`,
  U+0130, lowers to two characters). The model keeps the length.
- CollapsibleSections.WordEnd: `\w` is ASCII letters, digits and `_`,
  where Python's `\w` on `str` also takes other letters and digits.
- Text.Trim: the contract says the result has no whitespace at either end
  and only characters of the input. It does not say the result is the
  input with its outer whitespace removed, although the body computes
  exactly that.
- PortalPages.PortalPath: the output paths are strings relative to the
  script's directory, `dist/<id>/portal.html` and `dist/<id>/login.html`.
  `pathlib` normalisation is not modelled: an id with `/`, `..` or an
  absolute path.
- Badges.TableRewritesBadge: stated for a table whose titles up to entry
  `k` hold no `"` and whose earlier titles differ from entry `k`'s. The 36
  titles of the table meet both conditions, but the verifier does not check
  this of the literal table. Proving character facts about 36 long string
  literals is beyond the solver's budget.
- CollapsibleMigration.MigrateAll: the count of files is returned; the
  summary line printed with it is not.
