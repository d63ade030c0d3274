/** `generate.py` of the login mock-ups: each company gets a portal page
    and a login page, both filled from a shared template by replacing the
    placeholder tokens. The file system is a map from path to text, and the
    output directory is `dist/`. */
module PortalPages {
  import opened Text

  const COMPANY_TOKEN := "__COMPANY__"
  const SHARED_TOKEN := "__SHARED__"
  const YEAR_TOKEN := "__YEAR__"

  /** The year written into every page. */
  const YEAR := "2026"

  /** Where the pages find the shared assets, relative to their own
      directory. */
  const SHARED_PREFIX := "../../shared/"

  const DIST := "dist/"
  const PORTAL_FILE := "/portal.html"
  const LOGIN_FILE := "/login.html"

  /** `fill`: every company token becomes the id, then every shared token the
      prefix, then every year token the year. Each step works on the text
      the previous one produced. */
  function Fill(template: string, companyId: string, sharedPrefix: string): (r: string)
    ensures !Contains(r, YEAR_TOKEN)
    ensures (!Contains(template, COMPANY_TOKEN) && !Contains(template, SHARED_TOKEN)
             && !Contains(template, YEAR_TOKEN)) ==> r == template
  {
    var withIds := ReplaceAll(template, COMPANY_TOKEN, companyId);
    var withPrefix := ReplaceAll(withIds, SHARED_TOKEN, sharedPrefix);
    YearLacksTokenChars();
    ReplaceLeavesNone(withPrefix, YEAR_TOKEN, YEAR);
    ReplaceAll(withPrefix, YEAR_TOKEN, YEAR)
  }

  lemma YearLacksTokenChars()
    ensures YEAR != [] && forall c :: c in YEAR ==> c !in YEAR_TOKEN
  {
  }

  /** A template that is exactly one token is replaced by that token's text. */
  lemma TokenReplaced(token: string, rep: string)
    requires |token| > 0
    ensures ReplaceAll(token, token, rep) == rep
  {
    ReplaceOnly(token, token, rep, 0);
    assert token[..0] + rep + token[|token|..] == rep;
  }

  /** The id is filled in before the other tokens are, so the tokens it
      holds are filled in as well: the company token alone becomes the id
      with its shared tokens replaced by the prefix and then its year tokens
      by the year. */
  lemma CompanyTokenFilled(companyId: string, sharedPrefix: string)
    ensures Fill(COMPANY_TOKEN, companyId, sharedPrefix)
      == ReplaceAll(ReplaceAll(companyId, SHARED_TOKEN, sharedPrefix), YEAR_TOKEN, YEAR)
  {
    TokenReplaced(COMPANY_TOKEN, companyId);
  }

  /** A company whose id is the year token gets the year in its place. */
  lemma YearInIdBecomesYear(sharedPrefix: string)
    ensures Fill(COMPANY_TOKEN, YEAR_TOKEN, sharedPrefix) == YEAR
  {
    AbsentByChar(YEAR_TOKEN, SHARED_TOKEN, 2);
    CompanyTokenFilled(YEAR_TOKEN, sharedPrefix);
    TokenReplaced(YEAR_TOKEN, YEAR);
  }

  /** The prefix is filled in after the company token, so a company token
      inside the prefix survives, while its year tokens are still filled:
      the shared token alone becomes the prefix with its year tokens
      replaced by the year. */
  lemma SharedTokenFilled(companyId: string, sharedPrefix: string)
    ensures Fill(SHARED_TOKEN, companyId, sharedPrefix) == ReplaceAll(sharedPrefix, YEAR_TOKEN, YEAR)
  {
    AbsentByChar(SHARED_TOKEN, COMPANY_TOKEN, 2);
    TokenReplaced(SHARED_TOKEN, sharedPrefix);
  }

  /** A prefix that is the company token is written out as it is. */
  lemma CompanyTokenInPrefixSurvives(companyId: string)
    ensures Fill(SHARED_TOKEN, companyId, COMPANY_TOKEN) == COMPANY_TOKEN
  {
    AbsentByChar(COMPANY_TOKEN, YEAR_TOKEN, 3);
    SharedTokenFilled(companyId, COMPANY_TOKEN);
  }

  /** A prefix that is the year token becomes the year. */
  lemma YearInPrefixBecomesYear(companyId: string)
    ensures Fill(SHARED_TOKEN, companyId, YEAR_TOKEN) == YEAR
  {
    SharedTokenFilled(companyId, YEAR_TOKEN);
    TokenReplaced(YEAR_TOKEN, YEAR);
  }

  function PortalPath(id: string): string {
    DIST + id + PORTAL_FILE
  }

  function LoginPath(id: string): string {
    DIST + id + LOGIN_FILE
  }

  /** Distinct companies write to distinct paths, and a company's portal
      page never lands where any login page does. */
  lemma PathsDistinct(a: string, b: string)
    ensures PortalPath(a) == PortalPath(b) ==> a == b
    ensures LoginPath(a) == LoginPath(b) ==> a == b
    ensures PortalPath(a) != LoginPath(b)
  {
    var p, l := PortalPath(a), LoginPath(b);
    if PortalPath(a) == PortalPath(b) {
      assert a == p[|DIST|..|DIST| + |a|] && b == PortalPath(b)[|DIST|..|DIST| + |b|];
    }
    if LoginPath(a) == LoginPath(b) {
      assert a == LoginPath(a)[|DIST|..|DIST| + |a|] && b == l[|DIST|..|DIST| + |b|];
    }
    assert p[|p| - 6] == 'l' && l[|l| - 6] == 'n';
  }

  /** The file system after the pages of `ids` are written in turn; a page
      written twice keeps the later text. */
  function Generated(fs: map<string, string>, ids: seq<string>, portalTemplate: string, loginTemplate: string): map<string, string> {
    if ids == [] then fs
    else
      var m := Generated(fs, ids[..|ids| - 1], portalTemplate, loginTemplate);
      var id := ids[|ids| - 1];
      m[PortalPath(id) := Fill(portalTemplate, id, SHARED_PREFIX)][LoginPath(id) := Fill(loginTemplate, id, SHARED_PREFIX)]
  }

  /** `path` is neither page of any company in `ids`. */
  predicate NotPage(path: string, ids: seq<string>) {
    forall id :: id in ids ==> path != PortalPath(id) && path != LoginPath(id)
  }

  /** Each listed company ends up with its two pages, filled with its own id
      and the shared prefix, whatever else was listed after it. */
  lemma {:induction false} GeneratedPages(fs: map<string, string>, ids: seq<string>, portalTemplate: string, loginTemplate: string, id: string)
    requires id in ids
    ensures PortalPath(id) in Generated(fs, ids, portalTemplate, loginTemplate)
    ensures Generated(fs, ids, portalTemplate, loginTemplate)[PortalPath(id)] == Fill(portalTemplate, id, SHARED_PREFIX)
    ensures LoginPath(id) in Generated(fs, ids, portalTemplate, loginTemplate)
    ensures Generated(fs, ids, portalTemplate, loginTemplate)[LoginPath(id)] == Fill(loginTemplate, id, SHARED_PREFIX)
  {
    var last := ids[|ids| - 1];
    PathsDistinct(id, last);
    PathsDistinct(last, id);
    if id != last {
      assert id in ids[..|ids| - 1] by {
        var k :| 0 <= k < |ids| && ids[k] == id;
        assert ids[..|ids| - 1][k] == id;
      }
      GeneratedPages(fs, ids[..|ids| - 1], portalTemplate, loginTemplate, id);
    }
  }

  /** Every path that is no company's page keeps its text, and no path other
      than the pages is created. */
  lemma {:induction false} GeneratedOthers(fs: map<string, string>, ids: seq<string>, portalTemplate: string, loginTemplate: string, path: string)
    requires NotPage(path, ids)
    ensures path in Generated(fs, ids, portalTemplate, loginTemplate) <==> path in fs
    ensures path in fs ==> Generated(fs, ids, portalTemplate, loginTemplate)[path] == fs[path]
  {
    if ids != [] {
      assert ids[|ids| - 1] in ids;
      assert NotPage(path, ids[..|ids| - 1]) by {
        forall id | id in ids[..|ids| - 1] ensures path != PortalPath(id) && path != LoginPath(id) {
          assert id in ids;
        }
      }
      GeneratedOthers(fs, ids[..|ids| - 1], portalTemplate, loginTemplate, path);
    }
  }

  /** The loop of `main`: for each company, its portal page and then its
      login page are written. */
  method GeneratePages(fs: map<string, string>, ids: seq<string>, portalTemplate: string, loginTemplate: string)
    returns (out: map<string, string>)
    ensures out == Generated(fs, ids, portalTemplate, loginTemplate)
  {
    out := fs;
    var i := 0;
    while i < |ids|
      invariant 0 <= i <= |ids|
      invariant out == Generated(fs, ids[..i], portalTemplate, loginTemplate)
    {
      var id := ids[i];
      assert ids[..i + 1][..i] == ids[..i];
      out := out[PortalPath(id) := Fill(portalTemplate, id, SHARED_PREFIX)];
      out := out[LoginPath(id) := Fill(loginTemplate, id, SHARED_PREFIX)];
      i := i + 1;
    }
    assert ids[..i] == ids;
  }
}
