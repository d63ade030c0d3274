/** `migrate_file` and the loop of `main`: add the imports, count the old
    sections, substitute them, and write the file back only when it
    changed. The file system is a map from path to text; a path missing
    from the map is a file that does not exist. */
module CollapsibleMigration {
  import opened Text
  import opened CollapsibleImports
  import opened CollapsibleBlocks

  /** The text `migrate_file` leaves on disk. Imports are added first;
      when the expression then matches nowhere, the file is not written,
      so even the added imports are dropped. */
  function MigratedText(original: string): string {
    var imported := if Contains(original, GUARD) then original else IconsAdded(ServiceImportAdded(original));
    if CountBlocks(imported) == 0 then original else Substitute(imported)
  }

  /** `migrate_file`: the number of sections found, whether the file was
      written, and the text on disk afterwards. */
  method MigrateFile(original: string) returns (migrated: bool, found: nat, onDisk: string)
    ensures Contains(original, GUARD) ==> found == CountBlocks(original)
    ensures !Contains(original, GUARD) ==> found == CountBlocks(IconsAdded(ServiceImportAdded(original)))
    ensures onDisk == MigratedText(original)
    ensures migrated <==> onDisk != original
    ensures found == 0 ==> !migrated && onDisk == original
  {
    var content := AddImports(original);
    found := CountBlocks(content);
    if found == 0 {
      return false, found, original;
    }
    content := Substitute(content);
    if content != original {
      migrated, onDisk := true, content;
    } else {
      migrated, onDisk := false, original;
    }
  }

  /** A text in which the expression matches holds the old
      `<CollapsibleHeaderButton` tag. */
  lemma MatchedHoldsOldButton(s: string)
    requires CountBlocks(s) > 0
    ensures Contains(s, BUTTON_OPEN)
  {
    var i :| 0 <= i <= |s| && BlockAt(s, SECTION, i).Some?;
    SectionShape(s, i);
  }

  /** Where the original text holds a section, the import guard already
      fires on the old button tag, so no import is ever added: the file on
      disk is the original with its sections converted. */
  lemma SectionsGetNoImports(original: string)
    requires CountBlocks(original) > 0
    ensures MigratedText(original) == Substitute(original)
  {
    MatchedHoldsOldButton(original);
    OldPatternBlocksImports(original);
  }

  /** A file in which no section is found after the imports are added is
      left exactly as it was, whatever the import step did to the text. */
  lemma NoSectionsNoWrite(original: string)
    requires CountBlocks(if Contains(original, GUARD) then original
                         else IconsAdded(ServiceImportAdded(original))) == 0
    ensures MigratedText(original) == original
  {
  }

  /** Neither import step writes `<CollapsibleHeaderButton`, so a file
      without the guard still has no section after the imports are added. */
  lemma UnguardedHasNoSections(original: string)
    requires !Contains(original, GUARD)
    ensures CountBlocks(IconsAdded(ServiceImportAdded(original))) == 0
  {
    if Contains(original, BUTTON_OPEN) {
      OldPatternBlocksImports(original);
    }
    ServiceImportAddsNoButton(original);
    IconsAddedAddsNoButton(ServiceImportAdded(original));
    if CountBlocks(IconsAdded(ServiceImportAdded(original))) > 0 {
      MatchedHoldsOldButton(IconsAdded(ServiceImportAdded(original)));
    }
  }

  /** The imports `add_imports` inserts never reach the disk: a file without
      the guard has no section, so its edited text is dropped. */
  lemma UnguardedNeverWritten(original: string)
    requires !Contains(original, GUARD)
    ensures MigratedText(original) == original
  {
    UnguardedHasNoSections(original);
  }

  /** A file whose sections all lack a title or a content block to carry
      over comes out unchanged, and so is reported as not migrated. */
  lemma UnconvertibleNoWrite(original: string)
    requires forall m :: m in Sections(original) ==>
      m.0 <= m.1 <= |original| && CollapsibleSections.ConvertSection(original[m.0..m.1]) == original[m.0..m.1]
    ensures MigratedText(original) == original
  {
    if !Contains(original, GUARD) {
      UnguardedNeverWritten(original);
    } else if CountBlocks(original) > 0 {
      ConvertedNothingUnchanged(original);
    }
  }

  /** The file system after applying `g` to each of `files` in turn that
      exists; a path that does not exist is skipped. */
  function Applied(fs: map<string, string>, files: seq<string>, g: string -> string): (out: map<string, string>)
    ensures out.Keys == fs.Keys
  {
    if files == [] then fs
    else
      var m := Applied(fs, files[..|files| - 1], g);
      var last := files[|files| - 1];
      if last in m then m[last := g(m[last])] else m
  }

  /** How many of `files`, taken in turn, exist and are changed by `g`. */
  function ChangedCount(fs: map<string, string>, files: seq<string>, g: string -> string): (n: nat)
    ensures n <= |files|
  {
    if files == [] then 0
    else
      var m := Applied(fs, files[..|files| - 1], g);
      var last := files[|files| - 1];
      ChangedCount(fs, files[..|files| - 1], g) + if last in m && g(m[last]) != m[last] then 1 else 0
  }

  /** One more file is one more application and one more possible count. */
  lemma AppliedStep(fs: map<string, string>, files: seq<string>, g: string -> string, i: nat)
    requires i < |files|
    ensures var m := Applied(fs, files[..i], g);
      Applied(fs, files[..i + 1], g) == (if files[i] in m then m[files[i] := g(m[files[i]])] else m)
      && ChangedCount(fs, files[..i + 1], g)
         == ChangedCount(fs, files[..i], g) + if files[i] in m && g(m[files[i]]) != m[files[i]] then 1 else 0
  {
    assert files[..i + 1][..i] == files[..i];
  }

  /** With distinct paths, each existing listed file ends up as `g` of its
      original text, and every other file is untouched. */
  lemma {:induction false} AppliedEach(fs: map<string, string>, files: seq<string>, g: string -> string)
    requires forall a, b :: 0 <= a < b < |files| ==> files[a] != files[b]
    ensures forall f :: f in fs ==> Applied(fs, files, g)[f] == if f in files then g(fs[f]) else fs[f]
  {
    if files != [] {
      var init := files[..|files| - 1];
      var last := files[|files| - 1];
      AppliedEach(fs, init, g);
      assert last !in init;
      forall f | f in fs
        ensures Applied(fs, files, g)[f] == if f in files then g(fs[f]) else fs[f]
      {
        assert f in files <==> f in init || f == last;
      }
    }
  }

  /** `main`: migrate each listed file that exists, skip the missing ones,
      and count the files written. */
  method MigrateAll(fs: map<string, string>, files: seq<string>) returns (out: map<string, string>, migrated: nat)
    ensures out == Applied(fs, files, MigratedText)
    ensures migrated == ChangedCount(fs, files, MigratedText)
  {
    out, migrated := fs, 0;
    var i := 0;
    while i < |files|
      invariant 0 <= i <= |files|
      invariant out == Applied(fs, files[..i], MigratedText)
      invariant migrated == ChangedCount(fs, files[..i], MigratedText)
    {
      var path := files[i];
      AppliedStep(fs, files, MigratedText, i);
      if path in out {
        var written, found, text := MigrateFile(out[path]);
        if written {
          out := out[path := text];
          migrated := migrated + 1;
        }
      }
      i := i + 1;
    }
    assert files[..i] == files;
  }

  /** After `main` over distinct paths, each listed file that exists holds
      its migrated text and every other file is as it was. */
  lemma MigrateAllEach(fs: map<string, string>, files: seq<string>)
    requires forall a, b :: 0 <= a < b < |files| ==> files[a] != files[b]
    ensures forall f :: f in fs ==>
      Applied(fs, files, MigratedText)[f] == if f in files then MigratedText(fs[f]) else fs[f]
  {
    AppliedEach(fs, files, MigratedText);
  }
}
