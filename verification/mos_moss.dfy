/**
 * The `mos_moss` front end: the folder each batch-archive entry extracts
 * to, the clean-up and flattening applied after extraction, and the choice
 * of source files handed to the plagiarism service.
 */
module MosMoss {
  import opened Wrappers
  import opened Text
  import opened Patterns
  import opened Tree
  import opened Batch
  import opened Staging

  // ---------------------------------------------------------------------
  // Folder names.

  /**
   * The folder an entry extracts to: the uploaded file's own name (group 2
   * of the folder-name pattern) when `originalName` is set, the
   * `name_…_digits` prefix (group 1) otherwise, and the raw entry name when
   * the pattern does not match.
   */
  function FolderName(filename: string, originalName: bool): (name: string)
    ensures MatchFolder(filename).None? ==> name == filename
    ensures MatchFolder(filename).Some? && originalName ==> |name| > 0
    ensures MatchFolder(filename).Some? && !originalName ==> |name| >= 5 && StartsWith(filename, name + "_")
  {
    match MatchFolder(filename)
    case None => filename
    case Some(m) =>
      if originalName then filename[m.c + 1..m.e]
      else
        assert filename[..m.c + 1] == filename[..m.c] + "_";
        filename[..m.c]
  }

  /**
   * The name is cut from the split the regular-expression matcher reaches
   * first; without any split the raw entry name is used, so naming never
   * fails.
   */
  lemma FolderNameCorrect(filename: string, originalName: bool)
    ensures (forall a, b, c, e :: !FolderSplit(filename, a, b, c, e)) ==> FolderName(filename, originalName) == filename
    ensures (exists a, b, c, e :: FolderSplit(filename, a, b, c, e)) ==>
              exists a, b, c, e ::
                && FolderSplit(filename, a, b, c, e)
                && (forall a', b', c', e' :: FolderSplit(filename, a', b', c', e') ==> TriedNoLaterThan(a', b', e', FolderMatch(a, b, c, e)))
                && FolderName(filename, originalName) == if originalName then filename[c + 1..e] else filename[..c]
  {
    var m := MatchFolder(filename);
    if m.Some? {
      var w := m.value;
      assert FolderSplit(filename, w.a, w.b, w.c, w.e);
      assert FolderName(filename, originalName) == if originalName then filename[w.c + 1..w.e] else filename[..w.c];
    }
  }

  /** A later dot on the same line gives the same split a longer `.+`. */
  lemma LaterDotSplits(s: string, m: FolderMatch, k: int)
    requires FolderSplit(s, m.a, m.b, m.c, m.e)
    requires forall i :: 0 <= i < |s| ==> s[i] != '\n'
    requires m.e < k < |s| && s[k] == '.'
    ensures FolderSplit(s, m.a, m.b, m.c, k)
  {
  }

  /**
   * On a name without line breaks, the original-name folder is the text
   * just before the last `.` of the entry name.
   */
  lemma OriginalNameStopsAtLastDot(filename: string)
    requires MatchFolder(filename).Some?
    requires forall i :: 0 <= i < |filename| ==> filename[i] != '\n'
    ensures exists e ::
              && 0 <= e < |filename| && filename[e] == '.'
              && (forall k :: e < k < |filename| ==> filename[k] != '.')
              && EndsWith(filename[..e], FolderName(filename, true))
  {
    var m := MatchFolder(filename).value;
    forall k | m.e < k < |filename| && filename[k] == '.'
      ensures false
    {
      LaterDotSplits(filename, m, k);
    }
    assert filename[..m.e][m.e - (m.e - m.c - 1)..] == filename[m.c + 1..m.e];
  }

  // ---------------------------------------------------------------------
  // Extraction of the batch archive.

  /** `os.path.join(base, name)`: an absolute name replaces the base; otherwise one slash separates them. */
  function PathJoin(base: string, name: string): (p: string)
    ensures StartsWith(name, "/") ==> p == name
    ensures !StartsWith(name, "/") ==> EndsWith(p, name) && (base == [] || StartsWith(p, base))
  {
    if StartsWith(name, "/") then name
    else if base == [] || EndsWith(base, "/") then base + name
    else base + "/" + name
  }

  /** A batch-archive entry after extraction: the folder it went to and what the folder holds. */
  datatype Extracted = Extracted(folder: string, contents: seq<Node>)

  /** The folder under `zipOutput` that an entry extracts to. */
  function EntryFolder(entry: ArchiveEntry, zipOutput: string, originalName: bool): string {
    PathJoin(zipOutput, FolderName(entry.filename, originalName))
  }

  /**
   * `extractall(path)`: the folder's listing afterwards, or `None` when the
   * folder does not exist. Only members create directories, so an empty
   * archive extracted to a new path leaves none; into an existing folder
   * the archive is extracted over what is there.
   */
  function ExtractAll(existing: Option<seq<Node>>, contents: seq<Node>): (r: Result<Option<seq<Node>>, FsError>)
    ensures (r.Success? && r.value.None?) <==> (existing.None? && contents == [])
    ensures existing.None? && contents != [] && WellFormed(contents) ==> r == Success(Some(contents))
    ensures r.Success? && r.value.Some? ==>
              Names(r.value.value) == (if existing.Some? then Names(existing.value) else {}) + Names(contents)
  {
    match existing
    case None =>
      if contents == [] then Success(None)
      else
        ExtractIntoEmpty(contents);
        var kids :- ExtractOver([], contents);
        ExtractOverNames([], contents);
        Success(Some(kids))
    case Some(present) =>
      var kids :- ExtractOver(present, contents);
      ExtractOverNames(present, contents);
      Success(Some(kids))
  }

  /** `cleanup_files` then `flatten_folder` on an existing folder. */
  function Tidy(kids: seq<Node>): (r: Result<seq<Node>, FsError>)
    ensures r.Success? <==> Cleanup(kids).Success? && Flatten(Cleanup(kids).value).Success?
    ensures r.Failure? ==> || (Cleanup(kids).Failure? && r.error == RmtreeFailed)
                           || (Cleanup(kids).Success? && r.error == Flatten(Cleanup(kids).value).error)
    ensures !HasJunk(kids) && |kids| != 1 ==> r == Success(kids)
  {
    var cleaned :- Cleanup(kids);
    Flatten(cleaned)
  }

  /**
   * One entry of `unzip_canvas_submission`: extract the nested archive into
   * `zipOutput/folder` (which `existing` says is new or already holds
   * entries), run `cleanup_files` on it, then `flatten_folder`. When no
   * folder exists after extraction, `cleanup_files` finds nothing and the
   * `os.listdir` of `flatten_folder` raises.
   */
  function UnzipEntry(entry: ArchiveEntry, zipOutput: string, originalName: bool, existing: Option<seq<Node>>): (r: Result<Extracted, FsError>)
    ensures existing.None? && entry.contents == [] ==>
              r == Failure(NoSuchDirectory(EntryFolder(entry, zipOutput, originalName)))
    ensures var x := ExtractAll(existing, entry.contents);
            r.Success? <==> x.Success? && x.value.Some? && Tidy(x.value.value).Success?
    ensures var x := ExtractAll(existing, entry.contents);
            r.Failure? ==>
              || (x.Failure? && r.error == x.error)
              || (x.Success? && x.value.None? && r.error == NoSuchDirectory(EntryFolder(entry, zipOutput, originalName)))
              || (x.Success? && x.value.Some? && r.error == Tidy(x.value.value).error)
    ensures r.Success? ==> r.value.folder == EntryFolder(entry, zipOutput, originalName)
  {
    var landed :- ExtractAll(existing, entry.contents);
    match landed
    case None => Failure(NoSuchDirectory(EntryFolder(entry, zipOutput, originalName)))
    case Some(kids) =>
      var flat :- Tidy(kids);
      Success(Extracted(EntryFolder(entry, zipOutput, originalName), flat))
  }

  /**
   * After extraction no `__MACOSX` is reachable, unless the cleaned folder
   * held a single hidden wrapper: `glob` does not look inside it, and
   * flattening then brings its contents to the top.
   */
  lemma UnzipEntryRemovesJunk(entry: ArchiveEntry, zipOutput: string, originalName: bool, existing: Option<seq<Node>>)
    requires UnzipEntry(entry, zipOutput, originalName, existing).Success?
    requires var kids := Cleanup(ExtractAll(existing, entry.contents).value.value).value;
             !(|kids| == 1 && Hidden(kids[0].name))
    ensures !HasJunk(UnzipEntry(entry, zipOutput, originalName, existing).value.contents)
  {
    var kids := Cleanup(ExtractAll(existing, entry.contents).value.value).value;
    if |kids| == 1 {
      assert kids[1..] == [];
    }
  }

  /** A name the Canvas pattern does not match is used as the folder name unchanged. */
  lemma PlainNameFolder(contents: seq<Node>)
    ensures EntryFolder(ArchiveEntry("x.zip", contents), "out", false) == "out/x.zip"
  {
    assert MatchFolder("x.zip").None?;
    assert FolderName("x.zip", false) == "x.zip";
    assert !StartsWith("x.zip", "/") && !EndsWith("out", "/");
  }

  /** A hidden wrapper around a `__MACOSX` folder: the junk survives clean-up and comes to the top. */
  lemma HiddenWrapperKeepsJunk()
    ensures var entry := ArchiveEntry("x.zip", [Dir(".w", [Dir(Junk, [])])]);
            UnzipEntry(entry, "out", false, None) == Success(Extracted("out/x.zip", [Dir(Junk, [])]))
  {
    var kids := [Dir(".w", [Dir(Junk, [])])];
    PlainNameFolder(kids);
    assert Hidden(".w") && ".w" != Junk;
    assert WellFormed(kids) by {
      assert WellFormed([Dir(Junk, [])]) by {
        assert WellFormed([]);
      }
    }
    assert ExtractAll(None, kids) == Success(Some(kids));
    assert !HasJunk(kids) by {
      assert kids[1..] == [];
    }
    assert Tidy(kids) == Success([Dir(Junk, [])]);
  }

  /**
   * With a single (visible) wrapper, an extracted entry holds exactly what
   * the folder held under that wrapper after extraction, minus every
   * `__MACOSX` subtree.
   */
  lemma UnzipEntryLiftsWrapper(entry: ArchiveEntry, zipOutput: string, originalName: bool, existing: Option<seq<Node>>, e: Entry)
    requires UnzipEntry(entry, zipOutput, originalName, existing).Success?
    requires |Cleanup(ExtractAll(existing, entry.contents).value.value).value| == 1
    requires |e.path| > 0
    ensures var landed := ExtractAll(existing, entry.contents).value.value;
            var kids := Cleanup(landed).value;
            var lifted := Under(kids[0].name, e);
            var result := UnzipEntry(entry, zipOutput, originalName, existing).value.contents;
            Contains(result, e) <==> Contains(landed, lifted) && !JunkOnVisiblePath(lifted.path)
  {
    var kids := Cleanup(ExtractAll(existing, entry.contents).value.value).value;
    FlattenLiftsEntries(kids, e);
  }

  /** The folder each entry extracts to. */
  function FolderOf(zipOutput: string, originalName: bool): ArchiveEntry -> string {
    entry => EntryFolder(entry, zipOutput, originalName)
  }

  /** The folders a run of entries extracts to. */
  function Folders(entries: seq<ArchiveEntry>, zipOutput: string, originalName: bool): set<string> {
    KeysOf(FolderOf(zipOutput, originalName), entries)
  }

  /** One entry's extraction, given what its folder already holds: what the folder holds afterwards. */
  function Attempt(zipOutput: string, originalName: bool): (ArchiveEntry, Option<seq<Node>>) -> Result<seq<Node>, FsError> {
    (entry, existing) =>
      match UnzipEntry(entry, zipOutput, originalName, existing)
      case Success(x) => Success(x.contents)
      case Failure(e) => Failure(e)
  }

  /** An attempt succeeds or fails as the entry's extraction does, and stores the extracted contents. */
  lemma AttemptIsUnzipEntry(entry: ArchiveEntry, zipOutput: string, originalName: bool, existing: Option<seq<Node>>)
    ensures var x := UnzipEntry(entry, zipOutput, originalName, existing);
            var r := Attempt(zipOutput, originalName)(entry, existing);
            && (r.Success? <==> x.Success?)
            && (r.Success? ==> r.value == x.value.contents)
            && (r.Failure? ==> r == Failure(x.error))
  {
  }

  /**
   * `unzip_canvas_submission`: every entry in turn, stopping at the first
   * error raised. `out` maps each folder already under `zipOutput` to what
   * it holds; a folder that an earlier entry made (a resubmission under the
   * same name) is extracted over rather than replaced.
   */
  function UnzipAll(entries: seq<ArchiveEntry>, zipOutput: string, originalName: bool, out: map<string, seq<Node>>)
    : (r: Result<map<string, seq<Node>>, FsError>)
    ensures r.Success? ==> r.value.Keys == out.Keys + Folders(entries, zipOutput, originalName)
    ensures r.Success? ==> forall p :: p in out && p !in Folders(entries, zipOutput, originalName) ==> r.value[p] == out[p]
  {
    RunAll(Attempt(zipOutput, originalName), FolderOf(zipOutput, originalName), entries, out)
  }

  /** Entries going to distinct folders that do not exist yet. */
  predicate FreshFolders(entries: seq<ArchiveEntry>, zipOutput: string, originalName: bool, out: map<string, seq<Node>>) {
    && (forall i, j :: 0 <= i < j < |entries| ==>
          EntryFolder(entries[i], zipOutput, originalName) != EntryFolder(entries[j], zipOutput, originalName))
    && (forall i :: 0 <= i < |entries| ==> EntryFolder(entries[i], zipOutput, originalName) !in out)
  }

  /**
   * Entries going to distinct new folders are unzipped independently: the
   * run succeeds exactly when each entry, extracted on its own, succeeds,
   * and each folder then holds that entry's extraction.
   */
  lemma UnzipAllFresh(entries: seq<ArchiveEntry>, zipOutput: string, originalName: bool, out: map<string, seq<Node>>)
    requires FreshFolders(entries, zipOutput, originalName, out)
    ensures var r := UnzipAll(entries, zipOutput, originalName, out);
            r.Success? <==> forall k :: 0 <= k < |entries| ==> UnzipEntry(entries[k], zipOutput, originalName, None).Success?
    ensures var r := UnzipAll(entries, zipOutput, originalName, out);
            r.Success? ==> forall k :: 0 <= k < |entries| ==>
              r.value[EntryFolder(entries[k], zipOutput, originalName)] == UnzipEntry(entries[k], zipOutput, originalName, None).value.contents
  {
    RunAllFresh(Attempt(zipOutput, originalName), FolderOf(zipOutput, originalName), entries, out);
    forall k | 0 <= k < |entries| {
      AttemptIsUnzipEntry(entries[k], zipOutput, originalName, None);
    }
  }

  /** A run over distinct new folders fails with the error of the first entry that fails. */
  lemma UnzipAllFreshFails(entries: seq<ArchiveEntry>, zipOutput: string, originalName: bool, out: map<string, seq<Node>>)
    requires FreshFolders(entries, zipOutput, originalName, out)
    ensures var r := UnzipAll(entries, zipOutput, originalName, out);
            r.Failure? ==> exists k ::
              && 0 <= k < |entries|
              && UnzipEntry(entries[k], zipOutput, originalName, None) == Failure(r.error)
              && forall j :: 0 <= j < k ==> UnzipEntry(entries[j], zipOutput, originalName, None).Success?
  {
    var attempt := Attempt(zipOutput, originalName);
    RunAllFreshFails(attempt, FolderOf(zipOutput, originalName), entries, out);
    var r := UnzipAll(entries, zipOutput, originalName, out);
    if r.Failure? {
      var k :| && 0 <= k < |entries|
               && attempt(entries[k], None) == Failure(r.error)
               && forall j :: 0 <= j < k ==> attempt(entries[j], None).Success?;
      forall j | 0 <= j <= k {
        AttemptIsUnzipEntry(entries[j], zipOutput, originalName, None);
      }
    }
  }

  /** Two lists whose names are all distinct together: each is distinct, and they share no name. */
  lemma DistinctNamesAppend(xs: seq<Node>, ys: seq<Node>)
    requires DistinctNames(xs + ys)
    ensures DistinctNames(xs) && DistinctNames(ys)
    ensures forall j :: 0 <= j < |ys| ==> ys[j].name !in Names(xs)
  {
    var u := xs + ys;
    forall i, j | 0 <= i < j < |xs|
      ensures xs[i].name != xs[j].name
    {
      assert u[i] == xs[i] && u[j] == xs[j];
    }
    forall i, j | 0 <= i < j < |ys|
      ensures ys[i].name != ys[j].name
    {
      assert u[|xs| + i] == ys[i] && u[|xs| + j] == ys[j];
    }
    forall i, j | 0 <= i < |xs| && 0 <= j < |ys|
      ensures xs[i].name != ys[j].name
    {
      assert u[i] == xs[i] && u[|xs| + j] == ys[j];
    }
  }

  /**
   * Several entries, with distinct names in every directory and no
   * `__MACOSX`, land in a new folder unchanged.
   */
  lemma UnzipEntryFresh(entry: ArchiveEntry, zipOutput: string, originalName: bool)
    requires |entry.contents| >= 2 && !HasJunk(entry.contents) && WellFormed(entry.contents)
    ensures UnzipEntry(entry, zipOutput, originalName, None)
              == Success(Extracted(EntryFolder(entry, zipOutput, originalName), entry.contents))
  {
    assert ExtractAll(None, entry.contents) == Success(Some(entry.contents));
  }

  /**
   * Extracted over a folder holding other names, with no `__MACOSX` on
   * either side, a well-formed archive's entries join what the folder held.
   */
  lemma UnzipEntryOver(entry: ArchiveEntry, zipOutput: string, originalName: bool, present: seq<Node>)
    requires |present| >= 2 && !HasJunk(present) && !HasJunk(entry.contents)
    requires DistinctNames(present + entry.contents) && WellFormed(entry.contents)
    ensures UnzipEntry(entry, zipOutput, originalName, Some(present))
              == Success(Extracted(EntryFolder(entry, zipOutput, originalName), present + entry.contents))
  {
    DistinctNamesAppend(present, entry.contents);
    ExtractOverDisjoint(present, entry.contents);
    HasJunkAppend(present, entry.contents);
    assert ExtractAll(Some(present), entry.contents) == Success(Some(present + entry.contents));
  }

  /**
   * A resubmission: two entries under the same folder name. The second is
   * extracted over the first, so the folder keeps the first archive's files
   * next to the second's, and a lone directory in the second archive is not
   * lifted, because the folder no longer holds a single entry.
   */
  lemma UnzipAllResubmissionMerges(first: ArchiveEntry, second: ArchiveEntry, zipOutput: string, originalName: bool,
                                    out: map<string, seq<Node>>)
    requires EntryFolder(first, zipOutput, originalName) == EntryFolder(second, zipOutput, originalName)
    requires EntryFolder(first, zipOutput, originalName) !in out
    requires |first.contents| >= 2 && !HasJunk(first.contents) && !HasJunk(second.contents)
    requires DistinctNames(first.contents + second.contents) && WellFormed(first.contents) && WellFormed(second.contents)
    ensures UnzipAll([first, second], zipOutput, originalName, out)
              == Success(out[EntryFolder(first, zipOutput, originalName) := first.contents + second.contents])
  {
    var merged := first.contents + second.contents;
    var attempt := Attempt(zipOutput, originalName);
    DistinctNamesAppend(first.contents, second.contents);
    UnzipEntryFresh(first, zipOutput, originalName);
    UnzipEntryOver(second, zipOutput, originalName, first.contents);
    assert attempt(first, None) == Success(first.contents);
    assert attempt(second, Some(first.contents)) == Success(merged);
    RunAllSameKey(attempt, FolderOf(zipOutput, originalName), first, second, out, first.contents, merged);
  }

  // ---------------------------------------------------------------------
  // Source files for the plagiarism check.

  // What the glob of `zip_output` followed by a slash and `*` lists: one folder per
  // visible entry (a file lists nothing below it).
  function TopLevel(zipOutput: Folder): (fs: seq<Folder>)
    ensures |fs| <= |zipOutput.kids|
  {
    Listed(zipOutput.path, zipOutput.kids)
  }

  function Listed(path: string, kids: seq<Node>): (fs: seq<Folder>)
    ensures |fs| <= |kids|
  {
    if kids == [] then []
    else
      var n := kids[0];
      (if Hidden(n.name) then [] else [Folder(path + "/" + n.name, if n.Dir? then n.children else [])])
      + Listed(path, kids[1..])
  }

  /** A prefix of a reordering of `t` holds some of `t`'s elements, and all of them when it is the whole. */
  lemma PrefixOfReordering<T>(s: seq<T>, t: seq<T>, n: nat)
    requires multiset(s) == multiset(t) && n <= |s|
    ensures multiset(s[..n]) <= multiset(t)
    ensures n == |s| ==> multiset(s[..n]) == multiset(t)
    ensures forall k :: 0 <= k < n ==> s[k] in t
  {
    assert s == s[..n] + s[n..];
    forall k | 0 <= k < n
      ensures s[k] in t
    {
      assert s[k] in multiset(t);
    }
  }

  /**
   * The submission folders searched: with a non-zero `maxSubmissions`, a
   * slice `[:maxSubmissions]` of the shuffled top-level listing (a negative
   * bound drops that many from the end, as a Python slice does); otherwise
   * the whole output folder.
   */
  function SubmissionFolders(zipOutput: Folder, maxSubmissions: int, shuffled: seq<Folder>): (fs: seq<Folder>)
    requires multiset(shuffled) == multiset(TopLevel(zipOutput))
    ensures maxSubmissions == 0 ==> fs == [zipOutput]
    ensures maxSubmissions > 0 ==> |fs| == if maxSubmissions < |shuffled| then maxSubmissions else |shuffled|
    ensures maxSubmissions < 0 ==> |fs| == if -maxSubmissions < |shuffled| then |shuffled| + maxSubmissions else 0
    ensures maxSubmissions != 0 ==> forall k :: 0 <= k < |fs| ==> fs[k] in TopLevel(zipOutput)
    ensures maxSubmissions != 0 ==> multiset(fs) <= multiset(TopLevel(zipOutput))
    ensures maxSubmissions > 0 && maxSubmissions >= |shuffled| ==> multiset(fs) == multiset(TopLevel(zipOutput))
    ensures maxSubmissions != 0 ==> fs == shuffled[..|fs|]
  {
    if maxSubmissions == 0 then [zipOutput]
    else
      var n := if maxSubmissions > 0 then (if maxSubmissions < |shuffled| then maxSubmissions else |shuffled|)
               else (if -maxSubmissions < |shuffled| then |shuffled| + maxSubmissions else 0);
      PrefixOfReordering(shuffled, TopLevel(zipOutput), n);
      shuffled[..n]
  }

  /**
   * The files `stage_moss_files` adds: the admissible glob hits for each of
   * the language's extensions in each submission folder. An unknown
   * language searches with the single empty suffix.
   */
  function StagedFiles(folders: seq<Folder>, language: string): (files: seq<string>)
    ensures forall k :: 0 <= k < |files| ==>
              exists h: Hit :: h in Select(folders, Extensions(language, [""])) && h.path == files[k]
  {
    var hits := Select(folders, Extensions(language, [""]));
    var files := Paths(hits);
    assert forall k :: 0 <= k < |files| ==> hits[k] in hits && hits[k].path == files[k];
    files
  }

  /** Every staged path is that of a non-empty regular file, not a PDF or JAR, found by some folder's glob. */
  lemma StagedFilesQualify(folders: seq<Folder>, language: string)
    ensures forall p :: p in StagedFiles(folders, language) ==>
              exists h: Hit :: h.path == p && Admissible(h) && FoundIn(h, folders, Extensions(language, [""]))
  {
    forall p | p in StagedFiles(folders, language)
      ensures exists h: Hit :: h.path == p && Admissible(h) && FoundIn(h, folders, Extensions(language, [""]))
    {
      var h :| h in Select(folders, Extensions(language, [""])) && h.path == p;
      SelectMembers(folders, Extensions(language, [""]), h);
    }
  }

  /** Every admissible file some folder's glob finds for one of the language's extensions is staged. */
  lemma StagedFilesComplete(folders: seq<Folder>, language: string, i: nat, j: nat, h: Hit)
    requires i < |folders| && j < |Extensions(language, [""])|
    requires h in Glob(folders[i].path, folders[i].kids, NameSuffix(Extensions(language, [""])[j])) && Admissible(h)
    ensures h.path in StagedFiles(folders, language)
  {
    var exts := Extensions(language, [""]);
    assert FoundIn(h, folders, exts);
    SelectMembers(folders, exts, h);
    var hits := Select(folders, exts);
    var k :| 0 <= k < |hits| && hits[k] == h;
    assert Paths(hits)[k] == h.path;
  }

  /** With an unknown language every admissible file the folders' globs reach is staged, whatever its name. */
  lemma UnknownLanguageStagesEverything(folders: seq<Folder>, language: string, i: nat, h: Hit)
    requires LowerString(language) !in LanguageExtensions
    requires i < |folders| && h in Glob(folders[i].path, folders[i].kids, NameSuffix("")) && Admissible(h)
    ensures h.path in StagedFiles(folders, language)
  {
    assert Extensions(language, [""]) == [""];
    StagedFilesComplete(folders, language, i, 0, h);
  }
}
