/**
 * The standalone compliance checker: for each entry of the batch archive it
 * reads the student's identity from the entry name, checks the uploaded
 * file's name, extracts and cleans the nested archive into a temporary
 * directory, and checks the required part folders and the report.
 */
module ZipfileCheck {
  import opened Wrappers
  import opened Patterns
  import opened Tree
  import opened Models

  /** Some directory path matches the part's pattern. */
  ghost predicate PartFound(part: string, folders: seq<string>) {
    exists j :: 0 <= j < |folders| && PartFolderSpec(folders[j], part)
  }

  /** Every requested part has at least one directory path matching its pattern. */
  ghost predicate AllPartsFound(parts: seq<string>, folders: seq<string>) {
    forall i :: 0 <= i < |parts| ==> PartFound(parts[i], folders)
  }

  /** The inner loop of `check_folders`: some folder matches the part; it breaks at the first. */
  function AnyFolderMatches(part: string, folders: seq<string>): (r: bool)
    ensures r <==> exists j :: 0 <= j < |folders| && PartFolderSpec(folders[j], part)
  {
    if folders == [] then false
    else if PartFolderMatches(folders[0], part) then true
    else
      var r := AnyFolderMatches(part, folders[1..]);
      assert r <==> exists j :: 0 <= j < |folders| && PartFolderSpec(folders[j], part) by {
        if exists j :: 0 <= j < |folders| && PartFolderSpec(folders[j], part) {
          var j :| 0 <= j < |folders| && PartFolderSpec(folders[j], part);
          assert j != 0;
          assert PartFolderSpec(folders[1..][j - 1], part);
        }
        if r {
          var j :| 0 <= j < |folders[1..]| && PartFolderSpec(folders[1..][j], part);
          assert PartFolderSpec(folders[j + 1], part);
        }
      }
      r
  }

  /**
   * `check_folders` over the directory paths `glob` returned: `False` at the
   * first part without a matching folder, `True` when every part has one.
   * The source walks the parts in sorted order; the result does not depend
   * on the order (see `CheckFoldersIgnoresOrder`), so the model walks them as
   * given.
   */
  function CheckFolders(parts: seq<string>, folders: seq<string>): (ok: bool)
    requires forall i :: 0 <= i < |parts| ==> IsPlainToken(parts[i])
    ensures ok <==> AllPartsFound(parts, folders)
    ensures parts == [] ==> ok
  {
    if parts == [] then true
    else if !AnyFolderMatches(parts[0], folders) then false
    else
      var ok := CheckFolders(parts[1..], folders);
      assert ok <==> AllPartsFound(parts, folders) by {
        if ok {
          forall i | 0 <= i < |parts|
            ensures exists j :: 0 <= j < |folders| && PartFolderSpec(folders[j], parts[i])
          {
            if i > 0 {
              assert parts[i] == parts[1..][i - 1];
            }
          }
        }
        if AllPartsFound(parts, folders) {
          forall i | 0 <= i < |parts[1..]|
            ensures exists j :: 0 <= j < |folders| && PartFolderSpec(folders[j], parts[1..][i])
          {
            assert parts[1..][i] == parts[i + 1];
          }
        }
      }
      ok
  }

  /** Parts drawn from an already satisfied list are satisfied too. */
  lemma AllPartsFoundSubset(parts: seq<string>, other: seq<string>, folders: seq<string>)
    requires forall i :: 0 <= i < |other| ==> other[i] in multiset(parts)
    requires AllPartsFound(parts, folders)
    ensures AllPartsFound(other, folders)
  {
    forall i | 0 <= i < |other|
      ensures PartFound(other[i], folders)
    {
      assert other[i] in multiset(parts);
      var k :| 0 <= k < |parts| && parts[k] == other[i];
    }
  }

  /** Sorting the parts first cannot change the verdict: any reordering gives the same result. */
  lemma CheckFoldersIgnoresOrder(parts: seq<string>, reordered: seq<string>, folders: seq<string>)
    requires forall i :: 0 <= i < |parts| ==> IsPlainToken(parts[i])
    requires multiset(parts) == multiset(reordered)
    ensures forall i :: 0 <= i < |reordered| ==> IsPlainToken(reordered[i])
    ensures CheckFolders(parts, folders) == CheckFolders(reordered, folders)
  {
    forall i | 0 <= i < |reordered|
      ensures IsPlainToken(reordered[i])
    {
      assert reordered[i] in multiset(parts);
    }
    assert forall i :: 0 <= i < |parts| ==> parts[i] in multiset(reordered);
    assert forall i :: 0 <= i < |reordered| ==> reordered[i] in multiset(parts);
    if AllPartsFound(parts, folders) {
      AllPartsFoundSubset(parts, reordered, folders);
    }
    if AllPartsFound(reordered, folders) {
      AllPartsFoundSubset(reordered, parts, folders);
    }
  }

  /** Finding more directories never turns a passing folder check into a failing one. */
  lemma CheckFoldersMonotonic(parts: seq<string>, folders: seq<string>, more: seq<string>)
    requires forall i :: 0 <= i < |parts| ==> IsPlainToken(parts[i])
    requires forall j :: 0 <= j < |folders| ==> folders[j] in more
    ensures CheckFolders(parts, folders) ==> CheckFolders(parts, more)
  {
    if CheckFolders(parts, folders) {
      forall i | 0 <= i < |parts|
        ensures exists j :: 0 <= j < |more| && PartFolderSpec(more[j], parts[i])
      {
        var j :| 0 <= j < |folders| && PartFolderSpec(folders[j], parts[i]);
        var j' :| 0 <= j' < |more| && more[j'] == folders[j];
      }
    }
  }

  /** `check_report` over the PDF paths `glob` returned: some path matches the report pattern. */
  function CheckReport(pdfs: seq<string>): (ok: bool)
    ensures ok <==> exists j :: 0 <= j < |pdfs| && ReportNameSpec(pdfs[j])
    ensures pdfs == [] ==> !ok
  {
    if pdfs == [] then false
    else if ReportNameMatches(pdfs[0]) then true
    else
      var ok := CheckReport(pdfs[1..]);
      assert ok <==> exists j :: 0 <= j < |pdfs| && ReportNameSpec(pdfs[j]) by {
        if exists j :: 0 <= j < |pdfs| && ReportNameSpec(pdfs[j]) {
          var j :| 0 <= j < |pdfs| && ReportNameSpec(pdfs[j]);
          assert ReportNameSpec(pdfs[1..][j - 1]);
        }
        if ok {
          var j :| 0 <= j < |pdfs[1..]| && ReportNameSpec(pdfs[1..][j]);
          assert ReportNameSpec(pdfs[j + 1]);
        }
      }
      ok
  }

  // The directory paths of the recursive directory glob under the temporary directory.
  function FolderPaths(tempDir: string, kids: seq<Node>): seq<string> {
    Paths(Glob(tempDir, kids, AnyDir))
  }

  // The paths of the recursive `.pdf` glob under the temporary directory.
  function PdfPaths(tempDir: string, kids: seq<Node>): seq<string> {
    Paths(Glob(tempDir, kids, NameSuffix(".pdf")))
  }

  /**
   * Why checking a batch stops: a name the identity pattern does not match,
   * an archive `extractall` cannot lay out on disk, or a failing `rmtree`.
   */
  datatype CheckError = NoIdentity(filename: string) | ExtractError(error: FsError) | CleanupError(error: FsError)

  /** The archive is extracted into a fresh, empty temporary directory. */
  function Landed(entry: ArchiveEntry): (r: Result<seq<Node>, FsError>)
    ensures WellFormed(entry.contents) ==> r == Success(entry.contents)
  {
    ExtractIntoEmpty(entry.contents);
    ExtractOver([], entry.contents)
  }

  /**
   * What `check_zipfile` records for an entry whose name parses: the identity
   * groups, the uploaded file's name, a zip-name flag that is always set, a
   * folders flag set exactly when parts are requested and a report flag set
   * exactly when the report is requested, each passing exactly when the
   * matching paths exist in the cleaned tree.
   */
  ghost predicate Describes(entry: ArchiveEntry, tempDir: string, parts: seq<string>, report: bool, s: Student)
    requires ParseIdentity(entry.filename).Some? && Landed(entry).Success? && !CleanupFails(Landed(entry).value)
  {
    var id := ParseIdentity(entry.filename).value;
    var c := s.compliance;
    var tree := Cleanup(Landed(entry).value).value;
    && s.name == id.name && s.canvasId == id.canvasId && s.sisId == id.sisId
    && c.zipName == Some(id.originalFilename) && c.reportName.None? && c.folderStructure.None?
    && c.zipNameCompliant != Unenforced
    && (c.zipNameCompliant == Pass <==> ZipNameSpec(id.originalFilename))
    && (c.foldersCompliant == Unenforced <==> parts == [])
    && (c.foldersCompliant == Pass <==> parts != [] && AllPartsFound(parts, FolderPaths(tempDir, tree)))
    && (c.reportNameCompliant == Unenforced <==> !report)
    && (c.reportNameCompliant == Pass
        <==> report && exists j :: 0 <= j < |PdfPaths(tempDir, tree)| && ReportNameSpec(PdfPaths(tempDir, tree)[j]))
  }

  /**
   * The error `check_zipfile` raises for an entry, if any: the name is parsed
   * first, then the archive is extracted, then the extracted tree is cleaned.
   */
  function EntryError(entry: ArchiveEntry): (e: Option<CheckError>)
    ensures e.None? <==> ParseIdentity(entry.filename).Some? && Landed(entry).Success? && !CleanupFails(Landed(entry).value)
    ensures e.Some? && e.value.ExtractError? ==> ParseIdentity(entry.filename).Some? && !WellFormed(entry.contents)
    ensures WellFormed(entry.contents) ==>
              (e.None? <==> ParseIdentity(entry.filename).Some? && !CleanupFails(entry.contents))
  {
    if ParseIdentity(entry.filename).None? then Some(NoIdentity(entry.filename))
    else
      match Landed(entry)
      case Failure(x) => Some(ExtractError(x))
      case Success(tree) => if CleanupFails(tree) then Some(CleanupError(RmtreeFailed)) else None
  }

  /**
   * The body of the loop in `check_zipfile` for one entry extracted under
   * `tempDir`. An empty `parts` stands for both `None` and `[]`, which the
   * source treats alike. What a successful result holds is stated by
   * `CheckEntryDescribes`.
   */
  function CheckEntry(entry: ArchiveEntry, tempDir: string, parts: seq<string>, report: bool)
    : (r: Result<Student, CheckError>)
    requires forall i :: 0 <= i < |parts| ==> IsPlainToken(parts[i])
    ensures r.Failure? <==> EntryError(entry).Some?
    ensures r.Failure? ==> r.error == EntryError(entry).value
  {
    match ParseIdentity(entry.filename)
    case None => Failure(NoIdentity(entry.filename))
    case Some(id) =>
      var zipFlag := FromBool(ZipNameMatches(id.originalFilename));
      match Landed(entry)
      case Failure(x) => Failure(ExtractError(x))
      case Success(landed) =>
        match Cleanup(landed)
        case Failure(e) => Failure(CleanupError(e))
        case Success(tree) =>
          var folders := if parts != [] then FromBool(CheckFolders(parts, FolderPaths(tempDir, tree))) else Unenforced;
          var reportFlag := if report then FromBool(CheckReport(PdfPaths(tempDir, tree))) else Unenforced;
          var c := DefaultCompliance.(zipName := Some(id.originalFilename), zipNameCompliant := zipFlag,
                                      foldersCompliant := folders, reportNameCompliant := reportFlag);
          Success(Student(id.name, id.canvasId, id.sisId, c))
  }

  /** A successful entry check records exactly what `Describes` requires. */
  lemma CheckEntryDescribes(entry: ArchiveEntry, tempDir: string, parts: seq<string>, report: bool)
    requires forall i :: 0 <= i < |parts| ==> IsPlainToken(parts[i])
    ensures CheckEntry(entry, tempDir, parts, report).Success? ==>
              Describes(entry, tempDir, parts, report, CheckEntry(entry, tempDir, parts, report).value)
  {
  }

  /**
   * An archive holding a file and a directory under one name cannot be
   * extracted, so the entry raises although its name parses.
   */
  lemma CheckEntryClash(entry: ArchiveEntry, tempDir: string, parts: seq<string>, report: bool)
    requires forall i :: 0 <= i < |parts| ==> IsPlainToken(parts[i])
    requires ParseIdentity(entry.filename).Some? && entry.contents == [File("a", 1), Dir("a", [])]
    ensures CheckEntry(entry, tempDir, parts, report) == Failure(ExtractError(ExtractClash("a")))
  {
    ExtractClashRaises();
  }

  /** Two students fitting the same entry are the same student: `Describes` fixes every field. */
  lemma DescribesDeterministic(entry: ArchiveEntry, tempDir: string, parts: seq<string>, report: bool, s: Student, t: Student)
    requires ParseIdentity(entry.filename).Some? && Landed(entry).Success? && !CleanupFails(Landed(entry).value)
    requires Describes(entry, tempDir, parts, report, s) && Describes(entry, tempDir, parts, report, t)
    ensures s == t
  {
  }

  /** The outcome of the loop body for each entry, were it run on all of them. */
  function Outcomes(entries: seq<ArchiveEntry>, tempDirs: seq<string>, parts: seq<string>, report: bool)
    : (outs: seq<Result<Student, CheckError>>)
    requires |tempDirs| == |entries|
    requires forall i :: 0 <= i < |parts| ==> IsPlainToken(parts[i])
    ensures |outs| == |entries|
  {
    if entries == [] then []
    else [CheckEntry(entries[0], tempDirs[0], parts, report)] + Outcomes(entries[1..], tempDirs[1..], parts, report)
  }

  /** Entry `k`'s outcome is `CheckEntry` on entry `k` and its temporary directory. */
  lemma {:induction false} OutcomesAt(entries: seq<ArchiveEntry>, tempDirs: seq<string>, parts: seq<string>,
                                      report: bool, k: nat)
    requires |tempDirs| == |entries| && k < |entries|
    requires forall i :: 0 <= i < |parts| ==> IsPlainToken(parts[i])
    ensures Outcomes(entries, tempDirs, parts, report)[k] == CheckEntry(entries[k], tempDirs[k], parts, report)
  {
    if k > 0 {
      OutcomesAt(entries[1..], tempDirs[1..], parts, report, k - 1);
    }
  }

  /**
   * `check_zipfile`: one student per entry, in archive order, each extracted
   * into its own temporary directory. The first entry that raises ends the
   * whole call, and the students collected so far are lost.
   */
  method CheckZipfile(entries: seq<ArchiveEntry>, tempDirs: seq<string>, parts: seq<string>, report: bool)
    returns (r: Result<seq<Student>, CheckError>)
    requires |tempDirs| == |entries|
    requires forall i :: 0 <= i < |parts| ==> IsPlainToken(parts[i])
    ensures r.Success? <==> forall i :: 0 <= i < |entries| ==> Outcomes(entries, tempDirs, parts, report)[i].Success?
    ensures r.Success? ==> |r.value| == |entries|
    ensures r.Success? ==> forall i :: 0 <= i < |entries| ==>
              Outcomes(entries, tempDirs, parts, report)[i] == Success(r.value[i])
    ensures r.Failure? ==>
              exists i :: 0 <= i < |entries| && Outcomes(entries, tempDirs, parts, report)[i] == Failure(r.error)
                && forall k :: 0 <= k < i ==> Outcomes(entries, tempDirs, parts, report)[k].Success?
  {
    var outs := Outcomes(entries, tempDirs, parts, report);
    var students := [];
    var i := 0;
    while i < |entries|
      invariant 0 <= i <= |entries|
      invariant |students| == i
      invariant forall k :: 0 <= k < i ==> outs[k] == Success(students[k])
    {
      if outs[i].Failure? {
        r := Failure(outs[i].error);
        assert outs[i] == Failure(r.error) && forall k :: 0 <= k < i ==> outs[k].Success?;
        assert outs == Outcomes(entries, tempDirs, parts, report);
        assert !(forall j :: 0 <= j < |entries| ==> Outcomes(entries, tempDirs, parts, report)[j].Success?);
        return;
      }
      students := students + [outs[i].value];
      i := i + 1;
    }
    r := Success(students);
    assert r.value == students;
  }
}
