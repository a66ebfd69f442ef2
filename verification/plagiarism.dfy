/**
 * The `ductape` plagiarism helpers: `list_files`, which picks a folder's
 * source files by language, and `create_moss_comments`, which writes the
 * HTML comment attached to a plagiarism-service run.
 */
module Plagiarism {
  import opened Wrappers
  import opened Text
  import opened Tree
  import opened Staging

  // ---------------------------------------------------------------------
  // `list_files`.

  /**
   * `list_files(folder, language)`: the admissible glob hits for each of
   * the language's extensions. The default of the lookup is the empty
   * string, whose iteration yields no extension at all.
   */
  function ListFiles(folder: Folder, language: string): (files: seq<string>)
    ensures forall k :: 0 <= k < |files| ==>
              exists h: Hit :: h in Select([folder], Extensions(language, [])) && h.path == files[k]
  {
    var hits := Select([folder], Extensions(language, []));
    var files := Paths(hits);
    assert forall k :: 0 <= k < |files| ==> hits[k] in hits && hits[k].path == files[k];
    files
  }

  /** Every listed path is that of a non-empty regular file, not a PDF or JAR, that the folder's glob finds for one of the language's extensions. */
  lemma ListedFilesQualify(folder: Folder, language: string, p: string)
    requires p in ListFiles(folder, language)
    ensures exists h: Hit ::
              && h.path == p && Admissible(h)
              && exists j :: 0 <= j < |Extensions(language, [])|
                             && h in Glob(folder.path, folder.kids, NameSuffix(Extensions(language, [])[j]))
  {
    var exts := Extensions(language, []);
    var h :| h in Select([folder], exts) && h.path == p;
    SelectMembers([folder], exts, h);
    var i, j :| 0 <= i < 1 && 0 <= j < |exts| && h in Glob([folder][i].path, [folder][i].kids, NameSuffix(exts[j]));
  }

  /** Every admissible file the glob finds for one of the language's extensions is listed. */
  lemma ListFilesComplete(folder: Folder, language: string, j: nat, h: Hit)
    requires j < |Extensions(language, [])|
    requires h in Glob(folder.path, folder.kids, NameSuffix(Extensions(language, [])[j])) && Admissible(h)
    ensures h.path in ListFiles(folder, language)
  {
    var exts := Extensions(language, []);
    assert [folder][0] == folder;
    assert FoundIn(h, [folder], exts);
    SelectMembers([folder], exts, h);
    var hits := Select([folder], exts);
    var k :| 0 <= k < |hits| && hits[k] == h;
    assert Paths(hits)[k] == h.path;
  }

  /** An unknown language lists nothing at all. */
  lemma UnknownLanguageListsNothing(folder: Folder, language: string)
    requires LowerString(language) !in LanguageExtensions
    ensures ListFiles(folder, language) == []
  {
  }

  /**
   * The Java suffix has no dot: a file whose name merely ends in `java`
   * (here `Notjava`) is listed, whatever case the language is given in.
   */
  lemma JavaSuffixHasNoDot()
    ensures ListFiles(Folder("d", [File("Notjava", 7)]), "Java") == ["d/Notjava"]
  {
    JavaAnyCase();
    var h := Hit("d/Notjava", File("Notjava", 7));
    assert "d" + "/" + "Notjava" + "" == "d/Notjava";
    assert Listing("d", [File("Notjava", 7)], NameSuffix("java")) == [h] by {
      assert EndsWith("Notjava", "java");
      assert !Hidden("Notjava");
    }
    assert Glob("d", [File("Notjava", 7)], NameSuffix("java")) == [h];
    assert Collect([Folder("d", [File("Notjava", 7)])], ["java"]) == [h];
    assert Admissible(h) by {
      assert !EndsWith("d/Notjava", "pdf") && !EndsWith("d/Notjava", "jar");
    }
  }

  // ---------------------------------------------------------------------
  // `create_moss_comments`.

  /**
   * The keyword arguments `create_moss_comments` reads; a missing one is
   * `None`. Python truthiness decides which are used.
   */
  datatype CommentArgs = CommentArgs(
    baseFiles: Option<string>,
    solutions: Option<string>,
    maxSubmissions: Option<int>,
    submissionFolders: Option<seq<string>>)

  predicate TruthyText(v: Option<string>) {
    v.Some? && v.value != ""
  }

  predicate TruthyCount(v: Option<int>) {
    v.Some? && v.value != 0
  }

  predicate TruthyList(v: Option<seq<string>>) {
    v.Some? && v.value != []
  }

  /** One section of the comment. */
  datatype Section = BaseFiles(files: string) | Solutions(path: string) | MaxSubmissions(count: int) | Batch(folders: seq<string>)

  /** The place of a section kind in the comment. */
  function Rank(s: Section): nat {
    match s
    case BaseFiles(_) => 0
    case Solutions(_) => 1
    case MaxSubmissions(_) => 2
    case Batch(_) => 3
  }

  /** The sections in the order they are appended; the batch list only under a truthy maximum. */
  function Sections(args: CommentArgs): (ss: seq<Section>)
    ensures forall i, j :: 0 <= i < j < |ss| ==> Rank(ss[i]) < Rank(ss[j])
  {
    (if TruthyText(args.baseFiles) then [BaseFiles(args.baseFiles.value)] else [])
    + (if TruthyText(args.solutions) then [Solutions(args.solutions.value)] else [])
    + (if TruthyCount(args.maxSubmissions) then
         [MaxSubmissions(args.maxSubmissions.value)]
         + (if TruthyList(args.submissionFolders) then [Batch(args.submissionFolders.value)] else [])
       else [])
  }

  /**
   * A section is present exactly when its argument is truthy; the batch
   * list needs a truthy maximum as well as a non-empty list.
   */
  lemma SectionsPresent(args: CommentArgs)
    ensures forall v :: BaseFiles(v) in Sections(args) <==> args.baseFiles == Some(v) && v != ""
    ensures forall v :: Solutions(v) in Sections(args) <==> args.solutions == Some(v) && v != ""
    ensures forall n :: MaxSubmissions(n) in Sections(args) <==> args.maxSubmissions == Some(n) && n != 0
    ensures forall fs :: Batch(fs) in Sections(args) <==>
              TruthyCount(args.maxSubmissions) && args.submissionFolders == Some(fs) && fs != []
  {
  }

  /** The HTML of one section. */
  function Render(s: Section): (html: string)
    ensures |html| > 0
  {
    match s
    case BaseFiles(v) => "<b>Base files:</b> " + v
    case Solutions(v) => "<b>Solutions:</b> " + v
    case MaxSubmissions(n) => "<b>Max submissions:</b> " + IntToString(n)
    case Batch(fs) => "<b>Submissions in this batch:</b><br>" + Join("<br>", fs)
  }

  function RenderAll(ss: seq<Section>): (hs: seq<string>)
    ensures |hs| == |ss|
    ensures forall k :: 0 <= k < |ss| ==> hs[k] == Render(ss[k])
  {
    if ss == [] then [] else [Render(ss[0])] + RenderAll(ss[1..])
  }

  /** `create_moss_comments(**kwargs)`: the rendered sections joined by `<br><br>`. */
  function MossComments(args: CommentArgs): (html: string)
    ensures html == "" <==> Sections(args) == []
  {
    var hs := RenderAll(Sections(args));
    var html := Join("<br><br>", hs);
    assert hs != [] ==> |html| > 0 by {
      if hs != [] {
        JoinNonEmpty("<br><br>", hs);
      }
    }
    html
  }

  /** With no truthy argument the comment is empty, and otherwise it is not. */
  lemma MossCommentsEmpty(args: CommentArgs)
    ensures MossComments(args) == "" <==> !TruthyText(args.baseFiles) && !TruthyText(args.solutions) && !TruthyCount(args.maxSubmissions)
  {
  }

  /** The base-files section, when present, opens the comment. */
  lemma MossCommentsStartWithBaseFiles(args: CommentArgs)
    requires TruthyText(args.baseFiles)
    ensures StartsWith(MossComments(args), "<b>Base files:</b> " + args.baseFiles.value)
  {
    var hs := RenderAll(Sections(args));
    assert hs[0] == "<b>Base files:</b> " + args.baseFiles.value;
    if |hs| > 1 {
      assert Join("<br><br>", hs) == hs[0] + ("<br><br>" + Join("<br><br>", hs[1..]));
    }
  }
}
