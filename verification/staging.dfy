/**
 * The source-file selection both plagiarism front ends share: the table of
 * extensions per language, the recursive `glob` for each extension in each
 * submission folder, and the filter that keeps non-empty regular files that
 * are not PDFs or JARs.
 */
module Staging {
  import opened Text
  import opened Tree

  /** The extensions per language, keyed by lower-case language name. */
  const LanguageExtensions: map<string, seq<string>> := map["java" := ["java"], "cpp" := [".cpp", ".h", ".hpp"]]

  /** `LANGUAGE_EXTENSIONS.get(language.lower(), default)`. */
  function Extensions(language: string, default: seq<string>): seq<string> {
    var key := LowerString(language);
    if key in LanguageExtensions then LanguageExtensions[key] else default
  }

  /** The lookup ignores case: languages that lower-case alike get the same extensions. */
  lemma ExtensionsIgnoreCase(language: string, other: string, default: seq<string>)
    requires |language| == |other|
    requires forall k :: 0 <= k < |language| ==> Lower(language[k]) == Lower(other[k])
    ensures Extensions(language, default) == Extensions(other, default)
  {
    assert LowerString(language) == LowerString(other);
  }

  /** `Java`, `JAVA` and `java` all select the bare suffix `java`, which has no dot. */
  lemma JavaAnyCase()
    ensures Extensions("Java", []) == ["java"]
    ensures Extensions("JAVA", []) == ["java"]
  {
    assert LowerString("Java") == "java" by {
      assert Lower('J') == 'j';
    }
    assert LowerString("JAVA") == "java" by {
      assert Lower('J') == 'j' && Lower('A') == 'a' && Lower('V') == 'v';
    }
  }

  /** A submission folder to search: its path and its listing. */
  datatype Folder = Folder(path: string, kids: seq<Node>)

  /**
   * The filter both front ends apply to glob results: a regular file
   * (`os.path.isfile`), non-empty (`os.path.getsize`), whose path ends in
   * neither `pdf` nor `jar`.
   */
  predicate Admissible(h: Hit) {
    && h.node.File?
    && h.node.size > 0
    && !EndsWith(h.path, "pdf")
    && !EndsWith(h.path, "jar")
  }

  /** The admissible hits, in order. */
  function Admitted(hits: seq<Hit>): (r: seq<Hit>)
    ensures |r| <= |hits|
    ensures forall k :: 0 <= k < |r| ==> Admissible(r[k])
  {
    if hits == [] then []
    else (if Admissible(hits[0]) then [hits[0]] else []) + Admitted(hits[1..])
  }

  /** A hit is admitted exactly when it is among the hits and admissible. */
  lemma {:induction false} AdmittedMembers(hits: seq<Hit>, h: Hit)
    ensures h in Admitted(hits) <==> h in hits && Admissible(h)
  {
    if hits != [] {
      AdmittedMembers(hits[1..], h);
      assert hits == [hits[0]] + hits[1..];
    }
  }

  /** `glob(f"{folder}/**/*{ext}", recursive=True)` for each folder in turn. */
  function FolderHits(folders: seq<Folder>, ext: string): seq<Hit> {
    if folders == [] then []
    else Glob(folders[0].path, folders[0].kids, NameSuffix(ext)) + FolderHits(folders[1..], ext)
  }

  /** The loop over extensions with the loop over folders inside it. */
  function Collect(folders: seq<Folder>, exts: seq<string>): seq<Hit> {
    if exts == [] then [] else FolderHits(folders, exts[0]) + Collect(folders, exts[1..])
  }

  /** The hits of one folder for one extension. */
  ghost predicate FoundIn(h: Hit, folders: seq<Folder>, exts: seq<string>) {
    exists i, j :: 0 <= i < |folders| && 0 <= j < |exts| && h in Glob(folders[i].path, folders[i].kids, NameSuffix(exts[j]))
  }

  lemma {:induction false} FolderHitsMembers(folders: seq<Folder>, ext: string, h: Hit)
    ensures h in FolderHits(folders, ext) <==>
              exists i :: 0 <= i < |folders| && h in Glob(folders[i].path, folders[i].kids, NameSuffix(ext))
  {
    if folders != [] {
      FolderHitsMembers(folders[1..], ext, h);
      if h in FolderHits(folders[1..], ext) {
        var i :| 0 <= i < |folders[1..]| && h in Glob(folders[1..][i].path, folders[1..][i].kids, NameSuffix(ext));
        assert folders[i + 1] == folders[1..][i];
      }
      forall i | 1 <= i < |folders| && h in Glob(folders[i].path, folders[i].kids, NameSuffix(ext))
        ensures h in FolderHits(folders[1..], ext)
      {
        assert folders[1..][i - 1] == folders[i];
      }
    }
  }

  /** The collected hits are exactly those of some folder for some extension. */
  lemma {:induction false} CollectMembers(folders: seq<Folder>, exts: seq<string>, h: Hit)
    ensures h in Collect(folders, exts) <==> FoundIn(h, folders, exts)
  {
    if exts != [] {
      CollectMembers(folders, exts[1..], h);
      FolderHitsMembers(folders, exts[0], h);
      if h in Collect(folders, exts) {
        if h in FolderHits(folders, exts[0]) {
          var i :| 0 <= i < |folders| && h in Glob(folders[i].path, folders[i].kids, NameSuffix(exts[0]));
          assert FoundIn(h, folders, exts);
        } else {
          var i, j :| 0 <= i < |folders| && 0 <= j < |exts[1..]|
                      && h in Glob(folders[i].path, folders[i].kids, NameSuffix(exts[1..][j]));
          assert exts[1..][j] == exts[j + 1];
        }
      }
      if FoundIn(h, folders, exts) {
        var i, j :| 0 <= i < |folders| && 0 <= j < |exts| && h in Glob(folders[i].path, folders[i].kids, NameSuffix(exts[j]));
        if j > 0 {
          assert exts[1..][j - 1] == exts[j];
          assert FoundIn(h, folders, exts[1..]);
        }
      }
    }
  }

  /** The selected files: the admissible hits of every extension in every folder. */
  function Select(folders: seq<Folder>, exts: seq<string>): (r: seq<Hit>)
    ensures forall k :: 0 <= k < |r| ==> Admissible(r[k])
  {
    Admitted(Collect(folders, exts))
  }

  /** A hit is selected exactly when it is admissible and some folder's glob for some extension finds it. */
  lemma SelectMembers(folders: seq<Folder>, exts: seq<string>, h: Hit)
    ensures h in Select(folders, exts) <==> Admissible(h) && FoundIn(h, folders, exts)
  {
    AdmittedMembers(Collect(folders, exts), h);
    CollectMembers(folders, exts, h);
  }

  /** The empty suffix selects every name `*` matches: every name that is not hidden. */
  lemma EmptySuffixSelectsVisible(n: Node)
    ensures Selects(NameSuffix(""), n) <==> !Hidden(n.name)
  {
  }
}
