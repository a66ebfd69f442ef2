/**
 * An extracted submission as an immutable directory tree, with the two
 * normalisation steps applied after extraction (`__MACOSX` removal and
 * single-wrapper flattening) and the recursive `glob` listings the checks
 * read. A directory listing is a sequence of nodes in listing order.
 */
module Tree {
  import opened Text
  import opened Wrappers

  datatype Node = File(name: string, size: nat) | Dir(name: string, children: seq<Node>)

  /** The metadata folder macOS adds to archives. */
  const Junk := "__MACOSX"

  /** A name `glob` skips: it starts with a dot. */
  predicate Hidden(name: string) {
    |name| > 0 && name[0] == '.'
  }

  /** Whether a recursive `**` descends into the node: a directory with a name that is not hidden. */
  predicate Descends(n: Node) {
    n.Dir? && !Hidden(n.name)
  }

  /** One entry of the batch archive: its stored file name and the tree its nested archive extracts to. */
  datatype ArchiveEntry = ArchiveEntry(filename: string, contents: seq<Node>)

  /**
   * The errors the file-system calls raise: `shutil.rmtree`, `os.listdir` on
   * a file or on a missing directory, `shutil.move` onto an existing name,
   * and extracting a file where a directory is (or the other way round).
   */
  datatype FsError =
    | RmtreeFailed
    | NotADirectory(name: string)
    | NoSuchDirectory(path: string)
    | DestinationExists(name: string)
    | ExtractClash(name: string)

  // ---------------------------------------------------------------------
  // Entries of a tree, by path of names.

  /** A file (with its size) or a directory at a path of names below the root. */
  datatype Entry = FileEntry(path: seq<string>, size: nat) | DirEntry(path: seq<string>)

  function Tail(e: Entry): Entry
    requires |e.path| > 0
  {
    match e
    case FileEntry(p, sz) => FileEntry(p[1..], sz)
    case DirEntry(p) => DirEntry(p[1..])
  }

  /** The entry seen one level further up, under a directory called `name`. */
  function Under(name: string, e: Entry): (u: Entry)
    ensures |u.path| > 0 && u.path[0] == name && Tail(u) == e
  {
    match e
    case FileEntry(p, sz) => FileEntry([name] + p, sz)
    case DirEntry(p) => DirEntry([name] + p)
  }

  /** The listing `kids` holds the entry `e`. */
  predicate Contains(kids: seq<Node>, e: Entry)
    decreases kids
  {
    && kids != []
    && (|| (&& |e.path| > 0 && kids[0].name == e.path[0]
            && if |e.path| == 1 then
                 (match e
                  case FileEntry(_, sz) => kids[0].File? && kids[0].size == sz
                  case DirEntry(_) => kids[0].Dir?)
               else
                 kids[0].Dir? && Contains(kids[0].children, Tail(e)))
        || Contains(kids[1..], e))
  }

  lemma {:induction false} ContainsAppend(xs: seq<Node>, ys: seq<Node>, e: Entry)
    ensures Contains(xs + ys, e) <==> Contains(xs, e) || Contains(ys, e)
    decreases xs
  {
    if xs != [] {
      assert (xs + ys)[0] == xs[0];
      assert (xs + ys)[1..] == xs[1..] + ys;
      ContainsAppend(xs[1..], ys, e);
    } else {
      assert xs + ys == ys;
    }
  }

  // ---------------------------------------------------------------------
  // `extractall` into a directory that may already hold entries.

  /** The names directly in a listing. */
  function Names(kids: seq<Node>): set<string> {
    set k | 0 <= k < |kids| :: kids[k].name
  }

  /** No two entries of the listing share a name, as in a real directory. */
  predicate DistinctNames(kids: seq<Node>) {
    forall i, j :: 0 <= i < j < |kids| ==> kids[i].name != kids[j].name
  }

  /** Distinct names in every directory of the tree: a tree a real directory can hold. */
  predicate WellFormed(kids: seq<Node>)
    decreases kids
  {
    && DistinctNames(kids)
    && forall k :: 0 <= k < |kids| ==> kids[k].Dir? ==> WellFormed(kids[k].children)
  }

  /** The position of the first entry called `name`. */
  function IndexOf(kids: seq<Node>, name: string): (i: Option<nat>)
    ensures i.Some? ==> i.value < |kids| && kids[i.value].name == name
    ensures i.None? <==> name !in Names(kids)
  {
    if kids == [] then None
    else if kids[0].name == name then Some(0)
    else
      var i := IndexOf(kids[1..], name);
      assert name in Names(kids[1..]) <==> name in Names(kids) by {
        if name in Names(kids) {
          var k :| 0 <= k < |kids| && kids[k].name == name;
          assert kids[1..][k - 1] == kids[k];
        }
        if name in Names(kids[1..]) {
          var k :| 0 <= k < |kids[1..]| && kids[1..][k].name == name;
          assert kids[k + 1] == kids[1..][k];
        }
      }
      if i.None? then None else Some(i.value + 1)
  }

  /**
   * `extractall` over an existing listing, member by member: a new file is
   * added, a new directory is created and its members extracted into it, a
   * file overwrites a file, a directory merges into a directory, and a file
   * meeting a directory (or a directory meeting a file) raises.
   */
  function ExtractOver(present: seq<Node>, archive: seq<Node>): (r: Result<seq<Node>, FsError>)
    decreases archive
  {
    if archive == [] then Success(present)
    else
      var n := archive[0];
      var step: Result<seq<Node>, FsError> :=
        match IndexOf(present, n.name)
        case None =>
          if n.File? then Success(present + [n])
          else (
            match ExtractOver([], n.children)
            case Failure(e) => Failure(e)
            case Success(c) => Success(present + [Dir(n.name, c)]))
        case Some(i) =>
          if present[i].File? && n.File? then Success(present[i := n])
          else if present[i].Dir? && n.Dir? then
            match ExtractOver(present[i].children, n.children)
            case Failure(e) => Failure(e)
            case Success(c) => Success(present[i := Dir(n.name, c)])
          else Failure(ExtractClash(n.name));
      match step
      case Failure(e) => Failure(e)
      case Success(o) => ExtractOver(o, archive[1..])
  }

  /** Replacing an entry by one of the same name keeps the names. */
  lemma NamesUpdate(kids: seq<Node>, i: nat, n: Node)
    requires i < |kids| && kids[i].name == n.name
    ensures Names(kids[i := n]) == Names(kids)
  {
    var u := kids[i := n];
    forall x | x in Names(kids)
      ensures x in Names(u)
    {
      var k :| 0 <= k < |kids| && kids[k].name == x;
      assert u[k].name == x;
    }
    forall x | x in Names(u)
      ensures x in Names(kids)
    {
      var k :| 0 <= k < |u| && u[k].name == x;
      assert kids[k].name == x;
    }
  }

  lemma NamesAppend(xs: seq<Node>, ys: seq<Node>)
    ensures Names(xs + ys) == Names(xs) + Names(ys)
  {
    var u := xs + ys;
    forall x | x in Names(u)
      ensures x in Names(xs) + Names(ys)
    {
      var k :| 0 <= k < |u| && u[k].name == x;
      if k < |xs| {
        assert xs[k] == u[k];
      } else {
        assert ys[k - |xs|] == u[k];
      }
    }
    forall x | x in Names(xs) + Names(ys)
      ensures x in Names(u)
    {
      if x in Names(xs) {
        var k :| 0 <= k < |xs| && xs[k].name == x;
        assert u[k] == xs[k];
      } else {
        var k :| 0 <= k < |ys| && ys[k].name == x;
        assert u[|xs| + k] == ys[k];
      }
    }
  }

  /** After extracting over a listing, its names are the present names and the archive's. */
  lemma {:induction false} ExtractOverNames(present: seq<Node>, archive: seq<Node>)
    requires ExtractOver(present, archive).Success?
    ensures Names(ExtractOver(present, archive).value) == Names(present) + Names(archive)
    decreases archive
  {
    if archive != [] {
      var n := archive[0];
      NamesAppend([n], archive[1..]);
      assert archive == [n] + archive[1..];
      assert Names([n]) == {n.name} by {
        assert [n][0] == n;
      }
      match IndexOf(present, n.name)
      case None =>
        if n.File? {
          NamesAppend(present, [n]);
          ExtractOverNames(present + [n], archive[1..]);
        } else {
          var d := Dir(n.name, ExtractOver([], n.children).value);
          assert Names([d]) == {n.name} by {
            assert [d][0] == d;
          }
          NamesAppend(present, [d]);
          ExtractOverNames(present + [d], archive[1..]);
        }
      case Some(i) =>
        if present[i].File? && n.File? {
          NamesUpdate(present, i, n);
          ExtractOverNames(present[i := n], archive[1..]);
        } else {
          var c := ExtractOver(present[i].children, n.children).value;
          NamesUpdate(present, i, Dir(n.name, c));
          ExtractOverNames(present[i := Dir(n.name, c)], archive[1..]);
        }
    }
  }

  /** Replacing an entry by one of the same name, itself well formed, keeps a tree well formed. */
  lemma WellFormedUpdate(kids: seq<Node>, i: nat, n: Node)
    requires WellFormed(kids) && i < |kids| && kids[i].name == n.name
    requires n.Dir? ==> WellFormed(n.children)
    ensures WellFormed(kids[i := n])
  {
    var u := kids[i := n];
    forall a, b | 0 <= a < b < |u|
      ensures u[a].name != u[b].name
    {
      assert u[a].name == kids[a].name && u[b].name == kids[b].name;
    }
    forall k | 0 <= k < |u| && u[k].Dir?
      ensures WellFormed(u[k].children)
    {
      if k != i {
        assert u[k] == kids[k];
      }
    }
  }

  /** Adding an entry under a new name, itself well formed, keeps a tree well formed. */
  lemma WellFormedAppend(kids: seq<Node>, n: Node)
    requires WellFormed(kids) && n.name !in Names(kids)
    requires n.Dir? ==> WellFormed(n.children)
    ensures WellFormed(kids + [n])
  {
    var u := kids + [n];
    forall a, b | 0 <= a < b < |u|
      ensures u[a].name != u[b].name
    {
      assert u[a] == kids[a];
      if b < |kids| {
        assert u[b] == kids[b];
      } else {
        assert u[b] == n;
      }
    }
    forall k | 0 <= k < |u| && u[k].Dir?
      ensures WellFormed(u[k].children)
    {
      if k < |kids| {
        assert u[k] == kids[k];
      }
    }
  }

  /**
   * Extracting over a folder whose names are distinct in every directory
   * keeps them so: a member either lands under a new name or replaces or
   * merges into the entry of its own name.
   */
  lemma {:induction false} ExtractOverWellFormed(present: seq<Node>, archive: seq<Node>)
    requires WellFormed(present) && ExtractOver(present, archive).Success?
    ensures WellFormed(ExtractOver(present, archive).value)
    decreases archive
  {
    if archive != [] {
      var n := archive[0];
      match IndexOf(present, n.name)
      case None =>
        if n.File? {
          WellFormedAppend(present, n);
          ExtractOverWellFormed(present + [n], archive[1..]);
        } else {
          ExtractOverWellFormed([], n.children);
          var d := Dir(n.name, ExtractOver([], n.children).value);
          WellFormedAppend(present, d);
          ExtractOverWellFormed(present + [d], archive[1..]);
        }
      case Some(i) =>
        if present[i].File? && n.File? {
          WellFormedUpdate(present, i, n);
          ExtractOverWellFormed(present[i := n], archive[1..]);
        } else if present[i].Dir? && n.Dir? {
          ExtractOverWellFormed(present[i].children, n.children);
          var d := Dir(n.name, ExtractOver(present[i].children, n.children).value);
          WellFormedUpdate(present, i, d);
          ExtractOverWellFormed(present[i := d], archive[1..]);
        }
    }
  }

  /** Dropping the first entry keeps a tree well formed. */
  lemma WellFormedTail(kids: seq<Node>)
    requires kids != [] && WellFormed(kids)
    ensures WellFormed(kids[1..])
  {
    var rest := kids[1..];
    forall i, j | 0 <= i < j < |rest|
      ensures rest[i].name != rest[j].name
    {
      assert rest[i] == kids[i + 1] && rest[j] == kids[j + 1];
    }
    forall k | 0 <= k < |rest| && rest[k].Dir?
      ensures WellFormed(rest[k].children)
    {
      assert rest[k] == kids[k + 1];
    }
  }

  /**
   * An archive, well formed, whose names are all new lands as it is after
   * what was there: no member meets an existing one.
   */
  lemma {:induction false} ExtractOverDisjoint(present: seq<Node>, archive: seq<Node>)
    requires WellFormed(archive)
    requires forall j :: 0 <= j < |archive| ==> archive[j].name !in Names(present)
    ensures ExtractOver(present, archive) == Success(present + archive)
    decreases archive
  {
    if archive != [] {
      var n := archive[0];
      NamesAppend(present, [n]);
      assert Names([n]) == {n.name} by {
        assert [n][0] == n;
      }
      forall j | 0 <= j < |archive[1..]|
        ensures archive[1..][j].name !in Names(present + [n])
      {
        assert archive[1..][j] == archive[j + 1];
      }
      WellFormedTail(archive);
      assert n.name !in Names(present);
      if n.Dir? {
        ExtractOverDisjoint([], n.children);
        assert [] + n.children == n.children;
      }
      assert ExtractOver(present, archive) == ExtractOver(present + [n], archive[1..]);
      ExtractOverDisjoint(present + [n], archive[1..]);
      assert present + [n] + archive[1..] == present + archive;
    } else {
      assert present + archive == present;
    }
  }

  /** Extracting a well-formed archive into an empty folder gives back the archive. */
  lemma ExtractIntoEmpty(archive: seq<Node>)
    ensures WellFormed(archive) ==> ExtractOver([], archive) == Success(archive)
  {
    if WellFormed(archive) {
      ExtractOverDisjoint([], archive);
      assert [] + archive == archive;
    }
  }

  /**
   * Two members of one archive with the same name, a file and a directory,
   * raise even when the folder was empty, and so do they inside a new directory.
   */
  lemma ExtractClashRaises()
    ensures ExtractOver([], [File("a", 1), Dir("a", [])]) == Failure(ExtractClash("a"))
    ensures ExtractOver([], [Dir("d", [File("a", 1), Dir("a", [])])]) == Failure(ExtractClash("a"))
  {
    var clash := [File("a", 1), Dir("a", [])];
    assert ExtractOver([], clash) == ExtractOver([File("a", 1)], [Dir("a", [])]) by {
      assert IndexOf([], "a") == None;
      assert clash[1..] == [Dir("a", [])];
    }
    assert IndexOf([File("a", 1)], "a") == Some(0);
    assert ExtractOver([], [Dir("d", clash)]) == Failure(ExtractClash("a")) by {
      assert IndexOf([], "d") == None;
    }
  }

  // ---------------------------------------------------------------------
  // `cleanup_files`: `glob(f"{path}/**/__MACOSX", recursive=True)`, then
  // `shutil.rmtree` on each path found, in order.

  /** Some entry named `__MACOSX` is reachable through directories `**` descends into. */
  predicate HasJunk(kids: seq<Node>)
    decreases kids
  {
    && kids != []
    && (|| kids[0].name == Junk
        || (Descends(kids[0]) && HasJunk(kids[0].children))
        || HasJunk(kids[1..]))
  }

  /**
   * The glob-then-rmtree loop raises: some `__MACOSX` it finds is a file
   * (`rmtree` refuses files), or some `__MACOSX` directory it finds holds
   * another one it also found (removing the outer one first makes the later
   * `rmtree` fail on a missing path).
   */
  predicate CleanupFails(kids: seq<Node>)
    decreases kids
  {
    && kids != []
    && (|| (kids[0].name == Junk && (kids[0].File? || HasJunk(kids[0].children)))
        || (kids[0].name != Junk && Descends(kids[0]) && CleanupFails(kids[0].children))
        || CleanupFails(kids[1..]))
  }

  /** The tree with every `__MACOSX` reachable by `**` removed. */
  function Prune(kids: seq<Node>): seq<Node>
    decreases kids
  {
    if kids == [] then []
    else
      var n := kids[0];
      var head := if n.name == Junk then []
                  else if Descends(n) then [Dir(n.name, Prune(n.children))]
                  else [n];
      head + Prune(kids[1..])
  }

  /** Some component of the path is `__MACOSX` and every component before it is a name `**` descends through. */
  predicate JunkOnVisiblePath(path: seq<string>) {
    |path| > 0 && (path[0] == Junk || (!Hidden(path[0]) && JunkOnVisiblePath(path[1..])))
  }

  lemma {:induction false} HasJunkAppend(xs: seq<Node>, ys: seq<Node>)
    ensures HasJunk(xs + ys) <==> HasJunk(xs) || HasJunk(ys)
    decreases xs
  {
    if xs != [] {
      assert (xs + ys)[0] == xs[0];
      assert (xs + ys)[1..] == xs[1..] + ys;
      HasJunkAppend(xs[1..], ys);
    } else {
      assert xs + ys == ys;
    }
  }

  /** Pruning keeps exactly the entries whose path does not pass through a removed `__MACOSX`. */
  lemma {:induction false} PruneContents(kids: seq<Node>, e: Entry)
    ensures Contains(Prune(kids), e) <==> Contains(kids, e) && !JunkOnVisiblePath(e.path)
    decreases kids
  {
    if kids != [] {
      var n := kids[0];
      var head := if n.name == Junk then []
                  else if Descends(n) then [Dir(n.name, Prune(n.children))]
                  else [n];
      assert Prune(kids) == head + Prune(kids[1..]);
      ContainsAppend(head, Prune(kids[1..]), e);
      PruneContents(kids[1..], e);
      if head != [] {
        assert head[1..] == [];
        if |e.path| > 1 && Descends(n) {
          PruneContents(n.children, Tail(e));
          assert e.path[1..] == Tail(e).path;
        }
      }
    }
  }

  /** No `__MACOSX` remains reachable after pruning. */
  lemma {:induction false} PruneRemovesJunk(kids: seq<Node>)
    ensures !HasJunk(Prune(kids))
    decreases kids
  {
    if kids != [] {
      var n := kids[0];
      var head := if n.name == Junk then []
                  else if Descends(n) then [Dir(n.name, Prune(n.children))]
                  else [n];
      assert Prune(kids) == head + Prune(kids[1..]);
      HasJunkAppend(head, Prune(kids[1..]));
      PruneRemovesJunk(kids[1..]);
      if n.name != Junk && Descends(n) {
        PruneRemovesJunk(n.children);
      }
    }
  }

  /** A tree without reachable `__MACOSX` is left as it is. */
  lemma {:induction false} PruneWithoutJunk(kids: seq<Node>)
    requires !HasJunk(kids)
    ensures Prune(kids) == kids
    decreases kids
  {
    if kids != [] {
      PruneWithoutJunk(kids[1..]);
      if Descends(kids[0]) {
        PruneWithoutJunk(kids[0].children);
      }
      assert kids == [kids[0]] + kids[1..];
    }
  }

  /** The loop can only fail when there is something to remove. */
  lemma {:induction false} CleanupFailsNeedsJunk(kids: seq<Node>)
    requires CleanupFails(kids)
    ensures HasJunk(kids)
    decreases kids
  {
    if !(kids[0].name == Junk) {
      if Descends(kids[0]) && CleanupFails(kids[0].children) {
        CleanupFailsNeedsJunk(kids[0].children);
      } else {
        CleanupFailsNeedsJunk(kids[1..]);
      }
    }
  }

  /** `cleanup_files` on an extracted tree: the pruned tree, or the error `rmtree` raises. */
  function Cleanup(kids: seq<Node>): (r: Result<seq<Node>, FsError>)
    ensures r.Success? <==> !CleanupFails(kids)
    ensures r.Success? ==> !HasJunk(r.value)
    ensures r.Success? ==> forall e :: Contains(r.value, e) <==> Contains(kids, e) && !JunkOnVisiblePath(e.path)
    ensures !HasJunk(kids) ==> r == Success(kids)
  {
    if CleanupFails(kids) then
      CleanupFailsNeedsJunk(kids);
      Failure(RmtreeFailed)
    else
      PruneRemovesJunk(kids);
      assert !HasJunk(kids) ==> Prune(kids) == kids by {
        if !HasJunk(kids) {
          PruneWithoutJunk(kids);
        }
      }
      assert forall e :: Contains(Prune(kids), e) <==> Contains(kids, e) && !JunkOnVisiblePath(e.path) by {
        forall e
          ensures Contains(Prune(kids), e) <==> Contains(kids, e) && !JunkOnVisiblePath(e.path)
        {
          PruneContents(kids, e);
        }
      }
      Success(Prune(kids))
  }

  /** A second `cleanup_files` removes nothing. */
  lemma CleanupIdempotent(kids: seq<Node>)
    requires Cleanup(kids).Success?
    ensures Cleanup(Cleanup(kids).value) == Cleanup(kids)
  {
  }

  // ---------------------------------------------------------------------
  // `flatten_folder`.

  /**
   * `flatten_folder` on a directory listing: a listing of exactly one entry
   * is replaced by that entry's children, moved up one level; otherwise
   * nothing changes. Listing a lone file raises, and so does moving a child
   * that has the wrapper's own name (the destination still holds the wrapper).
   */
  function Flatten(kids: seq<Node>): (r: Result<seq<Node>, FsError>)
    ensures |kids| != 1 ==> r == Success(kids)
    ensures |kids| == 1 && kids[0].File? ==> r == Failure(NotADirectory(kids[0].name))
    ensures |kids| == 1 && kids[0].Dir? ==>
              && (r.Success? <==> forall k :: 0 <= k < |kids[0].children| ==> kids[0].children[k].name != kids[0].name)
              && (r.Success? ==> r.value == kids[0].children)
  {
    if |kids| != 1 then Success(kids)
    else
      match kids[0]
      case File(name, _) => Failure(NotADirectory(name))
      case Dir(name, children) =>
        if exists k :: 0 <= k < |children| && children[k].name == name then Failure(DestinationExists(name))
        else Success(children)
  }

  /** Flattening a single wrapper lifts its entries one level: what was at `w/x` is now at `x`. */
  lemma FlattenLiftsEntries(kids: seq<Node>, e: Entry)
    requires |kids| == 1 && Flatten(kids).Success?
    requires |e.path| > 0
    ensures Contains(Flatten(kids).value, e) <==> Contains(kids, Under(kids[0].name, e))
  {
    assert kids[1..] == [];
  }

  /** Only one level goes per call: a chain of two wrappers keeps the inner one. */
  lemma FlattenOneLevel(outer: string, inner: string, children: seq<Node>)
    requires outer != inner
    ensures Flatten([Dir(outer, [Dir(inner, children)])]) == Success([Dir(inner, children)])
  {
  }

  // ---------------------------------------------------------------------
  // Recursive `glob` with a `**` component followed by `*` and a slash
  // (directories) or by `*` and a suffix (names).

  /** What the last pattern component selects: every directory (a trailing `*` and slash), or names ending in a suffix. */
  datatype GlobPattern = AnyDir | NameSuffix(suffix: string)

  /** A path `glob` returns, with the node it names. */
  datatype Hit = Hit(path: string, node: Node)

  /** The last component selects the node: `*` never matches a hidden name. */
  predicate Selects(pat: GlobPattern, n: Node) {
    match pat
    case AnyDir => Descends(n)
    case NameSuffix(suffix) => !Hidden(n.name) && EndsWith(n.name, suffix)
  }

  /** The path glob prints for a selected node: directories matched by a trailing slash keep it. */
  function HitPath(prefix: string, pat: GlobPattern, n: Node): string {
    prefix + "/" + n.name + (if pat.AnyDir? then "/" else "")
  }

  /** The selected nodes directly inside one directory, in listing order. */
  function Listing(prefix: string, kids: seq<Node>, pat: GlobPattern): (r: seq<Hit>)
    ensures forall k :: 0 <= k < |r| ==> Selects(pat, r[k].node) && StartsWith(r[k].path, prefix + "/")
    decreases kids
  {
    if kids == [] then []
    else
      (if Selects(pat, kids[0]) then [Hit(HitPath(prefix, pat, kids[0]), kids[0])] else [])
      + Listing(prefix, kids[1..], pat)
  }

  /**
   * The glob result under a directory: `**` visits the directory itself and
   * then each visible subdirectory depth-first, and each visit lists its
   * selected children.
   */
  function Glob(prefix: string, kids: seq<Node>, pat: GlobPattern): (r: seq<Hit>)
    ensures forall k :: 0 <= k < |r| ==> Selects(pat, r[k].node) && StartsWith(r[k].path, prefix + "/")
    decreases kids, 1
  {
    Listing(prefix, kids, pat) + Below(prefix, kids, pat)
  }

  /** The glob results of the visible subdirectories, in listing order. */
  function Below(prefix: string, kids: seq<Node>, pat: GlobPattern): (r: seq<Hit>)
    ensures forall k :: 0 <= k < |r| ==> Selects(pat, r[k].node) && StartsWith(r[k].path, prefix + "/")
    decreases kids, 0
  {
    if kids == [] then []
    else
      var sub := prefix + "/" + kids[0].name;
      var here := if Descends(kids[0]) then Glob(sub, kids[0].children, pat) else [];
      assert forall k :: 0 <= k < |here| ==> StartsWith(here[k].path, prefix + "/") by {
        forall k | 0 <= k < |here|
          ensures StartsWith(here[k].path, prefix + "/")
        {
          assert here[k].path[..|sub + "/"|] == sub + "/";
          assert (sub + "/")[..|prefix + "/"|] == prefix + "/";
        }
      }
      here + Below(prefix, kids[1..], pat)
  }

  /** The names leading from a listing down to a node, through directories `**` descends into. */
  ghost predicate Reaches(kids: seq<Node>, names: seq<string>, n: Node)
    decreases names
  {
    && names != []
    && exists i :: 0 <= i < |kids| && kids[i].name == names[0]
                   && if |names| == 1 then kids[i] == n
                      else Descends(kids[i]) && Reaches(kids[i].children, names[1..], n)
  }

  /** The path glob returns for the node the names lead to below `prefix`. */
  function PathOf(prefix: string, names: seq<string>, pat: GlobPattern): string
    decreases names
  {
    if names == [] then prefix + (if pat.AnyDir? then "/" else "")
    else PathOf(prefix + "/" + names[0], names[1..], pat)
  }

  lemma {:induction false} ListingMembers(prefix: string, kids: seq<Node>, pat: GlobPattern, h: Hit)
    ensures h in Listing(prefix, kids, pat) <==>
              exists i :: 0 <= i < |kids| && Selects(pat, kids[i]) && h == Hit(HitPath(prefix, pat, kids[i]), kids[i])
    decreases kids
  {
    if kids != [] {
      ListingMembers(prefix, kids[1..], pat, h);
      if h in Listing(prefix, kids[1..], pat) {
        var i :| 0 <= i < |kids[1..]| && Selects(pat, kids[1..][i]) && h == Hit(HitPath(prefix, pat, kids[1..][i]), kids[1..][i]);
        assert kids[i + 1] == kids[1..][i];
      }
      forall i | 1 <= i < |kids| && Selects(pat, kids[i]) && h == Hit(HitPath(prefix, pat, kids[i]), kids[i])
        ensures h in Listing(prefix, kids[1..], pat)
      {
        assert kids[1..][i - 1] == kids[i];
      }
    }
  }

  lemma {:induction false} BelowMembers(prefix: string, kids: seq<Node>, pat: GlobPattern, h: Hit)
    ensures h in Below(prefix, kids, pat) <==>
              exists i :: 0 <= i < |kids| && Descends(kids[i]) && h in Glob(prefix + "/" + kids[i].name, kids[i].children, pat)
    decreases kids
  {
    if kids != [] {
      BelowMembers(prefix, kids[1..], pat, h);
      if h in Below(prefix, kids[1..], pat) {
        var i :| 0 <= i < |kids[1..]| && Descends(kids[1..][i])
                 && h in Glob(prefix + "/" + kids[1..][i].name, kids[1..][i].children, pat);
        assert kids[i + 1] == kids[1..][i];
      }
      forall i | 1 <= i < |kids| && Descends(kids[i]) && h in Glob(prefix + "/" + kids[i].name, kids[i].children, pat)
        ensures h in Below(prefix, kids[1..], pat)
      {
        assert kids[1..][i - 1] == kids[i];
      }
    }
  }

  /** A node glob lists directly sits one name below the prefix. */
  lemma ListedReached(prefix: string, kids: seq<Node>, pat: GlobPattern, h: Hit)
    requires h in Listing(prefix, kids, pat)
    ensures Selects(pat, h.node)
    ensures Reaches(kids, [h.node.name], h.node) && h.path == PathOf(prefix, [h.node.name], pat)
  {
    ListingMembers(prefix, kids, pat, h);
    var i :| 0 <= i < |kids| && Selects(pat, kids[i]) && h == Hit(HitPath(prefix, pat, kids[i]), kids[i]);
    assert kids[i] == h.node;
  }

  /** Descending into a directory prepends its name to the path. */
  lemma ReachesCons(kids: seq<Node>, i: nat, rest: seq<string>, n: Node)
    requires i < |kids| && Descends(kids[i]) && Reaches(kids[i].children, rest, n)
    ensures Reaches(kids, [kids[i].name] + rest, n)
  {
    var names := [kids[i].name] + rest;
    assert names[1..] == rest;
  }

  lemma {:induction false} GlobReached(prefix: string, kids: seq<Node>, pat: GlobPattern, h: Hit)
    requires h in Glob(prefix, kids, pat)
    ensures Selects(pat, h.node) && exists names :: Reaches(kids, names, h.node) && h.path == PathOf(prefix, names, pat)
    decreases kids
  {
    if h in Listing(prefix, kids, pat) {
      ListedReached(prefix, kids, pat, h);
    } else {
      BelowMembers(prefix, kids, pat, h);
      var i :| 0 <= i < |kids| && Descends(kids[i]) && h in Glob(prefix + "/" + kids[i].name, kids[i].children, pat);
      GlobReached(prefix + "/" + kids[i].name, kids[i].children, pat, h);
      var rest :| Reaches(kids[i].children, rest, h.node) && h.path == PathOf(prefix + "/" + kids[i].name, rest, pat);
      ReachesCons(kids, i, rest, h.node);
      assert h.path == PathOf(prefix, [kids[i].name] + rest, pat) by {
        assert ([kids[i].name] + rest)[1..] == rest;
      }
    }
  }

  lemma {:induction false} ReachedGlobbed(prefix: string, kids: seq<Node>, pat: GlobPattern, h: Hit, names: seq<string>)
    requires Selects(pat, h.node) && Reaches(kids, names, h.node) && h.path == PathOf(prefix, names, pat)
    ensures h in Glob(prefix, kids, pat)
    decreases kids
  {
    var i :| 0 <= i < |kids| && kids[i].name == names[0]
             && if |names| == 1 then kids[i] == h.node
                else Descends(kids[i]) && Reaches(kids[i].children, names[1..], h.node);
    if |names| == 1 {
      ListingMembers(prefix, kids, pat, h);
      assert h == Hit(HitPath(prefix, pat, kids[i]), kids[i]);
    } else {
      ReachedGlobbed(prefix + "/" + kids[i].name, kids[i].children, pat, h, names[1..]);
      BelowMembers(prefix, kids, pat, h);
    }
  }

  /**
   * The recursive glob returns exactly the selected nodes reachable through
   * directories `**` descends into, each under the path of names leading to it.
   */
  lemma GlobMembers(prefix: string, kids: seq<Node>, pat: GlobPattern, h: Hit)
    ensures h in Glob(prefix, kids, pat) <==>
              Selects(pat, h.node) && exists names :: Reaches(kids, names, h.node) && h.path == PathOf(prefix, names, pat)
  {
    if h in Glob(prefix, kids, pat) {
      GlobReached(prefix, kids, pat, h);
    }
    if Selects(pat, h.node) && exists names :: Reaches(kids, names, h.node) && h.path == PathOf(prefix, names, pat) {
      var names :| Reaches(kids, names, h.node) && h.path == PathOf(prefix, names, pat);
      ReachedGlobbed(prefix, kids, pat, h, names);
    }
  }

  /** The paths of a glob result. */
  function Paths(hits: seq<Hit>): (r: seq<string>)
    ensures |r| == |hits|
    ensures forall k :: 0 <= k < |r| ==> r[k] == hits[k].path
  {
    if hits == [] then [] else [hits[0].path] + Paths(hits[1..])
  }
}
