/**
 * The regular expressions the compliance pipeline applies to names and paths,
 * each written as a declarative predicate ("there is a decomposition ...")
 * together with an executable matcher proved equal to it. Only these
 * patterns are modelled, not a general regular-expression engine.
 */
module Patterns {
  import opened Text
  import opened Wrappers

  /** The character classes the patterns use: `\w`, `[^\W_]`, `\d`, and `.` (anything but a newline). */
  datatype CharClass = Word | Alnum | Digit | Line

  predicate InClass(c: char, cls: CharClass) {
    match cls
    case Word => IsWordChar(c)
    case Alnum => IsAlnum(c)
    case Digit => IsDigit(c)
    case Line => c != '\n'
  }

  /** Every character of s[a..b] is in the class. */
  predicate AllIn(s: string, a: int, b: int, cls: CharClass) {
    0 <= a <= b <= |s| && forall k :: a <= k < b ==> InClass(s[k], cls)
  }

  /** A non-empty string made only of characters of one class. */
  predicate IsRun(t: string, cls: CharClass) {
    |t| > 0 && AllIn(t, 0, |t|, cls)
  }

  /** `lit` occurs at index `i` of `s`, exactly. */
  predicate LiteralAt(s: string, i: int, lit: string) {
    0 <= i && i + |lit| <= |s| && s[i..i + |lit|] == lit
  }

  /** `lit` occurs at index `i` of `s` under `re.IGNORECASE`. */
  predicate FoldedAt(s: string, i: int, lit: string) {
    0 <= i && i + |lit| <= |s| && forall k :: 0 <= k < |lit| ==> Fold(s[i + k]) == Fold(lit[k])
  }

  /** The end of the longest run of class characters starting at `i`: what a greedy `cls+` or `cls*` stops at. */
  function RunEnd(s: string, i: nat, cls: CharClass): (e: nat)
    requires i <= |s|
    ensures i <= e <= |s|
    ensures AllIn(s, i, e, cls)
    ensures e == |s| || !InClass(s[e], cls)
    decreases |s| - i
  {
    if i < |s| && InClass(s[i], cls) then RunEnd(s, i + 1, cls) else i
  }

  /** A run that is followed by a character outside its class ends where the greedy run ends. */
  lemma RunEndUnique(s: string, i: nat, e: nat, cls: CharClass)
    requires i <= |s|
    requires AllIn(s, i, e, cls)
    requires e == |s| || !InClass(s[e], cls)
    ensures e == RunEnd(s, i, cls)
  {
  }

  // ---------------------------------------------------------------------
  // `re.match(r"\w+-Assignment-\w+(-\d)?\.zip", name)` (case-sensitive,
  // anchored at the start only).

  const AssignmentInfix := "-Assignment-"

  /** `name` starts with `w-Assignment-v.zip` or `w-Assignment-v-d.zip`, where w, v are word runs ending at i and j. */
  ghost predicate ZipNameSplit(name: string, i: int, j: int) {
    && 1 <= i && AllIn(name, 0, i, Word)
    && LiteralAt(name, i, AssignmentInfix)
    && i + 12 < j && AllIn(name, i + 12, j, Word)
    && (|| LiteralAt(name, j, ".zip")
        || (j + 1 < |name| && name[j] == '-' && IsDigit(name[j + 1]) && LiteralAt(name, j + 2, ".zip")))
  }

  ghost predicate ZipNameSpec(name: string) {
    exists i, j :: ZipNameSplit(name, i, j)
  }

  /** The zip-name pattern: both word runs are forced to be maximal, since `-` and `.` are not word characters. */
  function ZipNameMatches(name: string): (r: bool)
    ensures r <==> ZipNameSpec(name)
  {
    var i := RunEnd(name, 0, Word);
    if i + 12 <= |name| then
      var j := RunEnd(name, i + 12, Word);
      var r := 1 <= i && LiteralAt(name, i, AssignmentInfix) && i + 12 < j
        && (|| LiteralAt(name, j, ".zip")
            || (j + 1 < |name| && name[j] == '-' && IsDigit(name[j + 1]) && LiteralAt(name, j + 2, ".zip")));
      ZipNameForced(name, i, j);
      assert r ==> ZipNameSplit(name, i, j);
      r
    else
      ZipNameForced(name, i, -1);
      false
  }

  /** The pattern is anchored at the start only: whatever follows `.zip` is ignored. */
  lemma ZipNameIgnoresSuffix(name: string, rest: string)
    requires ZipNameSpec(name)
    ensures ZipNameSpec(name + rest)
  {
    var i, j :| ZipNameSplit(name, i, j);
    var s := name + rest;
    assert forall k :: 0 <= k < |name| ==> s[k] == name[k];
    assert s[..|name|] == name;
    assert ZipNameSplit(s, i, j);
  }

  /** Any decomposition uses the maximal word runs. */
  lemma ZipNameForced(name: string, i0: int, j0: int)
    requires i0 == RunEnd(name, 0, Word)
    requires i0 + 12 <= |name| ==> j0 == RunEnd(name, i0 + 12, Word)
    ensures forall i, j :: ZipNameSplit(name, i, j) ==> i == i0 && j == j0
  {
    forall i, j | ZipNameSplit(name, i, j)
      ensures i == i0 && j == j0
    {
      assert name[i] == AssignmentInfix[0];
      RunEndUnique(name, 0, i, Word);
      assert name[j] == '.' || name[j] == '-';
      RunEndUnique(name, i + 12, j, Word);
    }
  }

  // ---------------------------------------------------------------------
  // Unanchored searches of the form `first.{minGap,}second` under
  // `re.IGNORECASE`: `part.*P/` and `assignment.+report`.

  /** `first` at i, then at least `minGap` non-newline characters up to j, then `second` at j. */
  ghost predicate GapMatchAt(s: string, first: string, minGap: nat, second: string, i: int, j: int) {
    && FoldedAt(s, i, first)
    && i + |first| + minGap <= j
    && AllIn(s, i + |first|, j, Line)
    && FoldedAt(s, j, second)
  }

  /** Whether `second` occurs at or after `j` with no newline in between. */
  function TailFrom(s: string, j: nat, second: string): (r: bool)
    requires j <= |s|
    ensures r <==> exists j' :: j <= j' && AllIn(s, j, j', Line) && FoldedAt(s, j', second)
    decreases |s| - j
  {
    if FoldedAt(s, j, second) then
      assert AllIn(s, j, j, Line);
      true
    else if j < |s| && s[j] != '\n' then
      var r := TailFrom(s, j + 1, second);
      assert r ==> exists j' :: j <= j' && AllIn(s, j, j', Line) && FoldedAt(s, j', second) by {
        if r {
          var j' :| j + 1 <= j' && AllIn(s, j + 1, j', Line) && FoldedAt(s, j', second);
          assert AllIn(s, j, j', Line);
        }
      }
      assert (exists j' :: j <= j' && AllIn(s, j, j', Line) && FoldedAt(s, j', second)) ==> r by {
        if exists j' :: j <= j' && AllIn(s, j, j', Line) && FoldedAt(s, j', second) {
          var j' :| j <= j' && AllIn(s, j, j', Line) && FoldedAt(s, j', second);
          assert j' != j;
          assert AllIn(s, j + 1, j', Line);
        }
      }
      r
    else
      assert forall j' :: j <= j' && AllIn(s, j, j', Line) && FoldedAt(s, j', second) ==> j' == j by {
        forall j' | j <= j' && AllIn(s, j, j', Line) && FoldedAt(s, j', second)
          ensures j' == j
        {
        }
      }
      false
  }

  /** `re.search` of the gap pattern from index `i` onwards. */
  function SearchFrom(s: string, first: string, minGap: nat, second: string, i: nat): (r: bool)
    requires i <= |s|
    ensures r <==> exists i', j :: i <= i' && GapMatchAt(s, first, minGap, second, i', j)
    decreases |s| - i
  {
    var g := i + |first|;
    var here := FoldedAt(s, i, first) && g + minGap <= |s| && AllIn(s, g, g + minGap, Line)
                && TailFrom(s, g + minGap, second);
    assert here ==> exists j :: GapMatchAt(s, first, minGap, second, i, j) by {
      if here {
        var j :| g + minGap <= j && AllIn(s, g + minGap, j, Line) && FoldedAt(s, j, second);
        assert GapMatchAt(s, first, minGap, second, i, j);
      }
    }
    assert (exists j :: GapMatchAt(s, first, minGap, second, i, j)) ==> here by {
      if exists j :: GapMatchAt(s, first, minGap, second, i, j) {
        var j :| GapMatchAt(s, first, minGap, second, i, j);
        assert AllIn(s, g + minGap, j, Line);
      }
    }
    if here then true
    else if i < |s| then
      var r := SearchFrom(s, first, minGap, second, i + 1);
      assert (exists i', j :: i <= i' && GapMatchAt(s, first, minGap, second, i', j)) ==> r by {
        if exists i', j :: i <= i' && GapMatchAt(s, first, minGap, second, i', j) {
          var i', j :| i <= i' && GapMatchAt(s, first, minGap, second, i', j);
          assert i' != i;
        }
      }
      r
    else
      assert forall i', j :: i <= i' && GapMatchAt(s, first, minGap, second, i', j) ==> i' == i by {
        forall i', j | i <= i' && GapMatchAt(s, first, minGap, second, i', j)
          ensures i' == i
        {
          assert i' + |first| <= |s|;
        }
      }
      false
  }

  /** A part token the source can interpolate into its pattern without it meaning anything but itself. */
  predicate IsPlainToken(part: string) {
    forall k :: 0 <= k < |part| ==> IsWordChar(part[k])
  }

  /** `re.search(rf"part.*{part}/", path, re.IGNORECASE)` as a decomposition of the path. */
  ghost predicate PartFolderSpec(path: string, part: string) {
    exists i, j ::
      && FoldedAt(path, i, "part")
      && i + 4 <= j
      && AllIn(path, i + 4, j, Line)
      && FoldedAt(path, j, part)
      && j + |part| < |path| && path[j + |part|] == '/'
  }

  lemma FoldedSlash(s: string, j: int, part: string)
    ensures FoldedAt(s, j, part + "/") <==> FoldedAt(s, j, part) && j + |part| < |s| && s[j + |part|] == '/'
  {
    if FoldedAt(s, j, part + "/") {
      assert Fold(s[j + |part|]) == Fold((part + "/")[|part|]);
      forall k | 0 <= k < |part|
        ensures Fold(s[j + k]) == Fold(part[k])
      {
        assert (part + "/")[k] == part[k];
      }
    }
  }

  /** The part-folder pattern matches the path. */
  function PartFolderMatches(path: string, part: string): (r: bool)
    ensures r <==> PartFolderSpec(path, part)
  {
    var r := SearchFrom(path, "part", 0, part + "/", 0);
    assert r <==> PartFolderSpec(path, part) by {
      forall i, j
        ensures GapMatchAt(path, "part", 0, part + "/", i, j)
            <==> (&& FoldedAt(path, i, "part") && i + 4 <= j && AllIn(path, i + 4, j, Line)
                  && FoldedAt(path, j, part) && j + |part| < |path| && path[j + |part|] == '/')
      {
        FoldedSlash(path, j, part);
      }
    }
    r
  }

  /** `re.search(r"assignment.+report", path, re.IGNORECASE)` as a decomposition of the path. */
  ghost predicate ReportNameSpec(path: string) {
    exists i, j ::
      && FoldedAt(path, i, "assignment")
      && i + 11 <= j
      && AllIn(path, i + 10, j, Line)
      && FoldedAt(path, j, "report")
  }

  /** The report pattern matches the path. */
  function ReportNameMatches(path: string): (r: bool)
    ensures r <==> ReportNameSpec(path)
  {
    var r := SearchFrom(path, "assignment", 1, "report", 0);
    assert r <==> ReportNameSpec(path) by {
      forall i, j
        ensures GapMatchAt(path, "assignment", 1, "report", i, j)
            <==> (&& FoldedAt(path, i, "assignment") && i + 11 <= j && AllIn(path, i + 10, j, Line)
                  && FoldedAt(path, j, "report"))
      {
      }
    }
    r
  }

  // ---------------------------------------------------------------------
  // `re.match(r"([^\W_]+)(?:_\w+)*_(\d+)_(\d+)_(.+)", filename)`.

  /** The student identity carried in a batch-archive entry name. */
  datatype Identity = Identity(name: string, canvasId: string, sisId: string, originalFilename: string)

  /**
   * One way the identity pattern can match `s`: group 1 is s[..a], the
   * repetition `(?:_\w+)*` spans s[a..p] (empty, or `_` followed by at least
   * one word character), groups 2 and 3 are the digit runs s[p+1..q] and
   * s[q+1..r], and group 4 starts at r + 1.
   */
  ghost predicate IdentitySplit(s: string, a: int, p: int, q: int, r: int) {
    && 1 <= a && AllIn(s, 0, a, Alnum)
    && (p == a || (a + 2 <= p && AllIn(s, a, p, Word) && s[a] == '_'))
    && 0 <= p < q < r && r + 1 < |s|
    && s[p] == '_'
    && p + 1 < q && AllIn(s, p + 1, q, Digit) && s[q] == '_'
    && q + 1 < r && AllIn(s, q + 1, r, Digit) && s[r] == '_'
    && s[r + 1] != '\n'
  }

  /** The split positions the matcher reports. */
  datatype IdSplit = IdSplit(a: nat, p: nat, q: nat, r: nat)

  /** A digit run starting at `i` and closed by `_`: its end, which is forced. */
  function DigitsThenUnderscore(s: string, i: nat): (e: Option<nat>)
    requires i <= |s|
    ensures e.Some? ==> i < e.value < |s| && AllIn(s, i, e.value, Digit) && s[e.value] == '_'
    ensures forall e' :: i < e' < |s| && AllIn(s, i, e', Digit) && s[e'] == '_' ==> e == Some(e')
  {
    var e := RunEnd(s, i, Digit);
    assert forall e' :: i < e' < |s| && AllIn(s, i, e', Digit) && s[e'] == '_' ==> e' == e by {
      forall e' | i < e' < |s| && AllIn(s, i, e', Digit) && s[e'] == '_'
        ensures e' == e
      {
        RunEndUnique(s, i, e', Digit);
      }
    }
    if i < e < |s| && s[e] == '_' then Some(e) else None
  }

  /** The rest of the pattern after the repetition ends at `p`: `_(\d+)_(\d+)_(.+)`. */
  function IdentityTail(s: string, a: nat, p: nat): (m: Option<IdSplit>)
    requires 1 <= a && AllIn(s, 0, a, Alnum)
    requires p == a || (a + 2 <= p && AllIn(s, a, p, Word) && s[a] == '_')
    requires p < |s|
    ensures m.Some? ==> m.value.a == a && m.value.p == p
                        && IdentitySplit(s, a, p, m.value.q, m.value.r)
    ensures m.None? ==> forall q, r :: !IdentitySplit(s, a, p, q, r)
  {
    if s[p] != '_' then None
    else
      match DigitsThenUnderscore(s, p + 1)
      case None => None
      case Some(q) =>
        match DigitsThenUnderscore(s, q + 1)
        case None => None
        case Some(r) =>
          if r + 1 < |s| && s[r + 1] != '\n' then Some(IdSplit(a, p, q, r)) else None
  }

  /** The group-1 end is forced: it is where the leading alphanumeric run stops. */
  lemma IdentityGroupOneForced(s: string, a: int, p: int, q: int, r: int)
    requires IdentitySplit(s, a, p, q, r)
    ensures a == RunEnd(s, 0, Alnum) && s[a] == '_'
    ensures p < RunEnd(s, a, Word)
  {
    RunEndUnique(s, 0, a, Alnum);
  }

  /** The largest split whose repetition ends at or before `p`, for a fixed group 1. */
  function SearchIdentity(s: string, a: nat, p: int): (m: Option<IdSplit>)
    requires 1 <= a < |s| && AllIn(s, 0, a, Alnum) && s[a] == '_'
    requires a - 1 <= p < RunEnd(s, a, Word)
    ensures m.Some? ==> m.value.a == a && m.value.p <= p
                        && IdentitySplit(s, a, m.value.p, m.value.q, m.value.r)
    ensures forall a', p', q', r' ::
              (IdentitySplit(s, a', p', q', r') && a' == a && p' <= p) ==> m.Some? && p' <= m.value.p
    decreases p - a + 1
  {
    if p < a then None
    else if p == a || a + 2 <= p then
      assert AllIn(s, a, p, Word);
      match IdentityTail(s, a, p)
      case Some(m) => Some(m)
      case None => SearchIdentity(s, a, p - 1)
    else
      SearchIdentity(s, a, p - 1)
  }

  /** The identity pattern's match: the split with the largest repetition, which is the one the backtracking matcher tries first. */
  function MatchIdentity(s: string): (m: Option<IdSplit>)
    ensures m.Some? ==> IdentitySplit(s, m.value.a, m.value.p, m.value.q, m.value.r)
    ensures m.Some? ==> forall a, p, q, r :: IdentitySplit(s, a, p, q, r) ==> p <= m.value.p
    ensures m.None? <==> forall a, p, q, r :: !IdentitySplit(s, a, p, q, r)
  {
    var a := RunEnd(s, 0, Alnum);
    assert forall a', p, q, r :: IdentitySplit(s, a', p, q, r)
             ==> a' == a && a < |s| && s[a] == '_' && p < RunEnd(s, a, Word) by {
      forall a', p, q, r | IdentitySplit(s, a', p, q, r)
        ensures a' == a && a < |s| && s[a] == '_' && p < RunEnd(s, a, Word)
      {
        IdentityGroupOneForced(s, a', p, q, r);
      }
    }
    if 1 <= a < |s| && s[a] == '_' then SearchIdentity(s, a, RunEnd(s, a, Word) - 1)
    else None
  }

  /** The text of group 4: `.+` runs to the first newline or the end. */
  function RestOfLine(s: string, i: nat): (t: string)
    requires i <= |s|
    ensures AllIn(s, i, i + |t|, Line) && t == s[i..i + |t|]
    ensures i + |t| == |s| || s[i + |t|] == '\n'
  {
    s[i..RunEnd(s, i, Line)]
  }

  /**
   * The identity `check_zipfile` reads from an entry name, or `None` where the
   * source's `res[4]` fails on a non-matching name.
   */
  function ParseIdentity(s: string): (id: Option<Identity>)
    ensures id.Some? ==> && IsRun(id.value.name, Alnum) && IsRun(id.value.canvasId, Digit)
                         && IsRun(id.value.sisId, Digit) && |id.value.originalFilename| > 0
  {
    match MatchIdentity(s)
    case None => None
    case Some(m) =>
      var id := Identity(s[..m.a], s[m.p + 1..m.q], s[m.q + 1..m.r], RestOfLine(s, m.r + 1));
      assert IsRun(id.name, Alnum) && IsRun(id.canvasId, Digit) && IsRun(id.sisId, Digit);
      Some(id)
  }

  /**
   * The parse fails exactly when no split of the name fits the pattern, and
   * otherwise reads the groups off the split with the longest repetition.
   */
  lemma ParseIdentityCorrect(s: string)
    ensures ParseIdentity(s).None? <==> forall a, p, q, r :: !IdentitySplit(s, a, p, q, r)
    ensures ParseIdentity(s).Some? ==> exists a, p, q, r ::
      && IdentitySplit(s, a, p, q, r)
      && (forall a', p', q', r' :: IdentitySplit(s, a', p', q', r') ==> p' <= p)
      && ParseIdentity(s).value == Identity(s[..a], s[p + 1..q], s[q + 1..r], RestOfLine(s, r + 1))
  {
    var m := MatchIdentity(s);
    if m.Some? {
      var w := m.value;
      assert ParseIdentity(s).value == Identity(s[..w.a], s[w.p + 1..w.q], s[w.q + 1..w.r], RestOfLine(s, w.r + 1));
      assert IdentitySplit(s, w.a, w.p, w.q, w.r);
      assert forall a', p', q', r' :: IdentitySplit(s, a', p', q', r') ==> p' <= w.p;
    }
  }

  /** Every identity split with the same repetition end has the same groups: the choice of `p` decides the identity. */
  lemma {:induction false} IdentitySplitDeterminedByP(s: string, a: int, p: int, q: int, r: int,
                                                      a': int, q': int, r': int)
    requires IdentitySplit(s, a, p, q, r) && IdentitySplit(s, a', p, q', r')
    ensures a == a' && q == q' && r == r'
  {
    IdentityGroupOneForced(s, a, p, q, r);
    IdentityGroupOneForced(s, a', p, q', r');
    var d := DigitsThenUnderscore(s, p + 1);
    assert d == Some(q) && d == Some(q');
    var d' := DigitsThenUnderscore(s, q + 1);
    assert d' == Some(r) && d' == Some(r');
  }

  // ---------------------------------------------------------------------
  // `re.match(r"(\w+_\w*_\d+\d+)_(.+)\.", filename)` (the folder-name pattern).

  /** The part of a folder-name split after the `_` at b: at least two digits up to the `_` at c, then `.+` up to the `.` at e. */
  ghost predicate FolderTailSplit(s: string, b: int, c: int, e: int) {
    && 0 <= b && b + 3 <= c && AllIn(s, b + 1, c, Digit) && c < |s| && s[c] == '_'
    && c + 2 <= e && AllIn(s, c + 1, e, Line) && e < |s| && s[e] == '.'
  }

  /**
   * One way the folder-name pattern can match `s`: `\w+` is s[..a], `\w*` is
   * s[a+1..b], the digits are s[b+1..c], group 1 is s[..c] and group 2 is
   * s[c+1..e], with the final `\.` at e.
   */
  ghost predicate FolderSplit(s: string, a: int, b: int, c: int, e: int) {
    && 1 <= a && AllIn(s, 0, a, Word) && a < |s| && s[a] == '_'
    && a < b && AllIn(s, a + 1, b, Word) && b < |s| && s[b] == '_'
    && FolderTailSplit(s, b, c, e)
  }

  datatype FolderMatch = FolderMatch(a: nat, b: nat, c: nat, e: nat)

  /** The backtracking matcher prefers a longer `\w+`, then a longer `\w*`, then a longer `.+`. */
  predicate TriedNoLaterThan(a': int, b': int, e': int, m: FolderMatch) {
    a' < m.a || (a' == m.a && (b' < m.b || (b' == m.b && e' <= m.e)))
  }

  /** The last `.` after `from` that a newline-free `.+` starting at `from` can reach. */
  function LastDot(s: string, from: nat, k: int): (e: Option<nat>)
    requires from <= |s|
    requires k < RunEnd(s, from, Line)
    ensures e.Some? ==> from < e.value <= k && AllIn(s, from, e.value, Line) && s[e.value] == '.'
    ensures forall e' :: from < e' <= k && s[e'] == '.' ==> e.Some? && e' <= e.value
    decreases k
  {
    if k <= from then None
    else if s[k] == '.' then Some(k)
    else LastDot(s, from, k - 1)
  }

  /** The tail after the `_` at b, with the longest `.+`. */
  function FolderTail(s: string, b: nat): (t: Option<(nat, nat)>)
    requires b < |s|
    ensures t.Some? ==> FolderTailSplit(s, b, t.value.0, t.value.1)
    ensures forall c, e :: FolderTailSplit(s, b, c, e) ==> t.Some? && c == t.value.0 && e <= t.value.1
  {
    var c := RunEnd(s, b + 1, Digit);
    assert forall c', e' :: FolderTailSplit(s, b, c', e') ==> c' == c by {
      forall c', e' | FolderTailSplit(s, b, c', e')
        ensures c' == c
      {
        RunEndUnique(s, b + 1, c', Digit);
      }
    }
    if b + 3 <= c < |s| && s[c] == '_' then
      var lineEnd := RunEnd(s, c + 1, Line);
      assert forall e' :: c + 2 <= e' && AllIn(s, c + 1, e', Line) && e' < |s| && s[e'] == '.'
                          ==> e' <= lineEnd - 1 by {
        forall e' | c + 2 <= e' && AllIn(s, c + 1, e', Line) && e' < |s| && s[e'] == '.'
          ensures e' <= lineEnd - 1
        {
        }
      }
      match LastDot(s, c + 1, lineEnd - 1)
      case None => None
      case Some(e) => Some((c, e))
    else None
  }

  /** The largest `_` position in s[lo..hi]. */
  function LastUnderscore(s: string, lo: nat, hi: int): (k: Option<nat>)
    requires hi <= |s|
    ensures k.Some? ==> lo <= k.value < hi && s[k.value] == '_'
    ensures forall k' :: lo <= k' < hi && s[k'] == '_' ==> k.Some? && k' <= k.value
    decreases hi - lo
  {
    if hi <= lo then None
    else if s[hi - 1] == '_' then Some(hi - 1)
    else LastUnderscore(s, lo, hi - 1)
  }

  /** Every split lies inside the leading word run. */
  lemma FolderSplitInWordRun(s: string, a: int, b: int, c: int, e: int)
    requires FolderSplit(s, a, b, c, e)
    ensures b < RunEnd(s, 0, Word)
  {
  
  }

  /** The preferred split whose `\w*` ends at or before `b`. */
  function SearchFolder(s: string, b: int): (m: Option<FolderMatch>)
    requires b < RunEnd(s, 0, Word)
    ensures m.Some? ==> m.value.b <= b && FolderSplit(s, m.value.a, m.value.b, m.value.c, m.value.e)
    ensures forall a', b', c', e' :: FolderSplit(s, a', b', c', e') && b' <= b
              ==> m.Some? && TriedNoLaterThan(a', b', e', m.value)
    decreases b
  {
    if b < 2 then None
    else
      var a := LastUnderscore(s, 1, b);
      var t := FolderTail(s, b);
      if s[b] == '_' && a.Some? && t.Some? then
        FoundSplit(s, b);
        Some(FolderMatch(a.value, b, t.value.0, t.value.1))
      else
        NoSplitAt(s, b);
        SearchFolder(s, b - 1)
  }

  /** Where `b` can end the `\w*`, the last earlier underscore and the tail give the preferred split. */
  lemma FoundSplit(s: string, b: int)
    requires 2 <= b < RunEnd(s, 0, Word) && s[b] == '_'
    requires LastUnderscore(s, 1, b).Some? && FolderTail(s, b).Some?
    ensures var m := FolderMatch(LastUnderscore(s, 1, b).value, b, FolderTail(s, b).value.0, FolderTail(s, b).value.1);
            && FolderSplit(s, m.a, m.b, m.c, m.e)
            && forall a', b', c', e' :: FolderSplit(s, a', b', c', e') && b' <= b ==> TriedNoLaterThan(a', b', e', m)
  {
    var m := FolderMatch(LastUnderscore(s, 1, b).value, b, FolderTail(s, b).value.0, FolderTail(s, b).value.1);
    assert AllIn(s, 0, b, Word);
    assert FolderSplit(s, m.a, m.b, m.c, m.e);
    PreferredSplit(s, m);
  }

  /** A split whose `\w*` ends at `b` needs an underscore there, an earlier one, and a tail after it. */
  lemma SplitNeedsTail(s: string, a: int, b: int, c: int, e: int)
    requires FolderSplit(s, a, b, c, e)
    ensures s[b] == '_' && LastUnderscore(s, 1, b).Some? && FolderTail(s, b).Some?
  {
  }

  /** Without the underscore at `b`, an earlier one and a tail, no split has its `\w*` end at `b`. */
  lemma NoSplitAt(s: string, b: int)
    requires 0 <= b < |s|
    requires !(s[b] == '_' && LastUnderscore(s, 1, b).Some? && FolderTail(s, b).Some?)
    ensures forall a, c, e :: !FolderSplit(s, a, b, c, e)
  {
    forall a, c, e | FolderSplit(s, a, b, c, e)
      ensures false
    {
      SplitNeedsTail(s, a, b, c, e);
    }
  }

  /** A split at the largest feasible `b`, with the last `_` before it as `a`, is preferred to every split ending no later. */
  lemma PreferredSplit(s: string, m: FolderMatch)
    requires FolderSplit(s, m.a, m.b, m.c, m.e)
    requires LastUnderscore(s, 1, m.b) == Some(m.a)
    requires FolderTail(s, m.b) == Some((m.c, m.e))
    ensures forall a', b', c', e' :: FolderSplit(s, a', b', c', e') && b' <= m.b
              ==> TriedNoLaterThan(a', b', e', m)
  {
  }

  /** The folder-name pattern's match: the split the backtracking matcher reaches first. */
  function MatchFolder(s: string): (m: Option<FolderMatch>)
    ensures m.Some? ==> FolderSplit(s, m.value.a, m.value.b, m.value.c, m.value.e)
    ensures m.Some? ==> forall a, b, c, e :: FolderSplit(s, a, b, c, e) ==> TriedNoLaterThan(a, b, e, m.value)
    ensures m.None? <==> forall a, b, c, e :: !FolderSplit(s, a, b, c, e)
  {
    var e0 := RunEnd(s, 0, Word);
    assert forall a, b, c, e :: FolderSplit(s, a, b, c, e) ==> b <= e0 - 1 by {
      forall a, b, c, e | FolderSplit(s, a, b, c, e)
        ensures b <= e0 - 1
      {
        FolderSplitInWordRun(s, a, b, c, e);
      }
    }
    SearchFolder(s, e0 - 1)
  }
}
