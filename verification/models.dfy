/**
 * The compliance record and the submission records that carry it, in the
 * three variants the repository holds: the standalone checker's, the
 * `ductape` package's and the earlier `mos_moss` package's.
 */
module Models {
  import opened Wrappers

  /** A compliance flag as the source stores it: `None` (check not run), `True` or `False`. */
  datatype Flag = Unenforced | Pass | Fail

  /** Python truthiness of a flag: `None` and `False` are falsy. */
  predicate Truthy(f: Flag) {
    f == Pass
  }

  /** A flag set from a check's boolean result. */
  function FromBool(b: bool): (f: Flag)
    ensures f != Unenforced
    ensures Truthy(f) <==> b
  {
    if b then Pass else Fail
  }

  /**
   * A submission's compliance: three flags and three evidence strings, each
   * `None` (here `Option.None`) until the checker sets it.
   */
  datatype Compliance = Compliance(
    zipNameCompliant: Flag,
    reportNameCompliant: Flag,
    foldersCompliant: Flag,
    zipName: Option<string>,
    reportName: Option<string>,
    folderStructure: Option<string>)

  /** `Compliance()`: every field at its default `None`. */
  const DefaultCompliance := Compliance(Unenforced, Unenforced, Unenforced, None, None, None)

  /** The flags in the order the truthiness tests list them. */
  function Flags(c: Compliance): seq<Flag> {
    [c.foldersCompliant, c.reportNameCompliant, c.zipNameCompliant]
  }

  /** Python's `all(xs)` over flags: stops at the first falsy one. */
  function All(xs: seq<Flag>): (r: bool)
    ensures r <==> forall k :: 0 <= k < |xs| ==> Truthy(xs[k])
  {
    if xs == [] then true
    else if !Truthy(xs[0]) then false
    else All(xs[1..])
  }

  /** `Compliance.__bool__` of the standalone checker and of `mos_moss`: `all` of the three flags. */
  function IsCompliant(c: Compliance): (r: bool)
    ensures r <==> c.zipNameCompliant == Pass && c.reportNameCompliant == Pass && c.foldersCompliant == Pass
  {
    var fs := Flags(c);
    assert fs[0] == c.foldersCompliant && fs[1] == c.reportNameCompliant && fs[2] == c.zipNameCompliant;
    All(fs)
  }

  /**
   * The value of the generator element `c is True or None` in `ductape`:
   * the expression parses as `(c is True) or None`, so it is `True` for a
   * `True` flag and `None` otherwise.
   */
  function IsTrueOrNone(f: Flag): (v: Flag)
    ensures v != Fail
    ensures Truthy(v) <==> f == Pass
  {
    if f == Pass then Pass else Unenforced
  }

  /** `Compliance.__bool__` of `ductape`: `all(c is True or None for c in flags)`. */
  function DuctapeIsCompliant(c: Compliance): (r: bool)
    ensures r <==> c.zipNameCompliant == Pass && c.reportNameCompliant == Pass && c.foldersCompliant == Pass
  {
    var vs := [IsTrueOrNone(c.foldersCompliant), IsTrueOrNone(c.reportNameCompliant),
               IsTrueOrNone(c.zipNameCompliant)];
    assert vs[0] == IsTrueOrNone(c.foldersCompliant) && vs[1] == IsTrueOrNone(c.reportNameCompliant);
    assert vs[2] == IsTrueOrNone(c.zipNameCompliant);
    All(vs)
  }

  /**
   * What the `ductape` doc-comments describe: a `None` flag means the check
   * is not enforced, so only a `False` flag should make a record
   * non-compliant.
   */
  predicate DocumentedCompliant(c: Compliance) {
    c.zipNameCompliant != Fail && c.reportNameCompliant != Fail && c.foldersCompliant != Fail
  }

  /** Both truthiness implementations agree on every combination of flags. */
  lemma DuctapeAgreesWithMosMoss(c: Compliance)
    ensures DuctapeIsCompliant(c) == IsCompliant(c)
  {
  }

  /** Any `False` flag makes a record falsy. */
  lemma FailIsFalsy(c: Compliance)
    requires Fail in Flags(c)
    ensures !IsCompliant(c) && !DuctapeIsCompliant(c)
  {
  }

  /** The evidence strings never affect truthiness. */
  lemma EvidenceIsIrrelevant(c: Compliance, zipName: Option<string>, reportName: Option<string>,
                             folderStructure: Option<string>)
    ensures var d := c.(zipName := zipName, reportName := reportName, folderStructure := folderStructure);
            IsCompliant(d) == IsCompliant(c) && DuctapeIsCompliant(d) == DuctapeIsCompliant(c)
  {
  }

  /**
   * The code and its doc-comments disagree exactly on the records with no
   * `False` flag and at least one `None` flag: the comments call them
   * compliant, `__bool__` calls them non-compliant. The default record is one.
   */
  lemma DuctapeContradictsDocComments(c: Compliance)
    ensures DocumentedCompliant(c) && !DuctapeIsCompliant(c)
            <==> DocumentedCompliant(c) && Unenforced in Flags(c)
    ensures DocumentedCompliant(DefaultCompliance) && !DuctapeIsCompliant(DefaultCompliance)
    ensures DuctapeIsCompliant(c) ==> DocumentedCompliant(c)
  {
  }

  /** A student of the standalone checker; its ids are the digit strings read from the entry name. */
  datatype Student = Student(name: string, canvasId: string, sisId: string, compliance: Compliance)

  /** A submission of `ductape` and `mos_moss`, with integer ids. */
  datatype Submission = Submission(studentName: string, canvasId: int, sisId: int, compliance: Compliance)

  /** `Student.__hash__`, for whatever string hash the interpreter uses. */
  function StudentHash(s: Student, hash: string -> int): int {
    hash(s.sisId)
  }

  /** `Submission.__hash__`, for whatever integer hash the interpreter uses. */
  function SubmissionHash(s: Submission, hash: int -> int): int {
    hash(s.sisId)
  }

  /** Two students with the same SIS id hash alike, whatever their other fields. */
  lemma StudentHashOnlySisId(s: Student, t: Student, hash: string -> int)
    requires s.sisId == t.sisId
    ensures StudentHash(s, hash) == StudentHash(t, hash)
  {
  }

  /**
   * Two submissions with the same SIS id hash alike whatever their
   * compliance; in particular equal submissions hash alike, as dataclass
   * equality compares every field.
   */
  lemma SubmissionHashOnlySisId(s: Submission, t: Submission, hash: int -> int)
    requires s.sisId == t.sisId
    ensures SubmissionHash(s, hash) == SubmissionHash(t, hash)
    ensures SubmissionHash(s.(compliance := t.compliance), hash) == SubmissionHash(s, hash)
  {
  }

  /** The `__eq__` that `@dataclass` generates: every field compared, in declaration order. */
  predicate SubmissionEq(s: Submission, t: Submission) {
    (s.studentName, s.canvasId, s.sisId, s.compliance) == (t.studentName, t.canvasId, t.sisId, t.compliance)
  }

  /**
   * The generated `__eq__` is equality of submissions, and submissions it
   * calls equal have equal hashes, as Python requires of `__hash__`.
   */
  lemma SubmissionHashConsistentWithEquality(s: Submission, t: Submission, hash: int -> int)
    ensures SubmissionEq(s, t) <==> s == t
    ensures SubmissionEq(s, t) ==> s.sisId == t.sisId && SubmissionHash(s, hash) == SubmissionHash(t, hash)
  {
  }
}
