# Submission compliance pipeline, in Dafny

This project models the submission compliance pipeline of a course-tooling
repository. A learning platform hands out a batch archive holding one zip per
student. The pipeline does the following:

- reads each student's identity from the entry name;
- checks the name of the uploaded zip;
- extracts the nested archive and cleans it (removes `__MACOSX`, flattens a
  single wrapper folder);
- checks for the required `Part_X` folders and a correctly named report;
- records the verdicts in a compliance record whose truthiness is the
  overall verdict.

On top of that it prints a table with the non-compliant students first. It
composes a courtesy notice for a student whose checks failed. For the
plagiarism service it selects source files by language and writes an HTML
comment.

Everything is modelled with immutable datatypes and pure functions:

- A compliance flag is the tri-state `Flag = Unenforced | Pass | Fail`, for
  Python's `None`, `True` and `False`.
- An extracted archive is a tree of `Dir(name, children)` and
  `File(name, size)` nodes.
- A recursive `glob` is a function from such a tree to the paths it returns,
  in the order it returns them.
- Each regular expression the pipeline uses has two forms:
  - a declarative predicate of the form "there is a decomposition of the
    string such that ...";
  - an executable matcher, proved equal to that predicate.

The modules follow the program:

| module | file | what it holds |
|---|---|---|
| `Wrappers` | wrappers.dfy | `Option` and `Result` |
| `Batch` | batch.dfy | items processed in turn against a store keyed by item, stopping at the first failure |
| `Text` | text.dfy | character classes, ASCII lower-casing, `re.IGNORECASE` folding, `str.join`, integer formatting |
| `Patterns` | patterns.dfy | the zip-name, part-folder, report, identity and folder-name patterns |
| `Models` | models.dfy | the compliance record in its three variants, the student and submission records, and their hashes |
| `Tree` | tree.dfy | directory trees, `extractall` over an existing folder, `cleanup_files`, `flatten_folder`, recursive `glob` |
| `ZipfileCheck` | zipfile_check.dfy | `check_folders`, `check_report` and the loop of `check_zipfile` |
| `Notify` | notify.dfy | the body of the courtesy notice built in `send_message` |
| `Display` | display.dfy | the partition, row order, rows, column widths and printed lines of `display_students` |
| `Staging` | staging.dfy | the extension table, the per-extension `glob` and the file filter shared by both plagiarism front ends |
| `MosMoss` | mos_moss.dfy | folder naming and extraction in `unzip_canvas_submission`, and the submission folders and files of `stage_moss_files` |
| `Plagiarism` | plagiarism.dfy | `list_files` and `create_moss_comments` |

In a few places the code and the repository's own descriptions disagree.
The model follows the code in each case:

- **`None` flags count against a record.** The `ductape` doc-comments call a
  `None` flag "not enforced". All three `__bool__` implementations still make
  any `None` flag falsy. `Models.DuctapeContradictsDocComments` shows the
  disagreement; for example, a default record is falsy.
- **An entry name without an identity stops the whole check.**
  `check_zipfile` has no fallback for a name the identity pattern does not
  match: `res[4]` raises and the whole check stops. The model returns the
  error `NoIdentity`.
- **Flattening can fail.** `flatten_folder` on an archive holding a single
  file calls `os.listdir` on that file and raises. It also raises when the
  wrapper holds an entry with the wrapper's own name. The model returns
  these errors.
- **Clean-up can fail.** `cleanup_files` lists every `__MACOSX` path first
  and then removes each one. It raises when a `__MACOSX` it found is a file,
  or when one lies inside another. The model returns `RmtreeFailed`.
- **A missing file name stops the table.** The column widths measure
  `str(None)`, but formatting `None` into a row raises `TypeError`, so
  `display_students` stops at the first student without a file name.
  `check_zipfile` always sets the file name, so its own output prints in
  full. The model returns the printed lines and whether the call raised.
- **Extraction can fail.** `extractall` raises when an archive holds a file
  and a directory under one name, at any depth. Extracting into the empty
  temporary directory of `check_zipfile` is not exempt, so the model returns
  `ExtractError` there too. An archive whose names are distinct in every
  directory (`Tree.WellFormed`) always extracts into an empty directory.

## Model

| member | source | states |
|---|---|---|
| Models.FromBool | zipfile_check.py:87-90 | a flag set from a check's result is never `None`, and it is truthy exactly when the check passed |
| Models.IsCompliant | zipfile_check.py:27-28 | `__bool__` of the standalone checker and of `mos_moss`: truthy exactly when all three flags are `True`, so a `None` flag makes the record falsy |
| Models.IsTrueOrNone | ductape/models.py:27 | `c is True or None` parses as `(c is True) or None`: never `False`, and truthy exactly for a `True` flag |
| Models.DuctapeIsCompliant | ductape/models.py:25-29 | `ductape`'s `__bool__` is truthy exactly when all three flags are `True` |
| Models.DuctapeAgreesWithMosMoss | mos_moss/models.py:14-15 | both truthiness implementations agree on every combination of `True`, `False` and `None` flags |
| Models.FailIsFalsy | ductape/models.py:25-29 | any `False` flag makes the record falsy under both implementations |
| Models.EvidenceIsIrrelevant | ductape/models.py:18-29 | replacing `zip_name`, `report_name` and `folder_structure` never changes truthiness |
| Models.DuctapeContradictsDocComments | ductape/models.py:11-29 | the code and the doc-comments disagree exactly on the records that have no `False` flag but some `None` flag; the default record is one of them; every record the code calls compliant is also compliant by the doc-comments |
| Models.StudentHashOnlySisId | zipfile_check.py:38-39 | two students with the same SIS id hash alike, whatever their other fields |
| Models.SubmissionHashOnlySisId | ductape/models.py:48-49 | two submissions with the same SIS id hash alike, whatever their compliance |
| Models.SubmissionHashConsistentWithEquality | ductape/models.py:32-49 | the `__eq__` that `@dataclass` generates (all four fields, in declaration order) holds exactly for equal submissions, and submissions it calls equal have the same SIS id and so the same hash |
| Patterns.ZipNameMatches | zipfile_check.py:87 | the matcher accepts exactly the names that start with a word run, `-Assignment-` (case-sensitive), a word run, optionally `-` and one digit, then `.zip` |
| Patterns.ZipNameForced | zipfile_check.py:87 | every way the zip-name pattern matches splits the name at the same two places: the ends of the greedy word runs |
| Patterns.ZipNameIgnoresSuffix | zipfile_check.py:87 | the match is anchored at the start only: a matching name still matches with any text appended after `.zip` |
| Patterns.PartFolderMatches | zipfile_check.py:60 | the matcher accepts a path exactly when it contains `part` (any case), then any newline-free text, then the part token (any case) followed by `/` |
| Patterns.ReportNameMatches | zipfile_check.py:72 | the matcher accepts a path exactly when it contains `assignment` (any case), then at least one newline-free character, then `report` (any case) |
| Patterns.MatchIdentity | zipfile_check.py:82 | the matcher finds a decomposition of the entry name into the pattern's groups exactly when one exists, and it finds the one with the longest `(?:_\w+)*` repetition |
| Patterns.IdentityGroupOneForced | zipfile_check.py:82 | in every decomposition the name group is the whole leading alphanumeric run, and an underscore follows it |
| Patterns.IdentitySplitDeterminedByP | zipfile_check.py:82 | once the end of the repetition is fixed, the two digit groups are fixed too |
| Patterns.ParseIdentity | zipfile_check.py:82-83 | a parsed identity has an alphanumeric name, digit-only Canvas and SIS ids and a non-empty original file name |
| Patterns.ParseIdentityCorrect | zipfile_check.py:82-83 | the parse fails exactly when no decomposition exists; otherwise its four fields are the groups of the decomposition with the longest repetition |
| Patterns.MatchFolder | mos_moss.py:57 | the folder-name matcher finds a decomposition exactly when one exists, and it finds the one the backtracking engine reaches first (longest `\w+`, then longest `\w*`, then longest `.+`) |
| Patterns.PreferredSplit | mos_moss.py:57 | the split built from the last earlier underscore and the longest tail comes no later, in the engine's order, than any split that ends its `\w*` no later |
| Tree.Cleanup | mos_moss.py:29-33 | `cleanup_files` fails exactly when the glob-then-`rmtree` loop would raise; otherwise no `__MACOSX` reachable by `**` remains, the entries kept are exactly those whose path avoids a removed `__MACOSX`, and a tree without one is unchanged |
| Tree.CleanupFailsNeedsJunk | mos_moss.py:31-33 | the clean-up loop can only raise when some `__MACOSX` is reachable |
| Tree.CleanupIdempotent | mos_moss.py:29-33 | a second `cleanup_files` removes nothing |
| Tree.PruneContents | mos_moss.py:31-33 | removing every reachable `__MACOSX` keeps exactly the entries whose path does not pass through one |
| Tree.Flatten | mos_moss.py:36-45 | a listing with zero or several entries is unchanged; a single file raises; a single directory is replaced by its children, and it fails exactly when one of its children has the wrapper's own name |
| Tree.FlattenLiftsEntries | mos_moss.py:39-45 | after flattening, an entry is at path `x` exactly when it was at `w/x` under the wrapper `w` |
| Tree.FlattenOneLevel | mos_moss.py:39-45 | only one level goes per call: of a chain of two wrappers the inner one remains |
| Tree.Glob | zipfile_check.py:56 | every path the recursive glob returns names a node the last component selects, and it lies under the searched directory |
| Tree.GlobMembers | zipfile_check.py:56 | the recursive glob returns a hit exactly when its node is selected by the last component and reachable through directories `**` enters (not hidden), with the path spelled by the names leading to it |
| Tree.ExtractOverNames | mos_moss.py:67-68 | after extracting an archive over a folder, the folder's names are its old names and the archive's |
| Tree.ExtractOverDisjoint | mos_moss.py:67-68 | an archive with distinct names in every directory, whose names are all new to the folder, is added to it unchanged |
| Tree.ExtractIntoEmpty | zipfile_check.py:91-93 | an archive with distinct names in every directory, extracted into an empty directory, lands exactly as it is |
| Tree.ExtractClashRaises | zipfile_check.py:92-93 | a file and a directory of one name in a single archive make `extractall` raise, even into an empty directory and even inside a new directory |
| Tree.ExtractOverWellFormed | mos_moss.py:67-68 | extracting over a folder whose names are distinct in every directory keeps them distinct |
| ZipfileCheck.AnyFolderMatches | zipfile_check.py:58-62 | the inner loop finds a folder exactly when some directory path matches the part's pattern |
| ZipfileCheck.CheckFolders | zipfile_check.py:49-65 | `check_folders` is true exactly when every requested part has a matching directory path, and it is true for no parts |
| ZipfileCheck.CheckFoldersIgnoresOrder | zipfile_check.py:57-65 | any reordering of the parts, sorting included, gives the same verdict |
| ZipfileCheck.AllPartsFoundSubset | zipfile_check.py:57-65 | parts drawn from a list whose parts are all found are found too |
| ZipfileCheck.CheckFoldersMonotonic | zipfile_check.py:56-65 | finding more directories never turns a passing folder check into a failing one |
| ZipfileCheck.CheckReport | zipfile_check.py:68-74 | `check_report` is true exactly when some PDF path matches the report pattern, and it is false when there are no PDFs |
| ZipfileCheck.Landed | zipfile_check.py:91-93 | the archive is extracted into a fresh, empty temporary directory, where an archive with distinct names in every directory lands as it is |
| ZipfileCheck.EntryError | zipfile_check.py:82-94 | an entry raises exactly when its name has no identity, its archive cannot be extracted, or its clean-up fails, tried in that order; an extraction error needs a repeated name in some directory of the archive; for an archive with distinct names in every directory the entry raises exactly when the name has no identity or the clean-up fails |
| ZipfileCheck.CheckEntry | zipfile_check.py:81-103 | the loop body fails exactly when the entry raises, and with that error |
| ZipfileCheck.CheckEntryDescribes | zipfile_check.py:84-102 | a checked student has the parsed identity and the original file name. The zip flag is always set, and it passes exactly when the name matches. The folders flag is `None` exactly when no parts are requested, and it passes exactly when every part is found. The report flag is `None` exactly when no report is requested, and it passes exactly when some PDF path matches. Both searches look at the extracted tree after clean-up |
| ZipfileCheck.CheckEntryClash | zipfile_check.py:92-93 | an entry whose name parses but whose archive holds a file and a directory of one name raises on extraction |
| ZipfileCheck.DescribesDeterministic | zipfile_check.py:84-102 | those conditions fix the student record completely |
| ZipfileCheck.OutcomesAt | zipfile_check.py:81-103 | the outcome recorded for entry `k` is the loop body applied to entry `k` |
| ZipfileCheck.CheckZipfile | zipfile_check.py:77-105 | `check_zipfile` returns one student per entry, in archive order, exactly when no entry raises; otherwise it returns the error of the first entry that raises |
| Notify.PartsPhrase | zipfile_check.py:126-130 | one part is named alone, two are joined by ` and `, and more end in `, and ` followed by the last part |
| Notify.PartsPhraseThree | zipfile_check.py:126-128 | three parts read `A, B, and C` |
| Notify.PartsPhraseNamesEveryPart | zipfile_check.py:126-133 | every requested part occurs in the phrase |
| Notify.LinesDistinct | zipfile_check.py:113-144 | the three failure lines differ from one another and from the four fixed lines |
| Notify.FailureLines | zipfile_check.py:120-138 | there is one failure line per flag that is `False` |
| Notify.FailureLinesExactly | zipfile_check.py:120-138 | each failure line is present exactly when its flag is `False` (not `None`); the zip line comes first and the report line last |
| Notify.MessageLines | zipfile_check.py:113-144 | the notice is the two header lines, the failure lines and the two footer lines |
| Notify.MessageLinesExactly | zipfile_check.py:113-144 | the notice mentions a check exactly when that check's flag is `False` |
| Notify.MessageBody | zipfile_check.py:145 | the joined body starts with the header lines and ends with the footer lines, each separated by a newline |
| Display.Group | zipfile_check.py:187-189 | each group holds only students whose record has the group's truthiness |
| Display.Partition | zipfile_check.py:187-189 | the loop appends each student to `good` or `bad` so that they end up as the two groups |
| Display.GroupsCount | zipfile_check.py:187-189 | good plus bad equals the number of students |
| Display.GroupsPermute | zipfile_check.py:187-189 | together the groups hold exactly the input students, duplicates included |
| Display.GroupStable | zipfile_check.py:188-189 | each group keeps the input order of its students |
| Display.GroupMembers | zipfile_check.py:187-189 | a student is in a group exactly when it is in the input and its record has the group's truthiness |
| Display.DisplayOrderNonCompliantFirst | zipfile_check.py:199 | no compliant student is listed before a non-compliant one |
| Display.DisplayOrderPermutes | zipfile_check.py:199 | the listed rows are a rearrangement of the input |
| Display.Mark | zipfile_check.py:191-192 | a flag is marked with a tick exactly when it is truthy, and with a cross for `False` and `None` alike |
| Display.Row | zipfile_check.py:200-207 | a row has six cells, and its three mark cells are ticks exactly when the zip, report and folder flags are `True` |
| Display.MaxCellLength | zipfile_check.py:211 | the width is at least every cell's length in the column, and it equals some cell's length |
| Display.ColumnWidthsAreMaxima | zipfile_check.py:211-212 | each of the first three widths bounds the header and every student's cell, and it is the length of one of them |
| Display.TableColumnMax | zipfile_check.py:211 | over a header plus rows, the maximum bounds the header and every row, and it is one of them |
| Display.PadLeft | zipfile_check.py:224 | left alignment pads to the width (or leaves a longer text alone) and keeps the text at the start |
| Display.Center | zipfile_check.py:224 | centring pads to the width with the smaller half of the blanks on the left, and the text sits in between |
| Display.HeaderLines | zipfile_check.py:222-227 | the rule under the header is dashes only, exactly as long as the header line |
| Display.HeaderCellsAligned | zipfile_check.py:223-225 | every header cell is padded to exactly its column's width |
| Display.TextCellsAligned | zipfile_check.py:230-233 | in every row that is printed the name, Canvas id and file-name cells are exactly their column's width |
| Display.Summary | zipfile_check.py:215 | the summary line starts with the number of submissions |
| Display.Table | zipfile_check.py:222-234 | the formatted table has the header line, the rule, and one line per student |
| Display.TableRow | zipfile_check.py:229-234 | line `2 + k` of the formatted table is the `k`-th student in display order, formatted to the column widths |
| Display.PrintedRows | zipfile_check.py:229-233 | the rows before the first student without a file name all have one, and that student has none |
| Display.DisplayStudents | zipfile_check.py:222-234 | the header, the rule and the rows up to the first student without a file name are printed, a prefix of the formatted table; the call raises exactly when some student has no file name, and otherwise prints the whole table |
| Display.RaisesExactlyOnMissingName | zipfile_check.py:229-233 | some row is left unprinted exactly when some student has no file name |
| Display.PrintedRow | zipfile_check.py:229-234 | a printed row line belongs to a student with a file name, and it is that student's row formatted to the column widths |
| Display.DefaultRecordRaises | zipfile_check.py:229-233 | a student with a default record has no file name, so only the header and the rule print before the call raises |
| Staging.ExtensionsIgnoreCase | mos_moss.py:84 | the extension lookup gives the same result for languages that lower-case alike |
| Staging.JavaAnyCase | mos_moss.py:18-21 | `Java` and `JAVA` both select the bare suffix `java` |
| Staging.Admitted | mos_moss.py:97-103 | every file kept is a non-empty regular file whose path ends in neither `pdf` nor `jar` |
| Staging.AdmittedMembers | mos_moss.py:97-103 | a hit is kept exactly when it was found and passes the filter |
| Staging.FolderHitsMembers | mos_moss.py:94-95 | a hit is among one extension's results exactly when some folder's glob finds it |
| Staging.CollectMembers | mos_moss.py:93-95 | a hit is collected exactly when some folder's glob for some extension finds it |
| Staging.SelectMembers | mos_moss.py:93-103 | a hit is selected exactly when it passes the filter and some folder's glob for some extension finds it |
| Staging.EmptySuffixSelectsVisible | mos_moss.py:95 | the empty suffix selects every name that is not hidden |
| MosMoss.FolderName | mos_moss.py:57-61 | without a match the raw entry name is used; with the original name it is non-empty; otherwise it is a prefix of the entry name that an underscore follows |
| MosMoss.FolderNameCorrect | mos_moss.py:57-61 | naming never fails: with no decomposition the raw name is used, and otherwise the name is cut from the decomposition the engine reaches first |
| MosMoss.OriginalNameStopsAtLastDot | mos_moss.py:57-59 | on a name without line breaks the original-name folder ends just before the entry name's last `.` |
| MosMoss.LaterDotSplits | mos_moss.py:57 | a later dot on the same line gives the same split a longer `.+` |
| MosMoss.PathJoin | mos_moss.py:67 | `os.path.join`: an absolute name replaces the base; otherwise the result starts with the base and ends with the name |
| MosMoss.ExtractAll | mos_moss.py:66-68 | into a missing folder an empty archive leaves no folder; a non-empty archive with distinct names in every directory lands as it is; afterwards the folder's names are the ones it had plus the archive's |
| MosMoss.Tidy | mos_moss.py:69-70 | clean-up then flattening fails exactly when one of them fails, with that step's error; a folder without `__MACOSX` and with other than one entry is left alone |
| MosMoss.UnzipEntry | mos_moss.py:65-70 | an entry extracts to `zip_output/folder_name`; an empty archive extracted to a missing folder raises from `os.listdir`; otherwise the entry fails exactly when extraction, clean-up or flattening fails, with that step's error |
| MosMoss.UnzipEntryRemovesJunk | mos_moss.py:67-70 | for a folder path without glob metacharacters, unless the cleaned folder is a single hidden wrapper, no `__MACOSX` is reachable after extraction |
| MosMoss.HiddenWrapperKeepsJunk | mos_moss.py:31-45 | a hidden wrapper around `__MACOSX` keeps the junk, and flattening brings it to the top |
| MosMoss.UnzipEntryLiftsWrapper | mos_moss.py:67-70 | for a folder path without glob metacharacters, with a single wrapper the folder holds exactly what it held under the wrapper after extraction, minus every `__MACOSX` subtree |
| MosMoss.UnzipEntryFresh | mos_moss.py:65-70 | several entries with distinct names in every directory and no `__MACOSX` land in a new folder unchanged |
| MosMoss.UnzipEntryOver | mos_moss.py:65-70 | extracted over a folder holding other names, an archive with distinct names in every directory joins what the folder held |
| MosMoss.UnzipAll | mos_moss.py:52-70 | a successful run leaves exactly the folders that were there plus one per entry, and a folder no entry names keeps its contents |
| MosMoss.UnzipAllFresh | mos_moss.py:52-70 | with entries going to distinct new folders, the run succeeds exactly when each entry on its own succeeds, and each folder then holds its entry's extraction |
| MosMoss.UnzipAllFreshFails | mos_moss.py:52-70 | with entries going to distinct new folders, a failing run fails with the error of the first entry that fails |
| MosMoss.UnzipAllResubmissionMerges | mos_moss.py:52-70 | two entries with the same folder name: the second is extracted over the first, so the folder holds both archives' entries and a lone directory of the second is not lifted |
| MosMoss.SubmissionFolders | mos_moss.py:86-91 | a zero maximum searches the whole output folder; otherwise a Python slice of the shuffled top-level listing is taken, with the length a positive or negative bound gives, and only top-level folders appear. The folders are the first ones of the shuffled listing, none appears more often than it is listed, and all of them appear when the bound is at least the listing's length |
| MosMoss.StagedFiles | mos_moss.py:93-105 | every staged path is that of a selected hit |
| MosMoss.StagedFilesQualify | mos_moss.py:97-103 | every staged path is a non-empty regular file, not a PDF or JAR, that some folder's glob found |
| MosMoss.StagedFilesComplete | mos_moss.py:93-105 | every admissible file that some folder's glob finds for one of the language's extensions is staged |
| MosMoss.UnknownLanguageStagesEverything | mos_moss.py:84 | with an unknown language, every admissible file the globs reach is staged, whatever its name |
| Plagiarism.ListFiles | ductape/plagiarism.py:27-46 | every listed path is that of a selected hit |
| Plagiarism.ListedFilesQualify | ductape/plagiarism.py:38-45 | every listed path is a non-empty regular file, not a PDF or JAR, that the folder's glob found for one of the language's extensions |
| Plagiarism.ListFilesComplete | ductape/plagiarism.py:34-46 | every admissible file the folder's glob finds for one of the language's extensions is listed |
| Plagiarism.UnknownLanguageListsNothing | ductape/plagiarism.py:34 | an unknown language lists nothing, because the default `""` yields no extension |
| Plagiarism.JavaSuffixHasNoDot | ductape/plagiarism.py:19-22 | the Java suffix has no dot, so a file named `Notjava` is listed for `Java` |
| Plagiarism.Sections | ductape/plagiarism.py:50-59 | the sections appear in the order base files, solutions, maximum, batch |
| Plagiarism.SectionsPresent | ductape/plagiarism.py:51-58 | a section is present exactly when its argument is truthy; the batch list also needs a truthy maximum |
| Plagiarism.Render | ductape/plagiarism.py:52-59 | every rendered section is non-empty |
| Plagiarism.MossComments | ductape/plagiarism.py:49-60 | the comment is empty exactly when no section is present |
| Plagiarism.MossCommentsEmpty | ductape/plagiarism.py:49-60 | the comment is empty exactly when base files, solutions and maximum are all falsy |
| Plagiarism.MossCommentsStartWithBaseFiles | ductape/plagiarism.py:51-60 | when base files are given, their section opens the comment |

## Left out

- Archive and file-system I/O are not modelled: `zipfile`, `tempfile`,
  `os.path.isfile`, `os.path.getsize` and the real `glob` and `extractall`.
  - An archive is a sequence of entry names with the trees they extract to.
  - A temporary directory is a path given as a parameter.
  - A file's size is a field of its node.
  - Listing order is the order of the sequence.
  - Corrupt archives, symbolic links and permission errors are not modelled.
- Tree.Glob: the searched directory's path is taken as plain text. The source
  writes it into the pattern, so a path holding `*`, `?` or `[` is read as
  pattern syntax; such paths are not modelled.
- MosMoss.UnzipEntryRemovesJunk holds for a folder path without `*`, `?` or
  `[`. With such a path the glob of `cleanup_files` can miss the folder, and
  its `__MACOSX` then stays.
- MosMoss.UnzipEntryLiftsWrapper holds for a folder path without `*`, `?` or
  `[`, for the same reason.
- MosMoss.UnzipAll keys folders by their path string. Two spellings of one
  directory (a trailing slash, `..`, a folder name holding `/`) are not
  identified. A file already standing at a folder's path is not modelled.
- Tree.ExtractOver takes an archive as a tree of members. A zip's flat list
  of member paths, and the directories those paths imply, are not modelled
  apart from that tree. A repeated name in one directory of the tree stands
  for repeated members in the zip.
- Tree.ExtractOver reports the first clashing member in archive order. The
  partial extraction left on disk when it raises is not modelled, since the
  run stops there.
- Tree.Cleanup: every `rmtree` error is the single error `RmtreeFailed`; the
  message Python attaches is not modelled.
- The network is not modelled. This covers `requests.post` in
  `send_message`, the token fallbacks before it, the message's recipients and
  subject, and the plagiarism service's upload and report download.
- `random.shuffle` is not modelled. `MosMoss.SubmissionFolders` takes the
  shuffled listing as a parameter and requires it to be a rearrangement of
  the top-level listing.
- `stage_moss_files` is modelled only as far as the files it adds. The
  following are not modelled:
  - the `mosspy` object;
  - directory mode;
  - base files and online solutions, including the `FileNotFoundError` when
    their glob finds nothing.
- Configuration, argument parsing, `main`, `mos_moss/main.py` and
  `run_moss.py` are not part of this model.
- `display_students` is modelled up to the strings it prints and the point
  where it raises. The print calls and the terminal's rendering of the ANSI
  colour codes are left out. Of the lines printed before the table only the
  summary line is modelled, by `Display.Summary`; the fixed legend lines
  are left out.
- The character classes are ASCII-only: `\w`, `\d` and `[^\W_]` accept ASCII
  letters, digits and `_` only. Python's Unicode classes are wider.
  `re.IGNORECASE` folds ASCII letters and the few non-ASCII characters that
  fold onto them.
- Text.LowerString lowers ASCII letters only. No other character lower-cases
  into the keys `java` or `cpp`, so the extension lookup is unaffected.
- ZipfileCheck.CheckFolders requires every part to be a run of word
  characters. The source interpolates the part into its pattern unescaped,
  and a part holding regular-expression syntax is not modelled.
- ZipfileCheck.CheckEntry takes the parts as a list in which an empty list
  stands for both `None` and `[]`; the source treats both alike. It models
  the parts in the order given; `CheckFoldersIgnoresOrder` shows that
  sorting them first cannot change the verdict.
- Notify.MessageBody states that the joined text is framed by the header and
  the footer. Which middle lines it holds is stated on the list of lines, by
  `Notify.MessageLinesExactly`, not on the joined text.
- Display.Summary states only how the summary line starts. The two counts it
  goes on to print are those of `Display.GroupsCount`.
- Models.StudentHashOnlySisId and the two submission-hash lemmas take
  Python's `hash` as a function parameter, since its values are not
  specified.
- Plagiarism.Render states only that a section is non-empty; its text is
  the literal the source formats.
- A hidden wrapper is a single top-level folder whose name starts with a
  dot. `**` does not look inside it, so clean-up keeps any `__MACOSX` it
  holds, and flattening then brings that `__MACOSX` to the top.
  `MosMoss.HiddenWrapperKeepsJunk` exhibits this. It is what the code does,
  and the model keeps it.
