/**
 * The courtesy notice `send_message` composes for a student: a fixed
 * header, one line per check that failed, and a fixed footer, joined by
 * newlines. Sending it is not part of this model.
 */
module Notify {
  import opened Text
  import opened Models

  // Each fixed text is written as a short distinguishing head followed by the
  // rest, so that the lines can be told apart by one character.
  const Intro := "You are" + " receiving this message because an automated check has found that your submission may not be compliant with the grading policy."
  const ZipPrefix := "  - Your submission Z" + "IP file is not named correctly. It should be in the format: FirstLast-Assignment-"
  const FoldersPrefix := "  - Your submission d" + "o not appear to contain folders for one or more of the following parts: "
  const ReportPrefix := "  - Your a" + "ssignment report is not named correctly. Your report should be in the format: FirstLast-Assignment-"
  const Reminder := "\nBe sure" + " to update your submission before the deadline to avoid penalties. Failure to do so may result in a zero for some or all parts of the assignment."
  const Disclaimer := "This is" + " an automated check. If you believe this message was sent in error, please let us know."

  const ReasonsPrefix := "Your" + " submission for Assignment "
  const ReasonsSuffix := " may receive a zero for one or more of the following reasons:\n"

  function Reasons(assignment: string): string {
    ReasonsPrefix + assignment + ReasonsSuffix
  }

  function ZipLine(assignment: string): string {
    ZipPrefix + assignment + ".zip"
  }

  function FoldersLine(parts: seq<string>): string {
    FoldersPrefix + PartsPhrase(parts) + "."
  }

  function ReportLine(assignment: string): string {
    ReportPrefix + assignment + "-Report.pdf"
  }

  /** The parts as an English list: more than two get commas and a final ", and ". */
  function PartsPhrase(parts: seq<string>): (s: string)
    ensures |parts| == 1 ==> s == parts[0]
    ensures |parts| == 2 ==> s == parts[0] + " and " + parts[1]
    ensures |parts| > 2 ==> EndsWith(s, ", and " + parts[|parts| - 1])
  {
    if |parts| > 2 then Join(", ", parts[..|parts| - 1]) + ", and " + parts[|parts| - 1]
    else
      assert |parts| == 2 ==> Join(" and ", parts) == parts[0] + " and " + Join(" and ", [parts[1]]) by {
        if |parts| == 2 {
          assert parts[1..] == [parts[1]];
        }
      }
      Join(" and ", parts)
  }

  /** Three or more parts: the Oxford-comma list. */
  lemma PartsPhraseThree(a: string, b: string, c: string)
    ensures PartsPhrase([a, b, c]) == a + ", " + b + ", and " + c
  {
    assert [a, b, c][..2] == [a, b];
    assert [a, b][1..] == [b];
    assert Join(", ", [a, b]) == a + ", " + b;
  }

  /** Every requested part is named in the phrase. */
  lemma PartsPhraseNamesEveryPart(parts: seq<string>, i: nat)
    requires i < |parts|
    ensures IsInfix(parts[i], PartsPhrase(parts))
  {
    if |parts| <= 2 {
      JoinContainsItems(" and ", parts, i);
    } else if i < |parts| - 1 {
      ListedBeforeLast(parts, i);
    } else {
      InfixAtEnd(parts[i], Join(", ", parts[..i]) + ", and ");
    }
  }

  /** With three or more parts, each part but the last is in the comma-joined head. */
  lemma ListedBeforeLast(parts: seq<string>, i: nat)
    requires 2 < |parts| && i < |parts| - 1
    ensures IsInfix(parts[i], PartsPhrase(parts))
  {
    var n := |parts|;
    JoinContainsItems(", ", parts[..n - 1], i);
    assert parts[..n - 1][i] == parts[i];
    InfixExtends(parts[i], Join(", ", parts[..n - 1]), ", and " + parts[n - 1]);
    assert PartsPhrase(parts) == Join(", ", parts[..n - 1]) + (", and " + parts[n - 1]);
  }

  /** An infix stays an infix when text is appended. */
  lemma InfixExtends(needle: string, s: string, more: string)
    requires IsInfix(needle, s)
    ensures IsInfix(needle, s + more)
  {
    var k :| InfixAt(needle, s, k);
    assert (s + more)[k..k + |needle|] == s[k..k + |needle|];
    assert InfixAt(needle, s + more, k);
  }

  /** A string ends with an infix of itself. */
  lemma InfixAtEnd(needle: string, s: string)
    ensures IsInfix(needle, s + needle)
  {
    assert (s + needle)[|s|..|s| + |needle|] == needle;
    assert InfixAt(needle, s + needle, |s|);
  }

  /** The number of flags that are `False`, as opposed to `True` or not enforced. */
  function FailCount(c: Compliance): nat {
    (if c.zipNameCompliant == Fail then 1 else 0)
    + (if c.foldersCompliant == Fail then 1 else 0)
    + (if c.reportNameCompliant == Fail then 1 else 0)
  }

  /** The lines every notice has. */
  predicate IsFixedLine(l: string, assignment: string) {
    l == Intro || l == Reasons(assignment) || l == Reminder || l == Disclaimer
  }

  /** The three failure lines differ from each other and from the fixed lines. */
  lemma LinesDistinct(assignment: string, parts: seq<string>)
    ensures ZipLine(assignment) != FoldersLine(parts)
    ensures ZipLine(assignment) != ReportLine(assignment)
    ensures FoldersLine(parts) != ReportLine(assignment)
    ensures !IsFixedLine(ZipLine(assignment), assignment)
    ensures !IsFixedLine(FoldersLine(parts), assignment)
    ensures !IsFixedLine(ReportLine(assignment), assignment)
  {
    FailureLineHeads(assignment, parts);
    FixedLineHeads(assignment);
  }

  /** The characters that tell the failure lines apart. */
  lemma FailureLineHeads(assignment: string, parts: seq<string>)
    ensures |ZipLine(assignment)| > 20 && ZipLine(assignment)[0] == ' ' && ZipLine(assignment)[20] == 'Z'
    ensures |FoldersLine(parts)| > 20 && FoldersLine(parts)[0] == ' ' && FoldersLine(parts)[20] == 'd'
    ensures |ReportLine(assignment)| > 20 && ReportLine(assignment)[0] == ' ' && ReportLine(assignment)[9] == 'a'
    ensures ZipLine(assignment)[9] == 's'
  {
  }

  /** The fixed lines never start with a blank. */
  lemma FixedLineHeads(assignment: string)
    ensures |Intro| > 0 && Intro[0] != ' '
    ensures |Reasons(assignment)| > 0 && Reasons(assignment)[0] != ' '
    ensures |Reminder| > 0 && Reminder[0] != ' '
    ensures |Disclaimer| > 0 && Disclaimer[0] != ' '
  {
  }

  /** The lines for the checks that failed, in the order zip, folders, report. */
  function FailureLines(assignment: string, parts: seq<string>, c: Compliance): (ls: seq<string>)
    ensures |ls| == FailCount(c)
  {
    (if c.zipNameCompliant == Fail then [ZipLine(assignment)] else [])
    + (if c.foldersCompliant == Fail then [FoldersLine(parts)] else [])
    + (if c.reportNameCompliant == Fail then [ReportLine(assignment)] else [])
  }

  /**
   * A failure line is present exactly when its flag is `False`; a flag that
   * passed or was not enforced adds nothing. The zip line comes first and
   * the report line last.
   */
  lemma FailureLinesExactly(assignment: string, parts: seq<string>, c: Compliance)
    ensures ZipLine(assignment) in FailureLines(assignment, parts, c) <==> c.zipNameCompliant == Fail
    ensures FoldersLine(parts) in FailureLines(assignment, parts, c) <==> c.foldersCompliant == Fail
    ensures ReportLine(assignment) in FailureLines(assignment, parts, c) <==> c.reportNameCompliant == Fail
    ensures c.zipNameCompliant == Fail ==> FailureLines(assignment, parts, c)[0] == ZipLine(assignment)
    ensures c.reportNameCompliant == Fail ==>
              var ls := FailureLines(assignment, parts, c); ls[|ls| - 1] == ReportLine(assignment)
  {
    LinesDistinct(assignment, parts);
    var z, f, r := ZipLine(assignment), FoldersLine(parts), ReportLine(assignment);
    Select3(z, f, r, c.zipNameCompliant == Fail, c.foldersCompliant == Fail, c.reportNameCompliant == Fail);
  }

  /** Selecting among three distinct items keeps exactly the chosen ones, in order. */
  lemma Select3(x: string, y: string, w: string, keepX: bool, keepY: bool, keepW: bool)
    requires x != y && x != w && y != w
    ensures var ls := (if keepX then [x] else []) + (if keepY then [y] else []) + (if keepW then [w] else []);
            && (x in ls <==> keepX) && (y in ls <==> keepY) && (w in ls <==> keepW)
            && (keepX ==> ls[0] == x) && (keepW ==> ls[|ls| - 1] == w)
  {
  }

  /**
   * The lines of the notice: the header, then the lines for the failed
   * checks, then the footer.
   */
  function MessageLines(assignment: string, parts: seq<string>, c: Compliance): (ms: seq<string>)
    ensures |ms| == 4 + FailCount(c)
    ensures ms[0] == Intro && ms[1] == Reasons(assignment)
    ensures ms[|ms| - 2] == Reminder && ms[|ms| - 1] == Disclaimer
  {
    [Intro, Reasons(assignment)] + FailureLines(assignment, parts, c) + [Reminder, Disclaimer]
  }

  /** The notice mentions a failed check exactly when that check's flag is `False`. */
  lemma MessageLinesExactly(assignment: string, parts: seq<string>, c: Compliance)
    ensures ZipLine(assignment) in MessageLines(assignment, parts, c) <==> c.zipNameCompliant == Fail
    ensures FoldersLine(parts) in MessageLines(assignment, parts, c) <==> c.foldersCompliant == Fail
    ensures ReportLine(assignment) in MessageLines(assignment, parts, c) <==> c.reportNameCompliant == Fail
  {
    LinesDistinct(assignment, parts);
    FailureLinesExactly(assignment, parts, c);
    var ls := FailureLines(assignment, parts, c);
    forall l | !IsFixedLine(l, assignment)
      ensures l in MessageLines(assignment, parts, c) <==> l in ls
    {
      InMiddle(Intro, Reasons(assignment), ls, Reminder, Disclaimer, l);
    }
  }

  /** An item other than the four framing ones is in the framed list exactly when it is in the middle. */
  lemma InMiddle(a: string, b: string, mid: seq<string>, y: string, z: string, l: string)
    requires l != a && l != b && l != y && l != z
    ensures l in [a, b] + mid + [y, z] <==> l in mid
  {
    var ms := [a, b] + mid + [y, z];
    if l in ms {
      var k :| 0 <= k < |ms| && ms[k] == l;
      assert 2 <= k < |ms| - 2;
      assert mid[k - 2] == l;
    }
    if l in mid {
      var k :| 0 <= k < |mid| && mid[k] == l;
      assert ms[k + 2] == l;
    }
  }

  /** The notice body: the lines joined by newlines. */
  function MessageBody(assignment: string, parts: seq<string>, c: Compliance): (body: string)
    ensures StartsWith(body, Intro + "\n" + Reasons(assignment) + "\n")
    ensures EndsWith(body, "\n" + Reminder + "\n" + Disclaimer)
  {
    var ms := MessageLines(assignment, parts, c);
    var body := Join("\n", ms);
    JoinFrame("\n", ms);
    body
  }

  /** With four or more lines, the first two and the last two are framed by the separator. */
  lemma JoinFrame(sep: string, ms: seq<string>)
    requires |ms| >= 4
    ensures StartsWith(Join(sep, ms), ms[0] + sep + ms[1] + sep)
    ensures EndsWith(Join(sep, ms), sep + ms[|ms| - 2] + sep + ms[|ms| - 1])
  {
    JoinStart(sep, ms);
    JoinEnd(sep, ms);
  }

  /** The first two items and a separator after each open the join of three or more. */
  lemma JoinStart(sep: string, ms: seq<string>)
    requires |ms| >= 3
    ensures StartsWith(Join(sep, ms), ms[0] + sep + ms[1] + sep)
  {
    assert ms[1..][0] == ms[1] && ms[1..][1..] == ms[2..];
    assert Join(sep, ms) == (ms[0] + sep + ms[1] + sep) + Join(sep, ms[2..]);
    Framed(ms[0] + sep + ms[1] + sep, Join(sep, ms[2..]));
  }

  /** The last two items and a separator before each close the join of three or more. */
  lemma JoinEnd(sep: string, ms: seq<string>)
    requires |ms| >= 3
    ensures EndsWith(Join(sep, ms), sep + ms[|ms| - 2] + sep + ms[|ms| - 1])
  {
    var n := |ms|;
    assert ms == ms[..n - 1] + [ms[n - 1]];
    assert ms[..n - 1] == ms[..n - 2] + [ms[n - 2]];
    JoinSnoc(sep, ms[..n - 1], ms[n - 1]);
    JoinSnoc(sep, ms[..n - 2], ms[n - 2]);
    assert Join(sep, ms) == Join(sep, ms[..n - 2]) + (sep + ms[n - 2] + sep + ms[n - 1]);
    Framed(Join(sep, ms[..n - 2]), sep + ms[n - 2] + sep + ms[n - 1]);
  }

  /** A concatenation starts with its first part and ends with its last. */
  lemma Framed(x: string, y: string)
    ensures StartsWith(x + y, x) && EndsWith(x + y, y)
  {
    assert (x + y)[..|x|] == x;
    assert (x + y)[|x|..] == y;
  }

  /** Joining two non-empty lists puts one separator between their joins. */
  lemma {:induction false} JoinSplit(sep: string, xs: seq<string>, ys: seq<string>)
    requires |xs| > 0 && |ys| > 0
    ensures Join(sep, xs + ys) == Join(sep, xs) + sep + Join(sep, ys)
    decreases |xs|
  {
    if |xs| == 1 {
      assert (xs + ys)[0] == xs[0];
      assert (xs + ys)[1..] == ys;
    } else {
      assert (xs + ys)[1..] == xs[1..] + ys;
      JoinSplit(sep, xs[1..], ys);
    }
  }
}
