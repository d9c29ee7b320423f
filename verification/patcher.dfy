/** `update_cloudy`: finds the first heading line of a named section in a
    line-oriented document and splices a content block in after it. The
    insertion point follows the code: directly below the heading when the
    heading starts with `"## "`, at the end of the document otherwise. */
module SectionPatch {
  import opened Wrappers
  import opened Text
  import opened Seqs

  datatype PatchError = SectionNotFound(section: string)

  // ---------------------------------------------------------------------------
  // The heading pattern `^##\s+(\d+\.\s+)?<section>`

  /** `\d+\.\s+`: one or more digits, a period, one or more whitespace characters. */
  predicate IsOrdinal(s: string) {
    exists d | 1 <= d < |s| - 1 :: AllDigits(s[..d]) && s[d] == '.' && AllWs(s[d + 1..])
  }

  /** The pattern matches `line` with `\s+` spanning `line[2..a]` and the
      optional ordinal spanning `line[a..b]`; the section text starts at `b`
      and anything may follow it. */
  predicate HeadingAt(line: string, section: string, a: nat, b: nat) {
    3 <= a <= b <= |line| && line[..2] == "##" && AllWs(line[2..a])
    && (a == b || IsOrdinal(line[a..b]))
    && StartsWith(line[b..], section)
  }

  /** `section_pattern.match(line)`, anchored at the start of the line. */
  predicate HeadingMatches(line: string, section: string)
    ensures HeadingMatches(line, section) ==> |line| >= 3 + |section| && Occurs(section, line)
  {
    HeadingHoldsSection(line, section);
    exists a: nat, b: nat | 3 <= a <= b <= |line| :: HeadingAt(line, section, a, b)
  }

  /** Wherever the pattern matches, the section text stands at `b`. */
  lemma HeadingHoldsSection(line: string, section: string)
    ensures forall a: nat, b: nat :: HeadingAt(line, section, a, b) ==> OccursAt(section, line, b)
  {
    forall a: nat, b: nat | HeadingAt(line, section, a, b) ensures OccursAt(section, line, b) {
      assert line[b..][..|section|] == line[b..b + |section|];
    }
  }

  /** A matching line starts with `##` and a whitespace character. */
  lemma HeadingShape(line: string, section: string)
    ensures HeadingMatches(line, section) ==> |line| >= 3 && StartsWith(line, "##") && IsWs(line[2])
  {
    if !HeadingMatches(line, section) {
      return;
    }
    var a: nat, b: nat :| 3 <= a <= b <= |line| && HeadingAt(line, section, a, b);
    assert line[2..a][0] == line[2];
  }

  /** The position of the first heading of the section, if there is one. */
  function FirstHeading(lines: seq<string>, section: string): (r: Option<nat>)
    ensures r.Some? ==> r.value < |lines| && HeadingMatches(lines[r.value], section)
    ensures r.Some? ==> forall j :: 0 <= j < r.value ==> !HeadingMatches(lines[j], section)
    ensures r.None? <==> forall j :: 0 <= j < |lines| ==> !HeadingMatches(lines[j], section)
  {
    FirstWhere(line => HeadingMatches(line, section), lines)
  }

  // ---------------------------------------------------------------------------
  // The insertion point, as the code computes it

  /** Lines 24-30: the inner loop tests the heading line itself, so it stops
      at once when the heading starts with `"## "` and never otherwise. */
  function InsertIndex(lines: seq<string>, i: nat): (k: nat)
    requires i < |lines|
    ensures i + 1 <= k <= |lines|
    ensures k == i + 1 || k == |lines|
  {
    if StartsWith(lines[i], "## ") then i + 1 else |lines|
  }

  /** `content` with a line break appended unless it already ends in one. */
  function NormalizeContent(content: string): (r: string)
    ensures EndsWith(r, "\n")
    ensures EndsWith(content, "\n") ==> r == content
    ensures !EndsWith(content, "\n") ==> r == content + "\n"
  {
    if EndsWith(content, "\n") then content else content + "\n"
  }

  /** What is spliced in at `k`: a blank line when the line above is not
      blank, then the content. */
  function NewLines(lines: seq<string>, k: nat, content: string): (r: seq<string>)
    requires k <= |lines|
    ensures 1 <= |r| <= 2 && r[|r| - 1] == NormalizeContent(content)
    ensures |r| == 2 ==> r[0] == "\n"
  {
    (if k > 0 && Strip(lines[k - 1]) != "" then ["\n"] else []) + [NormalizeContent(content)]
  }

  /** Line 49: `lines[k:k] = new_lines`. */
  function Splice(lines: seq<string>, k: nat, block: seq<string>): (r: seq<string>)
    requires k <= |lines|
    ensures |r| == |lines| + |block| && r[k..k + |block|] == block
    ensures block == [] ==> r == lines
  {
    lines[..k] + block + lines[k..]
  }

  /** A splice keeps every line before and after the insertion point, in
      order, and adds exactly the block. */
  lemma SpliceKeeps(lines: seq<string>, k: nat, block: seq<string>)
    requires k <= |lines|
    ensures |Splice(lines, k, block)| == |lines| + |block|
    ensures Splice(lines, k, block)[..k] == lines[..k]
    ensures Splice(lines, k, block)[k..k + |block|] == block
    ensures Splice(lines, k, block)[k + |block|..] == lines[k..]
    ensures multiset(Splice(lines, k, block)) == multiset(lines) + multiset(block)
  {
    var r := Splice(lines, k, block);
    assert r[..k] == lines[..k];
    assert r[k..k + |block|] == block;
    assert r[k + |block|..] == lines[k..];
    calc {
      multiset(r);
      multiset(lines[..k]) + multiset(block) + multiset(lines[k..]);
      { assert lines == lines[..k] + lines[k..]; }
      multiset(lines) + multiset(block);
    }
  }

  /** The patched document, or `SectionNotFound` when no heading matches. */
  function Patch(lines: seq<string>, section: string, content: string): (r: Result<seq<string>, PatchError>)
    ensures r.Failure? ==> r.error == SectionNotFound(section)
    ensures r.Success? ==> |lines| < |r.value| <= |lines| + 2 && NormalizeContent(content) in r.value
  {
    match FirstHeading(lines, section)
    case None => Failure(SectionNotFound(section))
    case Some(i) =>
      var k := InsertIndex(lines, i);
      Success(Splice(lines, k, NewLines(lines, k, content)))
  }

  /** Lines 19-31: the scan for the first heading and the inner for-else
      that sets the insertion index; -1 when no heading matches. */
  method FindInsertIndex(lines: seq<string>, section: string) returns (insertIdx: int)
    ensures FirstHeading(lines, section).None? ==> insertIdx == -1
    ensures FirstHeading(lines, section).Some? ==> insertIdx == InsertIndex(lines, FirstHeading(lines, section).value)
  {
    insertIdx := -1;
    for i := 0 to |lines|
      invariant insertIdx == -1
      invariant forall h :: 0 <= h < i ==> !HeadingMatches(lines[h], section)
    {
      var line := lines[i];
      if HeadingMatches(line, section) {
        var exhausted := true;
        for j := i + 1 to |lines|
          invariant exhausted && insertIdx == -1
          invariant StartsWith(line, "## ") ==> j == i + 1
        {
          if StartsWith(line, "## ") {
            insertIdx := j;
            exhausted := false;
            break;
          }
        }
        if exhausted {
          insertIdx := |lines|;
        }
        assert FirstHeading(lines, section) == Some(i);
        return;
      }
    }
  }

  /** Lines 39-47: the content, normalised, after a blank spacer line when
      the line above the insertion point is not blank. */
  method BuildNewLines(lines: seq<string>, insertIdx: nat, content: string) returns (newLines: seq<string>)
    requires insertIdx <= |lines|
    ensures newLines == NewLines(lines, insertIdx, content)
  {
    var block := content;
    if !EndsWith(block, "\n") {
      block := block + "\n";
    }
    newLines := [];
    if insertIdx > 0 && Strip(lines[insertIdx - 1]) != "" {
      newLines := newLines + ["\n"];
    }
    newLines := newLines + [block];
  }

  /** The body of `update_cloudy` without the file reading and writing. */
  method UpdateCloudy(lines: seq<string>, section: string, content: string)
    returns (result: Result<seq<string>, PatchError>)
    ensures result == Patch(lines, section, content)
  {
    var insertIdx := FindInsertIndex(lines, section);
    if insertIdx == -1 {
      assert FirstHeading(lines, section).None?;
      return Failure(SectionNotFound(section));
    }
    var newLines := BuildNewLines(lines, insertIdx, content);
    var patched := lines;
    patched := patched[..insertIdx] + newLines + patched[insertIdx..];
    assert patched == Splice(lines, insertIdx, newLines);
    PatchAtInsertIndex(lines, section, content);
    return Success(patched);
  }

  /** When a heading matches, the patch splices the new lines in at the
      insertion index of the first heading. */
  lemma PatchAtInsertIndex(lines: seq<string>, section: string, content: string)
    ensures FirstHeading(lines, section).Some? ==>
      var k := InsertIndex(lines, FirstHeading(lines, section).value);
      Patch(lines, section, content) == Success(Splice(lines, k, NewLines(lines, k, content)))
  {
  }

  // ---------------------------------------------------------------------------
  // Properties of the patch

  /** The patch fails exactly when no line is a heading of the section, and
      then reports that section. */
  lemma PatchFailsIffNoHeading(lines: seq<string>, section: string, content: string)
    ensures Patch(lines, section, content).Failure?
        <==> forall j :: 0 <= j < |lines| ==> !HeadingMatches(lines[j], section)
    ensures Patch(lines, section, content).Failure?
        ==> Patch(lines, section, content).error == SectionNotFound(section)
  {
  }

  /** Only the first heading of the section counts; later ones are ignored. */
  lemma PatchAtFirstHeading(lines: seq<string>, section: string, content: string, i: nat)
    requires i < |lines| && HeadingMatches(lines[i], section)
    requires forall j :: 0 <= j < i ==> !HeadingMatches(lines[j], section)
    ensures var k := InsertIndex(lines, i);
      Patch(lines, section, content) == Success(Splice(lines, k, NewLines(lines, k, content)))
  {
    assert FirstHeading(lines, section).value == i;
  }

  /** The content lands directly below the heading exactly when the heading
      starts with `"## "` or is the last line. */
  lemma InsertIndexBelowHeading(lines: seq<string>, i: nat)
    requires i < |lines|
    ensures InsertIndex(lines, i) == i + 1 <==> StartsWith(lines[i], "## ") || i + 1 == |lines|
  {
  }

  /** Normalising twice changes nothing more. */
  lemma NormalizeContentIdempotent(content: string)
    ensures NormalizeContent(NormalizeContent(content)) == NormalizeContent(content)
  {
  }

  /** A blank line is spliced in exactly when the line above the insertion
      point holds something other than whitespace; the content comes last. */
  lemma SpacerIffLineAboveNotBlank(lines: seq<string>, k: nat, content: string)
    requires 1 <= k <= |lines|
    ensures |NewLines(lines, k, content)| == 2 <==> !AllWs(lines[k - 1])
    ensures |NewLines(lines, k, content)| == 2 ==> NewLines(lines, k, content)[0] == "\n"
    ensures NewLines(lines, k, content)[|NewLines(lines, k, content)| - 1] == NormalizeContent(content)
  {
  }

  /** The patch only inserts: the lines before and after the insertion point
      are kept in order, one or two lines are added, and the last of them is
      the normalised content. */
  lemma PatchInsertsOnly(lines: seq<string>, section: string, content: string)
    requires Patch(lines, section, content).Success?
    ensures var r := Patch(lines, section, content).value;
      var k := InsertIndex(lines, FirstHeading(lines, section).value);
      && 1 <= k <= |lines|
      && (|r| == |lines| + 1 || |r| == |lines| + 2)
      && r[..k] == lines[..k]
      && r[|r| - (|lines| - k)..] == lines[k..]
      && multiset(r) == multiset(lines) + multiset(NewLines(lines, k, content))
      && r[|r| - (|lines| - k) - 1] == NormalizeContent(content)
  {
    var k := InsertIndex(lines, FirstHeading(lines, section).value);
    var n := NewLines(lines, k, content);
    SpliceKeeps(lines, k, n);
    var r := Splice(lines, k, n);
    assert r[k..k + |n|][|n| - 1] == r[k + |n| - 1];
  }

  /** Two documents that agree up to the first heading of one of them have
      the same first heading. */
  lemma FirstHeadingAgrees(a: seq<string>, b: seq<string>, section: string, i: nat)
    requires FirstHeading(a, section) == Some(i) && i < |b|
    requires i < |a| && a[..i + 1] == b[..i + 1]
    ensures FirstHeading(b, section) == Some(i)
  {
    FirstWhereAgrees(line => HeadingMatches(line, section), a, b, i);
  }

  /** A splice below the first heading leaves the first heading where it was. */
  lemma FirstHeadingSplice(lines: seq<string>, section: string, k: nat, block: seq<string>)
    requires FirstHeading(lines, section).Some? && FirstHeading(lines, section).value < k <= |lines|
    ensures FirstHeading(Splice(lines, k, block), section) == FirstHeading(lines, section)
  {
    var i := FirstHeading(lines, section).value;
    var r := Splice(lines, k, block);
    assert lines[..i + 1] == r[..i + 1] by {
      assert r == lines[..k] + (block + lines[k..]);
      assert lines[..i + 1] == lines[..k][..i + 1];
    }
    FirstHeadingAgrees(lines, r, section, i);
  }

  /** The lines before the insertion point, the heading among them, survive
      a patch, so a second patch finds the same heading. */
  lemma PatchKeepsHeading(lines: seq<string>, section: string, content: string)
    requires Patch(lines, section, content).Success?
    ensures FirstHeading(Patch(lines, section, content).value, section) == FirstHeading(lines, section)
  {
    var i := FirstHeading(lines, section).value;
    var k := InsertIndex(lines, i);
    var n := NewLines(lines, k, content);
    PatchAtInsertIndex(lines, section, content);
    FirstHeadingSplice(lines, section, k, n);
  }

  /** Splicing a block in below line `k - 1` leaves that line, and so the
      spacer decision, as it was; a second splice of the same block at the
      same place stacks the two copies. */
  lemma SpliceTwice(lines: seq<string>, k: nat, content: string)
    requires 1 <= k <= |lines|
    ensures var n := NewLines(lines, k, content);
      var r := Splice(lines, k, n);
      && r[k - 1] == lines[k - 1]
      && NewLines(r, k, content) == n
      && Splice(r, k, n) == lines[..k] + n + n + lines[k..]
  {
    var n := NewLines(lines, k, content);
    var r := Splice(lines, k, n);
    SpliceKeeps(lines, k, n);
    assert r[..k][k - 1] == lines[..k][k - 1];
    assert r[k..] == n + lines[k..] by {
      assert r == lines[..k] + (n + lines[k..]);
    }
  }

  /** Patching twice under a `"## "` heading stacks two copies of the block
      directly below the heading: the patch is not idempotent. */
  lemma PatchTwiceUnderHeading(lines: seq<string>, section: string, content: string)
    requires FirstHeading(lines, section).Some?
    requires StartsWith(lines[FirstHeading(lines, section).value], "## ")
    ensures var k := FirstHeading(lines, section).value + 1;
      var n := NewLines(lines, k, content);
      Patch(lines, section, content).Success?
      && Patch(Patch(lines, section, content).value, section, content)
         == Success(lines[..k] + n + n + lines[k..])
  {
    var i := FirstHeading(lines, section).value;
    var k := i + 1;
    var n := NewLines(lines, k, content);
    var r := Splice(lines, k, n);
    PatchAtFirstHeading(lines, section, content, i);
    PatchKeepsHeading(lines, section, content);
    SpliceTwice(lines, k, content);
    PatchAtFirstHeading(r, section, content, i);
  }

  /** Patching twice always leaves at least two more copies of the block. */
  lemma PatchTwiceDuplicates(lines: seq<string>, section: string, content: string)
    requires Patch(lines, section, content).Success?
    ensures Patch(Patch(lines, section, content).value, section, content).Success?
    ensures var twice := Patch(Patch(lines, section, content).value, section, content).value;
      multiset(twice)[NormalizeContent(content)] >= multiset(lines)[NormalizeContent(content)] + 2
  {
    var once := Patch(lines, section, content).value;
    PatchKeepsHeading(lines, section, content);
    PatchInsertsOnly(lines, section, content);
    PatchInsertsOnly(once, section, content);
    var c := NormalizeContent(content);
    var k1 := InsertIndex(lines, FirstHeading(lines, section).value);
    var k2 := InsertIndex(once, FirstHeading(once, section).value);
    var n1, n2 := NewLines(lines, k1, content), NewLines(once, k2, content);
    assert n1[|n1| - 1] == c && n2[|n2| - 1] == c;
    assert multiset(n1)[c] >= 1 && multiset(n2)[c] >= 1;
  }

  // ---------------------------------------------------------------------------
  // The heading pattern on sample lines

  /** A numbered heading matches its title. */
  lemma OrdinalHeadingMatches()
    ensures HeadingMatches("## 1. 项目规范\n", "项目规范")
  {
    var line := "## 1. 项目规范\n";
    var ordinal := line[3..6];
    assert ordinal == "1. ";
    assert ordinal[..1] == "1" && ordinal[1] == '.' && ordinal[2..] == " ";
    assert IsOrdinal(ordinal);
    assert line[..2] == "##" && line[2..3] == " ";
    assert line[6..][..4] == "项目规范";
    assert HeadingAt(line, "项目规范", 3, 6);
  }

  /** The title is matched as a prefix: a longer title matches too. */
  lemma LongerTitleMatches()
    ensures HeadingMatches("## 项目规范扩展\n", "项目规范")
  {
    var line := "## 项目规范扩展\n";
    assert line[..2] == "##" && line[2..3] == " ";
    assert line[3..][..4] == "项目规范";
    assert HeadingAt(line, "项目规范", 3, 3);
  }

  /** Any whitespace after the marker will do, a tab included. */
  lemma TabHeadingMatches()
    ensures HeadingMatches("##\t项目规范\n", "项目规范")
  {
    var line := "##\t项目规范\n";
    assert line[..2] == "##" && line[2..3] == "\t";
    assert line[3..][..4] == "项目规范";
    assert HeadingAt(line, "项目规范", 3, 3);
  }

  /** A third `#`, a missing space or text before the marker: no match. */
  lemma NonHeadingsRejected(section: string)
    ensures !HeadingMatches("### " + section, section)
    ensures !HeadingMatches("##" + section, section) || (|section| > 0 && IsWs(section[0]))
    ensures !HeadingMatches("text ## " + section, section)
  {
    HeadingShape("### " + section, section);
    assert ("### " + section)[2] == '#';
    HeadingShape("##" + section, section);
    assert |section| > 0 ==> ("##" + section)[2] == section[0];
    HeadingShape("text ## " + section, section);
    assert ("text ## " + section)[..2] == "te";
  }

  // ---------------------------------------------------------------------------
  // The insertion point as the comments at lines 23 and 37 describe it

  /** The first line at or after `j` that starts with `"## "`, or the end of
      the document. */
  function NextHeading(lines: seq<string>, j: nat): (k: nat)
    requires j <= |lines|
    ensures j <= k <= |lines|
    ensures k < |lines| ==> StartsWith(lines[k], "## ")
    ensures forall h :: j <= h < k ==> !StartsWith(lines[h], "## ")
    decreases |lines| - j
  {
    if j == |lines| then j
    else if StartsWith(lines[j], "## ") then j
    else NextHeading(lines, j + 1)
  }

  /** The intended insertion point: before the next `"## "` heading after
      the section heading at `i`, or at the end of the document. */
  function IntendedInsertIndex(lines: seq<string>, i: nat): (k: nat)
    requires i < |lines|
    ensures i + 1 <= k <= |lines|
  {
    NextHeading(lines, i + 1)
  }

  /** The intended insertion point closes the section: no `"## "` line lies
      between the heading and it, and it is the next heading if it is not
      the end of the document. It is the only such point. */
  lemma IntendedInsertIndexIsSectionEnd(lines: seq<string>, i: nat, k: nat)
    requires i < |lines| && i + 1 <= k <= |lines|
    ensures k == IntendedInsertIndex(lines, i)
        <==> (k < |lines| ==> StartsWith(lines[k], "## "))
             && forall h :: i < h < k ==> !StartsWith(lines[h], "## ")
  {
    var e := IntendedInsertIndex(lines, i);
    if k < e {
      assert !StartsWith(lines[k], "## ");
    } else if e < k {
      assert i < e < k && StartsWith(lines[e], "## ");
    }
  }

  /** Lines 19-31 with the inner loop testing `lines[j]`, as intended. */
  method FindSectionEnd(lines: seq<string>, section: string) returns (insertIdx: int)
    ensures FirstHeading(lines, section).None? ==> insertIdx == -1
    ensures FirstHeading(lines, section).Some? ==> insertIdx == IntendedInsertIndex(lines, FirstHeading(lines, section).value)
  {
    insertIdx := -1;
    for i := 0 to |lines|
      invariant insertIdx == -1
      invariant forall h :: 0 <= h < i ==> !HeadingMatches(lines[h], section)
    {
      if HeadingMatches(lines[i], section) {
        var exhausted := true;
        for j := i + 1 to |lines|
          invariant exhausted && insertIdx == -1
          invariant NextHeading(lines, i + 1) == NextHeading(lines, j)
        {
          if StartsWith(lines[j], "## ") {
            insertIdx := j;
            exhausted := false;
            break;
          }
        }
        if exhausted {
          insertIdx := |lines|;
        }
        assert FirstHeading(lines, section) == Some(i);
        return;
      }
    }
  }

  /** The patch with the intended insertion point. */
  function PatchAtSectionEnd(lines: seq<string>, section: string, content: string): (r: Result<seq<string>, PatchError>)
    ensures r.Failure? ==> r.error == SectionNotFound(section)
    ensures r.Success? ==> |lines| < |r.value| <= |lines| + 2 && NormalizeContent(content) in r.value
  {
    match FirstHeading(lines, section)
    case None => Failure(SectionNotFound(section))
    case Some(i) =>
      var k := IntendedInsertIndex(lines, i);
      Success(Splice(lines, k, NewLines(lines, k, content)))
  }

  /** With the intended insertion point the block stays inside its section:
      the section's own lines come before it unchanged and the next heading,
      if any, follows it directly. */
  lemma PatchAtSectionEndStaysInSection(lines: seq<string>, section: string, content: string)
    requires FirstHeading(lines, section).Some?
    ensures var i := FirstHeading(lines, section).value;
      var k := IntendedInsertIndex(lines, i);
      var n := NewLines(lines, k, content);
      var r := PatchAtSectionEnd(lines, section, content).value;
      && PatchAtSectionEnd(lines, section, content).Success?
      && r[..k] == lines[..k]
      && (forall h :: i < h < k ==> !StartsWith(r[h], "## "))
      && r[k..k + |n|] == n
      && r[k + |n|..] == lines[k..]
      && (k < |lines| ==> StartsWith(r[k + |n|], "## "))
  {
    var i := FirstHeading(lines, section).value;
    var k := IntendedInsertIndex(lines, i);
    var n := NewLines(lines, k, content);
    var r := Splice(lines, k, n);
    SpliceKeeps(lines, k, n);
    assert forall h :: 0 <= h < k ==> r[h] == lines[h] by {
      assert forall h :: 0 <= h < k ==> r[..k][h] == r[h];
    }
    if k < |lines| {
      assert r[k + |n|..][0] == lines[k..][0];
    }
  }

  /** The code and the intended behaviour agree exactly when the heading
      starts with `"## "` and is followed by another such heading or by the
      end of the document, or when it does not start with `"## "` and no
      `"## "` line follows it. */
  lemma InsertIndexAgreesIff(lines: seq<string>, i: nat)
    requires i < |lines|
    ensures InsertIndex(lines, i) == IntendedInsertIndex(lines, i)
        <==> if StartsWith(lines[i], "## ")
             then i + 1 == |lines| || StartsWith(lines[i + 1], "## ")
             else forall h :: i < h < |lines| ==> !StartsWith(lines[h], "## ")
  {
    IntendedInsertIndexIsSectionEnd(lines, i, InsertIndex(lines, i));
  }

  /** A numbered section with a line of old content: the code splices the
      new block in above the old content (index 1), where the section end is
      index 2. */
  lemma InsertsAboveOldContent()
    ensures var lines := ["## 1. 项目规范\n", "旧内容\n", "## 2. 下一节\n"];
      && FirstHeading(lines, "项目规范") == Some(0)
      && InsertIndex(lines, 0) == 1
      && IntendedInsertIndex(lines, 0) == 2
  {
    var lines := ["## 1. 项目规范\n", "旧内容\n", "## 2. 下一节\n"];
    OrdinalHeadingMatches();
    assert lines[0][..3] == "## ";
    assert lines[1][..3] != "## " by {
      assert lines[1][0] == '旧';
    }
    assert lines[2][..3] == "## ";
  }

  /** A heading written with a tab: the code appends at the end of the
      document (index 2), inside the following section, where the section
      end is index 1. */
  lemma TabHeadingOverrunsSection()
    ensures var lines := ["##\t项目规范\n", "## 下一节\n"];
      && FirstHeading(lines, "项目规范") == Some(0)
      && InsertIndex(lines, 0) == 2
      && IntendedInsertIndex(lines, 0) == 1
  {
    var lines := ["##\t项目规范\n", "## 下一节\n"];
    TabHeadingMatches();
    assert lines[0][..3] != "## " by {
      assert lines[0][2] == '\t';
    }
    assert lines[1][..3] == "## ";
  }
}
