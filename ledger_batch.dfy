/**
 * The batch status update on the lines read (update_postings_status between its read and
 * its write): validation of every target, grouping by owning header, and the rewrite of
 * each affected transaction, with what the result guarantees about every line.
 */
module LedgerBatch {
  import opened Wrappers
  import opened Text
  import opened LedgerLines
  import opened LedgerStructure

  // ---------------------------------------------------------------------------
  // Groupings are valid rewrite plans

  /** Every target listed under h is a target that h owns. */
  lemma {:induction false} TargetsOwnedByMember(lines: seq<string>, targets: seq<int>, h: nat, j: nat)
    requires InFile(lines, targets) && j < |TargetsOwnedBy(lines, targets, h)|
    ensures TargetsOwnedBy(lines, targets, h)[j] in targets
    ensures FindTransaction(lines, TargetsOwnedBy(lines, targets, h)[j]) == Some(h)
    decreases |targets|
  {
    var prefix := targets[..|targets| - 1];
    var p := targets[|targets| - 1];
    var before := TargetsOwnedBy(lines, prefix, h);
    if j < |before| {
      TargetsOwnedByMember(lines, prefix, h, j);
      assert TargetsOwnedBy(lines, targets, h)[j] == before[j];
    } else {
      assert TargetsOwnedBy(lines, targets, h)[j] == p;
    }
  }

  /** Only targets are listed. */
  lemma TargetsOwnedByOnly(lines: seq<string>, targets: seq<int>, h: nat, p: int)
    requires InFile(lines, targets) && p !in targets
    ensures p !in TargetsOwnedBy(lines, targets, h)
  {
    if p in TargetsOwnedBy(lines, targets, h) {
      var j :| 0 <= j < |TargetsOwnedBy(lines, targets, h)| && TargetsOwnedBy(lines, targets, h)[j] == p;
      TargetsOwnedByMember(lines, targets, h, j);
    }
  }

  /** Every target that h owns is listed under h. */
  lemma {:induction false} TargetsOwnedByHas(lines: seq<string>, targets: seq<int>, h: nat, k: nat)
    requires InFile(lines, targets) && k < |targets| && FindTransaction(lines, targets[k]) == Some(h)
    ensures targets[k] in TargetsOwnedBy(lines, targets, h)
    decreases |targets|
  {
    var prefix := targets[..|targets| - 1];
    if k < |prefix| {
      assert prefix[k] == targets[k];
      TargetsOwnedByHas(lines, prefix, h, k);
    }
  }

  /** The header of a grouping entry is a header line that owns the entry's targets. */
  lemma EntryHeader(lines: seq<string>, targets: seq<int>, groups: seq<Group>, k: nat)
    requires InFile(lines, targets) && IsGroupingOf(lines, targets, groups) && k < |groups|
    ensures groups[k].header in HeaderLines(lines)
  {
    TargetsOwnedByMember(lines, targets, groups[k].header, 0);
    var p := groups[k].postings[0];
    FindTransactionSpec(lines, p, groups[k].header);
    assert IsHeaderAt(lines, groups[k].header);
  }

  /** A grouping of targets is a plan the rewrite can follow: distinct header lines. */
  lemma GroupingValid(lines: seq<string>, targets: seq<int>, groups: seq<Group>)
    requires InFile(lines, targets) && IsGroupingOf(lines, targets, groups)
    ensures ValidGroups(lines, groups)
  {
    forall k | 0 <= k < |groups|
      ensures groups[k].header in HeaderLines(lines)
    {
      EntryHeader(lines, targets, groups, k);
    }
  }

  /** Every listed target passed validation. */
  lemma ValidMember(lines: seq<string>, targets: seq<int>, expected: string, p: int)
    requires AllValid(lines, targets, expected) && p in targets
    ensures ValidTarget(lines, p, expected)
  {
    var k :| 0 <= k < |targets| && targets[k] == p;
  }

  /** Validated targets all lie in the file. */
  lemma ValidInFile(lines: seq<string>, targets: seq<int>, expected: string)
    requires AllValid(lines, targets, expected)
    ensures InFile(lines, targets)
  {
    forall k | 0 <= k < |targets|
      ensures targets[k] - 2 < |lines|
    {
      assert ValidTarget(lines, targets[k], expected);
    }
  }

  /** Validated targets always group, and the grouping is a valid rewrite plan. */
  lemma ValidBatchGroups(lines: seq<string>, targets: seq<int>, expected: string)
    requires AllValid(lines, targets, expected)
    ensures InFile(lines, targets)
    ensures GroupTargets(lines, targets).Some?
    ensures IsGroupingOf(lines, targets, GroupTargets(lines, targets).value)
    ensures ValidGroups(lines, GroupTargets(lines, targets).value)
  {
    ValidInFile(lines, targets, expected);
    forall k | 0 <= k < |targets|
      ensures FindTransaction(lines, targets[k]).Some?
    {
      assert ValidTarget(lines, targets[k], expected);
    }
    GroupTargetsFails(lines, targets);
    GroupTargetsGroups(lines, targets);
    GroupingValid(lines, targets, GroupTargets(lines, targets).value);
  }

  // ---------------------------------------------------------------------------
  // The batch

  /** The lines update_postings_status writes back, or None when it returns False before
      writing: some target is invalid, or some target has no owner. */
  function UpdatedLines(lines: seq<string>, targets: seq<int>, expected: string, s: Status): Option<seq<string>>
  {
    if !AllValid(lines, targets, expected) then None
    else
      assert InFile(lines, targets) by { ValidInFile(lines, targets, expected); }
      match GroupTargets(lines, targets)
      case None => None
      case Some(groups) => Some(Apply(lines, groups, s))
  }

  /** The batch is refused exactly when some target fails validation; refusal changes no
      line, and grouping never refuses a validated batch. */
  lemma BatchRefused(lines: seq<string>, targets: seq<int>, expected: string, s: Status)
    ensures UpdatedLines(lines, targets, expected, s).None?
        <==> exists k :: 0 <= k < |targets| && !ValidTarget(lines, targets[k], expected)
  {
    if AllValid(lines, targets, expected) {
      ValidBatchGroups(lines, targets, expected);
    }
  }

  /** The entry of the grouping that lists target p. */
  lemma EntryOf(lines: seq<string>, targets: seq<int>, expected: string, p: int) returns (m: nat)
    requires AllValid(lines, targets, expected) && p in targets
    ensures InFile(lines, targets) && GroupTargets(lines, targets).Some?
    ensures ValidGroups(lines, GroupTargets(lines, targets).value)
    ensures 1 <= p <= |lines|
    ensures var groups := GroupTargets(lines, targets).value;
      m < |groups| && FindTransaction(lines, p) == Some(groups[m].header)
      && groups[m].postings == TargetsOwnedBy(lines, targets, groups[m].header)
      && p in groups[m].postings
  {
    ValidBatchGroups(lines, targets, expected);
    var groups := GroupTargets(lines, targets).value;
    var k :| 0 <= k < |targets| && targets[k] == p;
    assert ValidTarget(lines, targets[k], expected);
    m :| 0 <= m < |groups| && FindTransaction(lines, targets[k]) == Some(groups[m].header);
    TargetsOwnedByHas(lines, targets, groups[m].header, k);
  }

  /** A target on line i + 1 that the forward scan of its owner collects reads back the new
      status. */
  lemma BatchTargetsRead(lines: seq<string>, targets: seq<int>, expected: string, s: Status, a: seq<string>, i: nat)
    requires UpdatedLines(lines, targets, expected, s) == Some(a) && i + 1 in targets
    requires var h := FindTransaction(lines, i + 1).value;
      WellMarked(lines, h) && i < RunEnd(lines, h)
    ensures EffectiveStatusAt(a, i + 1, FindTransaction(lines, i + 1).value) == s
  {
    var m := EntryOf(lines, targets, expected, i + 1);
    var groups := GroupTargets(lines, targets).value;
    ApplyTargets(lines, groups, s, m, i);
  }

  /** A posting on line i + 1 that the scan of an affected transaction collects but that is
      not a target keeps its effective status, when the scan collects a target t + 1 of that
      transaction too. */
  lemma BatchKeepsOthers(lines: seq<string>, targets: seq<int>, expected: string, s: Status, a: seq<string>, t: nat, i: nat)
    requires UpdatedLines(lines, targets, expected, s) == Some(a) && t + 1 in targets
    requires var h := FindTransaction(lines, t + 1).value;
      WellMarked(lines, h) && t < RunEnd(lines, h) && h <= i < RunEnd(lines, h)
    requires i + 1 !in targets
    ensures var h := FindTransaction(lines, t + 1).value;
      EffectiveStatusAt(a, i + 1, h) == EffectiveStatusAt(lines, i + 1, h)
  {
    var m := EntryOf(lines, targets, expected, t + 1);
    var groups := GroupTargets(lines, targets).value;
    GroupKeepsOthers(lines, targets, groups, s, a, m, t, i);
  }

  /** BatchKeepsOthers for entry m of the grouping. */
  lemma GroupKeepsOthers(lines: seq<string>, targets: seq<int>, groups: seq<Group>, s: Status, a: seq<string>, m: nat, t: nat, i: nat)
    requires InFile(lines, targets) && ValidGroups(lines, groups) && m < |groups| && a == Apply(lines, groups, s)
    requires groups[m].postings == TargetsOwnedBy(lines, targets, groups[m].header)
    requires WellMarked(lines, groups[m].header) && t + 1 in groups[m].postings && i + 1 !in targets
    requires groups[m].header <= t < RunEnd(lines, groups[m].header)
    requires groups[m].header <= i < RunEnd(lines, groups[m].header)
    ensures EffectiveStatusAt(a, i + 1, groups[m].header) == EffectiveStatusAt(lines, i + 1, groups[m].header)
  {
    TargetsOwnedByOnly(lines, targets, groups[m].header, i + 1);
    ApplyKeepsOthers(lines, groups, s, m, i, t);
  }

  /** The two forms an affected transaction ends in: in header mode the header carries the
      new status and no collected posting a marker; otherwise the header carries none and
      each collected posting its final status. */
  lemma BatchForms(lines: seq<string>, targets: seq<int>, expected: string, s: Status, a: seq<string>, t: nat, i: nat)
    requires UpdatedLines(lines, targets, expected, s) == Some(a) && t + 1 in targets
    requires var h := FindTransaction(lines, t + 1).value;
      WellMarked(lines, h) && h <= i < RunEnd(lines, h)
    ensures var h := FindTransaction(lines, t + 1).value;
      var g := Group(h, TargetsOwnedBy(lines, targets, h));
      && HeaderMarkerAt(a, h) == HeaderStatus(lines, g, s)
      && ExtractPostingStatus(a[i]) == PostingStatus(lines, g, s, i)
  {
    var m := EntryOf(lines, targets, expected, t + 1);
    var groups := GroupTargets(lines, targets).value;
    GroupForms(lines, groups, s, a, m, i);
  }

  /** BatchForms for entry m of the grouping. */
  lemma GroupForms(lines: seq<string>, groups: seq<Group>, s: Status, a: seq<string>, m: nat, i: nat)
    requires ValidGroups(lines, groups) && m < |groups| && a == Apply(lines, groups, s)
    requires WellMarked(lines, groups[m].header) && groups[m].header <= i < RunEnd(lines, groups[m].header)
    ensures HeaderMarkerAt(a, groups[m].header) == HeaderStatus(lines, groups[m], s)
    ensures ExtractPostingStatus(a[i]) == PostingStatus(lines, groups[m], s, i)
  {
    ApplyPair(lines, groups, s, m, i);
    StepHeader(lines, groups[m], s);
    StepPosting(lines, groups[m], s, i);
  }

  /** A line in the region of no affected transaction is written back unchanged. */
  lemma BatchUntouched(lines: seq<string>, targets: seq<int>, expected: string, s: Status, a: seq<string>, i: nat)
    requires UpdatedLines(lines, targets, expected, s) == Some(a) && i < |lines|
    requires forall k :: 0 <= k < |targets| ==>
      var h := FindTransaction(lines, targets[k]).value; 1 <= h <= |lines| && !InRegion(lines, h, i)
    ensures a[i] == lines[i]
  {
    ValidBatchGroups(lines, targets, expected);
    var groups := GroupTargets(lines, targets).value;
    forall m | 0 <= m < |groups|
      ensures !InRegion(lines, groups[m].header, i)
    {
      TargetsOwnedByMember(lines, targets, groups[m].header, 0);
      var p := groups[m].postings[0];
      var k :| 0 <= k < |targets| && targets[k] == p;
    }
    ApplyOutside(lines, groups, s, i);
  }

  /** A valid posting line is not a header. */
  lemma PostingNotHeader(line: string)
    requires IsValidPostingLine(line)
    ensures !IsHeader(line)
  {
  }

  /** A validated target on line i + 1 is a valid posting line, owned by the header the
      backward scan finds. */
  lemma TargetLine(lines: seq<string>, targets: seq<int>, expected: string, i: nat)
    requires AllValid(lines, targets, expected) && i + 1 in targets
    ensures i < |lines| && IsValidPostingLine(lines[i]) && FindTransaction(lines, i + 1).Some?
    ensures IsOwner(lines, FindTransaction(lines, i + 1).value, i + 1)
  {
    ValidMember(lines, targets, expected, i + 1);
    SameLine(lines, i + 1, i);
    FindTransactionSpec(lines, i + 1, FindTransaction(lines, i + 1).value);
  }

  /** Line i (0-based) is in the region of no header other than h, the owner of line i + 1. */
  lemma OnlyOwnerRegion(lines: seq<string>, i: nat, h: nat, h2: nat)
    requires i < |lines| && IsValidPostingLine(lines[i]) && IsOwner(lines, h, i + 1)
    requires h2 in HeaderLines(lines) && h2 != h
    ensures !InRegion(lines, h2, i)
  {
    assert IsHeaderAt(lines, h2);
    assert IsHeaderAt(lines, h);
    assert h in HeaderLines(lines);
    PostingNotHeader(lines[i]);
    if h2 < h {
      RegionsApart(lines, h2, h);
    }
  }

  /** A validated target on line i + 1 beyond the scan of its owner h lies in the region of
      no affected transaction. */
  lemma BeyondRunOutside(lines: seq<string>, targets: seq<int>, expected: string, i: nat, h: nat)
    requires AllValid(lines, targets, expected) && i < |lines| && IsValidPostingLine(lines[i])
    requires IsOwner(lines, h, i + 1) && i >= RunEnd(lines, h)
    ensures forall k :: 0 <= k < |targets| ==>
      var h2 := FindTransaction(lines, targets[k]).value; 1 <= h2 <= |lines| && !InRegion(lines, h2, i)
  {
    forall k | 0 <= k < |targets|
      ensures var h2 := FindTransaction(lines, targets[k]).value; 1 <= h2 <= |lines| && !InRegion(lines, h2, i)
    {
      assert ValidTarget(lines, targets[k], expected);
      var h2 := FindTransaction(lines, targets[k]).value;
      FindTransactionSpec(lines, targets[k], h2);
      assert IsHeaderAt(lines, h2);
      if h2 != h {
        OnlyOwnerRegion(lines, i, h, h2);
      }
    }
  }

  /** A validated target on line i + 1 that the forward scan of its owner does not reach
      (an un-indented line comes between them) is written back unchanged. */
  lemma BatchTargetBeyondRun(lines: seq<string>, targets: seq<int>, expected: string, s: Status, a: seq<string>, i: nat)
    requires UpdatedLines(lines, targets, expected, s) == Some(a) && i + 1 in targets
    requires i >= RunEnd(lines, FindTransaction(lines, i + 1).value)
    ensures a[i] == lines[i]
  {
    TargetLine(lines, targets, expected, i);
    BeyondRunOutside(lines, targets, expected, i, FindTransaction(lines, i + 1).value);
    BatchUntouched(lines, targets, expected, s, a, i);
  }
}
