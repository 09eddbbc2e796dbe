/**
 * The multi-line part of the ledger file editor, as specification functions over the
 * file's lines: the transaction a posting belongs to (a backward scan), the postings a
 * transaction header owns (a forward scan), the validation of a batch of target postings,
 * their grouping by transaction, and the rewrite of every affected transaction.
 *
 * Line numbers are 1-based, as in the editor's interface; `lines[n - 1]` is line n.
 */
module LedgerStructure {
  import opened Wrappers
  import opened Text
  import opened LedgerLines

  // ---------------------------------------------------------------------------
  // The transaction that owns a posting (_find_transaction_for_posting)

  /** The backward scan from the 0-based index i: the first header reached, as a 1-based
      line number, or None when a blank line or the start of the file comes first. */
  function OwnerFrom(lines: seq<string>, i: int): (r: Option<nat>)
    requires i < |lines|
    ensures r.Some? ==> 1 <= r.value <= i + 1
    decreases i + 1
  {
    if i < 0 then None
    else if IsHeader(lines[i]) then Some(i + 1)
    else if IsBlank(lines[i]) then None
    else OwnerFrom(lines, i - 1)
  }

  /** The header line of the transaction posting p belongs to. The scan starts at the line
      above p; a p more than one past the last line would index outside the file. */
  function FindTransaction(lines: seq<string>, p: int): (r: Option<nat>)
    requires p - 2 < |lines|
    ensures r.Some? ==> 1 <= r.value < p
  {
    OwnerFrom(lines, p - 2)
  }

  /** Line h owns line p: h is a header above p, and no line strictly between them is a
      header or blank (those are the 0-based indices h to p - 2). */
  predicate IsOwner(lines: seq<string>, h: int, p: int)
    requires p - 2 < |lines|
  {
    && 1 <= h < p
    && IsHeader(lines[h - 1])
    && forall j :: h <= j < p - 1 ==> !IsHeader(lines[j]) && !IsBlank(lines[j])
  }

  lemma {:induction false} OwnerFromSpec(lines: seq<string>, i: int, h: int)
    requires i < |lines|
    ensures OwnerFrom(lines, i) == Some(h) <==> IsOwner(lines, h, i + 2)
    decreases i + 1
  {
    if i >= 0 && !IsHeader(lines[i]) && !IsBlank(lines[i]) {
      OwnerFromSpec(lines, i - 1, h);
      OwnerStep(lines, h, i);
    } else if i >= 0 {
      OwnerStop(lines, h, i);
    }
  }

  /** Past a line that is neither a header nor blank, ownership carries over one line. */
  lemma OwnerStep(lines: seq<string>, h: int, i: nat)
    requires i < |lines| && !IsHeader(lines[i]) && !IsBlank(lines[i])
    ensures IsOwner(lines, h, i + 2) <==> IsOwner(lines, h, i + 1)
  {
  }

  /** A header or blank line at i: only i itself can own the line after it. */
  lemma OwnerStop(lines: seq<string>, h: int, i: nat)
    requires i < |lines| && (IsHeader(lines[i]) || IsBlank(lines[i]))
    ensures IsOwner(lines, h, i + 2) <==> h == i + 1 && IsHeader(lines[i])
  {
  }

  /** FindTransaction returns exactly the owner of p, and None exactly when p has none. */
  lemma FindTransactionSpec(lines: seq<string>, p: int, h: int)
    requires p - 2 < |lines|
    ensures FindTransaction(lines, p) == Some(h) <==> IsOwner(lines, h, p)
  {
    OwnerFromSpec(lines, p - 2, h);
  }

  /** A posting has at most one owner. */
  lemma OwnerUnique(lines: seq<string>, h1: int, h2: int, p: int)
    requires p - 2 < |lines|
    requires IsOwner(lines, h1, p) && IsOwner(lines, h2, p)
    ensures h1 == h2
  {
  }

  // ---------------------------------------------------------------------------
  // The postings of a transaction (_find_all_postings_for_transaction)

  /** A line that ends the forward scan: blank, a header, or text that is not indented. */
  predicate EndsTransaction(line: string) {
    IsBlank(line) || IsHeader(line) || (LStrip(line) != [] && !IsIndented(line))
  }

  /** The 0-based index where the forward scan from index i stops: the first line that ends
      the transaction (RunEndStops, RunEndInside), or the end of the file. */
  function RunEnd(lines: seq<string>, i: nat): (e: nat)
    requires i <= |lines|
    ensures i <= e <= |lines|
    decreases |lines| - i
  {
    if i == |lines| || EndsTransaction(lines[i]) then i else RunEnd(lines, i + 1)
  }

  /** The 1-based line numbers the forward scan collects after header h: h + 1, h + 2, …
      up to the line that ends the transaction. */
  function PostingsOf(lines: seq<string>, h: nat): seq<nat>
    requires h <= |lines|
  {
    seq(RunEnd(lines, h) - h, k => h + 1 + k)
  }

  /** The scan stops at the end of the file or at a line that ends the transaction. */
  lemma {:induction false} RunEndStops(lines: seq<string>, i: nat)
    requires i <= |lines|
    ensures RunEnd(lines, i) < |lines| ==> EndsTransaction(lines[RunEnd(lines, i)])
    decreases |lines| - i
  {
    if i < |lines| && !EndsTransaction(lines[i]) {
      RunEndStops(lines, i + 1);
    }
  }

  /** No line the scan passes over ends the transaction. */
  lemma {:induction false} RunEndInside(lines: seq<string>, i: nat, j: nat)
    requires i <= |lines| && i <= j < RunEnd(lines, i)
    ensures !EndsTransaction(lines[j])
    decreases |lines| - i
  {
    if j > i {
      RunEndInside(lines, i + 1, j);
    }
  }

  /** The scan stops no later than any line at or after i that ends a transaction. */
  lemma {:induction false} RunEndBound(lines: seq<string>, i: nat, j: nat)
    requires i <= j < |lines| && EndsTransaction(lines[j])
    ensures RunEnd(lines, i) <= j
    decreases |lines| - i
  {
    if i < j && !EndsTransaction(lines[i]) {
      RunEndBound(lines, i + 1, j);
    }
  }

  /** Every line the scan collects is non-blank, not a header and indented. */
  lemma PostingShape(lines: seq<string>, h: nat, i: nat)
    requires h <= |lines| && h <= i < RunEnd(lines, h)
    ensures !IsBlank(lines[i]) && !IsHeader(lines[i]) && IsIndented(lines[i])
  {
    RunEndInside(lines, h, i);
    assert RStrip([]) == [];
  }

  /** The collected line numbers are h + 1, h + 2, …: strictly increasing, contiguous, and
      each names a line of the run. */
  lemma PostingsOfRange(lines: seq<string>, h: nat, k: nat)
    requires h <= |lines| && k < |PostingsOf(lines, h)|
    ensures PostingsOf(lines, h)[k] == h + 1 + k
    ensures h <= PostingsOf(lines, h)[k] - 1 < RunEnd(lines, h)
  {
  }

  /** The scan depends only on the lines it reads: two files that agree from i up to where
      the scan of the first stops, and that both end the transaction there, scan alike. */
  lemma {:induction false} RunEndFrame(lines: seq<string>, lines': seq<string>, i: nat)
    requires |lines'| == |lines| && i <= |lines|
    requires forall j :: i <= j < RunEnd(lines, i) ==> lines'[j] == lines[j]
    requires RunEnd(lines, i) < |lines| ==> EndsTransaction(lines'[RunEnd(lines, i)])
    ensures RunEnd(lines', i) == RunEnd(lines, i)
    decreases |lines| - i
  {
    if i < |lines| && !EndsTransaction(lines[i]) {
      assert lines'[i] == lines[i];
      RunEndFrame(lines, lines', i + 1);
    }
  }

  // ---------------------------------------------------------------------------
  // Validation of the targets (_validate_postings)

  /** The effective status of posting p under header h (_get_effective_posting_status). */
  function EffectiveStatusAt(lines: seq<string>, p: int, h: int): Status
    requires 1 <= p <= |lines| && 1 <= h <= |lines|
  {
    EffectiveStatus(lines[p - 1], lines[h - 1])
  }

  /** Line p in 1-based numbering is line p - 1 in 0-based numbering. */
  lemma SameLine(lines: seq<string>, p: int, i: nat)
    requires p == i + 1 && i < |lines|
    ensures lines[p - 1] == lines[i]
  {
  }

  /** The effective status of line i + 1 is that of the line at 0-based index i. */
  lemma EffectiveStatusAtIndex(lines: seq<string>, i: nat, h: int)
    requires i < |lines| && 1 <= h <= |lines|
    ensures EffectiveStatusAt(lines, i + 1, h) == EffectiveStatus(lines[i], lines[h - 1])
  {
    SameLine(lines, i + 1, i);
  }

  /** The status marker on header line h. */
  function HeaderMarkerAt(lines: seq<string>, h: int): Status
    requires 1 <= h <= |lines|
  {
    HeaderMarker(lines[h - 1])
  }

  /** One target passes validation: it is a line of the file, a valid posting line, it has
      an owning header, and its effective status is the expected one. */
  predicate ValidTarget(lines: seq<string>, p: int, expected: string) {
    && 1 <= p <= |lines|
    && IsValidPostingLine(lines[p - 1])
    && FindTransaction(lines, p).Some?
    && EffectiveStatusAt(lines, p, FindTransaction(lines, p).value) == expected
  }

  predicate AllValid(lines: seq<string>, targets: seq<int>, expected: string) {
    forall k :: 0 <= k < |targets| ==> ValidTarget(lines, targets[k], expected)
  }

  // ---------------------------------------------------------------------------
  // Grouping by transaction (_group_postings_by_transaction)

  /** One entry of the insertion-ordered dictionary from header line to its targets. */
  datatype Group = Group(header: nat, postings: seq<int>)

  predicate InFile(lines: seq<string>, targets: seq<int>) {
    forall k :: 0 <= k < |targets| ==> targets[k] - 2 < |lines|
  }

  /** The position of the entry for header h, or |groups| when there is none. */
  function GroupIndex(groups: seq<Group>, h: nat): (i: nat)
    ensures i <= |groups|
    ensures i < |groups| ==> groups[i].header == h
  {
    if groups == [] then 0
    else if groups[0].header == h then 0
    else 1 + GroupIndex(groups[1..], h)
  }

  /** GroupIndex finds the first entry for h: no entry before it is for h. */
  lemma {:induction false} GroupIndexFirst(groups: seq<Group>, h: nat, j: nat)
    requires j < GroupIndex(groups, h)
    ensures groups[j].header != h
  {
    if j > 0 {
      GroupIndexFirst(groups[1..], h, j - 1);
    }
  }

  /** Append target p to the entry of header h, creating the entry at the end if needed. */
  function AddTarget(groups: seq<Group>, h: nat, p: int): seq<Group> {
    var i := GroupIndex(groups, h);
    if i < |groups| then groups[i := Group(h, groups[i].postings + [p])]
    else groups + [Group(h, [p])]
  }

  /** The grouping of the targets, or None as soon as one target has no owner. */
  function GroupTargets(lines: seq<string>, targets: seq<int>): (r: Option<seq<Group>>)
    requires InFile(lines, targets)
    ensures r.Some? ==> HeadersIn(lines, r.value)
    decreases |targets|
  {
    if targets == [] then Some([])
    else
      var prefix := targets[..|targets| - 1];
      var p := targets[|targets| - 1];
      match GroupTargets(lines, prefix)
      case None => None
      case Some(groups) =>
        match FindTransaction(lines, p)
        case None => None
        case Some(h) => Some(AddTarget(groups, h, p))
  }

  /** The targets owned by h, in the order given. */
  function TargetsOwnedBy(lines: seq<string>, targets: seq<int>, h: nat): seq<int>
    requires InFile(lines, targets)
    decreases |targets|
  {
    if targets == [] then []
    else
      var p := targets[|targets| - 1];
      TargetsOwnedBy(lines, targets[..|targets| - 1], h)
        + (if FindTransaction(lines, p) == Some(h) then [p] else [])
  }

  predicate DistinctHeaders(groups: seq<Group>) {
    forall i, j :: 0 <= i < j < |groups| ==> groups[i].header != groups[j].header
  }

  /** What a grouping is: one entry per owning header, each listing exactly the targets
      that header owns, in their order. */
  predicate IsGroupingOf(lines: seq<string>, targets: seq<int>, groups: seq<Group>)
    requires InFile(lines, targets)
  {
    && DistinctHeaders(groups)
    && (forall i :: 0 <= i < |groups| ==>
          groups[i].postings == TargetsOwnedBy(lines, targets, groups[i].header) && groups[i].postings != [])
    && (forall k :: 0 <= k < |targets| ==>
          exists i :: 0 <= i < |groups| && FindTransaction(lines, targets[k]) == Some(groups[i].header))
  }

  lemma {:induction false} TargetsOwnedByNone(lines: seq<string>, targets: seq<int>, h: nat)
    requires InFile(lines, targets)
    requires forall k :: 0 <= k < |targets| ==> FindTransaction(lines, targets[k]) != Some(h)
    ensures TargetsOwnedBy(lines, targets, h) == []
    decreases |targets|
  {
    if targets != [] {
      TargetsOwnedByNone(lines, targets[..|targets| - 1], h);
    }
  }

  /** After AddTarget, each entry lists exactly the targets its header owns. */
  lemma AddTargetEntry(lines: seq<string>, targets: seq<int>, groups: seq<Group>, h: nat, j: nat)
    requires targets != [] && InFile(lines, targets)
    requires FindTransaction(lines, targets[|targets| - 1]) == Some(h)
    requires IsGroupingOf(lines, targets[..|targets| - 1], groups)
    requires j < |AddTarget(groups, h, targets[|targets| - 1])|
    ensures var g := AddTarget(groups, h, targets[|targets| - 1]);
      g[j].postings == TargetsOwnedBy(lines, targets, g[j].header) && g[j].postings != []
  {
    var prefix := targets[..|targets| - 1];
    var p := targets[|targets| - 1];
    if j < |groups| {
      if GroupIndex(groups, h) == |groups| {
        GroupIndexFirst(groups, h, j);
      }
      assert TargetsOwnedBy(lines, targets, groups[j].header)
        == TargetsOwnedBy(lines, prefix, groups[j].header)
           + (if h == groups[j].header then [p] else []);
    } else {
      forall k | 0 <= k < |prefix|
        ensures FindTransaction(lines, prefix[k]) != Some(h)
      {
        var m :| 0 <= m < |groups| && FindTransaction(lines, prefix[k]) == Some(groups[m].header);
        GroupIndexFirst(groups, h, m);
      }
      TargetsOwnedByNone(lines, prefix, h);
    }
  }

  /** After AddTarget, every target's owner has an entry. */
  lemma AddTargetCovers(lines: seq<string>, targets: seq<int>, groups: seq<Group>, h: nat, k: nat)
    requires targets != [] && InFile(lines, targets)
    requires FindTransaction(lines, targets[|targets| - 1]) == Some(h)
    requires IsGroupingOf(lines, targets[..|targets| - 1], groups)
    requires k < |targets|
    ensures var g := AddTarget(groups, h, targets[|targets| - 1]);
      exists m :: 0 <= m < |g| && FindTransaction(lines, targets[k]) == Some(g[m].header)
  {
    var prefix := targets[..|targets| - 1];
    var g := AddTarget(groups, h, targets[|targets| - 1]);
    var i := GroupIndex(groups, h);
    if k < |prefix| {
      assert targets[k] == prefix[k];
      var m :| 0 <= m < |groups| && FindTransaction(lines, prefix[k]) == Some(groups[m].header);
      assert g[m].header == groups[m].header;
    } else if i < |groups| {
      assert g[i].header == h;
    } else {
      assert g[|groups|].header == h;
    }
  }

  /** Adding one owned target keeps the grouping a grouping of the longer target list. */
  lemma AddTargetGrouping(lines: seq<string>, targets: seq<int>, groups: seq<Group>, h: nat)
    requires targets != [] && InFile(lines, targets)
    requires FindTransaction(lines, targets[|targets| - 1]) == Some(h)
    requires IsGroupingOf(lines, targets[..|targets| - 1], groups)
    ensures IsGroupingOf(lines, targets, AddTarget(groups, h, targets[|targets| - 1]))
  {
    var g := AddTarget(groups, h, targets[|targets| - 1]);
    forall j | 0 <= j < |g|
      ensures g[j].postings == TargetsOwnedBy(lines, targets, g[j].header) && g[j].postings != []
    {
      AddTargetEntry(lines, targets, groups, h, j);
    }
    forall k | 0 <= k < |targets|
      ensures exists m :: 0 <= m < |g| && FindTransaction(lines, targets[k]) == Some(g[m].header)
    {
      AddTargetCovers(lines, targets, groups, h, k);
    }
  }

  lemma GroupTargetsLast(lines: seq<string>, targets: seq<int>)
    requires targets != [] && InFile(lines, targets)
    ensures GroupTargets(lines, targets).Some?
        <==> GroupTargets(lines, targets[..|targets| - 1]).Some? && FindTransaction(lines, targets[|targets| - 1]).Some?
  {
  }

  /** The grouping succeeds exactly when every target has an owner. */
  lemma {:induction false} GroupTargetsFails(lines: seq<string>, targets: seq<int>)
    requires InFile(lines, targets)
    ensures GroupTargets(lines, targets).Some?
        <==> forall k :: 0 <= k < |targets| ==> FindTransaction(lines, targets[k]).Some?
    decreases |targets|
  {
    if targets != [] {
      var prefix := targets[..|targets| - 1];
      var p := targets[|targets| - 1];
      GroupTargetsFails(lines, prefix);
      GroupTargetsLast(lines, targets);
      assert forall k :: 0 <= k < |prefix| ==> prefix[k] == targets[k];
    }
  }

  /** A successful grouping groups the targets by owner. */
  lemma {:induction false} GroupTargetsGroups(lines: seq<string>, targets: seq<int>)
    requires InFile(lines, targets)
    requires GroupTargets(lines, targets).Some?
    ensures IsGroupingOf(lines, targets, GroupTargets(lines, targets).value)
    decreases |targets|
  {
    if targets != [] {
      var prefix := targets[..|targets| - 1];
      var p := targets[|targets| - 1];
      GroupTargetsGroups(lines, prefix);
      AddTargetGrouping(lines, targets, GroupTargets(lines, prefix).value, FindTransaction(lines, p).value);
    }
  }

  // ---------------------------------------------------------------------------
  // The rewrite of one transaction (one iteration of _apply_status_updates)

  /** The status the scanned posting at 0-based index i (line i + 1) ends with: the new
      status for a target, its current effective status for any other posting. */
  function FinalStatus(lines: seq<string>, g: Group, s: Status, i: int): Status
    requires 1 <= g.header <= |lines| && 0 <= i < |lines|
  {
    if i + 1 in g.postings then s else EffectiveStatus(lines[i], lines[g.header - 1])
  }

  /** The final statuses of the scanned postings in scan order (the values of final_statuses):
      entry k belongs to line PostingsOf(lines, h)[k] = h + 1 + k. */
  function FinalStatuses(lines: seq<string>, g: Group, s: Status): seq<Status>
    requires 1 <= g.header <= |lines|
  {
    FirstFinalStatuses(lines, g, s, RunEnd(lines, g.header) - g.header)
  }

  /** The final statuses of the first n postings after the header. */
  function FirstFinalStatuses(lines: seq<string>, g: Group, s: Status, n: nat): seq<Status>
    requires 1 <= g.header && g.header + n <= |lines|
  {
    seq<Status>(n, k requires 0 <= k < n => FinalStatus(lines, g, s, g.header + k))
  }

  /** Header mode: the scan found postings, and their final statuses form a single value. */
  predicate UseHeader(lines: seq<string>, g: Group, s: Status)
    requires 1 <= g.header <= |lines|
  {
    var fs := FinalStatuses(lines, g, s);
    |set x | x in fs| == 1 && fs != []
  }

  /** The marker the header is rewritten with: the new status in header mode, none otherwise. */
  function HeaderStatus(lines: seq<string>, g: Group, s: Status): Status
    requires 1 <= g.header <= |lines|
  {
    if UseHeader(lines, g, s) then s else ""
  }

  /** The marker the scanned posting at index i is rewritten with: none in header mode, its
      final status otherwise. */
  function PostingStatus(lines: seq<string>, g: Group, s: Status, i: int): Status
    requires 1 <= g.header <= |lines| && 0 <= i < |lines|
  {
    if UseHeader(lines, g, s) then "" else FinalStatus(lines, g, s, i)
  }

  /** Line i (0-based) after the transaction of g is rewritten (StepAt). */
  function StepLine(lines: seq<string>, g: Group, s: Status, i: int): string
    requires 1 <= g.header <= |lines| && 0 <= i < |lines|
  {
    var h := g.header;
    if i == h - 1 then UpdateTransactionLine(lines[i], HeaderStatus(lines, g, s))
    else if h <= i < RunEnd(lines, h) then UpdatePostingLine(lines[i], PostingStatus(lines, g, s, i))
    else lines[i]
  }

  /** The rewritten posting lines of the run, in scan order. */
  function NewPostings(lines: seq<string>, g: Group, s: Status): (r: seq<string>)
    requires 1 <= g.header <= |lines|
    ensures |r| == RunEnd(lines, g.header) - g.header
  {
    FirstNewPostings(lines, g, s, RunEnd(lines, g.header) - g.header)
  }

  /** The first n posting lines after the header, rewritten. */
  function FirstNewPostings(lines: seq<string>, g: Group, s: Status, n: nat): (r: seq<string>)
    requires 1 <= g.header && g.header + n <= |lines|
    ensures |r| == n
  {
    seq(n, k requires 0 <= k < n => UpdatePostingLine(lines[g.header + k], PostingStatus(lines, g, s, g.header + k)))
  }

  /** The file with line h (1-based) replaced by `header` and the lines right after it by
      `run`. */
  function Rebuild(lines: seq<string>, h: nat, header: string, run: seq<string>): (r: seq<string>)
    requires 1 <= h && h + |run| <= |lines|
    ensures |r| == |lines|
  {
    lines[..h - 1] + [header] + run + lines[h + |run|..]
  }

  lemma RebuildAt(lines: seq<string>, h: nat, header: string, run: seq<string>, j: nat)
    requires 1 <= h && h + |run| <= |lines| && j < |lines|
    ensures Rebuild(lines, h, header, run)[j]
      == if j == h - 1 then header else if h <= j < h + |run| then run[j - h] else lines[j]
  {
  }

  /** The file after the transaction of g is rewritten: its header line and each scanned
      posting line. */
  function Step(lines: seq<string>, g: Group, s: Status): (r: seq<string>)
    requires 1 <= g.header <= |lines|
    ensures |r| == |lines|
  {
    var h := g.header;
    Rebuild(lines, h, UpdateTransactionLine(lines[h - 1], HeaderStatus(lines, g, s)), NewPostings(lines, g, s))
  }

  lemma NewPostingsAt(lines: seq<string>, g: Group, s: Status, j: nat)
    requires 1 <= g.header <= |lines| && g.header <= j < RunEnd(lines, g.header)
    ensures NewPostings(lines, g, s)[j - g.header] == UpdatePostingLine(lines[j], PostingStatus(lines, g, s, j))
  {
    FirstNewPostingsAt(lines, g, s, RunEnd(lines, g.header) - g.header, j);
  }

  lemma FirstNewPostingsAt(lines: seq<string>, g: Group, s: Status, n: nat, j: nat)
    requires 1 <= g.header && g.header + n <= |lines| && g.header <= j < g.header + n
    ensures FirstNewPostings(lines, g, s, n)[j - g.header] == UpdatePostingLine(lines[j], PostingStatus(lines, g, s, j))
  {
    var k := j - g.header;
    assert g.header + k == j;
  }

  /** Each line of the rewritten file, one index at a time. */
  lemma StepAt(lines: seq<string>, g: Group, s: Status, j: nat)
    requires 1 <= g.header <= |lines| && j < |lines|
    ensures Step(lines, g, s)[j] == StepLine(lines, g, s, j)
  {
    var h := g.header;
    if j == h - 1 {
      StepAtHeader(lines, g, s);
    } else if h <= j < RunEnd(lines, h) {
      StepAtRun(lines, g, s, j);
    } else {
      StepAtOther(lines, g, s, j);
    }
  }

  /** The n lines after header h, each rewritten with its own marker. */
  function RewrittenRun(lines: seq<string>, h: nat, statuses: seq<Status>): (r: seq<string>)
    requires h + |statuses| <= |lines|
    ensures |r| == |statuses|
  {
    seq(|statuses|, k requires 0 <= k < |statuses| => UpdatePostingLine(lines[h + k], statuses[k]))
  }

  /** Rewriting the scanned postings with the markers PostingStatus gives them is NewPostings. */
  lemma RewrittenRunIsNewPostings(lines: seq<string>, g: Group, s: Status, statuses: seq<Status>)
    requires 1 <= g.header <= |lines| && g.header + |statuses| == RunEnd(lines, g.header)
    requires forall k :: 0 <= k < |statuses| ==> statuses[k] == PostingStatus(lines, g, s, g.header + k)
    ensures RewrittenRun(lines, g.header, statuses) == NewPostings(lines, g, s)
  {
    var n := |statuses|;
    forall k | 0 <= k < n
      ensures RewrittenRun(lines, g.header, statuses)[k] == NewPostings(lines, g, s)[k]
    {
      FirstNewPostingsAt(lines, g, s, n, g.header + k);
    }
  }

  /** The markers _apply_status_updates writes on the scanned postings: none in header mode,
      the final statuses otherwise. */
  function PostingMarkers(lines: seq<string>, g: Group, s: Status): (r: seq<Status>)
    requires 1 <= g.header <= |lines|
    ensures |r| == RunEnd(lines, g.header) - g.header
  {
    if UseHeader(lines, g, s) then NoMarkers(RunEnd(lines, g.header) - g.header)
    else FinalStatuses(lines, g, s)
  }

  /** n empty markers: every posting loses its marker. */
  function NoMarkers(n: nat): (r: seq<Status>)
    ensures |r| == n && forall k :: 0 <= k < n ==> r[k] == ""
  {
    seq(n, _ => "")
  }

  /** Entry k of PostingMarkers is the marker PostingStatus gives line header + k. */
  lemma PostingMarkersAt(lines: seq<string>, g: Group, s: Status, k: nat)
    requires 1 <= g.header <= |lines| && g.header + k < RunEnd(lines, g.header)
    ensures PostingMarkers(lines, g, s)[k] == PostingStatus(lines, g, s, g.header + k)
  {
    if !UseHeader(lines, g, s) {
      FirstFinalStatusesIndex(lines, g, s, RunEnd(lines, g.header) - g.header, k);
    }
  }

  /** Rewriting the scanned postings with PostingMarkers is what the rewritten file holds
      after the header. */
  lemma PostingMarkersRewrite(lines: seq<string>, g: Group, s: Status)
    requires 1 <= g.header <= |lines|
    ensures RewrittenRun(lines, g.header, PostingMarkers(lines, g, s)) == NewPostings(lines, g, s)
  {
    var m := PostingMarkers(lines, g, s);
    forall k | 0 <= k < |m|
      ensures m[k] == PostingStatus(lines, g, s, g.header + k)
    {
      PostingMarkersAt(lines, g, s, k);
    }
    RewrittenRunIsNewPostings(lines, g, s, m);
  }

  /** The rewritten file is the file rebuilt with the rewritten header and the scanned postings
      rewritten with PostingMarkers. */
  lemma StepFromRun(lines: seq<string>, g: Group, s: Status)
    requires 1 <= g.header <= |lines|
    ensures Step(lines, g, s) == Rebuild(lines, g.header,
      UpdateTransactionLine(lines[g.header - 1], HeaderStatus(lines, g, s)),
      RewrittenRun(lines, g.header, PostingMarkers(lines, g, s)))
  {
    PostingMarkersRewrite(lines, g, s);
  }

  lemma StepAtHeader(lines: seq<string>, g: Group, s: Status)
    requires 1 <= g.header <= |lines|
    ensures Step(lines, g, s)[g.header - 1] == UpdateTransactionLine(lines[g.header - 1], HeaderStatus(lines, g, s))
  {
    var h := g.header;
    RebuildAt(lines, h, UpdateTransactionLine(lines[h - 1], HeaderStatus(lines, g, s)), NewPostings(lines, g, s), h - 1);
  }

  lemma StepAtRun(lines: seq<string>, g: Group, s: Status, j: nat)
    requires 1 <= g.header <= |lines| && g.header <= j < RunEnd(lines, g.header)
    ensures Step(lines, g, s)[j] == UpdatePostingLine(lines[j], PostingStatus(lines, g, s, j))
  {
    var h := g.header;
    RebuildAt(lines, h, UpdateTransactionLine(lines[h - 1], HeaderStatus(lines, g, s)), NewPostings(lines, g, s), j);
    NewPostingsAt(lines, g, s, j);
  }

  lemma StepAtOther(lines: seq<string>, g: Group, s: Status, j: nat)
    requires 1 <= g.header <= |lines| && j < |lines| && j != g.header - 1
    requires !(g.header <= j < RunEnd(lines, g.header))
    ensures Step(lines, g, s)[j] == lines[j]
  {
    var h := g.header;
    RebuildAt(lines, h, UpdateTransactionLine(lines[h - 1], HeaderStatus(lines, g, s)), NewPostings(lines, g, s), j);
  }

  predicate HeadersIn(lines: seq<string>, groups: seq<Group>) {
    forall k :: 0 <= k < |groups| ==> 1 <= groups[k].header <= |lines|
  }

  /** The file after the transactions of the groups are rewritten one after another, in the
      dictionary's order. */
  function Apply(lines: seq<string>, groups: seq<Group>, s: Status): (r: seq<string>)
    requires HeadersIn(lines, groups)
    ensures |r| == |lines|
    decreases |groups|
  {
    if groups == [] then lines
    else Step(Apply(lines, groups[..|groups| - 1], s), groups[|groups| - 1], s)
  }

  // ---------------------------------------------------------------------------
  // Properties of one rewrite

  /** Header mode is "one distinct final status": all final statuses equal the first. */
  lemma OneDistinct(fs: seq<Status>)
    ensures |set x | x in fs| == 1 && fs != [] <==> fs != [] && forall k :: 0 <= k < |fs| ==> fs[k] == fs[0]
  {
    var d := set x | x in fs;
    if fs != [] {
      if forall k :: 0 <= k < |fs| ==> fs[k] == fs[0] {
        assert d == {fs[0]};
      } else {
        var k :| 0 <= k < |fs| && fs[k] != fs[0];
        assert {fs[0], fs[k]} <= d;
        assert |{fs[0], fs[k]}| == 2;
        SubsetCard({fs[0], fs[k]}, d);
      }
    }
  }

  lemma SubsetCard<T>(a: set<T>, b: set<T>)
    requires a <= b
    ensures |a| <= |b|
  {
    assert b == a + (b - a);
  }

  /** UseHeader in terms of the final statuses: there is at least one, and all are equal. */
  lemma UseHeaderMeans(lines: seq<string>, g: Group, s: Status)
    requires 1 <= g.header <= |lines|
    ensures var fs := FinalStatuses(lines, g, s);
      UseHeader(lines, g, s) <==> fs != [] && forall k :: 0 <= k < |fs| ==> fs[k] == fs[0]
  {
    OneDistinct(FinalStatuses(lines, g, s));
  }

  /** In header mode any two scanned postings end with the same status. */
  lemma UseHeaderSame(lines: seq<string>, g: Group, s: Status, i: nat, j: nat)
    requires 1 <= g.header <= |lines| && UseHeader(lines, g, s)
    requires g.header <= i < RunEnd(lines, g.header) && g.header <= j < RunEnd(lines, g.header)
    ensures FinalStatus(lines, g, s, i) == FinalStatus(lines, g, s, j)
  {
    UseHeaderMeans(lines, g, s);
    FinalStatusesAt(lines, g, s, i);
    FinalStatusesAt(lines, g, s, j);
  }

  lemma FinalStatusesAt(lines: seq<string>, g: Group, s: Status, i: nat)
    requires 1 <= g.header <= |lines| && g.header <= i < RunEnd(lines, g.header)
    ensures FinalStatuses(lines, g, s)[i - g.header] == FinalStatus(lines, g, s, i)
  {
    FirstFinalStatusesAt(lines, g, s, RunEnd(lines, g.header) - g.header, i);
  }

  lemma FirstFinalStatusesAt(lines: seq<string>, g: Group, s: Status, n: nat, i: nat)
    requires 1 <= g.header && g.header + n <= |lines| && g.header <= i < g.header + n
    ensures FirstFinalStatuses(lines, g, s, n)[i - g.header] == FinalStatus(lines, g, s, i)
  {
    var k := i - g.header;
    assert g.header + k == i;
  }

  /** The header matches the full header pattern and neither it nor any scanned posting has
      a second marker stacked after its first. */
  predicate WellMarked(lines: seq<string>, h: nat)
    requires 1 <= h <= |lines|
  {
    && HeaderMatches(HeaderText(lines[h - 1]))
    && NoStackedHeaderMarker(lines[h - 1])
    && forall i :: h <= i < RunEnd(lines, h) ==> NoStackedMarkerAt(lines, i)
  }

  /** The posting at index i has no second marker stacked after its first. */
  predicate NoStackedMarkerAt(lines: seq<string>, i: int)
    requires 0 <= i < |lines|
  {
    NoStackedMarker(lines[i])
  }

  /** In header mode the header carries the new status; otherwise it carries none. */
  lemma StepHeader(lines: seq<string>, g: Group, s: Status)
    requires 1 <= g.header <= |lines| && WellMarked(lines, g.header)
    ensures HeaderMarker(Step(lines, g, s)[g.header - 1]) == HeaderStatus(lines, g, s)
  {
    var h := g.header;
    StepAtHeader(lines, g, s);
    UpdateTransactionLineReadsBack(lines[h - 1], HeaderStatus(lines, g, s));
  }

  /** In header mode a scanned posting carries no marker; otherwise it carries its final
      status. */
  lemma StepPosting(lines: seq<string>, g: Group, s: Status, i: nat)
    requires 1 <= g.header <= |lines| && WellMarked(lines, g.header)
    requires g.header <= i < RunEnd(lines, g.header)
    ensures ExtractPostingStatus(Step(lines, g, s)[i]) == PostingStatus(lines, g, s, i)
  {
    PostingShape(lines, g.header, i);
    assert NoStackedMarkerAt(lines, i);
    StepAtRun(lines, g, s, i);
    UpdatePostingLineStatus(lines[i], PostingStatus(lines, g, s, i));
  }

  /** The two forms together: what a scanned posting reads back after the rewrite. */
  lemma StepEffective(lines: seq<string>, g: Group, s: Status, i: nat)
    requires 1 <= g.header <= |lines| && WellMarked(lines, g.header)
    requires g.header <= i < RunEnd(lines, g.header)
    ensures EffectiveStatus(Step(lines, g, s)[i], Step(lines, g, s)[g.header - 1])
      == if UseHeader(lines, g, s) then s else FinalStatus(lines, g, s, i)
  {
    StepHeader(lines, g, s);
    StepPosting(lines, g, s, i);
  }

  /** Every scanned target reads back the new status after the rewrite. */
  lemma StepTargets(lines: seq<string>, g: Group, s: Status, i: nat)
    requires 1 <= g.header <= |lines| && WellMarked(lines, g.header)
    requires g.header <= i < RunEnd(lines, g.header) && i + 1 in g.postings
    ensures EffectiveStatus(Step(lines, g, s)[i], Step(lines, g, s)[g.header - 1]) == s
  {
    StepEffective(lines, g, s, i);
  }

  /** A scanned posting that is not a target keeps its effective status, provided some
      scanned posting t is a target (see HeaderModeOverwrites for what happens otherwise). */
  lemma StepKeepsOthers(lines: seq<string>, g: Group, s: Status, i: nat, t: nat)
    requires 1 <= g.header <= |lines| && WellMarked(lines, g.header)
    requires g.header <= i < RunEnd(lines, g.header) && i + 1 !in g.postings
    requires g.header <= t < RunEnd(lines, g.header) && t + 1 in g.postings
    ensures EffectiveStatus(Step(lines, g, s)[i], Step(lines, g, s)[g.header - 1])
      == EffectiveStatus(lines[i], lines[g.header - 1])
  {
    StepEffective(lines, g, s, i);
    KeptStatus(lines, g, s, i, t);
    FinalStatusOfOther(lines, g, s, i);
  }

  lemma FinalStatusOfOther(lines: seq<string>, g: Group, s: Status, i: nat)
    requires 1 <= g.header <= |lines| && i < |lines| && i + 1 !in g.postings
    ensures FinalStatus(lines, g, s, i) == EffectiveStatus(lines[i], lines[g.header - 1])
  {
  }

  lemma KeptStatus(lines: seq<string>, g: Group, s: Status, i: nat, t: nat)
    requires 1 <= g.header <= |lines|
    requires g.header <= i < RunEnd(lines, g.header) && i + 1 !in g.postings
    requires g.header <= t < RunEnd(lines, g.header) && t + 1 in g.postings
    ensures UseHeader(lines, g, s) ==> FinalStatus(lines, g, s, i) == s
  {
    if UseHeader(lines, g, s) {
      UseHeaderSame(lines, g, s, i, t);
    }
  }

  /** Header mode writes the new status, not the common final status, to the header: when no
      scanned posting is a target and all scanned postings share a status other than the new
      one, each of them ends with the new status although none was a target. */
  lemma HeaderModeOverwrites(lines: seq<string>, g: Group, s: Status, i: nat)
    requires 1 <= g.header <= |lines| && WellMarked(lines, g.header)
    requires g.header <= i < RunEnd(lines, g.header)
    requires forall j :: g.header <= j < RunEnd(lines, g.header) ==> FinalStatus(lines, g, s, j) == FinalStatus(lines, g, s, i)
    requires i + 1 !in g.postings && EffectiveStatus(lines[i], lines[g.header - 1]) != s
    ensures UseHeader(lines, g, s)
    ensures EffectiveStatus(Step(lines, g, s)[i], Step(lines, g, s)[g.header - 1]) == s
  {
    var fs := FinalStatuses(lines, g, s);
    forall k | 0 <= k < |fs|
      ensures fs[k] == fs[0]
    {
      FinalStatusesAt(lines, g, s, g.header + k);
      FinalStatusesAt(lines, g, s, g.header);
    }
    UseHeaderMeans(lines, g, s);
    StepEffective(lines, g, s, i);
  }

  // ---------------------------------------------------------------------------
  // What one rewrite leaves alone

  /** The lines the rewrite of header h touches: the header line and the scanned run. */
  predicate InRegion(lines: seq<string>, h: nat, i: int)
    requires 1 <= h <= |lines|
  {
    h - 1 <= i < RunEnd(lines, h)
  }

  /** Two files agree on the region of header h, and scanning from h stops at the same line. */
  predicate SameRegion(lines: seq<string>, lines': seq<string>, h: nat)
    requires 1 <= h <= |lines|
  {
    && |lines'| == |lines|
    && RunEnd(lines', h) == RunEnd(lines, h)
    && forall i :: h - 1 <= i < RunEnd(lines, h) ==> lines'[i] == lines[i]
  }

  lemma SameRegionTrans(a: seq<string>, b: seq<string>, c: seq<string>, h: nat)
    requires 1 <= h <= |a| && SameRegion(a, b, h) && SameRegion(b, c, h)
    ensures SameRegion(a, c, h)
  {
  }

  /** Lines outside the region are left as they are. */
  lemma StepOutside(lines: seq<string>, g: Group, s: Status, i: nat)
    requires 1 <= g.header <= |lines| && i < |lines| && !InRegion(lines, g.header, i)
    ensures Step(lines, g, s)[i] == lines[i]
  {
    StepAtOther(lines, g, s, i);
  }

  /** Line h (1-based) is a header. */
  predicate IsHeaderAt(lines: seq<string>, h: nat)
    requires 1 <= h <= |lines|
  {
    IsHeader(lines[h - 1])
  }

  /** The 1-based numbers of the header lines of a file. */
  function HeaderLines(lines: seq<string>): set<nat> {
    set h: nat | 1 <= h <= |lines| && IsHeaderAt(lines, h)
  }

  /** The rewritten header line is still a header. */
  lemma StepKeepsHeaderLine(lines: seq<string>, g: Group, s: Status)
    requires g.header in HeaderLines(lines)
    ensures g.header in HeaderLines(Step(lines, g, s))
  {
    StepAtHeader(lines, g, s);
    UpdateTransactionLineKeepsHeader(lines[g.header - 1], HeaderStatus(lines, g, s));
  }

  /** A scan stops at the next header at the latest, so the regions of two headers are apart. */
  lemma RegionsApart(lines: seq<string>, h1: nat, h2: nat)
    requires 1 <= h1 < h2 && h2 in HeaderLines(lines)
    ensures RunEnd(lines, h1) <= h2 - 1
  {
    RunEndBound(lines, h1, h2 - 1);
  }

  /** Rewriting the transaction of g leaves the region and the scan of any other header alone. */
  lemma StepFrame(lines: seq<string>, g: Group, s: Status, h2: nat)
    requires g.header in HeaderLines(lines) && h2 in HeaderLines(lines) && h2 != g.header
    ensures SameRegion(lines, Step(lines, g, s), h2)
  {
    var h := g.header;
    var r := Step(lines, g, s);
    var e2 := RunEnd(lines, h2);
    if h2 < h {
      RegionsApart(lines, h2, h);
    } else {
      RegionsApart(lines, h, h2);
    }
    forall i | h2 - 1 <= i < e2
      ensures r[i] == lines[i]
    {
      StepOutside(lines, g, s, i);
    }
    if e2 < |lines| {
      RunEndStops(lines, h2);
      if e2 == h - 1 {
        StepKeepsHeaderLine(lines, g, s);
      } else {
        StepOutside(lines, g, s, e2);
      }
    }
    RunEndFrame(lines, r, h2);
  }

  /** The final statuses and the mode of a rewrite depend on the region alone. */
  lemma RegionDetermines(lines: seq<string>, lines': seq<string>, g: Group, s: Status)
    requires 1 <= g.header <= |lines| && SameRegion(lines, lines', g.header)
    ensures FinalStatuses(lines', g, s) == FinalStatuses(lines, g, s)
    ensures UseHeader(lines', g, s) == UseHeader(lines, g, s)
  {
    FirstFinalStatusesAgree(lines, lines', g, s, RunEnd(lines, g.header) - g.header);
  }

  lemma FirstFinalStatusesAgree(lines: seq<string>, lines': seq<string>, g: Group, s: Status, n: nat)
    requires 1 <= g.header && g.header + n <= |lines| == |lines'|
    requires forall i :: g.header - 1 <= i < g.header + n ==> lines'[i] == lines[i]
    ensures FirstFinalStatuses(lines', g, s, n) == FirstFinalStatuses(lines, g, s, n)
  {
    var h := g.header;
    var fs, fs' := FirstFinalStatuses(lines, g, s, n), FirstFinalStatuses(lines', g, s, n);
    forall k | 0 <= k < n
      ensures fs'[k] == fs[k]
    {
      FirstFinalStatusesIndex(lines, g, s, n, k);
      FirstFinalStatusesIndex(lines', g, s, n, k);
      assert lines'[h + k] == lines[h + k];
      assert lines'[h - 1] == lines[h - 1];
    }
  }

  /** One more scanned posting appends its final status. */
  lemma FirstFinalStatusesSnoc(lines: seq<string>, g: Group, s: Status, n: nat)
    requires 1 <= g.header && g.header + n < |lines|
    ensures FirstFinalStatuses(lines, g, s, n + 1)
      == FirstFinalStatuses(lines, g, s, n) + [FinalStatus(lines, g, s, g.header + n)]
  {
    var a, b := FirstFinalStatuses(lines, g, s, n + 1), FirstFinalStatuses(lines, g, s, n);
    forall k | 0 <= k < n + 1
      ensures a[k] == (b + [FinalStatus(lines, g, s, g.header + n)])[k]
    {
      FirstFinalStatusesIndex(lines, g, s, n + 1, k);
      if k < n {
        FirstFinalStatusesIndex(lines, g, s, n, k);
      }
    }
  }

  lemma FirstFinalStatusesIndex(lines: seq<string>, g: Group, s: Status, n: nat, k: nat)
    requires 1 <= g.header && g.header + n <= |lines| && k < n
    ensures FirstFinalStatuses(lines, g, s, n)[k] == FinalStatus(lines, g, s, g.header + k)
  {
  }

  lemma RegionFinalStatus(lines: seq<string>, lines': seq<string>, g: Group, s: Status, i: nat)
    requires 1 <= g.header <= |lines| && SameRegion(lines, lines', g.header)
    requires g.header <= i < RunEnd(lines, g.header)
    ensures FinalStatus(lines', g, s, i) == FinalStatus(lines, g, s, i)
  {
  }

  // ---------------------------------------------------------------------------
  // The rewrite of every grouped transaction, one after another

  /** Groups that name distinct header lines of the file. */
  predicate ValidGroups(lines: seq<string>, groups: seq<Group>) {
    && HeadersIn(lines, groups)
    && (forall k :: 0 <= k < |groups| ==> groups[k].header in HeaderLines(lines))
    && DistinctHeaders(groups)
  }

  lemma ValidGroupsPrefix(lines: seq<string>, groups: seq<Group>)
    requires groups != [] && ValidGroups(lines, groups)
    ensures ValidGroups(lines, groups[..|groups| - 1])
    ensures forall k :: 0 <= k < |groups| - 1 ==> groups[k].header != groups[|groups| - 1].header
  {
    var pre := groups[..|groups| - 1];
    assert forall k :: 0 <= k < |pre| ==> pre[k] == groups[k];
  }

  /** One rewrite in the fold keeps the region of a header other than its own, provided the
      file so far still agrees with the original on both regions. */
  lemma FrameStep(lines: seq<string>, a: seq<string>, g: Group, s: Status, h2: nat)
    requires g.header in HeaderLines(lines) && SameRegion(lines, a, g.header)
    requires h2 in HeaderLines(lines) && SameRegion(lines, a, h2)
    requires h2 != g.header
    ensures SameRegion(lines, Step(a, g, s), h2)
  {
    assert a[g.header - 1] == lines[g.header - 1] && a[h2 - 1] == lines[h2 - 1];
    assert IsHeaderAt(a, g.header) && IsHeaderAt(a, h2);
    StepFrame(a, g, s, h2);
    SameRegionTrans(lines, a, Step(a, g, s), h2);
  }

  /** A header that is not grouped keeps its region and its scan through all the rewrites. */
  lemma {:induction false} ApplyFrame(lines: seq<string>, groups: seq<Group>, s: Status, h2: nat)
    requires ValidGroups(lines, groups)
    requires h2 in HeaderLines(lines)
    requires forall k :: 0 <= k < |groups| ==> groups[k].header != h2
    ensures SameRegion(lines, Apply(lines, groups, s), h2)
    decreases |groups|
  {
    if groups != [] {
      var pre := groups[..|groups| - 1];
      var g := groups[|groups| - 1];
      ValidGroupsPrefix(lines, groups);
      ApplyFrame(lines, pre, s, h2);
      ApplyFrame(lines, pre, s, g.header);
      FrameStep(lines, Apply(lines, pre, s), g, s, h2);
    }
  }

  /** A line in no grouped region is left as it is. */
  lemma {:induction false} ApplyOutside(lines: seq<string>, groups: seq<Group>, s: Status, i: nat)
    requires ValidGroups(lines, groups) && i < |lines|
    requires forall k :: 0 <= k < |groups| ==> !InRegion(lines, groups[k].header, i)
    ensures Apply(lines, groups, s)[i] == lines[i]
    decreases |groups|
  {
    if groups != [] {
      var pre := groups[..|groups| - 1];
      var g := groups[|groups| - 1];
      ValidGroupsPrefix(lines, groups);
      ApplyOutside(lines, pre, s, i);
      ApplyFrame(lines, pre, s, g.header);
      StepOutside(Apply(lines, pre, s), g, s, i);
    }
  }

  /** The rewrite of a region depends on that region alone: applied to a file that agrees
      with the original on the region of g, it rewrites the region as it would the original. */
  lemma StepRegionAgree(lines: seq<string>, a: seq<string>, g: Group, s: Status, j: nat)
    requires 1 <= g.header <= |lines| && SameRegion(lines, a, g.header) && InRegion(lines, g.header, j)
    ensures Step(a, g, s)[j] == Step(lines, g, s)[j]
  {
    RegionDetermines(lines, a, g, s);
    StepAt(a, g, s, j);
    StepAt(lines, g, s, j);
    if g.header <= j {
      RegionFinalStatus(lines, a, g, s, j);
    }
  }

  /** A later rewrite of another header leaves the region of an earlier one. */
  lemma FormEarlier(lines: seq<string>, a: seq<string>, h: nat, last: Group, s: Status, j: nat)
    requires h in HeaderLines(lines) && InRegion(lines, h, j)
    requires last.header in HeaderLines(lines) && last.header != h
    requires SameRegion(lines, a, last.header)
    ensures Step(a, last, s)[j] == a[j]
  {
    if h < last.header {
      RegionsApart(lines, h, last.header);
    } else {
      RegionsApart(lines, last.header, h);
    }
    StepOutside(a, last, s, j);
  }

  /** After all the rewrites, the region of each grouped header holds what rewriting that
      transaction alone in the original file gives. */
  lemma {:induction false} ApplyRegion(lines: seq<string>, groups: seq<Group>, s: Status, k: nat, j: nat)
    requires ValidGroups(lines, groups) && k < |groups|
    requires InRegion(lines, groups[k].header, j)
    ensures Apply(lines, groups, s)[j] == Step(lines, groups[k], s)[j]
    decreases |groups|
  {
    var pre := groups[..|groups| - 1];
    var last := groups[|groups| - 1];
    ValidGroupsPrefix(lines, groups);
    ApplyFrame(lines, pre, s, last.header);
    if k == |groups| - 1 {
      StepRegionAgree(lines, Apply(lines, pre, s), last, s, j);
    } else {
      assert pre[k] == groups[k];
      ApplyRegion(lines, pre, s, k, j);
      FormEarlier(lines, Apply(lines, pre, s), groups[k].header, last, s, j);
    }
  }

  /** The region of a grouped header after all the rewrites: the header line and line i. */
  lemma ApplyPair(lines: seq<string>, groups: seq<Group>, s: Status, k: nat, i: nat)
    requires ValidGroups(lines, groups) && k < |groups|
    requires groups[k].header <= i < RunEnd(lines, groups[k].header)
    ensures var a, b := Apply(lines, groups, s), Step(lines, groups[k], s);
      a[i] == b[i] && a[groups[k].header - 1] == b[groups[k].header - 1]
  {
    ApplyRegion(lines, groups, s, k, i);
    ApplyRegion(lines, groups, s, k, groups[k].header - 1);
  }

  /** After all the rewrites, every target the scan of its grouped header collects reads
      back the new status. */
  lemma ApplyTargetsIndexed(lines: seq<string>, groups: seq<Group>, s: Status, k: nat, i: nat)
    requires ValidGroups(lines, groups) && k < |groups| && WellMarked(lines, groups[k].header)
    requires groups[k].header <= i < RunEnd(lines, groups[k].header) && i + 1 in groups[k].postings
    ensures var a := Apply(lines, groups, s);
      EffectiveStatus(a[i], a[groups[k].header - 1]) == s
  {
    ApplyPair(lines, groups, s, k, i);
    StepTargets(lines, groups[k], s, i);
  }

  /** ApplyTargetsIndexed, with the posting given by its line number. */
  lemma ApplyTargets(lines: seq<string>, groups: seq<Group>, s: Status, k: nat, i: nat)
    requires ValidGroups(lines, groups) && k < |groups| && WellMarked(lines, groups[k].header)
    requires groups[k].header <= i < RunEnd(lines, groups[k].header) && i + 1 in groups[k].postings
    ensures EffectiveStatusAt(Apply(lines, groups, s), i + 1, groups[k].header) == s
  {
    ApplyTargetsIndexed(lines, groups, s, k, i);
    EffectiveStatusAtIndex(Apply(lines, groups, s), i, groups[k].header);
  }

  /** After all the rewrites, a posting the scan collects that is not a target keeps its
      effective status, when some collected posting t is a target. */
  lemma ApplyKeepsOthers(lines: seq<string>, groups: seq<Group>, s: Status, k: nat, i: nat, t: nat)
    requires ValidGroups(lines, groups) && k < |groups| && WellMarked(lines, groups[k].header)
    requires groups[k].header <= i < RunEnd(lines, groups[k].header) && i + 1 !in groups[k].postings
    requires groups[k].header <= t < RunEnd(lines, groups[k].header) && t + 1 in groups[k].postings
    ensures EffectiveStatusAt(Apply(lines, groups, s), i + 1, groups[k].header)
      == EffectiveStatusAt(lines, i + 1, groups[k].header)
  {
    ApplyPair(lines, groups, s, k, i);
    StepKeepsOthers(lines, groups[k], s, i, t);
    SameLine(Apply(lines, groups, s), i + 1, i);
    SameLine(lines, i + 1, i);
  }
}
