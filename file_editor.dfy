/**
 * LedgerFileEditor: the loops of the editor (the backward and forward scans, validation,
 * grouping, the in-place rewrite of the line buffer) as methods proved against the
 * specification functions of LedgerStructure and LedgerBatch, and update_postings_status
 * over the abstract file of FileWatcher.
 */
module FileEditor {
  import opened Wrappers
  import opened Text
  import opened LedgerLines
  import opened LedgerStructure
  import opened LedgerBatch
  import opened FileWatcher

  /** _find_transaction_for_posting: walk back from the line above p to the first header,
      giving up at a blank line or at the start of the file. */
  method FindTransactionForPosting(lines: seq<string>, p: int) returns (r: Option<nat>)
    requires p - 2 < |lines|
    ensures r == FindTransaction(lines, p)
  {
    var i := p - 2;
    while i >= 0
      invariant i <= p - 2 && i < |lines|
      invariant OwnerFrom(lines, i) == OwnerFrom(lines, p - 2)
      decreases i + 1
    {
      var line := lines[i];
      if IsHeader(line) {
        return Some(i + 1);
      }
      if IsBlank(line) {
        return None;
      }
      i := i - 1;
    }
    return None;
  }

  /** _find_all_postings_for_transaction: the lines after header h up to the first blank
      line, header or unindented line. A header past the end of the file has none. */
  method FindAllPostingsForTransaction(lines: seq<string>, h: nat) returns (r: seq<nat>)
    ensures h <= |lines| ==> r == PostingsOf(lines, h)
    ensures h > |lines| ==> r == []
  {
    r := [];
    var i := h;
    while i < |lines|
      invariant h <= |lines| ==> h <= i <= RunEnd(lines, h) && RunEnd(lines, i) == RunEnd(lines, h)
      invariant h <= |lines| ==> r == seq(i - h, k => h + 1 + k)
      invariant h > |lines| ==> r == [] && i == h
      decreases |lines| - i
    {
      var line := lines[i];
      if IsBlank(line) {
        break;
      }
      if IsHeader(line) {
        break;
      }
      if LStrip(line) != [] && !IsIndented(line) {
        break;
      }
      if !IsBlank(line) {
        r := r + [i + 1];
      }
      i := i + 1;
    }
  }

  /** _validate_postings: every target is a line of the file, a valid posting line, has an
      owning header, and has the expected effective status. */
  method ValidatePostings(lines: seq<string>, targets: seq<int>, expected: string) returns (ok: bool)
    ensures ok <==> AllValid(lines, targets, expected)
  {
    for k := 0 to |targets|
      invariant forall j :: 0 <= j < k ==> ValidTarget(lines, targets[j], expected)
    {
      var p := targets[k];
      if p < 1 || p > |lines| {
        return false;
      }
      if !IsValidPostingLine(lines[p - 1]) {
        return false;
      }
      var h := FindTransactionForPosting(lines, p);
      if h.None? {
        return false;
      }
      var current := EffectiveStatusAt(lines, p, h.value);
      if current != expected {
        return false;
      }
    }
    return true;
  }

  /** _group_postings_by_transaction: the insertion-ordered dictionary from owning header to
      targets, or None when a target has no owner. */
  method GroupPostingsByTransaction(lines: seq<string>, targets: seq<int>) returns (r: Option<seq<Group>>)
    requires InFile(lines, targets)
    ensures r == GroupTargets(lines, targets)
  {
    var groups: seq<Group> := [];
    for k := 0 to |targets|
      invariant InFile(lines, targets[..k])
      invariant GroupTargets(lines, targets[..k]) == Some(groups)
    {
      var p := targets[k];
      var h := FindTransactionForPosting(lines, p);
      if h.None? {
        GroupTargetsFails(lines, targets);
        return None;
      }
      assert targets[..k + 1][..k] == targets[..k];
      ghost var before := groups;
      var i := GroupIndex(groups, h.value);
      if i == |groups| {
        groups := groups + [Group(h.value, [])];
      }
      groups := groups[i := Group(h.value, groups[i].postings + [p])];
      if i == |before| {
        assert [] + [p] == [p];
        assert groups == before + [Group(h.value, [p])];
      }
      assert groups == AddTarget(before, h.value, p);
    }
    assert targets[..|targets|] == targets;
    return Some(groups);
  }

  /** The final statuses of the scanned postings of g, in scan order (the values of
      final_statuses): the new status for a target, the effective status otherwise. */
  method CollectFinalStatuses(lines: seq<string>, g: Group, s: Status, all: seq<nat>) returns (finals: seq<Status>)
    requires 1 <= g.header <= |lines| && all == PostingsOf(lines, g.header)
    ensures finals == FinalStatuses(lines, g, s)
  {
    var h := g.header;
    finals := [];
    for k := 0 to |all|
      invariant finals == FirstFinalStatuses(lines, g, s, k)
    {
      PostingsOfRange(lines, h, k);
      var p := all[k];
      var status: Status;
      if p in g.postings {
        status := s;
        TargetStatusStep(lines, g, s, k);
      } else {
        status := EffectiveStatusAt(lines, p, h);
        KeptStatusStep(lines, g, s, k);
      }
      finals := finals + [status];
    }
  }

  lemma TargetStatusStep(lines: seq<string>, g: Group, s: Status, k: nat)
    requires 1 <= g.header && g.header + k < |lines|
    requires g.header + 1 + k in g.postings
    ensures FirstFinalStatuses(lines, g, s, k + 1) == FirstFinalStatuses(lines, g, s, k) + [s]
  {
    FirstFinalStatusesSnoc(lines, g, s, k);
  }

  lemma KeptStatusStep(lines: seq<string>, g: Group, s: Status, k: nat)
    requires 1 <= g.header && g.header + k < |lines|
    requires g.header + 1 + k !in g.postings
    ensures FirstFinalStatuses(lines, g, s, k + 1)
      == FirstFinalStatuses(lines, g, s, k) + [EffectiveStatusAt(lines, g.header + 1 + k, g.header)]
  {
    KeptFinalStatus(lines, g, s, g.header + k);
    FirstFinalStatusesSnoc(lines, g, s, k);
  }

  lemma KeptFinalStatus(lines: seq<string>, g: Group, s: Status, i: nat)
    requires 1 <= g.header <= |lines| && i < |lines| && i + 1 !in g.postings
    ensures FinalStatus(lines, g, s, i) == EffectiveStatusAt(lines, i + 1, g.header)
  {
    FinalStatusOfOther(lines, g, s, i);
    EffectiveStatusAtIndex(lines, i, g.header);
  }

  /** The posting loops of _apply_status_updates: line p - 1 of each scanned posting p is
      rewritten with its marker; nothing before or after the run changes. */
  method UpdatePostingLines(lines: array<string>, h: nat, all: seq<nat>, statuses: seq<Status>)
    requires |statuses| == |all| && h + |all| <= lines.Length
    requires forall k :: 0 <= k < |all| ==> all[k] == h + 1 + k
    modifies lines
    ensures lines[..h] == old(lines[..h])
    ensures lines[h..h + |all|] == RewrittenRun(old(lines[..]), h, statuses)
    ensures lines[h + |all|..] == old(lines[h + |all|..])
  {
    ghost var L := lines[..];
    for k := 0 to |all|
      invariant lines[..h] == L[..h]
      invariant lines[h..h + k] == RewrittenRun(L, h, statuses[..k])
      invariant lines[h + k..] == L[h + k..]
    {
      var i := all[k] - 1;
      assert lines[i] == L[h + k] by { assert lines[h + k..][0] == L[h + k..][0]; }
      lines[i] := UpdatePostingLine(lines[i], statuses[k]);
      assert lines[h..h + k + 1] == RewrittenRun(L, h, statuses[..k + 1]) by {
        assert lines[h..h + k + 1] == lines[h..h + k] + [lines[h + k]];
      }
    }
    assert statuses[..|all|] == statuses;
  }

  /** A buffer that holds the new header at h - 1 and the rewritten run after it, and
      otherwise the old lines, is the rebuilt file. */
  lemma Reassemble(L: seq<string>, M: seq<string>, h: nat, header: string, statuses: seq<Status>, r: seq<string>)
    requires 1 <= h && h + |statuses| <= |L| == |r|
    requires M == L[h - 1 := header]
    requires r[..h] == M[..h]
    requires r[h..h + |statuses|] == RewrittenRun(M, h, statuses)
    requires r[h + |statuses|..] == M[h + |statuses|..]
    ensures r == Rebuild(L, h, header, RewrittenRun(L, h, statuses))
  {
    var n := |statuses|;
    assert RewrittenRun(M, h, statuses) == RewrittenRun(L, h, statuses);
    assert r == r[..h - 1] + [r[h - 1]] + r[h..h + n] + r[h + n..];
  }

  /** One iteration of _apply_status_updates: collect the final statuses of the scanned
      postings, then write either the header form or the per-posting form. */
  method RewriteTransaction(lines: array<string>, g: Group, s: Status)
    requires 1 <= g.header <= lines.Length
    modifies lines
    ensures lines[..] == Step(old(lines[..]), g, s)
  {
    ghost var L := lines[..];
    var h := g.header;
    var all := FindAllPostingsForTransaction(lines[..], h);
    var finals := CollectFinalStatuses(lines[..], g, s, all);
    var useHeader := |set x | x in finals| == 1 && |all| > 0;
    MarkersChosen(L, g, s, all, finals, useHeader);
    if useHeader {
      WriteTransaction(lines, h, s, all, NoMarkers(|all|));
    } else {
      WriteTransaction(lines, h, "", all, finals);
    }
    StepFromRun(L, g, s);
  }

  /** One branch of _apply_status_updates: the header line gets headerStatus, then posting
      h + 1 + k gets statuses[k]. */
  method WriteTransaction(lines: array<string>, h: nat, headerStatus: Status, all: seq<nat>, statuses: seq<Status>)
    requires 1 <= h && h + |all| <= lines.Length && |statuses| == |all|
    requires all == PostingsOf(lines[..], h)
    modifies lines
    ensures lines[..] == Rebuild(old(lines[..]), h, UpdateTransactionLine(old(lines[h - 1]), headerStatus),
      RewrittenRun(old(lines[..]), h, statuses))
  {
    ghost var L := lines[..];
    PostingsOfShape(L, h);
    lines[h - 1] := UpdateTransactionLine(lines[h - 1], headerStatus);
    ghost var M := lines[..];
    UpdatePostingLines(lines, h, all, statuses);
    Reassemble(L, M, h, M[h - 1], statuses, lines[..]);
  }

  /** The scanned postings are h + 1, h + 2, … */
  lemma PostingsOfShape(lines: seq<string>, h: nat)
    requires h <= |lines|
    ensures forall k :: 0 <= k < |PostingsOf(lines, h)| ==> PostingsOf(lines, h)[k] == h + 1 + k
  {
  }

  /** The choice made by RewriteTransaction agrees with UseHeader, HeaderStatus and
      PostingMarkers. */
  lemma MarkersChosen(L: seq<string>, g: Group, s: Status, all: seq<nat>, finals: seq<Status>, useHeader: bool)
    requires 1 <= g.header <= |L|
    requires all == PostingsOf(L, g.header) && finals == FinalStatuses(L, g, s)
    requires useHeader == (|set x | x in finals| == 1 && |all| > 0)
    ensures useHeader == UseHeader(L, g, s)
    ensures useHeader ==> s == HeaderStatus(L, g, s) && NoMarkers(|all|) == PostingMarkers(L, g, s)
    ensures !useHeader ==> "" == HeaderStatus(L, g, s) && finals == PostingMarkers(L, g, s)
  {
  }

  /** _apply_status_updates: the transactions are rewritten in the dictionary's order. */
  method ApplyStatusUpdates(lines: array<string>, groups: seq<Group>, s: Status)
    requires HeadersIn(lines[..], groups)
    modifies lines
    ensures lines[..] == Apply(old(lines[..]), groups, s)
  {
    ghost var L := lines[..];
    for k := 0 to |groups|
      invariant lines.Length == |L|
      invariant lines[..] == Apply(L, groups[..k], s)
    {
      assert groups[..k + 1][..k] == groups[..k];
      RewriteTransaction(lines, groups[k], s);
    }
    assert groups[..|groups|] == groups;
  }

  /** The in-memory part of update_postings_status: validate the targets, group them, copy
      the lines into a buffer and rewrite it; None when validation or grouping refuses. */
  method UpdateLines(lines: seq<string>, targets: seq<int>, expected: string, s: Status) returns (r: Option<seq<string>>)
    ensures r == UpdatedLines(lines, targets, expected, s)
  {
    var valid := ValidatePostings(lines, targets, expected);
    if !valid {
      return None;
    }
    ValidInFile(lines, targets, expected);
    var transactions := GroupPostingsByTransaction(lines, targets);
    if transactions.None? {
      return None;
    }
    var buffer := new string[|lines|](i requires 0 <= i < |lines| => lines[i]);
    assert buffer[..] == lines;
    ApplyStatusUpdates(buffer, transactions.value, s);
    return Some(buffer[..]);
  }

  // ---------------------------------------------------------------------------
  // update_postings_status

  /** What another program does to the ledger file between the read and the write. */
  datatype Interference = Untouched | ReplacedWith(content: string, mtime: int)

  /** The ledger file once the interference has happened. */
  function Interfered(f: FileState, i: Interference): (r: FileState)
    ensures i.Untouched? ==> r == f
    ensures i.ReplacedWith? ==> r == FileState(true, i.content, i.mtime)
  {
    match i
    case Untouched => f
    case ReplacedWith(content, mtime) => FileState(true, content, mtime)
  }

  /** The lines read_lines_safely gives for a file: none when it does not exist. */
  function ReadBack(f: FileState): (r: seq<string>)
    ensures Concat(r) == if f.present then UniversalNewlines(f.content) else []
  {
    if f.present then
      SplitLinesConcat(UniversalNewlines(f.content));
      SplitLines(UniversalNewlines(f.content))
    else []
  }

  /** st_mtime of a file, or 0 when it does not exist. */
  function MTime(f: FileState): int {
    if f.present then f.mtime else 0
  }

  class LedgerFileEditor {
    const disk: Disk
    const safeEditor: SafeFileEditor
    const watcher: Option<LedgerFileWatcher>

    /** The editor's SafeFileEditor and its watcher, if any, look at the editor's file. */
    predicate Valid() {
      safeEditor.disk == disk && (watcher.Some? ==> watcher.value.disk == disk)
    }

    /** The objects update_postings_status may change besides the file. */
    function Watchers(): set<object> {
      if watcher.Some? then {watcher.value} else {}
    }

    constructor (disk: Disk, watcher: Option<LedgerFileWatcher>)
      requires watcher.Some? ==> watcher.value.disk == disk
      ensures Valid() && this.disk == disk && this.watcher == watcher
      ensures fresh(safeEditor) && safeEditor.lastReadTime == 0
    {
      this.disk := disk;
      this.watcher := watcher;
      safeEditor := new SafeFileEditor(disk);
    }

    /** The watcher's state, or a fixed value when there is none. */
    function WatcherState(): WatchState
      reads Watchers()
    {
      if watcher.Some? then watcher.value.State() else WatchState(false, 0)
    }

    /** update_postings_status: read the file (at time `now`), validate and group the targets,
        rewrite the line buffer, let `interference` happen, mark the change for the watcher and
        write the buffer back (stamped `writeTime`) under the write guard. */
    method UpdatePostingsStatus(targets: seq<int>, expected: string, newStatus: Status,
                                now: int, interference: Interference, writeTime: int, fault: Fault)
      returns (ok: bool)
      requires Valid()
      modifies disk, safeEditor, Watchers()
      ensures targets == [] ==>
        && ok && disk.ledger == old(disk.ledger) && disk.temp == old(disk.temp)
        && safeEditor.lastReadTime == old(safeEditor.lastReadTime) && WatcherState() == old(WatcherState())
      ensures targets != [] ==>
        safeEditor.lastReadTime == if old(disk.ledger).present then now else old(safeEditor.lastReadTime)
      ensures targets != [] && UpdatedLines(ReadBack(old(disk.ledger)), targets, expected, newStatus).None? ==>
        && !ok && disk.ledger == old(disk.ledger) && disk.temp == old(disk.temp)
        && WatcherState() == old(WatcherState())
      ensures targets != [] && UpdatedLines(ReadBack(old(disk.ledger)), targets, expected, newStatus).Some? ==>
        var written := UpdatedLines(ReadBack(old(disk.ledger)), targets, expected, newStatus).value;
        var before := Interfered(old(disk.ledger), interference);
        && (watcher.Some? ==> WatcherState() == Mark(old(WatcherState()), MTime(before)))
        && (ChangedSince(before, now) ==> !ok && disk.ledger == before)
        && (!ChangedSince(before, now) && fault == NoFault ==>
              ok && disk.ledger == FileState(true, Concat(written), writeTime) && !disk.temp.present)
        && (!ChangedSince(before, now) && fault != NoFault ==> !ok && disk.ledger == before && !disk.temp.present)
      ensures watcher.Some? ==> watcher.value.running == old(watcher.value.running) && watcher.value.notified == old(watcher.value.notified)
    {
      if targets == [] {
        return true;
      }
      var lines, readTime := safeEditor.ReadLinesSafely(now);
      assert lines == ReadBack(old(disk.ledger));
      var updated := UpdateLines(lines, targets, expected, newStatus);
      if updated.None? {
        return false;
      }
      match interference {
        case ReplacedWith(content, mtime) => disk.ExternalWrite(content, mtime);
        case Untouched =>
      }
      if watcher.Some? {
        watcher.value.MarkInternalChange();
      }
      ok := safeEditor.WriteLinesSafely(updated.value, readTime, writeTime, fault);
    }
  }
}
