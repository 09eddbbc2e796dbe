/**
 * The file-system side of the ledger editor: an abstract file with an integer
 * modification stamp, the optimistic write guard of SafeFileEditor (refuse to write
 * over a file changed since it was read; write a temporary file and rename it over
 * the target), and the self-write suppression of LedgerFileWatcher.
 */
module FileWatcher {
  import opened Text

  /** One path: whether it exists, its text, and its modification time. */
  datatype FileState = FileState(present: bool, content: string, mtime: int)

  const Missing := FileState(false, [], 0)

  /** The two paths the editor touches: the ledger file and its `<name>.tmp` sibling. */
  class Disk {
    var ledger: FileState
    var temp: FileState

    constructor (ledger: FileState)
      ensures this.ledger == ledger && temp == Missing
    {
      this.ledger := ledger;
      temp := Missing;
    }

    /** st_mtime of the ledger file, or 0 when it does not exist. */
    function ModificationTime(): int
      reads this
    {
      if ledger.present then ledger.mtime else 0
    }

    /** Another program replaces the ledger file. */
    method ExternalWrite(content: string, mtime: int)
      modifies this
      ensures ledger == FileState(true, content, mtime) && temp == old(temp)
    {
      ledger := FileState(true, content, mtime);
    }

    /** The temporary file is removed if it exists. */
    method RemoveTemp()
      modifies this
      ensures !temp.present && ledger == old(ledger)
    {
      if temp.present {
        temp := Missing;
      }
    }

    /** The temporary file is renamed over the ledger file. */
    method ReplaceLedger()
      requires temp.present
      modifies this
      ensures ledger == old(temp) && temp == Missing
    {
      ledger := temp;
      temp := Missing;
    }
  }

  // ---------------------------------------------------------------------------
  // SafeFileEditor

  /** Where writing the new text can fail with an OSError. */
  datatype Fault = NoFault | OpenFails | WriteFails | ReplaceFails

  /** The file changed after it was read: it exists and is newer than the read time. */
  predicate ChangedSince(f: FileState, readTime: int) {
    f.present && f.mtime > readTime
  }

  class SafeFileEditor {
    const disk: Disk
    var lastReadTime: int

    constructor (disk: Disk)
      ensures this.disk == disk && lastReadTime == 0
    {
      this.disk := disk;
      lastReadTime := 0;
    }

    /** read_lines_safely: the lines of the file as readlines() returns them after
        universal-newline decoding, stamped with the time of the read. A missing file gives
        no lines and does not move the last read time. */
    method ReadLinesSafely(now: int) returns (lines: seq<string>, readTime: int)
      modifies this
      ensures readTime == now
      ensures Concat(lines) == if disk.ledger.present then UniversalNewlines(disk.ledger.content) else []
      ensures forall k :: 0 <= k < |lines| ==> IsPhysicalLine(lines[k])
      ensures disk.ledger.present ==> lines == SplitLines(UniversalNewlines(disk.ledger.content))
      ensures lastReadTime == if disk.ledger.present then now else old(lastReadTime)
    {
      if !disk.ledger.present {
        return [], now;
      }
      var text := UniversalNewlines(disk.ledger.content);
      lines := SplitLines(text);
      SplitLinesConcat(text);
      SplitLinesShape(text);
      readTime := now;
      lastReadTime := readTime;
    }

    /** write_lines_safely: refuses (False, nothing touched) when the file changed after
        readTime; otherwise writes the lines to the temporary file and renames it over the
        ledger file (True), or, on an OSError, removes the temporary file and leaves the
        ledger file as it was (False). The new file is stamped `now`. */
    method WriteLinesSafely(lines: seq<string>, readTime: int, now: int, fault: Fault) returns (ok: bool)
      modifies disk
      ensures ChangedSince(old(disk.ledger), readTime) ==> !ok && disk.ledger == old(disk.ledger) && disk.temp == old(disk.temp)
      ensures !ChangedSince(old(disk.ledger), readTime) ==> !disk.temp.present
      ensures !ChangedSince(old(disk.ledger), readTime) && fault == NoFault ==>
        ok && disk.ledger == FileState(true, Concat(lines), now)
      ensures fault != NoFault ==> !ok && disk.ledger == old(disk.ledger)
    {
      if disk.ledger.present && disk.ledger.mtime > readTime {
        return false;
      }
      if fault == OpenFails {
        disk.RemoveTemp();
        return false;
      }
      disk.temp := FileState(true, [], now);
      if fault == WriteFails {
        disk.RemoveTemp();
        return false;
      }
      disk.temp := FileState(true, Concat(lines), now);
      if fault == ReplaceFails {
        disk.RemoveTemp();
        return false;
      }
      disk.ReplaceLedger();
      ok := true;
    }
  }

  // ---------------------------------------------------------------------------
  // LedgerFileWatcher

  /** The two fields that decide whether a change event reaches the callback. */
  datatype WatchState = WatchState(ignoreNext: bool, lastMod: int)

  /** mark_internal_change, given the file's current modification time. */
  function Mark(w: WatchState, mtime: int): (r: WatchState)
    ensures r.ignoreNext && r.lastMod == mtime
  {
    WatchState(true, mtime)
  }

  /** _handle_file_change, given the file's current modification time: the new state, and
      whether on_change is called. */
  function Handle(w: WatchState, mtime: int): (r: (WatchState, bool))
    ensures !r.0.ignoreNext
    ensures r.1 <==> !w.ignoreNext && mtime > w.lastMod
    ensures r.0.lastMod == if w.ignoreNext || mtime > w.lastMod then mtime else w.lastMod
  {
    if w.ignoreNext then (WatchState(false, mtime), false)
    else if mtime <= w.lastMod then (w, false)
    else (WatchState(false, mtime), true)
  }

  /** The event that follows an internal change is swallowed, whatever the file's time is
      by then, and the watcher then tracks that time. */
  lemma SelfWriteSuppressed(w: WatchState, before: int, after: int)
    ensures Handle(Mark(w, before), after) == (WatchState(false, after), false)
  {
  }

  /** A repeated event for the same modification time never calls on_change again. */
  lemma RepeatedEventQuiet(w: WatchState, mtime: int)
    ensures !Handle(Handle(w, mtime).0, mtime).1
  {
  }

  /** The recorded time never decreases while no internal change is marked. */
  lemma HandleMonotone(w: WatchState, mtime: int)
    requires !w.ignoreNext
    ensures Handle(w, mtime).0.lastMod >= w.lastMod
  {
  }

  /** Events delivered one after another, given the file's time at each: the final state
      and how many times on_change is called. */
  function HandleAll(w: WatchState, mtimes: seq<int>): (r: (WatchState, nat))
    ensures r.1 <= |mtimes|
    decreases |mtimes|
  {
    if mtimes == [] then (w, 0)
    else
      var (w', fired) := Handle(w, mtimes[0]);
      var (w'', n) := HandleAll(w', mtimes[1..]);
      (w'', n + if fired then 1 else 0)
  }

  /** Without an internal change, on_change is called only for events that carry a time
      later than any seen before: a run of events whose times never exceed the recorded
      time notifies nobody. */
  lemma {:induction false} StaleEventsQuiet(w: WatchState, mtimes: seq<int>)
    requires !w.ignoreNext
    requires forall k :: 0 <= k < |mtimes| ==> mtimes[k] <= w.lastMod
    ensures HandleAll(w, mtimes) == (w, 0)
    decreases |mtimes|
  {
    if mtimes != [] {
      assert Handle(w, mtimes[0]) == (w, false);
      StaleEventsQuiet(w, mtimes[1..]);
    }
  }

  /** Event k carries a time later than the starting time t and than every earlier event. */
  predicate IsPeak(t: int, mtimes: seq<int>, k: nat)
    requires k < |mtimes|
  {
    mtimes[k] > t && forall j :: 0 <= j < k ==> mtimes[j] < mtimes[k]
  }

  /** The events that carry a new latest time. */
  function Peaks(t: int, mtimes: seq<int>): set<nat> {
    set k: nat | k < |mtimes| && IsPeak(t, mtimes, k)
  }

  function Shift(s: set<nat>): set<nat> {
    set k | k in s :: k + 1
  }

  lemma {:induction false} ShiftCard(s: set<nat>)
    ensures |Shift(s)| == |s|
    decreases |s|
  {
    if s != {} {
      var x :| x in s;
      ShiftCard(s - {x});
      forall y
        ensures y in Shift(s) <==> y in Shift(s - {x}) + {x + 1}
      {
        if y in Shift(s) && y != x + 1 {
          var k :| k in s && y == k + 1;
          assert k in s - {x};
        }
      }
      assert Shift(s) == Shift(s - {x}) + {x + 1};
      assert x + 1 !in Shift(s - {x});
    }
  }

  /** Past the first event, a peak is a peak of the remaining events measured from the later
      of t and the first event's time. */
  lemma PeakShift(t: int, mtimes: seq<int>, k: nat)
    requires 0 < k < |mtimes|
    ensures IsPeak(t, mtimes, k) <==> IsPeak(if mtimes[0] > t then mtimes[0] else t, mtimes[1..], k - 1)
  {
    var rest := mtimes[1..];
    var t' := if mtimes[0] > t then mtimes[0] else t;
    if IsPeak(t, mtimes, k) {
      assert mtimes[0] < mtimes[k];
      forall j | 0 <= j < k - 1
        ensures rest[j] < rest[k - 1]
      {
        assert rest[j] == mtimes[j + 1];
      }
    }
    if IsPeak(t', rest, k - 1) {
      forall j | 0 <= j < k
        ensures mtimes[j] < mtimes[k]
      {
        if j > 0 {
          assert mtimes[j] == rest[j - 1];
        }
      }
    }
  }

  lemma PeaksCons(t: int, mtimes: seq<int>)
    requires mtimes != []
    ensures Peaks(t, mtimes)
      == (if mtimes[0] > t then {0} else {}) + Shift(Peaks(if mtimes[0] > t then mtimes[0] else t, mtimes[1..]))
  {
    var t' := if mtimes[0] > t then mtimes[0] else t;
    forall k: nat
      ensures k in Peaks(t, mtimes) <==> k in (if mtimes[0] > t then {0} else {}) + Shift(Peaks(t', mtimes[1..]))
    {
      if 0 < k < |mtimes| {
        PeakShift(t, mtimes, k);
        assert k in Shift(Peaks(t', mtimes[1..])) <==> k - 1 in Peaks(t', mtimes[1..]);
      }
    }
  }

  /** Without a pending internal change, on_change is called once for each event that
      carries a new latest time, and the watcher ends up holding the latest time seen. */
  lemma {:induction false} HandleAllNotifies(w: WatchState, mtimes: seq<int>)
    requires !w.ignoreNext
    ensures HandleAll(w, mtimes).1 == |Peaks(w.lastMod, mtimes)|
    ensures !HandleAll(w, mtimes).0.ignoreNext
    ensures HandleAll(w, mtimes).0.lastMod >= w.lastMod
    ensures forall k :: 0 <= k < |mtimes| ==> mtimes[k] <= HandleAll(w, mtimes).0.lastMod
    ensures HandleAll(w, mtimes).0.lastMod == w.lastMod || HandleAll(w, mtimes).0.lastMod in mtimes
    decreases |mtimes|
  {
    if mtimes == [] {
      assert Peaks(w.lastMod, mtimes) == {};
    } else {
      var w' := Handle(w, mtimes[0]).0;
      var rest := mtimes[1..];
      HandleAllNotifies(w', rest);
      PeaksCons(w.lastMod, mtimes);
      ShiftCard(Peaks(w'.lastMod, rest));
      assert 0 !in Shift(Peaks(w'.lastMod, rest));
      var last := HandleAll(w', rest).0.lastMod;
      assert HandleAll(w, mtimes).0 == HandleAll(w', rest).0;
      forall k | 0 <= k < |mtimes|
        ensures mtimes[k] <= last
      {
        if k > 0 {
          assert mtimes[k] == rest[k - 1];
        }
      }
      if last != w.lastMod {
        if last in rest {
          var j :| 0 <= j < |rest| && rest[j] == last;
          assert mtimes[j + 1] == last;
        } else {
          assert last == mtimes[0];
        }
      }
    }
  }

  class LedgerFileWatcher {
    const disk: Disk
    var lastModificationTime: int
    var ignoreNextChange: bool
    /** Whether the observer thread is running (observer is not None). */
    var running: bool
    /** How many times on_change has been called. */
    var notified: nat

    constructor (disk: Disk)
      ensures this.disk == disk && lastModificationTime == 0 && !ignoreNextChange
      ensures !running && notified == 0
    {
      this.disk := disk;
      lastModificationTime := 0;
      ignoreNextChange := false;
      running := false;
      notified := 0;
    }

    function State(): WatchState
      reads this
    {
      WatchState(ignoreNextChange, lastModificationTime)
    }

    /** start: a watcher that is not running records the file's time and starts. */
    method Start()
      modifies this
      ensures running
      ensures old(running) ==> State() == old(State())
      ensures !old(running) ==> State() == WatchState(old(ignoreNextChange), disk.ModificationTime())
      ensures notified == old(notified)
    {
      if running {
        return;
      }
      lastModificationTime := disk.ModificationTime();
      running := true;
    }

    /** stop. */
    method Stop()
      modifies this
      ensures !running && State() == old(State()) && notified == old(notified)
    {
      running := false;
    }

    /** mark_internal_change: ignore the next event and record the file's current time. */
    method MarkInternalChange()
      modifies this
      ensures State() == Mark(old(State()), disk.ModificationTime())
      ensures running == old(running) && notified == old(notified)
    {
      ignoreNextChange := true;
      lastModificationTime := disk.ModificationTime();
    }

    /** _handle_file_change: a marked change is swallowed; otherwise on_change is called
        once when the file is newer than the recorded time. */
    method HandleFileChange()
      modifies this
      ensures State() == Handle(old(State()), disk.ModificationTime()).0
      ensures notified == old(notified) + if Handle(old(State()), disk.ModificationTime()).1 then 1 else 0
      ensures running == old(running)
    {
      var current := disk.ModificationTime();
      if ignoreNextChange {
        ignoreNextChange := false;
        lastModificationTime := current;
        return;
      }
      if current <= lastModificationTime {
        return;
      }
      lastModificationTime := current;
      notified := notified + 1;
    }
  }
}
