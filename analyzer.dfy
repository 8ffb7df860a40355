/** The analyzer window's state and its analysis run: the folder choice,
    the guard that allows one analysis at a time, the scan, the loop that
    builds one record per file, and the callbacks the worker schedules on
    the interface (add a table row, move the progress bar, finish). The
    callbacks are queued and delivered first in, first out. */
module Analyzer {
  import opened Optional
  import Paths
  import Scanner
  import Records

  /** What the worker sees of the disk: the walk of the chosen folder, its
      flat listing (`None` when listing the folder fails), and what reading
      each file yields (a path missing from `inputs` cannot be read). */
  datatype FileSystem = FileSystem(
    walk: seq<Scanner.WalkStep>,
    listing: Option<seq<Scanner.DirEntry>>,
    inputs: map<string, Records.FileInput>)

  function InputOf(fs: FileSystem, path: string): Records.FileInput {
    if path in fs.inputs then fs.inputs[path] else Records.FileInput(None, None)
  }

  /** Entry names as the file system hands them out. */
  predicate WellFormed(fs: FileSystem) {
    && (forall i, j :: 0 <= i < |fs.walk| && 0 <= j < |fs.walk[i].files| ==>
          Scanner.EntryName(fs.walk[i].files[j]))
    && (fs.listing.Some? ==>
          forall i :: 0 <= i < |fs.listing.value| ==> Scanner.EntryName(fs.listing.value[i].name))
  }

  /** The files the scan collects, or `None` when the flat listing fails
      (which ends the worker before anything else happens). */
  function ScannedFiles(recursive: bool, folder: string, fs: FileSystem, exts: seq<string>)
    : Option<seq<string>>
  {
    if recursive then Some(Scanner.KeptWalk(fs.walk, exts))
    else if fs.listing.None? then None
    else Some(Scanner.KeptListing(folder, fs.listing.value, exts))
  }

  /** `process_image` against this file system. */
  function Process(fs: FileSystem): string -> Records.Record {
    path => Records.RecordOf(path, InputOf(fs, path))
  }

  /** `f` applied to every element, in order. */
  function Map<A, B>(xs: seq<A>, f: A -> B): (ys: seq<B>)
    ensures |ys| == |xs|
  {
    seq(|xs|, i requires 0 <= i < |xs| => f(xs[i]))
  }

  lemma MapStep<A, B>(xs: seq<A>, f: A -> B, i: nat)
    requires i < |xs|
    ensures Map(xs[..i + 1], f) == Map(xs[..i], f) + [f(xs[i])]
  {
    assert forall k :: 0 <= k < i ==> xs[..i + 1][k] == xs[..i][k];
  }

  /** The record of each file, in scan order. */
  function RecordsOf(files: seq<string>, fs: FileSystem): (rs: seq<Records.Record>)
    ensures |rs| == |files|
  {
    Map(files, Process(fs))
  }

  lemma RecordsOfStep(files: seq<string>, fs: FileSystem, i: nat)
    requires i < |files|
    ensures RecordsOf(files[..i + 1], fs) == RecordsOf(files[..i], fs) + [Process(fs)(files[i])]
  {
    MapStep(files, Process(fs), i);
  }

  /** `process_image` on a file of this file system. */
  method ProcessFile(fs: FileSystem, path: string) returns (r: Records.Record)
    ensures r == Process(fs)(path)
  {
    r := Records.ProcessImage(path, InputOf(fs, path));
  }

  /** A callback the worker hands to the interface. */
  datatype UiEvent = AddRow(record: Records.Record) | Progress(current: nat, total: nat) | Finish

  /** The callbacks of the processing loop: a row, then the progress, per file. */
  function EventsOf(rs: seq<Records.Record>, total: nat): seq<UiEvent> {
    if rs == [] then []
    else
      var n := |rs| - 1;
      EventsOf(rs[..n], total) + [AddRow(rs[n]), Progress(n + 1, total)]
  }

  /** The records the delivered events add to the table, in order. */
  function RowsOf(events: seq<UiEvent>): seq<Records.Record> {
    if events == [] then []
    else
      var e := events[|events| - 1];
      RowsOf(events[..|events| - 1]) + (if e.AddRow? then [e.record] else [])
  }

  /** The progress bar's value after the events, starting from `v`. */
  function LastProgress(events: seq<UiEvent>, v: nat): nat {
    if events == [] then v
    else
      var e := events[|events| - 1];
      if e.Progress? then e.current else LastProgress(events[..|events| - 1], v)
  }

  /** The window: the fields of the application object that the analysis
      reads and writes. */
  class PhotoAnalyzer {
    var foundData: seq<Records.Record>
    var isProcessing: bool
    var selectedFolder: Option<string>
    var recursive: bool
    var filters: Scanner.Filters
    var progressMax: nat
    var progressValue: nat
    /** Table rows, in insertion order. */
    var rows: seq<Records.Record>
    /** Callbacks scheduled by the worker and not yet run by the interface. */
    var pending: seq<UiEvent>

    /** Start-up: nothing found, idle, no folder, recursive search on, the
        default formats ticked, an empty table, and a progress bar created
        without a maximum, so at Tk's default of 100. */
    constructor()
      ensures foundData == [] && !isProcessing && selectedFolder.None?
      ensures recursive && filters == Scanner.DefaultFilters
      ensures progressMax == 100 && progressValue == 0 && rows == [] && pending == []
    {
      foundData := [];
      isProcessing := false;
      selectedFolder := None;
      recursive := true;
      filters := Scanner.DefaultFilters;
      progressMax := 100;
      progressValue := 0;
      rows := [];
      pending := [];
    }

    /** `select_folder`: a cancelled dialog (empty answer) keeps the old choice. */
    method SelectFolder(folder: string)
      modifies this
      ensures selectedFolder == if folder != [] then Some(folder) else old(selectedFolder)
      ensures foundData == old(foundData) && isProcessing == old(isProcessing)
      ensures recursive == old(recursive) && filters == old(filters)
      ensures progressMax == old(progressMax) && progressValue == old(progressValue)
      ensures rows == old(rows) && pending == old(pending)
    {
      if folder != [] {
        selectedFolder := Some(folder);
      }
    }

    /** `start_analysis_thread`: refused without a folder or while an analysis
        runs; otherwise the guard is raised and the results are cleared. */
    method StartAnalysis() returns (started: bool)
      modifies this
      ensures started <==> old(selectedFolder).Some? && !old(isProcessing)
      ensures started ==> isProcessing && foundData == [] && rows == []
      ensures !started ==> isProcessing == old(isProcessing) && foundData == old(foundData)
                           && rows == old(rows)
      ensures selectedFolder == old(selectedFolder) && recursive == old(recursive)
      ensures filters == old(filters) && pending == old(pending)
      ensures progressMax == old(progressMax) && progressValue == old(progressValue)
    {
      if selectedFolder.None? {
        return false;
      }
      if isProcessing {
        return false;
      }
      isProcessing := true;
      rows := [];
      foundData := [];
      started := true;
    }

    /** `run_analysis`: scan, reset the progress bar, then one record per file,
        each followed by a row and a progress callback, and a final callback
        that finishes. A failing flat listing ends the worker at once. */
    method RunAnalysis(fs: FileSystem)
      requires selectedFolder.Some?
      modifies this
      ensures var exts := Scanner.Enabled(old(filters));
        var scanned := ScannedFiles(old(recursive), old(selectedFolder).value, fs, exts);
        if scanned.None? then
          foundData == old(foundData) && pending == old(pending)
          && progressMax == old(progressMax) && progressValue == old(progressValue)
        else
          var files := scanned.value;
          var rs := RecordsOf(files, fs);
          && foundData == old(foundData) + rs
          && pending == old(pending) + EventsOf(rs, |files|) + [Finish]
          && progressMax == |files| && progressValue == 0
      ensures isProcessing == old(isProcessing) && rows == old(rows)
      ensures selectedFolder == old(selectedFolder) && recursive == old(recursive)
      ensures filters == old(filters)
    {
      var exts := Scanner.GetTargetExtensions(filters);
      var folder := selectedFolder.value;
      var files: seq<string>;
      if recursive {
        files := Scanner.ScanRecursive(fs.walk, exts);
      } else {
        if fs.listing.None? {
          return;
        }
        files := Scanner.ScanFolder(folder, fs.listing.value, exts);
      }

      progressMax := |files|;
      progressValue := 0;
      ProcessFiles(files, fs);
      Associative(old(pending), EventsOf(RecordsOf(files, fs), |files|), [Finish]);
      pending := pending + [Finish];
    }

    /** The processing loop of `run_analysis`: per file, its record is
        appended to the results, then a row and a progress callback are
        scheduled. */
    method ProcessFiles(files: seq<string>, fs: FileSystem)
      modifies this`foundData, this`pending
      ensures foundData == old(foundData) + RecordsOf(files, fs)
      ensures pending == old(pending) + EventsOf(RecordsOf(files, fs), |files|)
    {
      var total := |files|;
      for i := 0 to total
        invariant foundData == old(foundData) + RecordsOf(files[..i], fs)
        invariant pending == old(pending) + EventsOf(RecordsOf(files[..i], fs), total)
      {
        var meta := ProcessFile(fs, files[i]);
        ghost var done := RecordsOf(files[..i], fs);
        RecordsOfStep(files, fs, i);
        EventsStep(done, meta, total);
        Associative(old(foundData), done, [meta]);
        Associative(old(pending), EventsOf(done, total), [AddRow(meta), Progress(i + 1, total)]);
        foundData := foundData + [meta];
        pending := pending + [AddRow(meta), Progress(i + 1, total)];
      }
      assert files[..total] == files;
    }

    /** `finish_analysis`: the guard is lowered. */
    method FinishAnalysis()
      modifies this
      ensures !isProcessing
      ensures foundData == old(foundData) && selectedFolder == old(selectedFolder)
      ensures recursive == old(recursive) && filters == old(filters)
      ensures progressMax == old(progressMax) && progressValue == old(progressValue)
      ensures rows == old(rows) && pending == old(pending)
    {
      isProcessing := false;
    }

    /** The interface runs the oldest pending callback. */
    method DispatchNext()
      requires pending != []
      modifies this
      ensures var e := old(pending)[0];
        && pending == old(pending)[1..]
        && rows == old(rows) + (if e.AddRow? then [e.record] else [])
        && progressValue == (if e.Progress? then e.current else old(progressValue))
        && isProcessing == (old(isProcessing) && !e.Finish?)
      ensures foundData == old(foundData) && selectedFolder == old(selectedFolder)
      ensures recursive == old(recursive) && filters == old(filters)
      ensures progressMax == old(progressMax)
    {
      var e := pending[0];
      pending := pending[1..];
      match e
      case AddRow(r) =>
        rows := rows + [r];
      case Progress(current, _) =>
        progressValue := current;
      case Finish =>
        FinishAnalysis();
    }

    /** The interface runs every pending callback, oldest first. */
    method DispatchAll()
      modifies this
      ensures pending == []
      ensures rows == old(rows) + RowsOf(old(pending))
      ensures progressValue == LastProgress(old(pending), old(progressValue))
      ensures isProcessing == (old(isProcessing) && Finish !in old(pending))
      ensures foundData == old(foundData) && selectedFolder == old(selectedFolder)
      ensures recursive == old(recursive) && filters == old(filters)
      ensures progressMax == old(progressMax)
    {
      ghost var all := pending;
      ghost var k := 0;
      while pending != []
        invariant 0 <= k <= |all| && pending == all[k..]
        invariant rows == old(rows) + RowsOf(all[..k])
        invariant progressValue == LastProgress(all[..k], old(progressValue))
        invariant isProcessing == (old(isProcessing) && Finish !in all[..k])
        invariant foundData == old(foundData) && selectedFolder == old(selectedFolder)
        invariant recursive == old(recursive) && filters == old(filters)
        invariant progressMax == old(progressMax)
        decreases |pending|
      {
        assert all[..k + 1][..k] == all[..k];
        assert all[k] == pending[0];
        DispatchNext();
        k := k + 1;
      }
      assert all[..k] == all;
    }

    /** Pressing the start button with an idle queue and letting the worker
        and the interface run to the end. */
    method Analyze(fs: FileSystem) returns (started: bool)
      requires pending == []
      modifies this
      ensures started <==> old(selectedFolder).Some? && !old(isProcessing)
      ensures pending == []
      ensures started ==>
        var exts := Scanner.Enabled(old(filters));
        var scanned := ScannedFiles(old(recursive), old(selectedFolder).value, fs, exts);
        if scanned.None? then isProcessing && foundData == [] && rows == []
        else
          var rs := RecordsOf(scanned.value, fs);
          && !isProcessing && foundData == rs && rows == rs
          && progressMax == |rs| && progressValue == |rs|
    {
      started := StartAnalysis();
      if !started {
        return;
      }
      ghost var exts := Scanner.Enabled(filters);
      ghost var scanned := ScannedFiles(recursive, selectedFolder.value, fs, exts);
      RunAnalysis(fs);
      ghost var events := pending;
      DispatchAll();
      if scanned.Some? {
        var rs := RecordsOf(scanned.value, fs);
        EmptyLeft(rs);
        EmptyLeft(EventsOf(rs, |rs|) + [Finish]);
        assert events == EventsOf(rs, |rs|) + [Finish];
        RunEvents(rs);
      }
    }
  }

  /** Delivering one run's callbacks adds its records as rows, leaves the bar
      at the number of files, and finishes exactly once, at the end. */
  lemma RunEvents(rs: seq<Records.Record>)
    ensures RowsOf(EventsOf(rs, |rs|) + [Finish]) == rs
    ensures LastProgress(EventsOf(rs, |rs|) + [Finish], 0) == |rs|
    ensures Finish in EventsOf(rs, |rs|) + [Finish]
  {
    var es := EventsOf(rs, |rs|) + [Finish];
    assert es[..|es| - 1] == EventsOf(rs, |rs|);
    EventsRows(rs, |rs|);
    EventsProgress(rs, |rs|);
  }

  lemma EmptyLeft<T>(a: seq<T>)
    ensures [] + a == a
  {
  }

  lemma Associative<T>(a: seq<T>, b: seq<T>, c: seq<T>)
    ensures a + b + c == a + (b + c)
  {
  }

  lemma EventsStep(rs: seq<Records.Record>, r: Records.Record, total: nat)
    ensures EventsOf(rs + [r], total) == EventsOf(rs, total) + [AddRow(r), Progress(|rs| + 1, total)]
  {
    assert (rs + [r])[..|rs|] == rs;
  }

  /** The row callbacks carry the records in order. */
  lemma {:induction false} EventsRows(rs: seq<Records.Record>, total: nat)
    ensures RowsOf(EventsOf(rs, total)) == rs
  {
    if rs != [] {
      var n := |rs| - 1;
      var es := EventsOf(rs, total);
      var pre := EventsOf(rs[..n], total);
      assert es == pre + [AddRow(rs[n]), Progress(n + 1, total)];
      assert es[..|es| - 1] == pre + [AddRow(rs[n])];
      assert (pre + [AddRow(rs[n])])[..|pre|] == pre;
      EventsRows(rs[..n], total);
      assert rs[..n] + [rs[n]] == rs;
    }
  }

  /** The last progress callback reports every file done; with no files the
      bar keeps its value. */
  lemma EventsProgress(rs: seq<Records.Record>, total: nat)
    ensures LastProgress(EventsOf(rs, total), 0) == |rs|
  {
    if rs != [] {
      var n := |rs| - 1;
      assert EventsOf(rs, total) == EventsOf(rs[..n], total) + [AddRow(rs[n]), Progress(n + 1, total)];
    }
  }

  /** The progress callbacks count up one file at a time, against the total. */
  lemma {:induction false} ProgressCounts(rs: seq<Records.Record>, total: nat)
    ensures |EventsOf(rs, total)| == 2 * |rs|
    ensures forall i :: 0 <= i < |rs| ==>
      EventsOf(rs, total)[2 * i] == AddRow(rs[i]) && EventsOf(rs, total)[2 * i + 1] == Progress(i + 1, total)
  {
    if rs != [] {
      var n := |rs| - 1;
      ProgressCounts(rs[..n], total);
      var pre := EventsOf(rs[..n], total);
      assert EventsOf(rs, total) == pre + [AddRow(rs[n]), Progress(n + 1, total)];
      forall i | 0 <= i < n
        ensures EventsOf(rs, total)[2 * i] == AddRow(rs[i])
      {
        assert rs[..n][i] == rs[i];
      }
    }
  }

  /** Every record of a run is a file the filters select: its file name ends
      with a ticked extension, ignoring case. */
  lemma RecordsMatchFilter(recursive: bool, folder: string, fs: FileSystem, exts: seq<string>)
    requires WellFormed(fs)
    ensures var scanned := ScannedFiles(recursive, folder, fs, exts);
      scanned.Some? ==>
        forall r :: r in RecordsOf(scanned.value, fs) ==> Scanner.Matches(r.filename, exts)
  {
    var scanned := ScannedFiles(recursive, folder, fs, exts);
    if scanned.Some? {
      ScannedMatch(recursive, folder, fs, exts);
      NamesMatch(scanned.value, fs, exts);
    }
  }

  /** The file name of every scanned path matches the enabled extensions. */
  lemma ScannedMatch(recursive: bool, folder: string, fs: FileSystem, exts: seq<string>)
    requires WellFormed(fs)
    ensures var scanned := ScannedFiles(recursive, folder, fs, exts);
      scanned.Some? ==> forall p :: p in scanned.value ==> Scanner.Matches(Paths.Basename(p), exts)
  {
    if recursive {
      Scanner.KeptWalkMatches(fs.walk, exts);
    } else if fs.listing.Some? {
      Scanner.KeptListingMatches(folder, fs.listing.value, exts);
    }
  }

  /** Records keep the file name of their path, so matching paths give
      matching records. */
  lemma NamesMatch(files: seq<string>, fs: FileSystem, exts: seq<string>)
    requires forall p :: p in files ==> Scanner.Matches(Paths.Basename(p), exts)
    ensures forall r :: r in RecordsOf(files, fs) ==> Scanner.Matches(r.filename, exts)
  {
    FileNames(files, fs);
  }

  /** Each record's file name is the last component of its file's path. */
  lemma FileNames(files: seq<string>, fs: FileSystem)
    ensures forall r :: r in RecordsOf(files, fs) ==>
      exists i :: 0 <= i < |files| && r.filename == Paths.Basename(files[i])
  {
    var rs := RecordsOf(files, fs);
    forall r | r in rs
      ensures exists i :: 0 <= i < |files| && r.filename == Paths.Basename(files[i])
    {
      var i :| 0 <= i < |rs| && rs[i] == r;
      Records.RecordPath(files[i], InputOf(fs, files[i]));
    }
  }
}
