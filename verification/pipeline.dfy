/** The application's batch pipeline: selecting files resets the batch, and
    processing walks the files one at a time in selection order, rasterising each,
    extracting the first page, and recording success or failure against that file
    alone. The two collaborators are parameters, modelled as total, deterministic
    functions of their argument: a call that never settles is not modelled. */
module Pipeline {
  import opened Wrappers
  import opened Invoice
  import Uploader
  import Seqs

  /** Where one file stands in the batch. */
  datatype Status = Pending | Processing | Succeeded | Failed

  /** The states a processed file ends in. */
  predicate Terminal(s: Status) {
    s == Succeeded || s == Failed
  }

  /** One entry of the batch list: the file, its status and an optional error text. */
  datatype FileStatus = FileStatus(file: Uploader.File, status: Status, message: Option<string>)

  /** The application state the pipeline reads and writes. */
  datatype AppState = AppState(
    files: seq<FileStatus>,
    extractedData: seq<InvoiceData>,
    isProcessing: bool,
    globalError: Option<string>)

  /** Renders every page of a document, or fails with what it threw. */
  type Rasterizer = Uploader.File -> Result<seq<Image>, Thrown>

  /** Extracts an invoice from one page (possibly `undefined`), or fails with what it threw. */
  type Extractor = Option<Image> -> Result<InvoiceData, Thrown>

  /** A call made to a collaborator, with its argument. */
  datatype Call = Rasterize(file: Uploader.File) | Extract(image: Option<Image>)

  /** The entry finished with `success`. */
  predicate IsSucceeded(item: FileStatus) {
    item.status == Succeeded
  }

  /** `after` differs from `before` at most in entry `i`, and that entry keeps its file. */
  predicate OnlyItemChanged(before: seq<FileStatus>, after: seq<FileStatus>, i: nat) {
    && |after| == |before|
    && i < |before|
    && after[i].file == before[i].file
    && forall k :: 0 <= k < |before| && k != i ==> after[k] == before[k]
  }

  /** A new selection: one pending entry per selected file, in order, without messages;
      the previous results and the global error are cleared. */
  function SelectFiles(st: AppState, selected: seq<Uploader.File>): (st': AppState)
    ensures |st'.files| == |selected|
    ensures forall k :: 0 <= k < |selected| ==>
      st'.files[k].file == selected[k] && st'.files[k].status == Pending && st'.files[k].message.None?
    ensures st'.extractedData == [] && st'.globalError.None?
    ensures st'.isProcessing == st.isProcessing
  {
    st.(files := seq(|selected|, k requires 0 <= k < |selected| => FileStatus(selected[k], Pending, None)),
        extractedData := [],
        globalError := None)
  }

  /** Sets the status of entry `i`, keeping its file and any earlier message; an index
      outside the list changes nothing. */
  function SetStatus(items: seq<FileStatus>, i: nat, status: Status): (r: seq<FileStatus>)
    ensures i < |items| ==> OnlyItemChanged(items, r, i) && r[i].status == status && r[i].message == items[i].message
    ensures i >= |items| ==> r == items
  {
    if i < |items| then items[i := items[i].(status := status)] else items
  }

  /** Marks entry `i` failed with `message`; an index outside the list changes nothing. */
  function SetError(items: seq<FileStatus>, i: nat, message: string): (r: seq<FileStatus>)
    ensures i < |items| ==> OnlyItemChanged(items, r, i) && r[i].status == Failed && r[i].message == Some(message)
    ensures i >= |items| ==> r == items
  {
    if i < |items| then items[i := items[i].(status := Failed, message := Some(message))] else items
  }

  /** The guarded body for one file: rasterise it, hand the first page to the extractor,
      and tag the record with the file's name; whatever either collaborator throws is
      turned into the message recorded against the file. */
  function ProcessOne(file: Uploader.File, rasterize: Rasterizer, extract: Extractor): (r: Result<InvoiceData, string>)
    ensures r.Success? <==> rasterize(file).Success? && extract(FirstPage(rasterize(file).value)).Success?
    ensures r.Success? ==> r.value.fileName == Some(file.name)
    ensures r.Success? ==> r.value == extract(FirstPage(rasterize(file).value)).value.(fileName := Some(file.name))
    ensures rasterize(file).Failure? ==> r == Failure(ErrorMessage(rasterize(file).error))
    ensures rasterize(file).Success? && extract(FirstPage(rasterize(file).value)).Failure? ==>
      r == Failure(ErrorMessage(extract(FirstPage(rasterize(file).value)).error))
  {
    match rasterize(file)
    case Failure(e) => Failure(ErrorMessage(e))
    case Success(images) =>
      match extract(FirstPage(images))
      case Failure(e) => Failure(ErrorMessage(e))
      case Success(data) => Success(data.(fileName := Some(file.name)))
  }

  /** What one iteration of the loop produces: the list after the `processing` update,
      the list after the final update, the record to append (if any) and the calls made. */
  datatype StepOutcome = StepOutcome(
    marked: seq<FileStatus>,
    settled: seq<FileStatus>,
    record: Option<InvoiceData>,
    calls: seq<Call>)

  /** One iteration for entry `i`, whose file (read from the batch as it was when
      processing started) is `file`. */
  function Step(items: seq<FileStatus>, i: nat, file: Uploader.File, rasterize: Rasterizer, extract: Extractor): (o: StepOutcome)
    requires i < |items|
    ensures OnlyItemChanged(items, o.marked, i)
    ensures o.marked[i] == items[i].(status := Processing)
    ensures OnlyItemChanged(o.marked, o.settled, i) && Terminal(o.settled[i].status)
    ensures o.settled[i].status == Succeeded <==> ProcessOne(file, rasterize, extract).Success?
    ensures o.settled[i].status == Succeeded ==>
      o.record == Some(ProcessOne(file, rasterize, extract).value) && o.settled[i].message == items[i].message
    ensures o.settled[i].status == Failed ==>
      o.record.None? && o.settled[i].message == Some(ProcessOne(file, rasterize, extract).error)
    ensures 1 <= |o.calls| <= 2 && o.calls[0] == Rasterize(file)
    ensures |o.calls| == 2 <==> rasterize(file).Success?
    ensures |o.calls| == 2 ==> o.calls[1] == Extract(FirstPage(rasterize(file).value))
  {
    var marked := SetStatus(items, i, Processing);
    var calls := [Rasterize(file)] + (if rasterize(file).Success? then [Extract(FirstPage(rasterize(file).value))] else []);
    match ProcessOne(file, rasterize, extract)
    case Success(data) => StepOutcome(marked, SetStatus(marked, i, Succeeded), Some(data), calls)
    case Failure(msg) => StepOutcome(marked, SetError(marked, i, msg), None, calls)
  }

  /** The first `upto` entries of `items` are settled, each according to the
      collaborators' answers for its own file; the rest are still as in `start`;
      no entry changed its file. */
  predicate EntriesSettled(start: seq<FileStatus>, items: seq<FileStatus>, upto: nat, rasterize: Rasterizer, extract: Extractor) {
    && |items| == |start|
    && upto <= |start|
    && (forall j :: 0 <= j < |start| ==> items[j].file == start[j].file)
    && (forall j :: upto <= j < |start| ==> items[j] == start[j])
    && forall j :: 0 <= j < upto ==>
      && Terminal(items[j].status)
      && (items[j].status == Succeeded <==> ProcessOne(start[j].file, rasterize, extract).Success?)
      && (items[j].status == Succeeded ==> items[j].message == start[j].message)
      && (items[j].status == Failed ==> items[j].message == Some(ProcessOne(start[j].file, rasterize, extract).error))
  }

  /** `records` holds, in order, the record extracted from each successful entry of `items`. */
  predicate RecordsMatch(start: seq<FileStatus>, items: seq<FileStatus>, records: seq<InvoiceData>, rasterize: Rasterizer, extract: Extractor) {
    RecordsAt(start, Seqs.Positions(items, IsSucceeded), records, rasterize, extract)
  }

  /** `records[k]` is the record extracted from the entry at index `positions[k]`. */
  predicate RecordsAt(start: seq<FileStatus>, positions: seq<nat>, records: seq<InvoiceData>, rasterize: Rasterizer, extract: Extractor) {
    && |records| == |positions|
    && forall k :: 0 <= k < |positions| ==>
      positions[k] < |start| && ProcessOne(start[positions[k]].file, rasterize, extract) == Success(records[k])
  }

  /** `snapshots[j]` shows entry j marked `processing` and then settled to its value in
      `items`, each update touching entry j only. */
  predicate SnapshotsMatch(start: seq<FileStatus>, items: seq<FileStatus>, snapshots: seq<(seq<FileStatus>, seq<FileStatus>)>) {
    && |snapshots| <= |start| == |items|
    && (|snapshots| > 0 ==> OnlyItemChanged(start, snapshots[0].0, 0))
    && (forall j :: 0 < j < |snapshots| ==> OnlyItemChanged(snapshots[j - 1].1, snapshots[j].0, j))
    && forall j :: 0 <= j < |snapshots| ==>
      && OnlyItemChanged(snapshots[j].0, snapshots[j].1, j)
      && snapshots[j].0[j] == start[j].(status := Processing)
      && snapshots[j].1[j] == items[j]
  }

  /** `calls[j]` are the calls made for entry j: rasterise its file, then extract the
      first page only if rasterising succeeded. */
  predicate CallsMatch(start: seq<FileStatus>, calls: seq<seq<Call>>, rasterize: Rasterizer) {
    && |calls| <= |start|
    && forall j :: 0 <= j < |calls| ==>
      && 1 <= |calls[j]| <= 2
      && calls[j][0] == Rasterize(start[j].file)
      && (|calls[j]| == 2 <==> rasterize(start[j].file).Success?)
      && (|calls[j]| == 2 ==> calls[j][1] == Extract(FirstPage(rasterize(start[j].file).value)))
  }

  /** The extraction run over the whole batch.
      `snapshots[j]` holds the file list right after entry j was marked `processing`
      and right after its final update; `calls[j]` the collaborator calls made for
      entry j; `published` every value given to the results, in order. */
  method ProcessFiles(st: AppState, rasterize: Rasterizer, extract: Extractor)
    returns (st': AppState, snapshots: seq<(seq<FileStatus>, seq<FileStatus>)>, calls: seq<seq<Call>>, published: seq<seq<InvoiceData>>)
    // An empty batch is a no-op.
    ensures |st.files| == 0 ==> st' == st && snapshots == [] && calls == [] && published == []
    // The results are cleared first and set once, after the loop; the flags are reset.
    ensures |st.files| > 0 ==> published == [[], st'.extractedData] && !st'.isProcessing && st'.globalError.None?
    // Same files, same order; every entry ends terminal, according to its own file only.
    ensures |st.files| > 0 ==> EntriesSettled(st.files, st'.files, |st.files|, rasterize, extract)
    // One record per successful entry, in file order, tagged with that entry's file name.
    ensures |st.files| > 0 ==> RecordsMatch(st.files, st'.files, st'.extractedData, rasterize, extract)
    ensures |st.files| > 0 ==> |st'.extractedData| <= |st.files|
    ensures |st.files| > 0 ==> forall k :: 0 <= k < |st'.extractedData| ==>
      st'.extractedData[k].fileName == Some(st'.files[Seqs.Positions(st'.files, IsSucceeded)[k]].file.name)
    // Each update touches one entry: j goes to `processing`, then to its final status.
    ensures |snapshots| == |st.files|
    ensures SnapshotsMatch(st.files, st'.files, snapshots)
    ensures |snapshots| > 0 ==> snapshots[|snapshots| - 1].1 == st'.files
    // Files are handled one after another: rasterise, then extract the first page only if that succeeded.
    ensures |calls| == |st.files| && CallsMatch(st.files, calls, rasterize)
  {
    if |st.files| == 0 {
      return st, [], [], [];
    }
    var cur := st.(isProcessing := true);
    cur := cur.(globalError := None);
    cur := cur.(extractedData := []);
    published := [cur.extractedData];
    var items, records;
    items, records, snapshots, calls := RunBatch(cur.files, rasterize, extract);
    published := published + [records];
    st' := cur.(files := items, extractedData := records, isProcessing := false);
  }

  /** The loop of the extraction run: entries are handled strictly in order, one at a
      time, and the records are collected locally. */
  method RunBatch(start: seq<FileStatus>, rasterize: Rasterizer, extract: Extractor)
    returns (items: seq<FileStatus>, records: seq<InvoiceData>, snapshots: seq<(seq<FileStatus>, seq<FileStatus>)>, calls: seq<seq<Call>>)
    ensures EntriesSettled(start, items, |start|, rasterize, extract)
    ensures RecordsMatch(start, items, records, rasterize, extract)
    ensures |snapshots| == |start| && SnapshotsMatch(start, items, snapshots)
    ensures |snapshots| > 0 ==> snapshots[|snapshots| - 1].1 == items
    ensures |calls| == |start| && CallsMatch(start, calls, rasterize)
  {
    var n := |start|;
    items := start;
    records := [];
    snapshots := [];
    calls := [];
    ghost var succeeded: seq<nat> := [];
    var i := 0;
    while i < n
      invariant 0 <= i <= n
      invariant LoopInvariant(start, items, i, succeeded, records, snapshots, calls, rasterize, extract)
    {
      var o := Step(items, i, start[i].file, rasterize, extract);
      StepKeepsLoopInvariant(start, items, i, succeeded, records, snapshots, calls, rasterize, extract);
      snapshots := snapshots + [(o.marked, o.settled)];
      calls := calls + [o.calls];
      records := records + (if o.record.Some? then [o.record.value] else []);
      succeeded := succeeded + (if o.record.Some? then [i] else []);
      items := o.settled;
      i := i + 1;
    }
    assert items[..n] == items;
    Seqs.PositionsUnique(items, IsSucceeded, succeeded);
  }

  /** What holds after the first `i` entries of the batch have been processed. */
  predicate LoopInvariant(
    start: seq<FileStatus>, items: seq<FileStatus>, i: nat, succeeded: seq<nat>, records: seq<InvoiceData>,
    snapshots: seq<(seq<FileStatus>, seq<FileStatus>)>, calls: seq<seq<Call>>,
    rasterize: Rasterizer, extract: Extractor)
  {
    && EntriesSettled(start, items, i, rasterize, extract)
    && Seqs.ExactPositions(items[..i], IsSucceeded, succeeded)
    && RecordsAt(start, succeeded, records, rasterize, extract)
    && |snapshots| == i && SnapshotsMatch(start, items, snapshots)
    && (i > 0 ==> snapshots[i - 1].1 == items)
    && |calls| == i && CallsMatch(start, calls, rasterize)
  }

  /** One iteration of the loop of `RunBatch` keeps its invariant. */
  lemma StepKeepsLoopInvariant(
    start: seq<FileStatus>, items: seq<FileStatus>, i: nat, succeeded: seq<nat>, records: seq<InvoiceData>,
    snapshots: seq<(seq<FileStatus>, seq<FileStatus>)>, calls: seq<seq<Call>>,
    rasterize: Rasterizer, extract: Extractor)
    requires i < |start|
    requires LoopInvariant(start, items, i, succeeded, records, snapshots, calls, rasterize, extract)
    ensures var o := Step(items, i, start[i].file, rasterize, extract);
      LoopInvariant(start, o.settled, i + 1,
        succeeded + (if o.record.Some? then [i] else []),
        records + (if o.record.Some? then [o.record.value] else []),
        snapshots + [(o.marked, o.settled)],
        calls + [o.calls],
        rasterize, extract)
  {
    StepKeepsEntriesSettled(start, items, i, rasterize, extract);
    StepKeepsRecordsAt(start, items, i, succeeded, records, rasterize, extract);
    StepKeepsSnapshotsMatch(start, items, i, snapshots, rasterize, extract);
  }

  /** One iteration settles entry `i` and nothing else. */
  lemma StepKeepsEntriesSettled(start: seq<FileStatus>, items: seq<FileStatus>, i: nat, rasterize: Rasterizer, extract: Extractor)
    requires i < |start|
    requires EntriesSettled(start, items, i, rasterize, extract)
    ensures EntriesSettled(start, Step(items, i, start[i].file, rasterize, extract).settled, i + 1, rasterize, extract)
  {
  }

  /** One iteration appends the entry's record, and its index to the successful
      positions, exactly when the entry succeeded. */
  lemma StepKeepsRecordsAt(
    start: seq<FileStatus>, items: seq<FileStatus>, i: nat, succeeded: seq<nat>, records: seq<InvoiceData>,
    rasterize: Rasterizer, extract: Extractor)
    requires i < |start|
    requires EntriesSettled(start, items, i, rasterize, extract)
    requires Seqs.ExactPositions(items[..i], IsSucceeded, succeeded)
    requires RecordsAt(start, succeeded, records, rasterize, extract)
    ensures var o := Step(items, i, start[i].file, rasterize, extract);
      && Seqs.ExactPositions(o.settled[..i + 1], IsSucceeded, succeeded + (if o.record.Some? then [i] else []))
      && RecordsAt(start, succeeded + (if o.record.Some? then [i] else []),
                   records + (if o.record.Some? then [o.record.value] else []), rasterize, extract)
  {
    var o := Step(items, i, start[i].file, rasterize, extract);
    var after := o.settled[..i + 1];
    var succ' := succeeded + (if o.record.Some? then [i] else []);
    forall k | 0 <= k < |succeeded|
      ensures succeeded[k] < i && after[succeeded[k]] == items[..i][succeeded[k]]
    {
    }
    forall j | 0 <= j < |after| && IsSucceeded(after[j])
      ensures j in succ'
    {
      if j < i {
        assert after[j] == items[..i][j];
      }
    }
  }

  /** One iteration records its two updates as the next snapshot pair. */
  lemma StepKeepsSnapshotsMatch(
    start: seq<FileStatus>, items: seq<FileStatus>, i: nat,
    snapshots: seq<(seq<FileStatus>, seq<FileStatus>)>, rasterize: Rasterizer, extract: Extractor)
    requires i < |start|
    requires EntriesSettled(start, items, i, rasterize, extract)
    requires |snapshots| == i && SnapshotsMatch(start, items, snapshots)
    requires i > 0 ==> snapshots[i - 1].1 == items
    ensures var o := Step(items, i, start[i].file, rasterize, extract);
      SnapshotsMatch(start, o.settled, snapshots + [(o.marked, o.settled)])
  {
    var o := Step(items, i, start[i].file, rasterize, extract);
    var snaps := snapshots + [(o.marked, o.settled)];
    forall j | 0 <= j < |snaps|
      ensures OnlyItemChanged(snaps[j].0, snaps[j].1, j)
      ensures snaps[j].0[j] == start[j].(status := Processing)
      ensures snaps[j].1[j] == o.settled[j]
    {
      if j < i {
        assert snaps[j] == snapshots[j];
        assert snaps[j].1[j] == items[j];
      }
    }
  }

  /** A new selection does not depend on anything the previous batch left behind:
      statuses, messages, results and the global error are all replaced. */
  lemma SelectionForgetsPreviousBatch(st1: AppState, st2: AppState, selected: seq<Uploader.File>)
    requires st1.isProcessing == st2.isProcessing
    ensures SelectFiles(st1, selected) == SelectFiles(st2, selected)
  {
  }

  /** A drop or file choice that fires the callback starts a batch of exactly the
      selected PDFs, in order, all pending; one without any PDF empties the batch. */
  lemma UploadStartsBatch(st: AppState, raw: seq<Uploader.File>)
    requires |raw| > 0
    ensures Uploader.HandleDrop(Some(raw)).Some?
    ensures var st' := SelectFiles(st, Uploader.HandleDrop(Some(raw)).value);
      && |st'.files| == |Seqs.Positions(raw, Uploader.IsPdf)|
      && (forall k :: 0 <= k < |st'.files| ==>
            && st'.files[k].file == raw[Seqs.Positions(raw, Uploader.IsPdf)[k]]
            && Uploader.IsPdf(st'.files[k].file)
            && st'.files[k].status == Pending)
      && ((forall j :: 0 <= j < |raw| ==> !Uploader.IsPdf(raw[j])) ==> st'.files == [])
  {
    Uploader.SelectionIsOrderedSubsequence(raw);
    if forall j :: 0 <= j < |raw| ==> !Uploader.IsPdf(raw[j]) {
      Uploader.NoPdfStillFires(raw);
    }
  }

  /** The worked example: two files, the first extracted successfully and the second
      failing to rasterise. The first ends `success`, the second `error` with the
      rasteriser's message, and exactly one record is published, for the first file. */
  method TwoFileExample(
    initial: AppState, first: Uploader.File, second: Uploader.File, data: InvoiceData,
    rasterize: Rasterizer, extract: Extractor)
    returns (final: AppState)
    requires rasterize(first).Success? && extract(FirstPage(rasterize(first).value)) == Success(data)
    requires rasterize(second).Failure?
    ensures |final.files| == 2
    ensures final.files[0].status == Succeeded
    ensures final.files[1].status == Failed && final.files[1].message == Some(ErrorMessage(rasterize(second).error))
    ensures final.extractedData == [data.(fileName := Some(first.name))]
  {
    var batch := SelectFiles(initial, [first, second]);
    var snapshots, calls, published;
    final, snapshots, calls, published := ProcessFiles(batch, rasterize, extract);
    assert Seqs.ExactPositions(final.files, IsSucceeded, [0]);
    Seqs.PositionsUnique(final.files, IsSucceeded, [0]);
  }
}
