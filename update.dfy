/** One run of the refresh script (`main` in scripts/update.js, lines
    40-163) over abstract inputs: the page's date text and download link as
    the HTML scraping yields them, the stored marker file, the rows the
    downloaded spreadsheet decodes to, and the date parser. What the run
    writes is returned as a log of writes in the order they happen. */
module Update {
  import opened Values
  import opened Strings
  import opened Links
  import opened Normalize
  import opened Partition
  import opened Gate

  /** What one run starts from. */
  datatype Inputs = Inputs(
    pageDateRaw: string,           // text of the date element, before trim
    link: Option<string>,          // `href` of the spreadsheet link, if any
    storedMarker: Option<string>,  // contents of the marker file, if it exists
    rows: seq<Row>)                // the rows the downloaded sheet decodes to

  /** One file write. */
  datatype Write =
    | AllRecords(records: seq<LocaleRecord>)                 // the full dataset
    | StateRecords(state: string, records: seq<LocaleRecord>) // one state's file
    | LastUpdated(text: string)                              // the marker file

  /** How a run ends: skipped by the gate, failed for want of a link, or
      completed after downloading from `fileUrl` and performing `writes`. */
  datatype Outcome =
    | Skipped
    | LinkNotFound
    | Completed(fileUrl: string, writes: seq<Write>)

  /** One state file per key, in the dictionary's key order. */
  function StateWrites(all: seq<LocaleRecord>, ks: seq<string>): (w: seq<Write>)
    ensures |w| == |ks|
    ensures forall i :: 0 <= i < |ks| ==> w[i] == StateRecords(ks[i], Bucket(all, ks[i]))
    decreases |ks|
  {
    if ks == [] then []
    else StateWrites(all, ks[..|ks| - 1]) + [StateRecords(ks[|ks| - 1], Bucket(all, ks[|ks| - 1]))]
  }

  /** The run as a reference definition. */
  function Pipeline(inp: Inputs, parse: string -> Option<int>): Outcome {
    var text := Trim(inp.pageDateRaw);
    var pageDate := PageDate(text, parse);
    if Skips(pageDate, LastKnownDate(inp.storedMarker, parse)) then Skipped
    else if !LinkPresent(inp.link) then LinkNotFound
    else
      Completed(
        ResolveLink(inp.link.value),
        RunWrites(NormalizeRows(inp.rows), MarkerText(text, parse)))
  }

  /** What the marker file receives: the trimmed page text itself, and only
      when that text is a valid date. */
  function MarkerText(pageDateText: string, parse: string -> Option<int>): Option<string> {
    if PageDate(pageDateText, parse).Some? then Some(pageDateText) else None
  }

  /** The writes of a completed run over records `all`: the full dataset,
      the state files, and then the marker text if there is one. */
  function RunWrites(all: seq<LocaleRecord>, marker: Option<string>): seq<Write> {
    var dataWrites := [AllRecords(all)] + StateWrites(all, StateKeys(all));
    match marker
    case None => dataWrites
    case Some(text) => dataWrites + [LastUpdated(text)]
  }

  /** `main`: the gate with its early return, the link check, the
      normalisation, the full write, the partition loop, one write per
      state, and the marker write when the page date parsed. */
  method Run(inp: Inputs, parse: string -> Option<int>) returns (outcome: Outcome)
    ensures outcome == Pipeline(inp, parse)
  {
    var pageDateText := Trim(inp.pageDateRaw);
    var skip, pageDate := ChangeGate(pageDateText, inp.storedMarker, parse);
    if skip {
      return Skipped;
    }
    if inp.link.None? || inp.link.value == "" {
      return LinkNotFound;
    }
    var fileUrl := ResolveLink(inp.link.value);
    var normalized := NormalizeRows(inp.rows);
    var byState, order := PartitionByState(normalized);
    var stateWrites := WriteStateFiles(normalized, byState, order);
    var writes := [AllRecords(normalized)] + stateWrites;
    if pageDate.Some? {
      writes := writes + [LastUpdated(pageDateText)];
    }
    return Completed(fileUrl, writes);
  }

  /** The loop over the dictionary's entries: one state file per key, in
      key order, each holding that key's bucket. */
  method WriteStateFiles(all: seq<LocaleRecord>, byState: map<string, seq<LocaleRecord>>, order: seq<string>)
    returns (writes: seq<Write>)
    requires forall k :: k in order ==> k in byState && byState[k] == Bucket(all, k)
    ensures writes == StateWrites(all, order)
  {
    writes := [];
    var j := 0;
    while j < |order|
      invariant 0 <= j <= |order|
      invariant writes == StateWrites(all, order[..j])
    {
      var state := order[j];
      writes := writes + [StateRecords(state, byState[state])];
      assert order[..j + 1][..j] == order[..j];
      j := j + 1;
    }
    assert order[..j] == order;
  }

  /** The number of records written to state files. */
  function StateFileRecords(w: seq<Write>): nat
    decreases |w|
  {
    if w == [] then 0
    else
      var last := w[|w| - 1];
      StateFileRecords(w[..|w| - 1]) + (if last.StateRecords? then |last.records| else 0)
  }

  /** Counting state-file records distributes over concatenation. */
  lemma {:induction false} StateFileRecordsAppend(a: seq<Write>, b: seq<Write>)
    ensures StateFileRecords(a + b) == StateFileRecords(a) + StateFileRecords(b)
    decreases |b|
  {
    if b == [] {
      assert a + b == a;
    } else {
      assert (a + b)[..|a + b| - 1] == a + b[..|b| - 1];
      StateFileRecordsAppend(a, b[..|b| - 1]);
    }
  }

  /** The state files for keys `ks` hold the buckets of `ks`, record for
      record. */
  lemma {:induction false} StateWritesRecords(all: seq<LocaleRecord>, ks: seq<string>)
    ensures StateFileRecords(StateWrites(all, ks)) == SumSizes(all, ks)
    decreases |ks|
  {
    if ks != [] {
      var w := StateWrites(all, ks);
      assert w[..|w| - 1] == StateWrites(all, ks[..|ks| - 1]);
      StateWritesRecords(all, ks[..|ks| - 1]);
    }
  }

  /** The run is skipped exactly when the trimmed page date text is
      non-empty and parses, a marker file exists whose trimmed contents
      parse, and the page timestamp is at most the stored one. */
  lemma SkippedExactly(inp: Inputs, parse: string -> Option<int>)
    ensures Pipeline(inp, parse) == Skipped <==>
      var text := Trim(inp.pageDateRaw);
      && text != "" && parse(text).Some?
      && inp.storedMarker.Some? && parse(Trim(inp.storedMarker.value)).Some?
      && parse(text).value <= parse(Trim(inp.storedMarker.value)).value
  {
  }

  /** A run that passes the gate with no link, or an empty one, fails and
      writes nothing; a failure for want of a link happens only then. */
  lemma MissingLinkFails(inp: Inputs, parse: string -> Option<int>)
    ensures Pipeline(inp, parse) == LinkNotFound <==>
      && Pipeline(inp, parse) != Skipped
      && (inp.link.None? || inp.link.value == "")
  {
  }

  /** The write at each position: the full dataset at 0, then the state
      files in key order, then the marker, if there is one. */
  lemma RunWritesAt(all: seq<LocaleRecord>, marker: Option<string>, i: nat)
    requires i < |RunWrites(all, marker)|
    ensures var ks := StateKeys(all);
      && |RunWrites(all, marker)| == 1 + |ks| + (if marker.Some? then 1 else 0)
      && (i == 0 ==> RunWrites(all, marker)[i] == AllRecords(all))
      && (1 <= i <= |ks| ==> RunWrites(all, marker)[i] == StateRecords(ks[i - 1], Bucket(all, ks[i - 1])))
      && (i == |ks| + 1 ==> marker.Some? && RunWrites(all, marker)[i] == LastUpdated(marker.value))
  {
    var ks := StateKeys(all);
    var sw := StateWrites(all, ks);
    var d := [AllRecords(all)] + sw;
    assert i <= |ks| ==> RunWrites(all, marker)[i] == d[i];
    if 1 <= i <= |ks| {
      assert d[i] == sw[i - 1];
    }
  }

  /** The layout of the writes: the full dataset first, then one non-empty
      file per distinct state key, then the marker if there is one, last. */
  lemma RunWritesLayout(all: seq<LocaleRecord>, marker: Option<string>)
    ensures var w := RunWrites(all, marker);
      var n := |StateKeys(all)|;
      && |w| == 1 + n + (if marker.Some? then 1 else 0)
      && w[0] == AllRecords(all)
      && (forall i :: 1 <= i <= n ==>
            w[i].StateRecords? && w[i].state != "" && w[i].records != [])
      && (forall i, j :: 1 <= i < j <= n ==> w[i].state != w[j].state)
      && (forall i :: 0 <= i < |w| && w[i].LastUpdated? ==> marker.Some? && i == |w| - 1)
      && (marker.Some? ==> w[|w| - 1] == LastUpdated(marker.value))
  {
    var w := RunWrites(all, marker);
    var ks := StateKeys(all);
    RunWritesAt(all, marker, 0);
    forall i | 0 <= i < |w|
      ensures 1 <= i <= |ks| ==> w[i] == StateRecords(ks[i - 1], Bucket(all, ks[i - 1]))
      ensures w[i].LastUpdated? ==> marker.Some? && i == |w| - 1
    {
      RunWritesAt(all, marker, i);
    }
    forall i | 1 <= i <= |ks| ensures w[i].state != "" && w[i].records != [] {
      var k := ks[i - 1];
      BucketNonEmptyIffKey(all, k);
      BucketMembers(all, k);
      assert Bucket(all, k)[0] in Bucket(all, k);
    }
    if marker.Some? {
      RunWritesAt(all, marker, |w| - 1);
    }
  }

  /** The state files together hold every record once. */
  lemma RunWritesCount(all: seq<LocaleRecord>, marker: Option<string>)
    ensures StateFileRecords(RunWrites(all, marker)) == |all|
  {
    var ks := StateKeys(all);
    var dataWrites := [AllRecords(all)] + StateWrites(all, ks);
    assert StateFileRecords(dataWrites) == |all| by {
      BucketsCoverRows(all);
      StateWritesRecords(all, ks);
      StateFileRecordsAppend([AllRecords(all)], StateWrites(all, ks));
      assert [AllRecords(all)][..0] == [];
    }
    if marker.Some? {
      StateFileRecordsAppend(dataWrites, [LastUpdated(marker.value)]);
      assert [LastUpdated(marker.value)][..0] == [];
    }
  }

  /** Record `j` is written to the state file of its own key, at the
      position set by the records before it, and to no other state file. */
  lemma RunWritesPlace(all: seq<LocaleRecord>, marker: Option<string>, j: nat)
    requires j < |all|
    ensures var w := RunWrites(all, marker);
      var k := StateKey(all[j]);
      && (exists i :: 0 <= i < |w| && w[i] == StateRecords(k, Bucket(all, k)))
      && (forall i :: 0 <= i < |w| && w[i].StateRecords? && w[i].state != k ==>
            all[j] !in w[i].records)
      && |Bucket(all[..j], k)| < |Bucket(all, k)|
      && Bucket(all, k)[|Bucket(all[..j], k)|] == all[j]
  {
    var w := RunWrites(all, marker);
    var ks := StateKeys(all);
    var k := StateKey(all[j]);
    BucketPosition(all, j);
    RowKeyListed(all, j);
    var p :| 0 <= p < |ks| && ks[p] == k;
    RunWritesAt(all, marker, 1 + p);
    forall i | 0 <= i < |w| && w[i].StateRecords? && w[i].state != k
      ensures all[j] !in w[i].records
    {
      RunWritesAt(all, marker, i);
      BucketMembers(all, ks[i - 1]);
    }
  }

  /** A completed run downloads from the resolved link and writes, in this
      order: the full dataset, one non-empty file per distinct state, and
      last the marker, which holds the trimmed page text verbatim and is
      written exactly when the page date parsed. */
  lemma CompletedWrites(inp: Inputs, parse: string -> Option<int>)
    requires Pipeline(inp, parse).Completed?
    ensures var o := Pipeline(inp, parse);
      var all := NormalizeRows(inp.rows);
      var n := |StateKeys(all)|;
      var text := Trim(inp.pageDateRaw);
      var marked := PageDate(text, parse).Some?;
      && LinkPresent(inp.link)
      && o.fileUrl == ResolveLink(inp.link.value)
      && |o.writes| == 1 + n + (if marked then 1 else 0)
      && o.writes[0] == AllRecords(all)
      && (forall i :: 1 <= i <= n ==>
            o.writes[i].StateRecords? && o.writes[i].state != "" && o.writes[i].records != [])
      && (forall i, j :: 1 <= i < j <= n ==> o.writes[i].state != o.writes[j].state)
      && (forall i :: 0 <= i < |o.writes| && o.writes[i].LastUpdated? ==> marked && i == |o.writes| - 1)
      && (marked ==> o.writes[|o.writes| - 1] == LastUpdated(text))
  {
    var all := NormalizeRows(inp.rows);
    var text := Trim(inp.pageDateRaw);
    var marker := MarkerText(text, parse);
    assert Pipeline(inp, parse).writes == RunWrites(all, marker);
    assert marker.Some? <==> PageDate(text, parse).Some?;
    assert marker.Some? ==> marker.value == text;
    RunWritesLayout(all, marker);
  }

  /** Every row's record is written to exactly one state file, the one for
      its own key, in its original relative order; the state files together
      hold as many records as there are rows. */
  lemma EveryRecordInItsStateFile(inp: Inputs, parse: string -> Option<int>, j: nat)
    requires Pipeline(inp, parse).Completed?
    requires j < |inp.rows|
    ensures var w := Pipeline(inp, parse).writes;
      var all := NormalizeRows(inp.rows);
      var k := StateKey(all[j]);
      && StateFileRecords(w) == |inp.rows|
      && (exists i :: 0 <= i < |w| && w[i] == StateRecords(k, Bucket(all, k)))
      && (forall i :: 0 <= i < |w| && w[i].StateRecords? && w[i].state != k ==>
            all[j] !in w[i].records)
      && |Bucket(all[..j], k)| < |Bucket(all, k)|
      && Bucket(all, k)[|Bucket(all[..j], k)|] == all[j]
  {
    var all := NormalizeRows(inp.rows);
    var marker := MarkerText(Trim(inp.pageDateRaw), parse);
    assert Pipeline(inp, parse).writes == RunWrites(all, marker);
    RunWritesCount(all, marker);
    RunWritesPlace(all, marker, j);
  }

  /** Running again on an unchanged page after a completed run is a no-op:
      the marker text the run stored gates the same page out. */
  lemma RerunSkips(inp: Inputs, parse: string -> Option<int>)
    requires Pipeline(inp, parse).Completed?
    ensures var w := Pipeline(inp, parse).writes;
      forall i :: 0 <= i < |w| && w[i].LastUpdated? ==>
        Pipeline(inp.(storedMarker := Some(w[i].text)), parse) == Skipped
  {
    var text := Trim(inp.pageDateRaw);
    CompletedWrites(inp, parse);
    if PageDate(text, parse).Some? {
      SkipsOnOwnMarker(text, parse);
    }
  }

  /** A page date strictly later than the stored one, or with no usable
      stored date, passes the gate; with a link present the run completes
      and ends by storing the trimmed page text. */
  lemma NewerPageStoresMarker(inp: Inputs, parse: string -> Option<int>)
    requires PageDate(Trim(inp.pageDateRaw), parse).Some?
    requires var last := LastKnownDate(inp.storedMarker, parse);
      last.None? || PageDate(Trim(inp.pageDateRaw), parse).value > last.value
    requires LinkPresent(inp.link)
    ensures var o := Pipeline(inp, parse);
      o.Completed? && o.writes[|o.writes| - 1] == LastUpdated(Trim(inp.pageDateRaw))
  {
  }

  /** A page date that is empty or does not parse never stops the run, and
      then no marker is written. */
  lemma UnparsedPageProceeds(inp: Inputs, parse: string -> Option<int>)
    requires PageDate(Trim(inp.pageDateRaw), parse).None?
    ensures Pipeline(inp, parse) != Skipped
    ensures LinkPresent(inp.link) ==> Pipeline(inp, parse).Completed?
    ensures Pipeline(inp, parse).Completed? ==>
      forall i :: 0 <= i < |Pipeline(inp, parse).writes| ==> !Pipeline(inp, parse).writes[i].LastUpdated?
  {
    if Pipeline(inp, parse).Completed? {
      var all := NormalizeRows(inp.rows);
      assert Pipeline(inp, parse).writes == RunWrites(all, None);
      forall i | 0 <= i < |RunWrites(all, None)| ensures !RunWrites(all, None)[i].LastUpdated? {
        RunWritesAt(all, None, i);
      }
    }
  }
}
