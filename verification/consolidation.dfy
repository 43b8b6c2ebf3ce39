/**
  `main` in Data_Cleaning.py: for every saved page, recover the team from the
  file name, clean the page's table, and concatenate the cleaned frames in
  the order the files were listed. Reading the directory, parsing the HTML
  and writing the spreadsheet are not modelled: the listing arrives as a
  sequence of (file name, parsed table) pairs.
 */
module Consolidation {
  import opened Wrappers
  import opened Text
  import opened Seqs
  import opened Frames
  import opened Cleaning
  import opened Collection

  /**
    `file.split("_")[1]`: the text between the first and second
    underscore (or to the end); an IndexError when there is no underscore.
   */
  function TeamFromFileName(file: string): (r: Result<string, Error>)
    ensures r.Err? <==> '_' !in file
    ensures r.Err? ==> r.error == SegmentOutOfRange
    ensures r.Ok? ==> '_' !in r.value
    ensures r.Ok? ==> |Split(file, '_')| >= 2 && r.value == Split(file, '_')[1]
  {
    var parts := Split(file, '_');
    SplitPieces(file, '_');
    if |parts| < 2 then Err(SegmentOutOfRange) else Ok(parts[1])
  }

  /**
    The team is the text after the first underscore of the name, up to the
    next underscore or the end of the name.
   */
  lemma TeamFromFileNameShape(file: string)
    requires TeamFromFileName(file).Ok?
    ensures FirstIndex(file, '_').Some?
    ensures var team, i := TeamFromFileName(file).value, FirstIndex(file, '_').value;
      && i + 1 + |team| <= |file|
      && file[i + 1 .. i + 1 + |team|] == team
      && (i + 1 + |team| == |file| || file[i + 1 + |team|] == '_')
  {
    var parts := Split(file, '_');
    var p, team := parts[0], TeamFromFileName(file).value;
    assert team == parts[1];
    var t := JoinSecond(parts, '_');
    assert file == p + ['_'] + team + t;
    assert file[|p|] == '_';
    var i := FirstIndex(file, '_').value;
    assert i == |p| by {
      assert forall k :: 0 <= k < |p| ==> file[k] == p[k];
    }
    assert file[i + 1 .. i + 1 + |team|] == team;
  }

  /**
    The cleaner recovers exactly the team the collector wrote into the file
    name, for every year, precisely when the team has no underscore.
   */
  lemma {:induction false} TeamFromPageFileName(team: string, year: int)
    ensures TeamFromFileName(PageFileName(team, year)) == Ok(team) <==> '_' !in team
  {
    if '_' !in team {
      var parts := ["TS", team, IntToString(year) + ".html"];
      PageFileNamePieces(team, year);
      assert '_' !in IntToString(year) + ".html" by {
        var y := IntToString(year);
        assert forall k :: 0 <= k < |y| ==> y[k] != '_';
      }
      SplitJoin(parts, '_');
    }
  }

  /** `pd.concat([a, b])` for frames under the same labels: the rows of `a`, then those of `b`. */
  function Append(a: Frame, b: Frame): (r: Frame)
    requires WellFormed(a) && WellFormed(b) && Labels(a.columns) == Labels(b.columns)
    ensures WellFormed(r) && Labels(r.columns) == Labels(a.columns)
    ensures r.index == a.index + b.index
    ensures RowsOf(r) == RowsOf(a) + RowsOf(b)
  {
    var cs := seq(|a.columns|, j requires 0 <= j < |a.columns| =>
                    Column(a.columns[j].name, a.columns[j].cells + b.columns[j].cells));
    var r := Frame(a.index + b.index, cs);
    assert WellFormed(r) by {
      forall c | c in cs
        ensures |c.cells| == |r.index|
      {
        var j :| 0 <= j < |cs| && cs[j] == c;
        assert Labels(a.columns)[j] == Labels(b.columns)[j];
        assert a.columns[j] in a.columns && b.columns[j] in b.columns;
      }
    }
    assert forall j :: 0 <= j < |cs| ==> |a.columns[j].cells| == |a.index| && |b.columns[j].cells| == |b.index| by {
      forall j | 0 <= j < |cs|
        ensures |a.columns[j].cells| == |a.index| && |b.columns[j].cells| == |b.index|
      {
        assert Labels(a.columns)[j] == Labels(b.columns)[j];
        assert a.columns[j] in a.columns && b.columns[j] in b.columns;
      }
    }
    forall i | 0 <= i < |r.index|
      ensures RowAt(r, i) == (RowsOf(a) + RowsOf(b))[i]
    {
      if i < |a.index| {
        assert RowAt(r, i) == RowAt(a, i);
      } else {
        assert RowAt(r, i) == RowAt(b, i - |a.index|);
      }
    }
    r
  }

  /** Every frame is rectangular and shares the labels of the first. */
  ghost predicate Aligned(fs: seq<Frame>) {
    forall i :: 0 <= i < |fs| ==> WellFormed(fs[i]) && Labels(fs[i].columns) == Labels(fs[0].columns)
  }

  /** The rows of all frames, frame after frame. */
  function AllRows(fs: seq<Frame>): seq<seq<Cell>>
    requires forall i :: 0 <= i < |fs| ==> WellFormed(fs[i])
  {
    if |fs| == 0 then [] else RowsOf(fs[0]) + AllRows(fs[1..])
  }

  /** The number of rows of all frames together. */
  function TotalRows(fs: seq<Frame>): nat {
    if |fs| == 0 then 0 else |fs[0].index| + TotalRows(fs[1..])
  }

  /** Concatenating aligned frames keeps their rows, frame after frame. */
  function ConcatAligned(fs: seq<Frame>): (r: Frame)
    requires |fs| >= 1 && Aligned(fs)
    ensures WellFormed(r) && Labels(r.columns) == Labels(fs[0].columns)
    ensures RowsOf(r) == AllRows(fs)
    ensures |r.index| == TotalRows(fs)
    decreases |fs|
  {
    if |fs| == 1 then
      fs[0]
    else
      assert Aligned(fs[1..]) by {
        assert forall i :: 1 <= i < |fs| ==> fs[1..][i - 1] == fs[i];
      }
      Append(fs[0], ConcatAligned(fs[1..]))
  }

  /**
    `pd.concat(frames)`: a ValueError for an empty list; for
    frames under one label list, every row of every frame in order, so the
    row count is the sum of the frames' row counts.
   */
  function Concat(fs: seq<Frame>): (r: Result<Frame, Error>)
    requires forall i :: 0 <= i < |fs| ==> WellFormed(fs[i])
    ensures |fs| == 0 ==> r == Err(NothingToConcatenate)
    ensures r.Ok? <==> |fs| >= 1 && Aligned(fs)
    ensures r.Ok? ==> WellFormed(r.value) && Labels(r.value.columns) == Labels(fs[0].columns)
    ensures r.Ok? ==> RowsOf(r.value) == AllRows(fs) && |r.value.index| == TotalRows(fs)
  {
    if |fs| == 0 then Err(NothingToConcatenate)
    else if forall i :: 0 <= i < |fs| ==> Labels(fs[i].columns) == Labels(fs[0].columns) then Ok(ConcatAligned(fs))
    else Err(ColumnsNotAligned)
  }

  /** One entry of the page directory: its file name and the table parsed from it. */
  datatype PageFile = PageFile(name: string, table: RawFrame)

  /**
    One file of the loop in `main`: the team from the name, then the
    cleaned table. It succeeds exactly when the name has an underscore and
    `clean_data` succeeds on the table; a name without one raises IndexError before
    the table is looked at, and a cleaned table tags every row with the
    team.
   */
  function CleanFile(file: PageFile): (r: Result<Frame, Error>)
    requires RawWellFormed(file.table)
    ensures r.Ok? <==> '_' in file.name && CleanData(file.table, TeamFromFileName(file.name).value).Ok?
    ensures '_' !in file.name ==> r == Err(SegmentOutOfRange)
    ensures '_' in file.name ==> r == CleanData(file.table, TeamFromFileName(file.name).value)
    ensures r.Ok? ==> TeamFromFileName(file.name).Ok? && WellFormed(r.value)
    ensures r.Ok? ==> TeamTagged(r.value.columns, TeamFromFileName(file.name).value)
  {
    var team :- TeamFromFileName(file.name);
    CleanData(file.table, team)
  }

  /** `f` is well formed and tags every row with the team named by `file`. */
  ghost predicate TeamTaggedFrom(file: PageFile, f: Frame) {
    TeamFromFileName(file.name).Ok? && WellFormed(f) && TeamTagged(f.columns, TeamFromFileName(file.name).value)
  }

  /** `rs[i]` is the first failure, and it fails with `e`. */
  ghost predicate FirstFailureAt<T, E>(rs: seq<Result<T, E>>, i: int, e: E) {
    0 <= i < |rs| && rs[i] == Err(e) && forall j :: 0 <= j < i ==> rs[j].Ok?
  }

  /**
    The per-file loop of `main` without its I/O: all values in order
    when every file succeeded, otherwise the first failure, since `main` has
    no exception handler and stops there.
   */
  function CollectAll<T, E>(rs: seq<Result<T, E>>): (r: Result<seq<T>, E>)
    ensures r.Ok? <==> forall i :: 0 <= i < |rs| ==> rs[i].Ok?
    ensures r.Ok? ==> |r.value| == |rs| && forall i :: 0 <= i < |rs| ==> rs[i] == Ok(r.value[i])
    ensures r.Err? ==> exists i :: FirstFailureAt(rs, i, r.error)
    decreases |rs|
  {
    if |rs| == 0 then Ok([])
    else
      match rs[0]
      case Err(e) =>
        assert FirstFailureAt(rs, 0, e);
        Err(e)
      case Ok(head) =>
        var tail := rs[1..];
        assert forall i :: 1 <= i < |rs| ==> tail[i - 1] == rs[i];
        match CollectAll(tail)
        case Err(e) =>
          assert forall i :: FirstFailureAt(tail, i, e) ==> FirstFailureAt(rs, i + 1, e);
          Err(e)
        case Ok(rest) =>
          var r := [head] + rest;
          assert forall i :: 1 <= i < |rs| ==> r[i] == rest[i - 1];
          Ok(r)
  }

  /**
    The consolidated frame `out` holds the rows of the cleaned frames of
    `files`, file after file, under the labels every cleaned frame shares.
   */
  ghost predicate ConsolidatedFrom(files: seq<PageFile>, frames: seq<Frame>, out: Frame) {
    && |frames| == |files| >= 1
    && (forall i :: 0 <= i < |files| ==> RawWellFormed(files[i].table) && CleanFile(files[i]) == Ok(frames[i]))
    && TaggedRowsFrom(files, frames, out)
  }

  /**
    `out` holds the rows of `frames`, frame after frame, under the labels
    they all share, and each frame tags its rows with the team its file
    names.
   */
  ghost predicate TaggedRowsFrom(files: seq<PageFile>, frames: seq<Frame>, out: Frame) {
    && |frames| == |files|
    && (forall i :: 0 <= i < |files| ==> TeamTaggedFrom(files[i], frames[i]))
    && WellFormed(out)
    && (forall i :: 0 <= i < |frames| ==> Labels(frames[i].columns) == Labels(out.columns))
    && RowsOf(out) == AllRows(frames)
    && |out.index| == TotalRows(frames)
  }

  /** Each file's outcome, in listing order. */
  function CleanResults(files: seq<PageFile>): (rs: seq<Result<Frame, Error>>)
    requires forall i :: 0 <= i < |files| ==> RawWellFormed(files[i].table)
    ensures |rs| == |files|
  {
    seq(|files|, i requires 0 <= i < |files| => CleanFile(files[i]))
  }

  /** What the cleaned frames and their concatenation are known to satisfy. */
  lemma CollectedFrames(files: seq<PageFile>, frames: seq<Frame>)
    requires forall i :: 0 <= i < |files| ==> RawWellFormed(files[i].table)
    requires CollectAll(CleanResults(files)) == Ok(frames)
    ensures |frames| == |files|
    ensures forall i :: 0 <= i < |frames| ==> WellFormed(frames[i])
    ensures Concat(frames).Ok? ==> ConsolidatedFrom(files, frames, Concat(frames).value)
  {
    var rs := CleanResults(files);
    forall i | 0 <= i < |files|
      ensures CleanFile(files[i]) == Ok(frames[i]) && TeamTaggedFrom(files[i], frames[i])
    {
      assert rs[i] == CleanFile(files[i]);
    }
  }

  /** A sequence of outcomes has at most one first failure. */
  lemma FirstFailureUnique<T, E>(rs: seq<Result<T, E>>, i: int, e: E, i': int, e': E)
    requires FirstFailureAt(rs, i, e) && FirstFailureAt(rs, i', e')
    ensures i == i' && e == e'
  {
  }

  /** A failed collection fails with the first failure, whichever that is. */
  lemma CollectAllFailure<T, E>(rs: seq<Result<T, E>>)
    requires CollectAll(rs).Err?
    ensures forall i, e :: FirstFailureAt(rs, i, e) ==> e == CollectAll(rs).error
  {
    var i0 :| FirstFailureAt(rs, i0, CollectAll(rs).error);
    forall i, e | FirstFailureAt(rs, i, e)
      ensures e == CollectAll(rs).error
    {
      FirstFailureUnique(rs, i, e, i0, CollectAll(rs).error);
    }
  }

  /** Every outcome is a rectangular frame carrying the labels of the first, in order. */
  ghost predicate AllAligned(rs: seq<Result<Frame, Error>>) {
    && |rs| >= 1
    && rs[0].Ok?
    && forall i :: 0 <= i < |rs| ==> rs[i].Ok? && WellFormed(rs[i].value) && Labels(rs[i].value.columns) == Labels(rs[0].value.columns)
  }

  /**
    The loop's outcomes, then `pd.concat`. It succeeds exactly when every
    outcome is a frame and they all share one label list; otherwise it
    fails with the first failed outcome, or, when none failed, with the
    concatenation's ValueError. On success the rows are those of the
    collected frames, frame after frame, under their shared labels.
   */
  function Gather(rs: seq<Result<Frame, Error>>): (r: Result<Frame, Error>)
    requires forall i :: 0 <= i < |rs| && rs[i].Ok? ==> WellFormed(rs[i].value)
    ensures r.Ok? <==> AllAligned(rs)
    ensures forall i, e :: FirstFailureAt(rs, i, e) ==> r == Err(e)
    ensures |rs| == 0 ==> r == Err(NothingToConcatenate)
    ensures |rs| >= 1 && (forall i :: 0 <= i < |rs| ==> rs[i].Ok?) && !AllAligned(rs) ==> r == Err(ColumnsNotAligned)
    ensures r.Ok? ==> CollectAll(rs).Ok? && WellFormed(r.value)
    ensures r.Ok? ==> Labels(r.value.columns) == Labels(rs[0].value.columns)
    ensures r.Ok? ==> RowsOf(r.value) == AllRows(CollectAll(rs).value) && |r.value.index| == TotalRows(CollectAll(rs).value)
  {
    match CollectAll(rs)
    case Err(e) =>
      CollectAllFailure(rs);
      Err(e)
    case Ok(frames) =>
      assert forall i :: 0 <= i < |rs| ==> rs[i] == Ok(frames[i]);
      Concat(frames)
  }

  /**
    `main` up to the spreadsheet write. It succeeds exactly when every file
    cleans and the cleaned frames share one label list; otherwise it fails
    with the first file's failure, or, when every file cleaned, with the
    concatenation's ValueError. The consolidated frame carries the labels
    of the cleaned frames and holds every cleaned row of every file, file
    after file, so its row count is the sum of the per-file counts, and
    each file's rows carry that file's team (`ConsolidatedTeams`).
   */
  function Consolidate(files: seq<PageFile>): (r: Result<Frame, Error>)
    requires forall i :: 0 <= i < |files| ==> RawWellFormed(files[i].table)
    ensures r.Ok? <==> AllAligned(CleanResults(files))
    ensures forall i, e :: FirstFailureAt(CleanResults(files), i, e) ==> r == Err(e)
    ensures |files| == 0 ==> r == Err(NothingToConcatenate)
    ensures (exists i :: 0 <= i < |files| && '_' !in files[i].name) ==> r.Err?
    ensures r.Ok? ==> Labels(r.value.columns) == Labels(CleanResults(files)[0].value.columns)
    ensures r.Ok? ==> exists frames :: ConsolidatedFrom(files, frames, r.value)
  {
    var rs := CleanResults(files);
    assert forall i :: 0 <= i < |files| ==> rs[i] == CleanFile(files[i]);
    assert forall i :: 0 <= i < |files| && '_' !in files[i].name ==> !rs[i].Ok?;
    var r := Gather(rs);
    if r.Ok? then
      var frames := CollectAll(rs).value;
      CollectedFrames(files, frames);
      assert Concat(frames) == r;
      r
    else r
  }

  /** The row at position `p` of frame `i` is row `TotalRows(fs[..i]) + p` of all the rows. */
  lemma {:induction false} AllRowsAt(fs: seq<Frame>, i: nat, p: nat)
    requires forall k :: 0 <= k < |fs| ==> WellFormed(fs[k])
    requires i < |fs| && p < |fs[i].index|
    ensures TotalRows(fs[..i]) + p < |AllRows(fs)|
    ensures AllRows(fs)[TotalRows(fs[..i]) + p] == RowsOf(fs[i])[p]
    decreases i
  {
    AllRowsLength(fs);
    if i > 0 {
      var tail := fs[1..];
      assert fs[..i] == [fs[0]] + tail[..i - 1];
      assert fs[..i][1..] == tail[..i - 1];
      assert tail[i - 1] == fs[i];
      AllRowsAt(tail, i - 1, p);
    }
  }

  /** All the rows number as many as the frames' row counts together. */
  lemma {:induction false} AllRowsLength(fs: seq<Frame>)
    requires forall k :: 0 <= k < |fs| ==> WellFormed(fs[k])
    ensures |AllRows(fs)| == TotalRows(fs)
    decreases |fs|
  {
    if |fs| > 0 {
      AllRowsLength(fs[1..]);
    }
  }

  /**
    Each file's rows carry that file's team: in the consolidated frame,
    row `p` of file `i` sits at position `TotalRows(frames[..i]) + p`, and
    every column labelled "Team" holds there the team named by the file.
    `ConsolidatedFrom` includes `TaggedRowsFrom`, so this holds of the
    result of `Consolidate`.
   */
  lemma ConsolidatedTeams(files: seq<PageFile>, frames: seq<Frame>, out: Frame, i: nat, p: nat, j: nat)
    requires TaggedRowsFrom(files, frames, out)
    requires i < |files| && p < |frames[i].index|
    requires j < |out.columns| && out.columns[j].name == TeamLabel
    ensures TotalRows(frames[..i]) + p < |out.index|
    ensures TeamFromFileName(files[i].name).Ok?
    ensures out.columns[j].cells[TotalRows(frames[..i]) + p] == Some(TeamFromFileName(files[i].name).value)
  {
    var f := frames[i];
    assert TeamTaggedFrom(files[i], f);
    assert Labels(f.columns)[j] == Labels(out.columns)[j];
    ConcatenatedCell(frames, out, i, p, j);
    assert f.columns[j] in f.columns && f.columns[j].cells[p] in f.columns[j].cells;
  }

  /** Cell `p` of column `j` of frame `i` is cell `TotalRows(fs[..i]) + p` of column `j` of their concatenation. */
  lemma ConcatenatedCell(fs: seq<Frame>, out: Frame, i: nat, p: nat, j: nat)
    requires forall k :: 0 <= k < |fs| ==> WellFormed(fs[k])
    requires WellFormed(out) && RowsOf(out) == AllRows(fs) && |out.index| == TotalRows(fs)
    requires i < |fs| && p < |fs[i].index| && j < |out.columns| && |fs[i].columns| == |out.columns|
    ensures TotalRows(fs[..i]) + p < |out.index|
    ensures out.columns[j].cells[TotalRows(fs[..i]) + p] == fs[i].columns[j].cells[p]
  {
    var q := TotalRows(fs[..i]) + p;
    AllRowsAt(fs, i, p);
    assert RowsOf(out)[q] == RowsOf(fs[i])[p];
    assert RowAt(fs[i], p)[j] == fs[i].columns[j].cells[p];
    assert out.columns[j] in out.columns;
    assert RowAt(out, q)[j] == out.columns[j].cells[q];
  }
}
