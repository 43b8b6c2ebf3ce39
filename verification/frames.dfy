/**
  A pandas DataFrame as the cleaner uses it: a row index and an ordered
  sequence of labelled columns. Labels may repeat, so every operation is
  positional; a label-based pandas operation acts on every column carrying
  that label. Cells are opaque strings or NaN (`None`).
 */
module Frames {
  import opened Wrappers
  import opened Seqs

  type Label = string

  /** One cell; `None` is pandas' NaN. */
  type Cell = Option<string>

  datatype Column = Column(name: Label, cells: seq<Cell>)

  datatype Frame = Frame(index: seq<int>, columns: seq<Column>)

  /** The exceptions the cleaning code can raise. */
  datatype Error =
    | NotInList(key: Label)        // ValueError from list.index
    | KeyNotFound(key: Label)      // KeyError from a label lookup or drop
    | RepeatedLabel(key: Label)    // a label selected several columns where one was needed
    | SegmentOutOfRange            // IndexError from indexing a split result
    | NothingToConcatenate         // ValueError from concatenating no frames
    | ColumnsNotAligned            // concatenation of frames whose labels differ

  /** Every column is as tall as the index. */
  ghost predicate WellFormed(f: Frame) {
    forall c :: c in f.columns ==> |c.cells| == |f.index|
  }

  /** The column labels in order (`df.columns.to_list()`). */
  function Labels(cs: seq<Column>): (ls: seq<Label>)
    ensures |ls| == |cs|
  {
    seq(|cs|, j requires 0 <= j < |cs| => cs[j].name)
  }

  lemma LabelsAppend(a: seq<Column>, b: seq<Column>)
    ensures Labels(a + b) == Labels(a) + Labels(b)
  {
  }

  /** The labels of a column followed by more columns. */
  lemma LabelsCons(c: Column, cs: seq<Column>)
    ensures Labels([c] + cs) == [c.name] + Labels(cs)
    ensures multiset(Labels([c] + cs)) == multiset{c.name} + multiset(Labels(cs))
  {
    assert Labels([c] + cs) == [c.name] + Labels(cs);
  }

  /** The row at position `i`, read across all columns. */
  function RowAt(f: Frame, i: nat): seq<Cell>
    requires WellFormed(f) && i < |f.index|
  {
    seq(|f.columns|, j requires 0 <= j < |f.columns| => f.columns[j].cells[i])
  }

  /** Exactly one column, the one at `k`, carries label `l`. */
  ghost predicate OnlyAt(cs: seq<Column>, l: Label, k: int) {
    0 <= k < |cs| && cs[k].name == l && forall j :: 0 <= j < |cs| && j != k ==> cs[j].name != l
  }

  ghost predicate Unique(cs: seq<Column>, l: Label) {
    exists k :: OnlyAt(cs, l, k)
  }

  /** A label names exactly one column exactly when it occurs once among the labels. */
  lemma {:induction false} UniqueIffOnce(cs: seq<Column>, l: Label)
    ensures Unique(cs, l) <==> multiset(Labels(cs))[l] == 1
    decreases |cs|
  {
    if |cs| > 0 {
      var tail := cs[1..];
      assert Labels(cs) == [cs[0].name] + Labels(tail);
      assert forall j :: 0 < j < |cs| ==> cs[j] == tail[j - 1];
      UniqueIffOnce(tail, l);
      if cs[0].name == l {
        if l in Labels(tail) {
          var j :| 0 <= j < |tail| && Labels(tail)[j] == l;
          assert cs[j + 1].name == l && cs[0].name == l;
        } else {
          assert forall j :: 0 < j < |cs| ==> cs[j].name == Labels(tail)[j - 1];
          assert OnlyAt(cs, l, 0);
        }
      } else {
        if Unique(cs, l) {
          var k :| OnlyAt(cs, l, k);
          assert OnlyAt(tail, l, k - 1);
        }
        if Unique(tail, l) {
          var k :| OnlyAt(tail, l, k);
          assert OnlyAt(cs, l, k + 1);
        }
      }
    }
  }

  /**
    `df[l]` where a single column is needed: the position of the one column
    labelled `l`. A missing label is a KeyError; a repeated one selects a
    frame instead of a column, and the masked assignment or row selection
    built on it fails.
   */
  function Lookup(cs: seq<Column>, l: Label): (r: Result<nat, Error>)
    ensures r.Ok? <==> Unique(cs, l)
    ensures r.Ok? ==> OnlyAt(cs, l, r.value)
    ensures r == Err(KeyNotFound(l)) <==> l !in Labels(cs)
    ensures r.Err? ==> r.error == KeyNotFound(l) || r.error == RepeatedLabel(l)
  {
    var ls := Labels(cs);
    match FirstIndex(ls, l)
    case None =>
      assert forall k :: 0 <= k < |cs| ==> ls[k] != l && ls[k] == cs[k].name;
      assert forall k :: 0 <= k < |cs| ==> cs[k].name != l;
      Err(KeyNotFound(l))
    case Some(k) =>
      if l in ls[k + 1..] then
        var i :| 0 <= i < |ls[k + 1..]| && ls[k + 1..][i] == l;
        var j := k + 1 + i;
        assert ls[j] == l;
        assert forall k' :: OnlyAt(cs, l, k') ==> k' == k && k' == j;
        Err(RepeatedLabel(l))
      else
        assert forall j :: 0 <= j < |cs| && j != k ==> cs[j].name != l by {
          forall j | 0 <= j < |cs| && j != k
            ensures cs[j].name != l
          {
            if j < k {
              assert ls[..k][j] == ls[j];
            } else {
              assert ls[k + 1..][j - k - 1] == ls[j];
            }
          }
        }
        assert OnlyAt(cs, l, k);
        Ok(k)
  }

  /** All columns labelled `l`, in order (what `df[l]` selects). */
  function Matching(cs: seq<Column>, l: Label): (r: seq<Column>)
    ensures forall c :: c in r <==> c in cs && c.name == l
    ensures |r| == 0 <==> l !in Labels(cs)
    ensures |r| <= |cs|
    decreases |cs|
  {
    if |cs| == 0 then []
    else
      assert Labels(cs) == [cs[0].name] + Labels(cs[1..]);
      if cs[0].name == l then [cs[0]] + Matching(cs[1..], l)
      else Matching(cs[1..], l)
  }

  /**
    Selecting by label distributes over concatenation: the columns of `a`
    come first, each column is selected once, and relative order is kept.
   */
  lemma {:induction false} MatchingAppend(a: seq<Column>, b: seq<Column>, l: Label)
    ensures Matching(a + b, l) == Matching(a, l) + Matching(b, l)
    decreases |a|
  {
    if |a| == 0 {
      assert a + b == b;
    } else {
      assert (a + b)[1..] == a[1..] + b;
      MatchingAppend(a[1..], b, l);
    }
  }

  /** A label held by exactly one column selects exactly that column. */
  lemma {:induction false} MatchingUnique(cs: seq<Column>, l: Label, k: nat)
    requires OnlyAt(cs, l, k)
    ensures Matching(cs, l) == [cs[k]]
    decreases |cs|
  {
    if k == 0 {
      assert l !in Labels(cs[1..]);
    } else {
      assert OnlyAt(cs[1..], l, k - 1);
      MatchingUnique(cs[1..], l, k - 1);
    }
  }

  /** `df.drop(columns=l)` once `l` is known to be present: every column labelled `l` goes. */
  function RemoveLabel(cs: seq<Column>, l: Label): (r: seq<Column>)
    ensures forall c :: c in r <==> c in cs && c.name != l
    ensures forall m :: m in Labels(r) <==> m in Labels(cs) && m != l
    ensures |r| <= |cs|
    decreases |cs|
  {
    if |cs| == 0 then []
    else
      var rest := RemoveLabel(cs[1..], l);
      assert Labels(cs) == [cs[0].name] + Labels(cs[1..]);
      if cs[0].name == l then rest
      else
        assert Labels([cs[0]] + rest) == [cs[0].name] + Labels(rest);
        [cs[0]] + rest
  }

  /** Dropping a label distributes over concatenation, so the surviving columns keep their order. */
  lemma {:induction false} RemoveLabelAppend(a: seq<Column>, b: seq<Column>, l: Label)
    ensures RemoveLabel(a + b, l) == RemoveLabel(a, l) + RemoveLabel(b, l)
    decreases |a|
  {
    if |a| == 0 {
      assert a + b == b;
    } else {
      assert (a + b)[1..] == a[1..] + b;
      RemoveLabelAppend(a[1..], b, l);
    }
  }

  /** `df.reset_index(drop=True)`: the index becomes 0, 1, 2, ... */
  function ResetIndex(f: Frame): (r: Frame)
    ensures |r.index| == |f.index| && r.columns == f.columns
    ensures forall i :: 0 <= i < |r.index| ==> r.index[i] == i
  {
    f.(index := seq(|f.index|, i => i))
  }

  /** The rows of a frame, top to bottom. */
  function RowsOf(f: Frame): (rows: seq<seq<Cell>>)
    requires WellFormed(f)
    ensures |rows| == |f.index|
  {
    seq(|f.index|, i requires 0 <= i < |f.index| => RowAt(f, i))
  }
}
