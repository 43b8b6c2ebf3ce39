/**
  `clean_data` from Data_Cleaning.py: the fixed sequence of table
  transformations that turns one scraped game-log table into the
  39-column schema. Each step is one function; `CleanData` composes them
  in the order the Python code runs them.
 */
module Cleaning {
  import opened Wrappers
  import opened Text
  import opened Seqs
  import opened Frames

  /** The text pandas puts into a header cell that has no name. */
  const Placeholder: string := "Unnamed"

  /** A column as parsed from the page: its two header levels and its cells. */
  datatype RawColumn = RawColumn(top: Label, bottom: Label, cells: seq<Cell>)

  /** The parsed table: `height` rows under two-level headers, index 0 .. height - 1. */
  datatype RawFrame = RawFrame(height: nat, columns: seq<RawColumn>)

  ghost predicate RawWellFormed(raw: RawFrame) {
    forall j :: 0 <= j < |raw.columns| ==> |raw.columns[j].cells| == raw.height
  }

  // ---------------------------------------------------------------------
  // Step 1: flatten the two header levels into one label per column.
  // ---------------------------------------------------------------------

  function FlatLabel(top: Label, bottom: Label): Label {
    if Contains(top, Placeholder) then bottom else top + " " + bottom
  }

  /**
    The flattened frame keeps every column, in order, with its cells; a
    column under a real group is named "<group> <name>", one under a
    placeholder group by its lower label alone.
   */
  function FlattenHeaders(raw: RawFrame): (f: Frame)
    requires RawWellFormed(raw)
    ensures WellFormed(f)
    ensures |f.index| == raw.height && forall i :: 0 <= i < |f.index| ==> f.index[i] == i
    ensures |f.columns| == |raw.columns|
    ensures forall j :: 0 <= j < |f.columns| ==> f.columns[j].cells == raw.columns[j].cells
    ensures forall j :: 0 <= j < |f.columns| && !Contains(raw.columns[j].top, Placeholder) ==>
              f.columns[j].name == raw.columns[j].top + " " + raw.columns[j].bottom
    ensures forall j :: 0 <= j < |f.columns| && Contains(raw.columns[j].top, Placeholder) ==>
              f.columns[j].name == raw.columns[j].bottom
  {
    Frame(seq(raw.height, i => i),
          seq(|raw.columns|, j requires 0 <= j < |raw.columns| =>
                Column(FlatLabel(raw.columns[j].top, raw.columns[j].bottom), raw.columns[j].cells)))
  }

  /**
    A flattened label contains "Unnamed" exactly when the column's lower
    header does, whichever branch named it: "Unnamed" holds no space, so
    it cannot straddle the one that joins the two headers.
   */
  lemma FlattenPlaceholders(raw: RawFrame)
    requires RawWellFormed(raw)
    ensures var f := FlattenHeaders(raw);
      forall j :: 0 <= j < |f.columns| ==> (Contains(f.columns[j].name, Placeholder) <==> Contains(raw.columns[j].bottom, Placeholder))
  {
    assert ' ' !in Placeholder by {
      assert Placeholder == ['U', 'n', 'n', 'a', 'm', 'e', 'd'];
    }
    forall j | 0 <= j < |raw.columns| && !Contains(raw.columns[j].top, Placeholder)
      ensures Contains(raw.columns[j].top + " " + raw.columns[j].bottom, Placeholder) <==> Contains(raw.columns[j].bottom, Placeholder)
    {
      assert raw.columns[j].top + " " + raw.columns[j].bottom == raw.columns[j].top + [' '] + raw.columns[j].bottom;
      ContainsJoined(raw.columns[j].top, raw.columns[j].bottom, ' ', Placeholder);
    }
  }

  // ---------------------------------------------------------------------
  // Step 2: the rename map.
  // ---------------------------------------------------------------------

  const LocationKey: Label := "Unnamed: 3_level_1"
  const TeamScoreKey: Label := "Tm"
  const OpponentScoreKey: Label := "Opp"

  const GameLocation: Label := "Game Location"
  const TeamScore: Label := "Team Score"
  const OpponentScore: Label := "Opponent Score"
  const Opponent: Label := "Opponent"

  predicate IsRenameKey(l: Label) {
    l == LocationKey || l == TeamScoreKey || l == OpponentScoreKey
  }

  /** `dict.get(l, l)` on the rename map. */
  function Renamed(l: Label): Label {
    if l == LocationKey then GameLocation
    else if l == TeamScoreKey then TeamScore
    else if l == OpponentScoreKey then OpponentScore
    else l
  }

  /**
    `df.rename(columns=...)`: every column whose label is a key of the map,
    duplicates included, takes the mapped label; no key survives; all other
    labels, all positions and all cells are untouched.
   */
  function RenameColumns(f: Frame): (r: Frame)
    ensures r.index == f.index && |r.columns| == |f.columns|
    ensures WellFormed(f) ==> WellFormed(r)
    ensures forall j :: 0 <= j < |r.columns| ==> r.columns[j].cells == f.columns[j].cells
    ensures forall j :: 0 <= j < |r.columns| ==> !IsRenameKey(r.columns[j].name)
    ensures forall j :: 0 <= j < |r.columns| && !IsRenameKey(f.columns[j].name) ==>
              r.columns[j].name == f.columns[j].name
    ensures forall j :: 0 <= j < |r.columns| && f.columns[j].name == LocationKey ==> r.columns[j].name == GameLocation
    ensures forall j :: 0 <= j < |r.columns| && f.columns[j].name == TeamScoreKey ==> r.columns[j].name == TeamScore
    ensures forall j :: 0 <= j < |r.columns| && f.columns[j].name == OpponentScoreKey ==> r.columns[j].name == OpponentScore
  {
    f.(columns := seq(|f.columns|, j requires 0 <= j < |f.columns| =>
                        f.columns[j].(name := Renamed(f.columns[j].name))))
  }

  /** Renaming twice is renaming once: no mapped label is itself a key. */
  lemma RenameIdempotent(f: Frame)
    ensures RenameColumns(RenameColumns(f)) == RenameColumns(f)
  {
    var once := RenameColumns(f);
    var twice := RenameColumns(once);
    assert forall j :: 0 <= j < |twice.columns| ==> twice.columns[j] == once.columns[j];
  }

  // ---------------------------------------------------------------------
  // Step 3: the first "Opponent Score" is really the opponent's name.
  // ---------------------------------------------------------------------

  /**
    `cols[cols.index("Opponent Score")] = "Opponent"`: only the first column
    labelled "Opponent Score" is relabelled; `list.index` raises when there
    is none.
   */
  function RepairOpponent(f: Frame): (r: Result<Frame, Error>)
    ensures r.Err? <==> OpponentScore !in Labels(f.columns)
    ensures r.Err? ==> r.error == NotInList(OpponentScore)
    ensures r.Ok? ==> r.value.index == f.index && |r.value.columns| == |f.columns|
    ensures r.Ok? ==> WellFormed(f) ==> WellFormed(r.value)
    ensures r.Ok? ==> exists k :: RepairedAt(f.columns, r.value.columns, k)
  {
    match FirstIndex(Labels(f.columns), OpponentScore)
    case None => Err(NotInList(OpponentScore))
    case Some(k) =>
      assert FirstOpponentScoreAt(f.columns, k) by {
        forall j | 0 <= j < k
          ensures f.columns[j].name != OpponentScore
        {
          assert Labels(f.columns)[..k][j] == f.columns[j].name;
        }
      }
      var r := f.(columns := f.columns[k := Column(Opponent, f.columns[k].cells)]);
      assert RepairedAt(f.columns, r.columns, k);
      Ok(r)
  }

  /**
    `after` is `before` with the first "Opponent Score", at `k`, relabelled
    "Opponent" and every other column unchanged.
   */
  ghost predicate RepairedAt(before: seq<Column>, after: seq<Column>, k: int) {
    && |after| == |before|
    && FirstOpponentScoreAt(before, k)
    && after[k] == Column(Opponent, before[k].cells)
    && forall j :: 0 <= j < |before| && j != k ==> after[j] == before[j]
  }

  /** Position `k` holds the first "Opponent Score" label. */
  ghost predicate FirstOpponentScoreAt(cs: seq<Column>, k: int) {
    0 <= k < |cs| && cs[k].name == OpponentScore &&
    forall j :: 0 <= j < k ==> cs[j].name != OpponentScore
  }

  /** The first "Opponent Score" of a list of columns is the one `list.index` finds. */
  lemma FirstOpponentScoreIndex(cs: seq<Column>, k: int)
    requires FirstOpponentScoreAt(cs, k)
    ensures FirstIndex(Labels(cs), OpponentScore) == Some(k)
  {
    var ls := Labels(cs);
    assert ls[k] == OpponentScore;
    var v := FirstIndex(ls, OpponentScore).value;
    assert ls[v] == cs[v].name;
  }

  /** The repair removes exactly one "Opponent Score" label and adds exactly one "Opponent". */
  lemma RepairCounts(f: Frame)
    requires RepairOpponent(f).Ok?
    ensures var r := RepairOpponent(f).value;
      multiset(Labels(r.columns))[OpponentScore] == multiset(Labels(f.columns))[OpponentScore] - 1 &&
      multiset(Labels(r.columns))[Opponent] == multiset(Labels(f.columns))[Opponent] + 1
  {
    var r := RepairOpponent(f).value;
    var k :| RepairedAt(f.columns, r.columns, k);
    assert Labels(r.columns) == Labels(f.columns)[k := Opponent];
  }

  /**
    The repair touches no other label: every column not labelled
    "Opponent Score" keeps its place, and every other label keeps its count.
   */
  lemma RepairKeepsOthers(f: Frame)
    requires RepairOpponent(f).Ok?
    ensures var r := RepairOpponent(f).value;
      forall c :: c in f.columns && c.name != OpponentScore ==> c in r.columns
    ensures var r := RepairOpponent(f).value;
      forall x :: x != OpponentScore && x != Opponent ==> multiset(Labels(r.columns))[x] == multiset(Labels(f.columns))[x]
    ensures PlaceholdersDistinct(Labels(RepairOpponent(f).value.columns)) <==> PlaceholdersDistinct(Labels(f.columns))
  {
    var r := RepairOpponent(f).value;
    var k :| RepairedAt(f.columns, r.columns, k);
    RepairedKeeps(f.columns, r.columns, k);
    RepairedLabels(f.columns, r.columns, k);
  }

  /** The labels after the repair are those before with the one at `k` replaced by "Opponent". */
  lemma RepairedLabels(before: seq<Column>, after: seq<Column>, k: int)
    requires RepairedAt(before, after, k)
    ensures Labels(after) == Labels(before)[k := Opponent]
    ensures forall x :: x != OpponentScore && x != Opponent ==> multiset(Labels(after))[x] == multiset(Labels(before))[x]
    ensures PlaceholdersDistinct(Labels(after)) <==> PlaceholdersDistinct(Labels(before))
  {
    assert Labels(after) == Labels(before)[k := Opponent];
    PlaceholdersDistinctUpdate(Labels(before), k, Opponent);
  }

  lemma RepairedKeeps(before: seq<Column>, after: seq<Column>, k: int)
    requires RepairedAt(before, after, k)
    ensures forall c :: c in before && c.name != OpponentScore ==> c in after
  {
    forall c | c in before && c.name != OpponentScore
      ensures c in after
    {
      var j :| 0 <= j < |before| && before[j] == c;
      assert after[j] == c;
    }
  }

  /** A label without a capital U cannot hold the placeholder. */
  lemma NotPlaceholder(l: Label)
    requires 'U' !in l
    ensures !IsPlaceholder(l)
  {
    MissingLeadCharNotContained(l, Placeholder);
  }

  /** None of the fixed labels the cleaning looks up holds the placeholder's first character. */
  lemma FixedLabelsPlain()
    ensures 'U' !in GameLocation && 'U' !in DateLabel && 'U' !in TeamLabel
    ensures 'U' !in Opponent && 'U' !in OpponentScore
  {
  }

  /** The fixed labels the cleaning writes or looks up are pairwise different where the steps rely on it. */
  lemma FixedLabelsDistinct()
    ensures Opponent != TeamLabel && OpponentScore != TeamLabel && GameLocation != TeamLabel
    ensures DateLabel != TeamLabel && DateLabel != OpponentScore && DateLabel != GameLocation
    ensures Opponent != GameLocation
  {
  }

  /**
    Relabelling one label as another, neither of which can hold the
    placeholder, leaves placeholder distinctness as it was.
   */
  lemma PlaceholdersDistinctUpdate(ls: seq<Label>, k: nat, v: Label)
    requires k < |ls| && 'U' !in ls[k] && 'U' !in v
    ensures PlaceholdersDistinct(ls[k := v]) <==> PlaceholdersDistinct(ls)
  {
    NotPlaceholder(ls[k]);
    NotPlaceholder(v);
    var ms := ls[k := v];
    if PlaceholdersDistinct(ls) {
      forall i, j | 0 <= i < j < |ms| && IsPlaceholder(ms[i])
        ensures ms[i] != ms[j]
      {
        assert i != k && ms[i] == ls[i];
        if j == k {
          assert ms[j] == v;
        } else {
          assert ms[j] == ls[j];
        }
      }
    }
    if PlaceholdersDistinct(ms) {
      forall i, j | 0 <= i < j < |ls| && IsPlaceholder(ls[i])
        ensures ls[i] != ls[j]
      {
        assert i != k && ms[i] == ls[i];
        if j != k {
          assert ms[j] == ls[j];
        }
      }
    }
  }

  // ---------------------------------------------------------------------
  // Step 4: drop the spacer columns whose label still holds the placeholder.
  // ---------------------------------------------------------------------

  predicate IsPlaceholder(l: Label) {
    Contains(l, Placeholder)
  }

  /** The columns whose label holds no placeholder, in their original order. */
  function KeepNamed(cs: seq<Column>): (r: seq<Column>)
    ensures forall c :: c in r <==> c in cs && !IsPlaceholder(c.name)
    decreases |cs|
  {
    if |cs| == 0 then []
    else if IsPlaceholder(cs[0].name) then KeepNamed(cs[1..])
    else [cs[0]] + KeepNamed(cs[1..])
  }

  /** Keeping named columns commutes with concatenation, so relative order survives. */
  lemma {:induction false} KeepNamedAppend(a: seq<Column>, b: seq<Column>)
    ensures KeepNamed(a + b) == KeepNamed(a) + KeepNamed(b)
    decreases |a|
  {
    if |a| > 0 {
      assert (a + b)[1..] == a[1..] + b;
      KeepNamedAppend(a[1..], b);
    } else {
      assert a + b == b;
    }
  }

  /** Dropping the placeholder columns keeps the count of every other label. */
  lemma {:induction false} KeepNamedCount(cs: seq<Column>, x: Label)
    requires !IsPlaceholder(x)
    ensures multiset(Labels(KeepNamed(cs)))[x] == multiset(Labels(cs))[x]
    decreases |cs|
  {
    if |cs| > 0 {
      var tail := cs[1..];
      KeepNamedCount(tail, x);
      assert cs == [cs[0]] + tail;
      LabelsCons(cs[0], tail);
      if IsPlaceholder(cs[0].name) {
        assert cs[0].name != x;
      } else {
        LabelsCons(cs[0], KeepNamed(tail));
      }
    }
  }

  lemma {:induction false} KeepNamedNoPlaceholder(cs: seq<Column>)
    requires forall c :: c in cs ==> !IsPlaceholder(c.name)
    ensures KeepNamed(cs) == cs
    decreases |cs|
  {
    if |cs| > 0 {
      KeepNamedNoPlaceholder(cs[1..]);
    }
  }

  /** Removing a placeholder label first does not change which named columns remain. */
  lemma {:induction false} KeepNamedAfterRemove(cs: seq<Column>, l: Label)
    requires IsPlaceholder(l)
    ensures KeepNamed(RemoveLabel(cs, l)) == KeepNamed(cs)
    decreases |cs|
  {
    if |cs| > 0 {
      KeepNamedAfterRemove(cs[1..], l);
    }
  }

  /**
    The spacer-column loop of `clean_data`. It walks the labels captured before
    the loop; a placeholder label drops every column still carrying it, and
    one already dropped together with an earlier duplicate makes `drop`
    raise KeyError.
   */
  function DropLoop(pending: seq<Label>, cs: seq<Column>): (r: Result<seq<Column>, Error>)
    ensures r.Err? ==> r.error.KeyNotFound? && IsPlaceholder(r.error.key) && r.error.key in pending
    decreases |pending|
  {
    if |pending| == 0 then Ok(cs)
    else if !IsPlaceholder(pending[0]) then DropLoop(pending[1..], cs)
    else if pending[0] in Labels(cs) then DropLoop(pending[1..], RemoveLabel(cs, pending[0]))
    else Err(KeyNotFound(pending[0]))
  }

  /** No placeholder label occurs twice. */
  ghost predicate PlaceholdersDistinct(ls: seq<Label>) {
    forall i, j :: 0 <= i < j < |ls| && IsPlaceholder(ls[i]) ==> ls[i] != ls[j]
  }

  /** Every placeholder label still to be dropped is present. */
  ghost predicate PlaceholdersPresent(ls: seq<Label>, cs: seq<Column>) {
    forall i :: 0 <= i < |ls| && IsPlaceholder(ls[i]) ==> ls[i] in Labels(cs)
  }

  /** Every placeholder label in `cs` is still to be dropped. */
  ghost predicate PlaceholdersListed(cs: seq<Column>, ls: seq<Label>) {
    forall c :: c in cs && IsPlaceholder(c.name) ==> c.name in ls
  }

  /** The loop finishes exactly when each pending placeholder label is present and unrepeated. */
  lemma {:induction false} DropLoopSucceeds(pending: seq<Label>, cs: seq<Column>)
    ensures DropLoop(pending, cs).Ok? <==>
      PlaceholdersDistinct(pending) && PlaceholdersPresent(pending, cs)
    decreases |pending|
  {
    if |pending| > 0 {
      var l, tail := pending[0], pending[1..];
      assert forall i :: 0 < i < |pending| ==> pending[i] == tail[i - 1];
      assert PlaceholdersDistinct(pending) <==>
        PlaceholdersDistinct(tail) && (IsPlaceholder(l) ==> l !in tail) by {
        if PlaceholdersDistinct(tail) && (IsPlaceholder(l) ==> l !in tail) {
          forall i, j | 0 <= i < j < |pending| && IsPlaceholder(pending[i])
            ensures pending[i] != pending[j]
          {
            if i == 0 {
              assert pending[j] == tail[j - 1];
            } else {
              assert tail[i - 1] != tail[j - 1];
            }
          }
        }
        if PlaceholdersDistinct(pending) {
          forall i, j | 0 <= i < j < |tail| && IsPlaceholder(tail[i])
            ensures tail[i] != tail[j]
          {
            assert pending[i + 1] != pending[j + 1];
          }
        }
      }
      if !IsPlaceholder(l) {
        DropLoopSucceeds(tail, cs);
      } else if l in Labels(cs) {
        var rest := RemoveLabel(cs, l);
        DropLoopSucceeds(tail, rest);
        assert PlaceholdersDistinct(tail) && PlaceholdersPresent(tail, rest) <==>
          PlaceholdersDistinct(tail) && l !in tail && PlaceholdersPresent(tail, cs) by {
          if l in tail {
            var i :| 0 <= i < |tail| && tail[i] == l;
            assert !PlaceholdersPresent(tail, rest);
          }
        }
      } else {
        assert !PlaceholdersPresent(pending, cs);
      }
    }
  }

  /** When every placeholder label of `cs` is pending, a finished loop leaves exactly the named columns. */
  lemma {:induction false} DropLoopResult(pending: seq<Label>, cs: seq<Column>)
    requires PlaceholdersListed(cs, pending)
    requires DropLoop(pending, cs).Ok?
    ensures DropLoop(pending, cs).value == KeepNamed(cs)
    decreases |pending|
  {
    if |pending| == 0 {
      KeepNamedNoPlaceholder(cs);
    } else {
      var l, tail := pending[0], pending[1..];
      assert forall m :: m in pending && m != l ==> m in tail;
      if !IsPlaceholder(l) {
        DropLoopResult(tail, cs);
      } else {
        var rest := RemoveLabel(cs, l);
        DropLoopResult(tail, rest);
        KeepNamedAfterRemove(cs, l);
      }
    }
  }

  /**
    The spacer-column loop on a frame. It succeeds exactly when no placeholder label is
    repeated, and then leaves the named columns, in their original order and
    with their cells, so rows stay aligned.
   */
  function DropPlaceholders(f: Frame): (r: Result<Frame, Error>)
    ensures r.Ok? <==> PlaceholdersDistinct(Labels(f.columns))
    ensures r.Err? ==> r.error.KeyNotFound? && IsPlaceholder(r.error.key)
    ensures r.Ok? ==> r.value == Frame(f.index, KeepNamed(f.columns))
    ensures r.Ok? ==> forall c :: c in r.value.columns ==> !IsPlaceholder(c.name)
    ensures r.Ok? ==> WellFormed(f) ==> WellFormed(r.value)
  {
    var ls := Labels(f.columns);
    DropLoopSucceeds(ls, f.columns);
    assert PlaceholdersPresent(ls, f.columns);
    assert PlaceholdersListed(f.columns, ls) by {
      forall c | c in f.columns && IsPlaceholder(c.name)
        ensures c.name in ls
      {
        var j :| 0 <= j < |f.columns| && f.columns[j] == c;
        assert ls[j] == c.name;
      }
    }
    var cs :- DropLoop(ls, f.columns);
    DropLoopResult(ls, f.columns);
    Ok(Frame(f.index, cs))
  }

  // ---------------------------------------------------------------------
  // Step 5: tag every row with the team.
  // ---------------------------------------------------------------------

  const TeamLabel: Label := "Team"

  /** Every cell of every column labelled "Team" holds `team`. */
  ghost predicate TeamTagged(cs: seq<Column>, team: string) {
    forall c :: c in cs && c.name == TeamLabel ==> forall x :: x in c.cells ==> x == Some(team)
  }

  /**
    `df["Team"] = team`: a new last column when no "Team" label exists,
    otherwise every column labelled "Team" is overwritten. Either way each
    row's Team cell is `team` and every other column is untouched.
   */
  function TagTeam(f: Frame, team: string): (r: Frame)
    requires WellFormed(f)
    ensures WellFormed(r) && r.index == f.index
    ensures TeamLabel in Labels(f.columns) ==> Labels(r.columns) == Labels(f.columns)
    ensures TeamLabel !in Labels(f.columns) ==> Labels(r.columns) == Labels(f.columns) + [TeamLabel]
    ensures TeamLabel in Labels(r.columns)
    ensures TeamTagged(r.columns, team)
    ensures forall j :: 0 <= j < |f.columns| && f.columns[j].name != TeamLabel ==> r.columns[j] == f.columns[j]
    ensures forall c :: c in f.columns && c.name != TeamLabel ==> c in r.columns
  {
    var tag := Column(TeamLabel, seq(|f.index|, _ => Some(team)));
    if TeamLabel in Labels(f.columns) then
      var r := f.(columns := seq(|f.columns|, j requires 0 <= j < |f.columns| =>
                                   if f.columns[j].name == TeamLabel then tag else f.columns[j]));
      assert Labels(r.columns)[..] == Labels(f.columns);
      r
    else
      var r := f.(columns := f.columns + [tag]);
      assert Labels(r.columns)[|f.columns|] == TeamLabel;
      assert forall c :: c in f.columns ==> c.name != TeamLabel by {
        forall c | c in f.columns
          ensures c.name != TeamLabel
        {
          var j :| 0 <= j < |f.columns| && f.columns[j] == c;
          assert Labels(f.columns)[j] == c.name;
        }
      }
      r
  }

  // ---------------------------------------------------------------------
  // Step 6: classify the game location as Away or Home.
  // ---------------------------------------------------------------------

  const AwayMarker: string := "@"
  const Away: string := "Away"
  const Home: string := "Home"

  /** The first masked assignment: "@" becomes "Away"; NaN compares unequal to "@" and stays. */
  function MarkAway(c: Cell): Cell {
    if c == Some(AwayMarker) then Some(Away) else c
  }

  /** The second masked assignment: every value but "Away", NaN included, becomes "Home". */
  function MarkHome(c: Cell): Cell {
    if c != Some(Away) then Some(Home) else c
  }

  /**
    The two masked assignments in sequence. The result is always "Away" or
    "Home", it is "Away" exactly for "@" and "Away", and classifying again
    changes nothing.
   */
  function Location(c: Cell): (r: Cell)
    ensures r == Some(Away) || r == Some(Home)
    ensures r == Some(Away) <==> c == Some(AwayMarker) || c == Some(Away)
    ensures MarkHome(MarkAway(r)) == r
  {
    MarkHome(MarkAway(c))
  }

  /** Every cell of every "Game Location" column is "Away" or "Home". */
  ghost predicate LocationsBinary(cs: seq<Column>) {
    forall c :: c in cs && c.name == GameLocation ==> forall x :: x in c.cells ==> x == Some(Away) || x == Some(Home)
  }

  /** The cells of a "Game Location" column after both masked assignments, row by row. */
  function Locations(cells: seq<Cell>): seq<Cell> {
    seq(|cells|, i requires 0 <= i < |cells| => Location(cells[i]))
  }

  /** A column as the location classification leaves it: only a "Game Location" column changes. */
  function Classified(c: Column): Column {
    if c.name == GameLocation then Column(GameLocation, Locations(c.cells)) else c
  }

  /** The frame after the location classification, given the one "Game Location" column at `k`. */
  function ClassifyAt(f: Frame, k: nat): Frame
    requires k < |f.columns|
  {
    f.(columns := f.columns[k := Column(GameLocation, Locations(f.columns[k].cells))])
  }

  /**
    The location classification. `df["Game Location"]` must name exactly
    one column (a missing label raises KeyError, and a repeated one makes
    the masked assignment fail); that column is classified cell by cell
    and nothing else changes.
   */
  function ClassifyLocations(f: Frame): (r: Result<Frame, Error>)
    requires WellFormed(f)
    ensures r.Ok? <==> Unique(f.columns, GameLocation)
    ensures r.Err? ==> r.error == KeyNotFound(GameLocation) || r.error == RepeatedLabel(GameLocation)
    ensures r == Err(KeyNotFound(GameLocation)) <==> GameLocation !in Labels(f.columns)
    ensures r.Ok? ==> WellFormed(r.value) && r.value.index == f.index && Labels(r.value.columns) == Labels(f.columns)
    ensures r.Ok? ==> forall j :: 0 <= j < |f.columns| && f.columns[j].name != GameLocation ==> r.value.columns[j] == f.columns[j]
    ensures r.Ok? ==> forall j, i :: 0 <= j < |f.columns| && f.columns[j].name == GameLocation && 0 <= i < |f.index| ==>
              r.value.columns[j].cells[i] == Location(f.columns[j].cells[i])
    ensures r.Ok? ==> LocationsBinary(r.value.columns)
    ensures r.Ok? ==> forall c :: c in f.columns && c.name != GameLocation ==> c in r.value.columns
    ensures r.Ok? ==> |r.value.columns| == |f.columns| && forall j :: 0 <= j < |f.columns| ==> r.value.columns[j] == Classified(f.columns[j])
  {
    var k :- Lookup(f.columns, GameLocation);
    var r := ClassifyAt(f, k);
    assert Labels(r.columns) == Labels(f.columns);
    assert forall j :: 0 <= j < |f.columns| && j != k ==> r.columns[j] == f.columns[j];
    Ok(r)
  }

  /** Classifying an already classified frame gives it back unchanged. */
  lemma ClassifyIdempotent(f: Frame)
    requires WellFormed(f) && ClassifyLocations(f).Ok?
    ensures ClassifyLocations(ClassifyLocations(f).value) == ClassifyLocations(f)
  {
    var once := ClassifyLocations(f).value;
    var k :| OnlyAt(f.columns, GameLocation, k);
    assert OnlyAt(once.columns, GameLocation, k) by {
      assert Labels(once.columns)[k] == once.columns[k].name;
      forall j | 0 <= j < |once.columns| && j != k
        ensures once.columns[j].name != GameLocation
      {
        assert Labels(once.columns)[j] == Labels(f.columns)[j];
      }
    }
    var twice := ClassifyLocations(once).value;
    assert twice.columns[k] == once.columns[k];
    assert twice.columns == once.columns;
  }

  // ---------------------------------------------------------------------
  // Step 7: drop repeated header rows and blank rows.
  // ---------------------------------------------------------------------

  const DateLabel: Label := "Date"

  /** The row filter's test on the Date cell: `!= "Date"` (true for NaN) and `notnull()`. */
  function KeepRow(date: Cell): (keep: bool)
    ensures keep <==> exists d :: date == Some(d) && d != DateLabel
  {
    date != Some(DateLabel) && date.Some?
  }

  /** Every cell of every "Date" column is present and is not the header text. */
  ghost predicate DatesPresent(cs: seq<Column>) {
    forall c :: c in cs && c.name == DateLabel ==> forall x :: x in c.cells ==> x.Some? && x.value != DateLabel
  }

  function RowMask(cells: seq<Cell>): (m: seq<bool>)
    ensures |m| == |cells|
  {
    seq(|cells|, i requires 0 <= i < |cells| => KeepRow(cells[i]))
  }

  /** The rows of a frame whose Date cells are `dates` that the row filter keeps, ascending. */
  function Survivors(dates: seq<Cell>): (ps: seq<nat>)
    ensures forall j :: 0 <= j < |ps| ==> ps[j] < |dates| && KeepRow(dates[ps[j]])
    ensures forall j, j' :: 0 <= j < j' < |ps| ==> ps[j] < ps[j']
    ensures forall i :: 0 <= i < |dates| && KeepRow(dates[i]) ==> i in ps
  {
    KeptPositions(RowMask(dates), 0)
  }

  /**
    `g` holds the rows of `f` at positions `ps`, in that order, under the
    same labels: index entries and every column's cells follow `ps`.
   */
  ghost predicate RowsAt(f: Frame, g: Frame, ps: seq<nat>) {
    && |g.index| == |ps|
    && |g.columns| == |f.columns|
    && (forall i :: 0 <= i < |ps| ==> ps[i] < |f.index| && g.index[i] == f.index[ps[i]])
    && (forall j :: 0 <= j < |f.columns| ==> g.columns[j].name == f.columns[j].name && |g.columns[j].cells| == |ps|)
    && (forall j, i :: 0 <= j < |f.columns| && 0 <= i < |ps| ==>
          ps[i] < |f.columns[j].cells| && g.columns[j].cells[i] == f.columns[j].cells[ps[i]])
  }

  /** The frame after the row filter, given the one "Date" column at `k`. */
  function KeepRowsAt(f: Frame, k: nat): (r: Frame)
    requires WellFormed(f) && k < |f.columns|
    ensures WellFormed(r)
    ensures RowsAt(f, r, Survivors(f.columns[k].cells))
  {
    var m := RowMask(f.columns[k].cells);
    assert f.columns[k] in f.columns;
    CutRowsAt(f, m);
    Frame(FilterByMask(f.index, m, 0), CutColumns(f.columns, m))
  }

  /** Every column of `cs` cut down to the rows mask `m` selects. */
  function CutColumns(cs: seq<Column>, m: seq<bool>): (r: seq<Column>)
    requires forall c :: c in cs ==> |c.cells| == |m|
    ensures |r| == |cs|
  {
    seq(|cs|, j requires 0 <= j < |cs| => Column(cs[j].name, FilterByMask(cs[j].cells, m, 0)))
  }

  /** Cutting every column and the index by one mask keeps the frame rectangular and selects the masked rows. */
  lemma CutRowsAt(f: Frame, m: seq<bool>)
    requires WellFormed(f) && |m| == |f.index|
    ensures WellFormed(Frame(FilterByMask(f.index, m, 0), CutColumns(f.columns, m)))
    ensures RowsAt(f, Frame(FilterByMask(f.index, m, 0), CutColumns(f.columns, m)), KeptPositions(m, 0))
  {
    var cs := CutColumns(f.columns, m);
    forall c | c in cs
      ensures |c.cells| == |KeptPositions(m, 0)|
    {
      var j :| 0 <= j < |cs| && cs[j] == c;
      assert f.columns[j] in f.columns;
    }
    forall j | 0 <= j < |f.columns|
      ensures |f.columns[j].cells| == |m|
    {
      assert f.columns[j] in f.columns;
    }
  }

  /**
    The row filter. `df["Date"]` must name exactly one column; a row survives
    exactly when its Date cell is present and not the text "Date", and the
    survivors keep their relative order, their index entries and every cell.
   */
  function DropBlankRows(f: Frame): (r: Result<Frame, Error>)
    requires WellFormed(f)
    ensures r.Ok? <==> Unique(f.columns, DateLabel)
    ensures r.Err? ==> r.error == KeyNotFound(DateLabel) || r.error == RepeatedLabel(DateLabel)
    ensures r == Err(KeyNotFound(DateLabel)) <==> DateLabel !in Labels(f.columns)
    ensures r.Ok? ==> WellFormed(r.value) && Labels(r.value.columns) == Labels(f.columns)
    ensures r.Ok? ==> exists k :: OnlyAt(f.columns, DateLabel, k) && r.value == KeepRowsAt(f, k)
    ensures r.Ok? ==> DatesPresent(r.value.columns)
  {
    var k :- Lookup(f.columns, DateLabel);
    KeepRowsAtDates(f, k);
    var r := KeepRowsAt(f, k);
    assert Labels(r.columns) == Labels(f.columns);
    Ok(r)
  }

  /** Filtering on the one Date column leaves only present, non-header dates. */
  lemma KeepRowsAtDates(f: Frame, k: nat)
    requires WellFormed(f) && OnlyAt(f.columns, DateLabel, k)
    ensures DatesPresent(KeepRowsAt(f, k).columns)
  {
    var r := KeepRowsAt(f, k);
    var ps := Survivors(f.columns[k].cells);
    forall c, x | c in r.columns && c.name == DateLabel && x in c.cells
      ensures x.Some? && x.value != DateLabel
    {
      var j :| 0 <= j < |r.columns| && r.columns[j] == c;
      assert j == k;
      var i :| 0 <= i < |c.cells| && c.cells[i] == x;
      assert x == f.columns[k].cells[ps[i]];
    }
  }

  /** A cell of a kept frame is a cell of the same column before. */
  lemma RowsAtCell(f: Frame, g: Frame, ps: seq<nat>, j: nat, x: Cell)
    requires RowsAt(f, g, ps) && j < |g.columns| && x in g.columns[j].cells
    ensures f.columns[j] in f.columns && f.columns[j].name == g.columns[j].name && x in f.columns[j].cells
  {
    var i :| 0 <= i < |g.columns[j].cells| && g.columns[j].cells[i] == x;
    assert x == f.columns[j].cells[ps[i]];
  }

  /** Keeping rows keeps the Team tags. */
  lemma RowsAtKeepsTeam(f: Frame, g: Frame, ps: seq<nat>, team: string)
    requires RowsAt(f, g, ps) && TeamTagged(f.columns, team)
    ensures TeamTagged(g.columns, team)
  {
    forall c, x | c in g.columns && c.name == TeamLabel && x in c.cells
      ensures x == Some(team)
    {
      var j :| 0 <= j < |g.columns| && g.columns[j] == c;
      RowsAtCell(f, g, ps, j, x);
    }
  }

  /** Keeping rows keeps the Away/Home classification. */
  lemma RowsAtKeepsLocations(f: Frame, g: Frame, ps: seq<nat>)
    requires RowsAt(f, g, ps) && LocationsBinary(f.columns)
    ensures LocationsBinary(g.columns)
  {
    forall c, x | c in g.columns && c.name == GameLocation && x in c.cells
      ensures x == Some(Away) || x == Some(Home)
    {
      var j :| 0 <= j < |g.columns| && g.columns[j] == c;
      RowsAtCell(f, g, ps, j, x);
    }
  }

  // ---------------------------------------------------------------------
  // Step 8: the fixed column order.
  // ---------------------------------------------------------------------

  /** The 39 output labels, in order (`col_order`). */
  const ColOrder: seq<Label> := [
    "Team", "Date", "Game Location", "W/L", "Team Score", "Opponent", "Opponent Score",
    "Team FG", "Team FGA", "Team FG%", "Team 3P", "Team 3PA", "Team 3P%",
    "Team FT", "Team FTA", "Team FT%", "Team ORB", "Team TRB", "Team AST",
    "Team STL", "Team BLK", "Team TOV", "Team PF",
    "Opponent FG", "Opponent FGA", "Opponent FG%", "Opponent 3P", "Opponent 3PA", "Opponent 3P%",
    "Opponent FT", "Opponent FTA", "Opponent FT%", "Opponent ORB", "Opponent TRB", "Opponent AST",
    "Opponent STL", "Opponent BLK", "Opponent TOV", "Opponent PF"
  ]

  /** The first label of `order` missing from `ls`, if any. */
  function FirstMissing(ls: seq<Label>, order: seq<Label>): (r: Option<Label>)
    ensures r.None? <==> forall l :: l in order ==> l in ls
    ensures r.Some? ==> r.value in order && r.value !in ls
    decreases |order|
  {
    if |order| == 0 then None
    else if order[0] !in ls then Some(order[0])
    else FirstMissing(ls, order[1..])
  }

  /**
    `df[order]` once every label is present: for each label in turn, every
    column carrying it. Each selected column is a column of `cs` under a
    listed label, and each such column is selected.
   */
  function SelectAll(cs: seq<Column>, order: seq<Label>): (r: seq<Column>)
    ensures forall c :: c in r <==> c in cs && c.name in order
    decreases |order|
  {
    if |order| == 0 then []
    else
      assert forall l :: l in order <==> l == order[0] || l in order[1..];
      Matching(cs, order[0]) + SelectAll(cs, order[1..])
  }

  /** One listed label selects every column carrying it, in order. */
  lemma SelectAllOne(cs: seq<Column>, l: Label)
    ensures SelectAll(cs, [l]) == Matching(cs, l)
  {
    assert [l][1..] == [];
  }

  /**
    Selection follows the list: the columns for `o1` come before those for
    `o2`, and a label listed twice selects its columns twice.
   */
  lemma {:induction false} SelectAllAppend(cs: seq<Column>, o1: seq<Label>, o2: seq<Label>)
    ensures SelectAll(cs, o1 + o2) == SelectAll(cs, o1) + SelectAll(cs, o2)
    decreases |o1|
  {
    if |o1| == 0 {
      assert o1 + o2 == o2;
    } else {
      assert (o1 + o2)[1..] == o1[1..] + o2;
      assert (o1 + o2)[0] == o1[0];
      SelectAllAppend(cs, o1[1..], o2);
    }
  }

  /** Every label of `order` names exactly one column of `cs`. */
  ghost predicate AllUnique(cs: seq<Column>, order: seq<Label>) {
    forall l :: l in order ==> Unique(cs, l)
  }

  /** When every listed label names exactly one column, the selected labels are `order` itself. */
  lemma {:induction false} SelectAllUnique(cs: seq<Column>, order: seq<Label>)
    requires AllUnique(cs, order)
    ensures Labels(SelectAll(cs, order)) == order
    decreases |order|
  {
    if |order| > 0 {
      assert order[0] in order;
      var k :| OnlyAt(cs, order[0], k);
      MatchingUnique(cs, order[0], k);
      assert AllUnique(cs, order[1..]) by {
        forall l | l in order[1..]
          ensures Unique(cs, l)
        {
          assert l in order;
        }
      }
      SelectAllUnique(cs, order[1..]);
      var rest := SelectAll(cs, order[1..]);
      assert SelectAll(cs, order) == [cs[k]] + rest;
      LabelsAppend([cs[k]], rest);
      assert Labels([cs[k]]) == [order[0]];
      assert [order[0]] + order[1..] == order;
    }
  }

  /**
    `df[col_order]`: a KeyError naming a listed label when some
    listed label is absent; otherwise the listed columns, with the index kept.
   */
  function Project(f: Frame, order: seq<Label>): (r: Result<Frame, Error>)
    ensures r.Ok? <==> forall l :: l in order ==> l in Labels(f.columns)
    ensures r.Err? ==> r.error.KeyNotFound? && r.error.key in order && r.error.key !in Labels(f.columns)
    ensures r.Ok? ==> r.value.index == f.index
    ensures r.Ok? ==> forall c :: c in r.value.columns <==> c in f.columns && c.name in order
    ensures r.Ok? && AllUnique(f.columns, order) ==> Labels(r.value.columns) == order
    ensures r.Ok? ==> WellFormed(f) ==> WellFormed(r.value)
  {
    assert AllUnique(f.columns, order) ==> Labels(SelectAll(f.columns, order)) == order by {
      if AllUnique(f.columns, order) {
        SelectAllUnique(f.columns, order);
      }
    }
    match FirstMissing(Labels(f.columns), order)
    case Some(l) => Err(KeyNotFound(l))
    case None => Ok(Frame(f.index, SelectAll(f.columns, order)))
  }

  /** Projecting onto one present label gives every column carrying it, in order. */
  lemma ProjectOne(f: Frame, l: Label)
    requires l in Labels(f.columns)
    ensures Project(f, [l]) == Ok(Frame(f.index, Matching(f.columns, l)))
  {
    SelectAllOne(f.columns, l);
  }

  /**
    Projecting onto a concatenated list succeeds exactly when projecting
    onto each part does, and then gives the columns for the first part
    followed by those for the second.
   */
  lemma ProjectAppend(f: Frame, o1: seq<Label>, o2: seq<Label>)
    ensures Project(f, o1 + o2).Ok? <==> Project(f, o1).Ok? && Project(f, o2).Ok?
    ensures Project(f, o1 + o2).Ok? ==>
      Project(f, o1 + o2).value.columns == Project(f, o1).value.columns + Project(f, o2).value.columns
  {
    assert forall l :: l in o1 + o2 <==> l in o1 || l in o2;
    SelectAllAppend(f.columns, o1, o2);
  }

  // ---------------------------------------------------------------------
  // The whole of clean_data.
  // ---------------------------------------------------------------------

  /**
    `TagTeamCounts` for one label. The single-label form keeps the
    quantifier over all labels out of `Locate`'s proof.
   */
  lemma TagTeamCount(f: Frame, team: string, x: Label)
    requires WellFormed(f) && x != TeamLabel
    ensures multiset(Labels(TagTeam(f, team).columns))[x] == multiset(Labels(f.columns))[x]
  {
  }

  /** Classifying locations leaves the Team columns alone. */
  lemma ClassifyKeepsTeam(f: Frame, team: string)
    requires WellFormed(f) && ClassifyLocations(f).Ok? && TeamTagged(f.columns, team)
    ensures TeamTagged(ClassifyLocations(f).value.columns, team)
  {
    var r := ClassifyLocations(f).value;
    forall c | c in r.columns && c.name == TeamLabel
      ensures c in f.columns
    {
      var j :| 0 <= j < |r.columns| && r.columns[j] == c;
      assert Labels(r.columns)[j] == Labels(f.columns)[j];
    }
  }

  /** Dropping rows keeps the Team tags and the Away/Home classification. */
  lemma DropBlankRowsKeeps(f: Frame, team: string)
    requires WellFormed(f) && DropBlankRows(f).Ok?
    ensures TeamTagged(f.columns, team) ==> TeamTagged(DropBlankRows(f).value.columns, team)
    ensures LocationsBinary(f.columns) ==> LocationsBinary(DropBlankRows(f).value.columns)
  {
    var k :| OnlyAt(f.columns, DateLabel, k) && DropBlankRows(f).value == KeepRowsAt(f, k);
    var ps := Survivors(f.columns[k].cells);
    if TeamTagged(f.columns, team) {
      RowsAtKeepsTeam(f, KeepRowsAt(f, k), ps, team);
    }
    if LocationsBinary(f.columns) {
      RowsAtKeepsLocations(f, KeepRowsAt(f, k), ps);
    }
  }

  /** The label each raw column carries after flattening and renaming. */
  function RawLabels(raw: RawFrame): (ls: seq<Label>)
    ensures |ls| == |raw.columns|
  {
    seq(|raw.columns|, j requires 0 <= j < |raw.columns| =>
          Renamed(FlatLabel(raw.columns[j].top, raw.columns[j].bottom)))
  }

  /** Flattening then renaming gives every raw column its label from `RawLabels`. */
  lemma RenamedLabels(raw: RawFrame)
    requires RawWellFormed(raw)
    ensures Labels(RenameColumns(FlattenHeaders(raw)).columns) == RawLabels(raw)
  {
    assert Labels(RenameColumns(FlattenHeaders(raw)).columns) == RawLabels(raw);
  }

  /** Flattening then renaming keeps each raw column in place, with its cells. */
  lemma RenamedColumns(raw: RawFrame)
    requires RawWellFormed(raw)
    ensures var cs := RenameColumns(FlattenHeaders(raw)).columns;
      forall d :: 0 <= d < |raw.columns| ==> cs[d] == Column(RawLabels(raw)[d], raw.columns[d].cells)
  {
  }

  /** How often `x` labels a column once the repair has relabelled the first "Opponent Score". */
  function RepairedCount(ls: seq<Label>, x: Label): int {
    (multiset(ls)[x] as int) - (if x == OpponentScore then 1 else 0) + (if x == Opponent then 1 else 0)
  }

  /**
    Whether label `x` is present once the preparatory steps have run on a
    table whose flattened, renamed labels are `ls`: "Team" always is; a
    placeholder label never is; any other label is when it survives the
    repair ("Opponent" always does, "Opponent Score" only when it occurred
    at least twice).
   */
  ghost predicate SurvivesPrepare(ls: seq<Label>, x: Label) {
    x == TeamLabel || (!IsPlaceholder(x) && RepairedCount(ls, x) > 0)
  }

  /** A raw label whose column reaches the prepared frame: the team tag does not overwrite it and the spacer loop does not drop it. */
  predicate Kept(l: Label) {
    l != TeamLabel && !IsPlaceholder(l)
  }

  /**
    Raw column `d` as the repair leaves it: the first column labelled
    "Opponent Score" is relabelled "Opponent"; every other column, a later
    "Opponent Score" included, keeps its label; the cells never change.
   */
  function RepairedColumn(raw: RawFrame, d: nat): Column
    requires d < |raw.columns|
  {
    var l := if FirstIndex(RawLabels(raw), OpponentScore) == Some(d) then Opponent else RawLabels(raw)[d];
    Column(l, raw.columns[d].cells)
  }

  /**
    Raw column `d` as the location classification leaves it: a "Game
    Location" column has every cell classified Away or Home; any other
    column is as the repair left it.
   */
  function LocatedColumn(raw: RawFrame, d: nat): Column
    requires d < |raw.columns|
  {
    Classified(RepairedColumn(raw, d))
  }

  /** Every raw column without a placeholder label is among `cs`, as the repair left it. */
  ghost predicate HoldsRepaired(raw: RawFrame, cs: seq<Column>) {
    forall d :: 0 <= d < |raw.columns| && !IsPlaceholder(RawLabels(raw)[d]) ==> RepairedColumn(raw, d) in cs
  }

  /** Every kept raw column is among `cs`, as the location classification left it. */
  ghost predicate HoldsLocated(raw: RawFrame, cs: seq<Column>) {
    forall d :: 0 <= d < |raw.columns| && Kept(RawLabels(raw)[d]) ==> LocatedColumn(raw, d) in cs
  }

  /** The header steps: flatten, rename and repair; they fail exactly when no column is labelled "Opponent Score". */
  function Relabel(raw: RawFrame): (r: Result<Frame, Error>)
    requires RawWellFormed(raw)
    ensures r.Err? <==> OpponentScore !in RawLabels(raw)
    ensures r.Err? ==> r.error == NotInList(OpponentScore)
    ensures r.Ok? ==> WellFormed(r.value) && |r.value.index| == raw.height
  {
    var renamed := RenameColumns(FlattenHeaders(raw));
    RenamedLabels(raw);
    RepairOpponent(renamed)
  }

  /**
    After the header steps every label keeps its count except the two the
    repair trades, placeholder labels are as distinct as in the raw labels,
    and each position holds its raw column as the repair leaves it.
   */
  lemma RelabelKeeps(raw: RawFrame)
    requires RawWellFormed(raw) && OpponentScore in RawLabels(raw)
    ensures var cs := Relabel(raw).value.columns;
      forall x :: multiset(Labels(cs))[x] == RepairedCount(RawLabels(raw), x)
    ensures PlaceholdersDistinct(Labels(Relabel(raw).value.columns)) <==> PlaceholdersDistinct(RawLabels(raw))
    ensures var cs := Relabel(raw).value.columns;
      |cs| == |raw.columns| && forall d :: 0 <= d < |raw.columns| ==> cs[d] == RepairedColumn(raw, d)
  {
    var renamed := RenameColumns(FlattenHeaders(raw));
    RenamedLabels(raw);
    RenamedColumns(raw);
    RepairKeepsOthers(renamed);
    RepairCounts(renamed);
    var cs := Relabel(raw).value.columns;
    var k :| RepairedAt(renamed.columns, cs, k);
    RepairedRawColumns(raw, renamed.columns, cs, k);
  }

  /** The repair of the renamed raw columns leaves each as `RepairedColumn` describes it. */
  lemma RepairedRawColumns(raw: RawFrame, renamed: seq<Column>, cs: seq<Column>, k: int)
    requires |renamed| == |raw.columns|
    requires forall d :: 0 <= d < |raw.columns| ==> renamed[d] == Column(RawLabels(raw)[d], raw.columns[d].cells)
    requires RepairedAt(renamed, cs, k)
    ensures |cs| == |raw.columns| && forall d :: 0 <= d < |raw.columns| ==> cs[d] == RepairedColumn(raw, d)
  {
    FirstOpponentScoreIndex(renamed, k);
    assert Labels(renamed) == RawLabels(raw);
  }

  /** `KeepNamedCount` for every label at once, as the stage lemmas need it. */
  lemma KeepNamedCounts(cs: seq<Column>)
    ensures forall x :: !IsPlaceholder(x) ==> multiset(Labels(KeepNamed(cs)))[x] == multiset(Labels(cs))[x]
  {
    forall x | !IsPlaceholder(x)
      ensures multiset(Labels(KeepNamed(cs)))[x] == multiset(Labels(cs))[x]
    {
      KeepNamedCount(cs, x);
    }
  }

  /** Every column without a placeholder label survives the removal of the spacer columns. */
  lemma KeepNamedHas(cs: seq<Column>, d: nat)
    requires d < |cs| && !IsPlaceholder(cs[d].name)
    ensures cs[d] in KeepNamed(cs)
  {
    assert cs[d] in cs;
  }

  /** The repair never gives a column a placeholder label it did not have. */
  lemma RepairedNamed(raw: RawFrame, d: nat)
    requires d < |raw.columns| && !IsPlaceholder(RawLabels(raw)[d])
    ensures !IsPlaceholder(RepairedColumn(raw, d).name)
  {
    FixedLabelsPlain();
    NotPlaceholder(Opponent);
  }

  /** The header steps, then the removal of the spacer columns. */
  function Named(raw: RawFrame): (r: Result<Frame, Error>)
    requires RawWellFormed(raw)
    ensures r.Ok? <==> OpponentScore in RawLabels(raw) && PlaceholdersDistinct(RawLabels(raw))
    ensures OpponentScore !in RawLabels(raw) ==> r == Err(NotInList(OpponentScore))
    ensures OpponentScore in RawLabels(raw) && r.Err? ==> r.error.KeyNotFound? && IsPlaceholder(r.error.key)
    ensures r.Ok? ==> WellFormed(r.value) && |r.value.index| == raw.height
  {
    var relabelled :- Relabel(raw);
    RelabelKeeps(raw);
    DropPlaceholders(relabelled)
  }

  /**
    Once the spacer columns are gone, exactly the non-placeholder labels
    remain, with their counts after the repair, and every raw column
    without a placeholder label is kept as the repair left it.
   */
  lemma NamedKeeps(raw: RawFrame)
    requires RawWellFormed(raw) && OpponentScore in RawLabels(raw) && PlaceholdersDistinct(RawLabels(raw))
    ensures forall x :: x in Labels(Named(raw).value.columns) ==> !IsPlaceholder(x)
    ensures var cs := Named(raw).value.columns;
      forall x :: !IsPlaceholder(x) ==> multiset(Labels(cs))[x] == RepairedCount(RawLabels(raw), x)
    ensures HoldsRepaired(raw, Named(raw).value.columns)
  {
    var relabelled := Relabel(raw).value;
    RelabelKeeps(raw);
    KeepNamedCounts(relabelled.columns);
    var cs := Named(raw).value.columns;
    assert cs == KeepNamed(relabelled.columns);
    forall d | 0 <= d < |raw.columns| && !IsPlaceholder(RawLabels(raw)[d])
      ensures RepairedColumn(raw, d) in cs
    {
      RepairedNamed(raw, d);
      KeepNamedHas(relabelled.columns, d);
    }
    forall x | x in Labels(cs)
      ensures !IsPlaceholder(x)
    {
      var j :| 0 <= j < |cs| && Labels(cs)[j] == x;
      assert cs[j] in cs;
    }
  }

  /** A label that cannot be a placeholder keeps its repaired count through the removal of the spacer columns. */
  lemma NamedCount(raw: RawFrame, x: Label)
    requires RawWellFormed(raw) && OpponentScore in RawLabels(raw) && PlaceholdersDistinct(RawLabels(raw)) && 'U' !in x
    ensures multiset(Labels(Named(raw).value.columns))[x] == RepairedCount(RawLabels(raw), x)
  {
    NamedKeeps(raw);
    NotPlaceholder(x);
  }

  /** What the flattened, renamed labels must satisfy for the steps up to the location classification to succeed. */
  ghost predicate Locatable(ls: seq<Label>) {
    OpponentScore in ls && PlaceholdersDistinct(ls) && multiset(ls)[GameLocation] == 1
  }

  /**
    Every step up to the location classification. It fails as `Named`
    does, and otherwise with a KeyError when no column is labelled "Game
    Location" or a ValueError when several are.
   */
  function Locate(raw: RawFrame, team: string): (r: Result<Frame, Error>)
    requires RawWellFormed(raw)
    ensures r.Ok? <==> Locatable(RawLabels(raw))
    ensures OpponentScore !in RawLabels(raw) ==> r == Err(NotInList(OpponentScore))
    ensures OpponentScore in RawLabels(raw) && !PlaceholdersDistinct(RawLabels(raw)) ==>
              r.Err? && r.error.KeyNotFound? && IsPlaceholder(r.error.key)
    ensures var ls := RawLabels(raw);
      OpponentScore in ls && PlaceholdersDistinct(ls) && multiset(ls)[GameLocation] == 0 ==> r == Err(KeyNotFound(GameLocation))
    ensures var ls := RawLabels(raw);
      OpponentScore in ls && PlaceholdersDistinct(ls) && multiset(ls)[GameLocation] > 1 ==> r == Err(RepeatedLabel(GameLocation))
    ensures r.Ok? ==> WellFormed(r.value) && |r.value.index| == raw.height
  {
    var named :- Named(raw);
    FixedLabelsPlain();
    NamedCount(raw, GameLocation);
    var tagged := TagTeam(named, team);
    TagTeamCount(named, team, GameLocation);
    UniqueIffOnce(tagged.columns, GameLocation);
    ClassifyLocations(tagged)
  }

  /** Tagging the team keeps the count of every other label. */
  lemma TagTeamCounts(f: Frame, team: string)
    requires WellFormed(f)
    ensures forall x :: x != TeamLabel ==> multiset(Labels(TagTeam(f, team).columns))[x] == multiset(Labels(f.columns))[x]
  {
  }

  /**
    `LocateKeeps`, stated on the classification's success itself, so that
    its proof does not also derive that success from the raw labels.
   */
  lemma LocatedKeeps(raw: RawFrame, team: string)
    requires RawWellFormed(raw) && Locate(raw, team).Ok?
    ensures TeamTagged(Locate(raw, team).value.columns, team)
    ensures LocationsBinary(Locate(raw, team).value.columns)
    ensures var cs := Locate(raw, team).value.columns;
      forall x :: x in Labels(cs) <==> SurvivesPrepare(RawLabels(raw), x)
    ensures var cs := Locate(raw, team).value.columns;
      forall x :: x != TeamLabel && !IsPlaceholder(x) ==> multiset(Labels(cs))[x] == RepairedCount(RawLabels(raw), x)
    ensures HoldsLocated(raw, Locate(raw, team).value.columns)
  {
    var named := Named(raw).value;
    NamedKeeps(raw);
    var tagged := TagTeam(named, team);
    TagTeamCounts(named, team);
    var located := ClassifyLocations(tagged).value;
    assert located == Locate(raw, team).value;
    ClassifyKeepsTeam(tagged, team);
    forall x
      ensures x in Labels(located.columns) <==> SurvivesPrepare(RawLabels(raw), x)
    {
      if x != TeamLabel {
        assert x in Labels(located.columns) <==> x in multiset(Labels(tagged.columns));
        assert x in Labels(named.columns) <==> x in multiset(Labels(named.columns));
      }
    }
    FixedLabelsDistinct();
    forall d | 0 <= d < |raw.columns| && Kept(RawLabels(raw)[d])
      ensures LocatedColumn(raw, d) in located.columns
    {
      var c := RepairedColumn(raw, d);
      assert c in named.columns;
      assert c in tagged.columns;
      var j :| 0 <= j < |tagged.columns| && tagged.columns[j] == c;
      assert located.columns[j] == Classified(c);
    }
  }

  /**
    After the location classification every row is tagged with the team,
    every location is Away or Home, exactly the labels that survive
    preparation are present, every label but "Team" and the placeholders
    has its repaired count, and every kept raw column is there as the
    classification left it.
   */
  lemma LocateKeeps(raw: RawFrame, team: string)
    requires RawWellFormed(raw) && Locatable(RawLabels(raw))
    ensures TeamTagged(Locate(raw, team).value.columns, team)
    ensures LocationsBinary(Locate(raw, team).value.columns)
    ensures var cs := Locate(raw, team).value.columns;
      forall x :: x in Labels(cs) <==> SurvivesPrepare(RawLabels(raw), x)
    ensures var cs := Locate(raw, team).value.columns;
      forall x :: x != TeamLabel && !IsPlaceholder(x) ==> multiset(Labels(cs))[x] == RepairedCount(RawLabels(raw), x)
    ensures HoldsLocated(raw, Locate(raw, team).value.columns)
  {
    LocatedKeeps(raw, team);
  }

  /** A label that cannot be a placeholder, other than "Team", keeps its repaired count up to the classification. */
  lemma LocateCount(raw: RawFrame, team: string, x: Label)
    requires RawWellFormed(raw) && Locatable(RawLabels(raw)) && 'U' !in x && x != TeamLabel
    ensures multiset(Labels(Locate(raw, team).value.columns))[x] == RepairedCount(RawLabels(raw), x)
  {
    LocateKeeps(raw, team);
    NotPlaceholder(x);
  }

  /**
    How many columns carry `x` once the preparatory steps have run on a
    table whose flattened, renamed labels are `ls`: "Team" as often as it
    occurred, or once when the tag appended it; a placeholder never; any
    other label as often as after the repair.
   */
  function PreparedCount(ls: seq<Label>, x: Label): int {
    if x == TeamLabel then (if multiset(ls)[TeamLabel] == 0 then 1 else multiset(ls)[TeamLabel] as int)
    else if IsPlaceholder(x) then 0
    else RepairedCount(ls, x)
  }

  /** Tagging the team keeps the number of "Team" columns, or appends the first one. */
  lemma TagTeamTeamCount(f: Frame, team: string)
    requires WellFormed(f)
    ensures var n := multiset(Labels(f.columns))[TeamLabel];
      multiset(Labels(TagTeam(f, team).columns))[TeamLabel] == if n == 0 then 1 else n
  {
  }

  /** After the location classification every label is carried by exactly `PreparedCount` columns. */
  lemma LocateCounts(raw: RawFrame, team: string)
    requires RawWellFormed(raw) && Locate(raw, team).Ok?
    ensures forall x :: multiset(Labels(Locate(raw, team).value.columns))[x] == PreparedCount(RawLabels(raw), x)
  {
    var named := Named(raw).value;
    NamedKeeps(raw);
    var tagged := TagTeam(named, team);
    TagTeamCounts(named, team);
    TagTeamTeamCount(named, team);
    var located := ClassifyLocations(tagged).value;
    assert located == Locate(raw, team).value;
    FixedLabelsPlain();
    FixedLabelsDistinct();
    NotPlaceholder(TeamLabel);
    forall x
      ensures multiset(Labels(located.columns))[x] == PreparedCount(RawLabels(raw), x)
    {
      if x != TeamLabel && IsPlaceholder(x) {
        assert x !in Labels(named.columns);
      }
    }
  }

  /** What the flattened, renamed labels must satisfy for the preparatory steps to succeed. */
  ghost predicate Preparable(ls: seq<Label>) {
    Locatable(ls) && multiset(ls)[DateLabel] == 1
  }

  /**
    Every step of `clean_data` before the projection, in order. It succeeds
    exactly when the raw labels hold an "Opponent Score", no repeated
    placeholder, and one "Game Location" and one "Date"; each failure is
    the exception of the first step that cannot proceed. On success every
    row is tagged, every location classified, every date present and no
    header, and the labels are exactly those that survive preparation.
   */
  function Prepare(raw: RawFrame, team: string): (r: Result<Frame, Error>)
    requires RawWellFormed(raw)
    ensures r.Ok? <==> Preparable(RawLabels(raw))
    ensures OpponentScore !in RawLabels(raw) ==> r == Err(NotInList(OpponentScore))
    ensures OpponentScore in RawLabels(raw) && !PlaceholdersDistinct(RawLabels(raw)) ==>
              r.Err? && r.error.KeyNotFound? && IsPlaceholder(r.error.key)
    ensures var ls := RawLabels(raw);
      OpponentScore in ls && PlaceholdersDistinct(ls) && multiset(ls)[GameLocation] == 0 ==> r == Err(KeyNotFound(GameLocation))
    ensures var ls := RawLabels(raw);
      OpponentScore in ls && PlaceholdersDistinct(ls) && multiset(ls)[GameLocation] > 1 ==> r == Err(RepeatedLabel(GameLocation))
    ensures var ls := RawLabels(raw);
      OpponentScore in ls && PlaceholdersDistinct(ls) && multiset(ls)[GameLocation] == 1 && multiset(ls)[DateLabel] == 0 ==>
        r == Err(KeyNotFound(DateLabel))
    ensures var ls := RawLabels(raw);
      OpponentScore in ls && PlaceholdersDistinct(ls) && multiset(ls)[GameLocation] == 1 && multiset(ls)[DateLabel] > 1 ==>
        r == Err(RepeatedLabel(DateLabel))
    ensures r.Ok? ==> WellFormed(r.value)
    ensures r.Ok? ==> TeamTagged(r.value.columns, team)
    ensures r.Ok? ==> LocationsBinary(r.value.columns)
    ensures r.Ok? ==> DatesPresent(r.value.columns)
    ensures r.Ok? ==> forall x :: x in Labels(r.value.columns) <==> SurvivesPrepare(RawLabels(raw), x)
    ensures r.Ok? ==> forall x :: multiset(Labels(r.value.columns))[x] == PreparedCount(RawLabels(raw), x)
  {
    var located :- Locate(raw, team);
    LocateCounts(raw, team);
    FixedLabelsPlain();
    LocateCount(raw, team, DateLabel);
    UniqueIffOnce(located.columns, DateLabel);
    var kept :- DropBlankRows(located);
    LocateKeeps(raw, team);
    DropBlankRowsKeeps(located, team);
    Ok(kept)
  }

  /**
    The projection onto `col_order` and the re-indexing. It
    fails exactly when a listed label is absent; otherwise the rows keep
    their count, the index becomes 0, 1, 2, ..., and the columns are those
    of `f` whose label is listed, so any property of every Team, Game
    Location or Date column carries over.
   */
  function Finish(f: Frame): (r: Result<Frame, Error>)
    requires WellFormed(f)
    ensures r.Ok? <==> forall l :: l in ColOrder ==> l in Labels(f.columns)
    ensures r.Err? ==> r.error.KeyNotFound? && r.error.key in ColOrder && r.error.key !in Labels(f.columns)
    ensures r.Ok? ==> WellFormed(r.value) && |r.value.index| == |f.index|
    ensures r.Ok? ==> forall i :: 0 <= i < |r.value.index| ==> r.value.index[i] == i
    ensures r.Ok? ==> forall c :: c in r.value.columns <==> c in f.columns && c.name in ColOrder
    ensures r.Ok? && AllUnique(f.columns, ColOrder) ==> Labels(r.value.columns) == ColOrder
    ensures r.Ok? ==> Project(f, ColOrder).Ok? && r.value.columns == Project(f, ColOrder).value.columns
  {
    var projected :- Project(f, ColOrder);
    Ok(ResetIndex(projected))
  }

  /** What the flattened, renamed labels must satisfy for `clean_data` to succeed. */
  ghost predicate Cleanable(ls: seq<Label>) {
    Preparable(ls) && forall l :: l in ColOrder ==> SurvivesPrepare(ls, l)
  }

  /**
    `clean_data(df, team)`: the preparatory steps, then the projection. The
    result is re-indexed 0, 1, 2, ..., carries only listed labels (exactly
    the 39 labels in order when each names one column), tags every row with
    `team`, classifies every location as Away or Home, and holds no blank
    or header rows.
   */
  function CleanData(raw: RawFrame, team: string): (r: Result<Frame, Error>)
    requires RawWellFormed(raw)
    ensures Prepare(raw, team).Err? ==> r == Prepare(raw, team)
    ensures r.Ok? ==> WellFormed(r.value)
    ensures r.Ok? ==> forall i :: 0 <= i < |r.value.index| ==> r.value.index[i] == i
    ensures r.Ok? ==> |r.value.index| == |Prepare(raw, team).value.index|
    ensures r.Ok? ==> forall c :: c in r.value.columns ==> c in Prepare(raw, team).value.columns && c.name in ColOrder
    ensures r.Ok? ==> forall c :: c in Prepare(raw, team).value.columns && c.name in ColOrder ==> c in r.value.columns
    ensures r.Ok? && AllUnique(Prepare(raw, team).value.columns, ColOrder) ==> Labels(r.value.columns) == ColOrder
    ensures r.Ok? ==> TeamTagged(r.value.columns, team)
    ensures r.Ok? ==> LocationsBinary(r.value.columns)
    ensures r.Ok? ==> DatesPresent(r.value.columns)
  {
    var prepared :- Prepare(raw, team);
    Finish(prepared)
  }

  /**
    `clean_data` succeeds exactly when the preparatory steps do and every
    listed label survives them; otherwise it fails with the first
    preparatory step's exception, or with a KeyError on a listed label
    that did not survive.
   */
  lemma CleanDataOutcome(raw: RawFrame, team: string)
    requires RawWellFormed(raw)
    ensures CleanData(raw, team).Ok? <==> Cleanable(RawLabels(raw))
    ensures !Preparable(RawLabels(raw)) ==> CleanData(raw, team) == Prepare(raw, team)
    ensures var r := CleanData(raw, team);
      Preparable(RawLabels(raw)) && r.Err? ==>
        r.error.KeyNotFound? && r.error.key in ColOrder && !SurvivesPrepare(RawLabels(raw), r.error.key)
  {
  }

  /**
    When the raw table has at most one "Team" column and every other
    listed label ends up on exactly one column, `clean_data` succeeds and
    its labels are `col_order` itself, in order.
   */
  lemma CleanDataLabels(raw: RawFrame, team: string)
    requires RawWellFormed(raw) && Cleanable(RawLabels(raw))
    requires multiset(RawLabels(raw))[TeamLabel] <= 1
    requires forall l :: l in ColOrder && l != TeamLabel ==> RepairedCount(RawLabels(raw), l) == 1
    ensures CleanData(raw, team).Ok? && Labels(CleanData(raw, team).value.columns) == ColOrder
  {
    CleanDataOutcome(raw, team);
    var prepared := Prepare(raw, team).value;
    forall l | l in ColOrder
      ensures Unique(prepared.columns, l)
    {
      PreparedUnique(raw, team, l);
    }
  }

  /** A label that survives preparation and is counted once is carried by exactly one prepared column. */
  lemma PreparedUnique(raw: RawFrame, team: string, l: Label)
    requires RawWellFormed(raw) && Prepare(raw, team).Ok? && SurvivesPrepare(RawLabels(raw), l)
    requires l == TeamLabel ==> multiset(RawLabels(raw))[TeamLabel] <= 1
    requires l != TeamLabel ==> RepairedCount(RawLabels(raw), l) == 1
    ensures Unique(Prepare(raw, team).value.columns, l)
  {
    UniqueIffOnce(Prepare(raw, team).value.columns, l);
  }

  /** The raw "Date" column is kept, and no step before the row filter changes it. */
  lemma DateColumnPlain(raw: RawFrame, dt: nat)
    requires dt < |raw.columns| && RawLabels(raw)[dt] == DateLabel
    ensures Kept(DateLabel)
    ensures LocatedColumn(raw, dt) == Column(DateLabel, raw.columns[dt].cells)
  {
    FixedLabelsPlain();
    NotPlaceholder(DateLabel);
    FixedLabelsDistinct();
  }

  /** A kept raw column sits, as the classification left it, at some position of the located frame. */
  lemma LocateHolds(raw: RawFrame, team: string, d: nat) returns (j: nat)
    requires RawWellFormed(raw) && Locatable(RawLabels(raw))
    requires d < |raw.columns| && Kept(RawLabels(raw)[d])
    ensures j < |Locate(raw, team).value.columns|
    ensures Locate(raw, team).value.columns[j] == LocatedColumn(raw, d)
  {
    LocateKeeps(raw, team);
    var cs := Locate(raw, team).value.columns;
    j :| 0 <= j < |cs| && cs[j] == LocatedColumn(raw, d);
  }

  /**
    The row filter of a successful preparation runs on the raw column
    labelled "Date", unchanged, at position `k` of the located frame.
   */
  lemma PrepareFilter(raw: RawFrame, team: string, dt: nat) returns (k: nat)
    requires RawWellFormed(raw) && Prepare(raw, team).Ok?
    requires dt < |raw.columns| && RawLabels(raw)[dt] == DateLabel
    ensures Locate(raw, team).Ok? && k < |Locate(raw, team).value.columns|
    ensures Locate(raw, team).value.columns[k] == Column(DateLabel, raw.columns[dt].cells)
    ensures Prepare(raw, team).value == KeepRowsAt(Locate(raw, team).value, k)
  {
    assert Locate(raw, team).Ok?;
    var located := Locate(raw, team).value;
    DateColumnPlain(raw, dt);
    var j := LocateHolds(raw, team, dt);
    k :| OnlyAt(located.columns, DateLabel, k) && DropBlankRows(located).value == KeepRowsAt(located, k);
    assert j == k;
  }

  /** A column of a row-filtered frame is the matching column's cells picked at the kept positions. */
  lemma RowsAtColumn(f: Frame, g: Frame, ps: seq<nat>, j: nat)
    requires RowsAt(f, g, ps) && j < |f.columns|
    ensures forall i :: 0 <= i < |ps| ==> ps[i] < |f.columns[j].cells|
    ensures g.columns[j] == Column(f.columns[j].name, Pick(f.columns[j].cells, ps))
  {
    assert g.columns[j].cells == Pick(f.columns[j].cells, ps);
  }

  /** `cells`, a column of `raw`, cut down to the rows whose Date cell, in raw column `dt`, is present and not "Date". */
  function SurvivingCells(raw: RawFrame, dt: nat, cells: seq<Cell>): seq<Cell>
    requires RawWellFormed(raw) && dt < |raw.columns| && |cells| == raw.height
  {
    Pick(cells, Survivors(raw.columns[dt].cells))
  }

  /** Column `c` cut down to the rows at positions `ps`, in that order. */
  function PickRows(c: Column, ps: seq<nat>): Column
    requires forall i :: 0 <= i < |ps| ==> ps[i] < |c.cells|
  {
    Column(c.name, Pick(c.cells, ps))
  }

  /**
    Every kept raw column reaches the cleaned-up frame as the location
    classification left it, keeping exactly the rows whose raw Date cell
    is present and not the text "Date", in their original order. So the
    first raw "Opponent Score" column arrives as "Opponent", a later one
    arrives unchanged, and the "Game Location" column arrives with each
    surviving cell classified Away or Home.
   */
  lemma PrepareKeepsColumn(raw: RawFrame, team: string, d: nat, dt: nat)
    requires RawWellFormed(raw) && Preparable(RawLabels(raw))
    requires dt < |raw.columns| && RawLabels(raw)[dt] == DateLabel
    requires d < |raw.columns| && Kept(RawLabels(raw)[d])
    ensures PickRows(LocatedColumn(raw, d), Survivors(raw.columns[dt].cells)) in Prepare(raw, team).value.columns
  {
    assert Prepare(raw, team).Ok?;
    var k := PrepareFilter(raw, team, dt);
    var located := Locate(raw, team).value;
    var kept := Prepare(raw, team).value;
    var j := LocateHolds(raw, team, d);
    RowsAtColumn(located, kept, Survivors(raw.columns[dt].cells), j);
    assert kept.columns[j] in kept.columns;
  }

  /** A successful preparation keeps one row per raw row whose Date cell is present and not the text "Date". */
  lemma PrepareRowCount(raw: RawFrame, team: string, dt: nat)
    requires RawWellFormed(raw) && Preparable(RawLabels(raw))
    requires dt < |raw.columns| && RawLabels(raw)[dt] == DateLabel
    ensures |Prepare(raw, team).value.index| == |Survivors(raw.columns[dt].cells)|
  {
    assert Prepare(raw, team).Ok?;
    var k := PrepareFilter(raw, team, dt);
  }

  /**
    Every kept raw column whose label after the repair is listed reaches
    the cleaned frame as the location classification left it, keeping
    exactly the rows whose raw Date cell is present and not the text "Date".
   */
  lemma CleanDataKeepsColumn(raw: RawFrame, team: string, d: nat, dt: nat)
    requires RawWellFormed(raw) && Cleanable(RawLabels(raw))
    requires dt < |raw.columns| && RawLabels(raw)[dt] == DateLabel
    requires d < |raw.columns| && Kept(RawLabels(raw)[d]) && LocatedColumn(raw, d).name in ColOrder
    ensures PickRows(LocatedColumn(raw, d), Survivors(raw.columns[dt].cells)) in CleanData(raw, team).value.columns
  {
    PrepareKeepsColumn(raw, team, d, dt);
  }

  /** The labels the cleaning rewrites are all listed in `col_order`. */
  lemma RewrittenLabelsListed()
    ensures Opponent in ColOrder && OpponentScore in ColOrder && GameLocation in ColOrder
  {
    assert ColOrder[5] == Opponent && ColOrder[6] == OpponentScore && ColOrder[2] == GameLocation;
  }

  /** "Opponent", "Opponent Score" and "Game Location" columns are kept. */
  lemma RewrittenLabelsKept()
    ensures Kept(Opponent) && Kept(OpponentScore) && Kept(GameLocation)
  {
    FixedLabelsPlain();
    FixedLabelsDistinct();
    NotPlaceholder(Opponent);
    NotPlaceholder(OpponentScore);
    NotPlaceholder(GameLocation);
  }

  /**
    The columns `clean_data` rewrites, traced from the raw table to the
    output over the rows whose raw Date cell is present and not "Date": the
    first raw "Opponent Score" column arrives relabelled "Opponent", every
    later one arrives as "Opponent Score" with its own cells, and the "Game
    Location" column arrives with each cell classified Away or Home.
   */
  lemma CleanDataRewrites(raw: RawFrame, team: string, d: nat, dt: nat)
    requires RawWellFormed(raw) && CleanData(raw, team).Ok?
    requires dt < |raw.columns| && RawLabels(raw)[dt] == DateLabel && d < |raw.columns|
    ensures FirstIndex(RawLabels(raw), OpponentScore) == Some(d) ==>
      Column(Opponent, SurvivingCells(raw, dt, raw.columns[d].cells)) in CleanData(raw, team).value.columns
    ensures RawLabels(raw)[d] == OpponentScore && FirstIndex(RawLabels(raw), OpponentScore) != Some(d) ==>
      Column(OpponentScore, SurvivingCells(raw, dt, raw.columns[d].cells)) in CleanData(raw, team).value.columns
    ensures RawLabels(raw)[d] == GameLocation ==>
      Column(GameLocation, SurvivingCells(raw, dt, Locations(raw.columns[d].cells))) in CleanData(raw, team).value.columns
  {
    CleanDataOutcome(raw, team);
    RewrittenLabelsListed();
    RewrittenLabelsKept();
    FixedLabelsDistinct();
    if FirstIndex(RawLabels(raw), OpponentScore) == Some(d) || RawLabels(raw)[d] == OpponentScore || RawLabels(raw)[d] == GameLocation {
      CleanDataKeepsColumn(raw, team, d, dt);
    }
  }
}
