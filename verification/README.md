# Game-log cleaning, modelled in Dafny

This project models the cleaning stage of a basketball game-log scraper.
`clean_data` (Data_Cleaning.py) takes the table parsed from one team's saved
page and turns it into a fixed 39-column schema. `main` in the same file
then takes the team from each file name, cleans each table, and
concatenates the results. The collector (Data_Collection.py) names each saved
page `TS_<team>_<year>.html`. That name is modelled because the cleaner
splits it to recover the team.

The model is pure and functional:

- `Frames.Frame` is a DataFrame. It has a row index and an ordered
  sequence of `Column(name, cells)`.
- Labels may repeat, and the cleaner's input really has a repeated label
  ("Opp"). So every operation is positional.
- A label-based pandas operation (rename, drop, `df[label]`,
  `df[list]`) acts on every column that carries the label.
- A cell is `Option<string>`, where `None` is NaN. Statistic values stay
  opaque strings.
- Each Python exception is a `Frames.Error` value inside a
  `Result`. This covers `list.index` failing, a missing label, a label that
  selects several columns where one is needed, and a file name with no
  underscore.
- The cleaning steps only relabel, overwrite, rewrite or drop columns
  and filter rows. So the key facts are these: which raw table labels let
  each stage succeed, and which raw column reaches the output with which
  of its cells.

Modules, following the source:

- `Wrappers`: `Option` and `Result`.
- `Text`: the substring test `in`, `str.split`/`join` with `"_"`, and the
  f-string rendering of an integer.
- `Seqs`: `list.index` and boolean-mask selection.
- `Frames`: the table model, label lookup, and label-based
  selection and drop.
- `Cleaning`: `clean_data`, one function per step, and their composition
  in stages (`Relabel`, `Named`, `Locate`, `Prepare`) and `CleanData`.
- `Collection`: the saved-page file name.
- `Consolidation`: `main` without its I/O. This is the team-from-file-name
  rule, per-file cleaning, and concatenation.

Columns are stored column-major, with each column holding its own cells.
Rows stay positional: `Frames.RowAt` reads row `i` across all columns. A
column-major layout makes "drop these columns and keep the rows aligned"
hold by construction.

## Model

| member | source | states |
|---|---|---|
| `Cleaning.FlattenHeaders` | Data_Cleaning.py:25-32 | Column count, order and cells are kept. A column whose top header does not contain "Unnamed" is named "top bottom". Any other column is named by its bottom header alone. The index is 0..n-1. |
| `Cleaning.FlattenPlaceholders` | Data_Cleaning.py:25-32 | A flattened label contains "Unnamed" exactly when the column's lower header does, whichever of the two naming branches applied. |
| `Text.Contains` | Data_Cleaning.py:27 | Python's `pat in s` on strings: the pattern occurs at some offset of the string. |
| `Text.ContainsChar` | Data_Cleaning.py:27 | A one-character pattern is found exactly when that character occurs in the string. |
| `Text.MissingLeadCharNotContained` | Data_Cleaning.py:51 | A string that lacks the pattern's first character does not contain the pattern. |
| `Text.ContainsJoined` | Data_Cleaning.py:28 | A pattern without the separator occurs in two strings joined by it exactly when it occurs in one of them. |
| `Cleaning.RenameColumns` | Data_Cleaning.py:35-41 | Every column labelled exactly "Unnamed: 3_level_1", "Tm" or "Opp" is relabelled, duplicates included. No key label survives. Every other label, every position and every cell is unchanged. |
| `Cleaning.RenameIdempotent` | Data_Cleaning.py:35-41 | Renaming a second time changes nothing. |
| `Seqs.FirstIndex` | Data_Cleaning.py:45 | `list.index`: none exactly when the value is absent. Otherwise it gives a position that holds the value, with no earlier occurrence. |
| `Cleaning.RepairOpponent` | Data_Cleaning.py:44-47 | Fails with the `list.index` error exactly when no "Opponent Score" label exists. Otherwise only the first "Opponent Score" column becomes "Opponent", and all other columns are unchanged. |
| `Cleaning.RepairCounts` | Data_Cleaning.py:44-47 | The repair removes exactly one "Opponent Score" label and adds exactly one "Opponent" label. Later duplicates keep their label. |
| `Cleaning.RepairKeepsOthers` | Data_Cleaning.py:44-47 | The repair keeps every column not labelled "Opponent Score" and the count of every label other than the two it trades. Placeholder labels are exactly as distinct afterwards as before. |
| `Frames.RemoveLabel` | Data_Cleaning.py:52 | `drop(columns=l)` removes every column labelled `l` and keeps all others. The remaining labels are the old ones minus `l`, and no more columns remain than before. |
| `Frames.RemoveLabelAppend` | Data_Cleaning.py:52 | Dropping a label distributes over concatenation, so the surviving columns keep their relative order. |
| `Cleaning.KeepNamed` | Data_Cleaning.py:50-52 | The kept columns are exactly the input columns whose label does not contain "Unnamed". |
| `Cleaning.KeepNamedAppend` | Data_Cleaning.py:50-52 | Keeping named columns distributes over concatenation, so relative order is preserved. |
| `Cleaning.KeepNamedCount` | Data_Cleaning.py:50-52 | Dropping the placeholder columns keeps the number of columns carrying any other label. |
| `Cleaning.DropLoop` | Data_Cleaning.py:50-52 | A failing loop fails with a KeyError on a placeholder label it was asked to drop. |
| `Cleaning.DropLoopSucceeds` | Data_Cleaning.py:50-52 | The loop over the captured labels finishes exactly when the placeholder labels still to be dropped are pairwise distinct and present. |
| `Cleaning.DropLoopResult` | Data_Cleaning.py:50-52 | A finished loop leaves exactly the columns without "Unnamed", in their original order. |
| `Cleaning.DropPlaceholders` | Data_Cleaning.py:50-52 | Succeeds exactly when no placeholder label repeats. It then leaves no label containing "Unnamed", and the survivors are exactly the named columns with their cells, in order. |
| `Cleaning.TagTeam` | Data_Cleaning.py:55 | Every cell of every "Team" column equals `team`. The column is appended when absent and overwritten when present. Every other column is unchanged. |
| `Cleaning.TagTeamTeamCount` | Data_Cleaning.py:55 | Tagging keeps the number of "Team" columns, or makes it one when there was none. |
| `Cleaning.Location` | Data_Cleaning.py:58-59 | The result is always "Away" or "Home". It is "Away" exactly when the cell was "@" or "Away", so NaN and anything else give "Home". Applying lines 58-59 again changes nothing. |
| `Frames.Lookup` | Data_Cleaning.py:58-62 | `df[label]` where one column is needed succeeds exactly when one column carries the label. A missing label is a KeyError. A repeated label is reported as `RepeatedLabel`; which exception pandas raises from the masked assignment or row selection built on that frame, if any, is not modelled. |
| `Frames.UniqueIffOnce` | Data_Cleaning.py:58-62 | A label names exactly one column exactly when it occurs once among the labels. |
| `Cleaning.ClassifyLocations` | Data_Cleaning.py:58-59 | Needs exactly one "Game Location" column. Column by column, the result is the input with the "Game Location" column's cells classified and every other column untouched, and afterwards every location is "Away" or "Home". |
| `Cleaning.ClassifyIdempotent` | Data_Cleaning.py:58-59 | Classifying an already classified frame returns it unchanged. |
| `Cleaning.KeepRow` | Data_Cleaning.py:62 | A row is kept exactly when its Date cell is present and differs from "Date". |
| `Seqs.KeptPositions` | Data_Cleaning.py:62 | The positions a boolean mask keeps are strictly ascending, all selected, and include every selected position. |
| `Seqs.FilterByMask` | Data_Cleaning.py:62 | Boolean-mask selection yields exactly the elements at the kept positions, in order. |
| `Cleaning.Survivors` | Data_Cleaning.py:62 | The surviving rows are exactly the rows whose Date cell passes the test, in ascending order. |
| `Cleaning.KeepRowsAt` | Data_Cleaning.py:62 | Every column, and the index, is cut to the surviving rows in the same order. Rows stay aligned and labels are unchanged. |
| `Cleaning.DropBlankRows` | Data_Cleaning.py:62 | Needs exactly one "Date" column. The result holds the surviving rows, and every remaining Date is present and is not "Date". |
| `Cleaning.RowsAtKeepsTeam` | Data_Cleaning.py:55-62 | Dropping rows keeps every Team cell equal to the team. |
| `Cleaning.RowsAtKeepsLocations` | Data_Cleaning.py:58-62 | Dropping rows keeps every location "Away" or "Home". |
| `Frames.Matching` | Data_Cleaning.py:106 | `df[label]` selects exactly the columns carrying the label, and none when the label is absent. It never selects more columns than there are. |
| `Frames.MatchingAppend` | Data_Cleaning.py:106 | Selection by label distributes over concatenation, so the selected columns keep their relative order. |
| `Frames.MatchingUnique` | Data_Cleaning.py:106 | A label held by exactly one column selects exactly that column. |
| `Cleaning.FirstMissing` | Data_Cleaning.py:106 | It finds a listed label that is absent exactly when one exists. |
| `Cleaning.SelectAll` | Data_Cleaning.py:106 | `df[col_order]` selects exactly the columns whose label is listed. |
| `Cleaning.SelectAllOne` | Data_Cleaning.py:106 | Listing one label selects every column carrying it, in frame order. |
| `Cleaning.SelectAllAppend` | Data_Cleaning.py:106 | Selection follows the list: the columns for the first part of the list come before those for the second part, and a label listed twice is selected twice. |
| `Cleaning.SelectAllUnique` | Data_Cleaning.py:65-106 | When each listed label names exactly one column, the output labels are the list itself, in order. |
| `Cleaning.Project` | Data_Cleaning.py:65-106 | Fails with a KeyError naming an absent listed label exactly when some listed label is missing. Otherwise it keeps the index and exactly the listed columns, which are `col_order` in order when each label is unique. |
| `Cleaning.ProjectOne` | Data_Cleaning.py:106 | Projecting onto one present label gives exactly the columns carrying it, in frame order, with the index kept. |
| `Cleaning.ProjectAppend` | Data_Cleaning.py:65-106 | Projecting onto a concatenated list succeeds exactly when projecting onto each part does. The result is then the first part's columns followed by the second part's. |
| `Frames.ResetIndex` | Data_Cleaning.py:109 | The index becomes 0, 1, 2, ... and the columns are unchanged. |
| `Cleaning.Relabel` | Data_Cleaning.py:25-47 | The header steps fail with the `list.index` error exactly when no raw column's flattened, renamed label is "Opponent Score". Otherwise the frame is rectangular with one row per raw row. |
| `Cleaning.RelabelKeeps` | Data_Cleaning.py:25-47 | After the header steps every label has its raw count, except that one "Opponent Score" became "Opponent". Placeholder labels are as distinct as in the raw labels. Position by position, each column holds its raw column's cells under the flattened, renamed label, except that the first "Opponent Score" column is now "Opponent" and later ones keep "Opponent Score". |
| `Cleaning.Named` | Data_Cleaning.py:25-52 | Adding the spacer-column loop, the run succeeds exactly when "Opponent Score" is present and no placeholder label repeats. A missing "Opponent Score" is the `list.index` error, and a repeated placeholder is a KeyError on a placeholder label. |
| `Cleaning.NamedKeeps` | Data_Cleaning.py:25-52 | After the spacer columns are dropped no label contains "Unnamed". Every other label has its count after the repair, and every raw column whose label has no "Unnamed" is kept with its cells under its repaired label ("Opponent" for the first "Opponent Score"). |
| `Cleaning.Locate` | Data_Cleaning.py:25-59 | Adding the team tag and the location classification, the run succeeds exactly when, in addition, one raw label is "Game Location". None is a KeyError and several is `RepeatedLabel`, and an earlier failure is reported unchanged. |
| `Cleaning.LocateKeeps` | Data_Cleaning.py:25-59 | After the classification every Team cell is the team and every location is Away or Home. A label is present exactly when it is "Team", or it has no "Unnamed" and survives the repair. Every raw column other than a placeholder or "Team" is kept under its repaired label, and a "Game Location" column holds the `Location` of each raw cell. |
| `Cleaning.LocateCounts` | Data_Cleaning.py:25-59 | After the classification "Team" is carried by as many columns as in the raw labels, or by one when it was absent. No column carries a placeholder label, and every other label has its count after the repair. |
| `Cleaning.Prepare` | Data_Cleaning.py:25-62 | Every step before the projection succeeds exactly when the raw labels hold "Opponent Score", no repeated placeholder, one "Game Location" and one "Date". Each failure is the first failing step's exception. On success every Team cell is the team, every location is Away or Home, and every Date is present and not "Date". Each label is carried by exactly as many columns as the raw labels give it: "Team" as often as it occurred, or once; a placeholder never; any other label its count after the repair. |
| `Cleaning.PrepareKeepsColumn` | Data_Cleaning.py:25-62 | Every raw column other than a placeholder or "Team" reaches the prepared frame under its repaired label, with its cells classified when it is "Game Location". It keeps exactly those cells at the rows whose raw Date cell is present and not "Date", in order. |
| `Cleaning.PrepareRowCount` | Data_Cleaning.py:25-62 | The prepared frame has exactly one row per raw row whose Date cell is present and not "Date". Here the Date column is the raw column labelled "Date" after flattening and renaming. |
| `Cleaning.Finish` | Data_Cleaning.py:65-109 | Fails with a KeyError naming an absent `col_order` label exactly when one is missing. Otherwise the row count is kept, the index becomes 0..n-1, the columns are exactly the input columns whose label is listed, and the labels are `col_order` in order when each is unique. |
| `Cleaning.CleanData` | Data_Cleaning.py:23-111 | When the preparatory steps fail, `clean_data` fails the same way. The output has the prepared frame's row count and an index of 0..n-1. Its columns are exactly the prepared columns whose label is listed, which gives the 39 labels in order when each is unique. Every row is tagged with the team, every location is Away or Home, and there are no blank or header rows. |
| `Cleaning.CleanDataOutcome` | Data_Cleaning.py:23-111 | `clean_data` succeeds exactly when the preparatory steps do and every `col_order` label survives them. Otherwise it fails with the first preparatory step's exception, or with a KeyError on a listed label that did not survive. |
| `Cleaning.CleanDataLabels` | Data_Cleaning.py:23-111 | For a raw table that can be cleaned, has at most one "Team" column, and leaves every other `col_order` label on exactly one column after the repair, `clean_data` succeeds and its labels are the 39 labels of `col_order`, in order. |
| `Cleaning.PreparedUnique` | Data_Cleaning.py:25-62 | A label that survives preparation and is counted once is carried by exactly one prepared column. |
| `Cleaning.CleanDataKeepsColumn` | Data_Cleaning.py:23-111 | The same for the cleaned frame when the repaired label is listed in `col_order`: the column keeps exactly its (classified) cells at the rows whose raw Date cell is present and not "Date". |
| `Cleaning.CleanDataRewrites` | Data_Cleaning.py:44-62 | In a successful clean, the first raw "Opponent Score" column appears as "Opponent", every later raw "Opponent Score" column appears unchanged under its own label, and a raw "Game Location" column appears as the `Location` of its cells, each cut to the surviving rows. |
| `Text.Split` | Data_Cleaning.py:122 | `split("_")` returns at least one piece. No piece contains "_", and joining the pieces with "_" gives the input back. |
| `Text.SplitPieces` | Data_Cleaning.py:122 | A string splits into two or more pieces exactly when it contains the separator. |
| `Text.SplitJoin` | Data_Cleaning.py:122 | Splitting inverts joining when no piece holds the separator. |
| `Consolidation.TeamFromFileName` | Data_Cleaning.py:122 | Raises IndexError exactly when the name has no "_". Otherwise it returns the second segment of `split("_")`, which contains no "_". |
| `Consolidation.TeamFromFileNameShape` | Data_Cleaning.py:122 | The team is the text right after the first "_" of the name, ending at the next "_" or at the end of the name. |
| `Text.IntToString` | Data_Collection.py:54 | The f-string rendering of the year is digits with an optional leading "-". The "-" is present exactly for negative years, and no digit string starts with a redundant zero. |
| `Text.NatToStringValue` | Data_Collection.py:54 | The digits written for a natural number denote that number. |
| `Text.IntToStringValue` | Data_Collection.py:54 | Reading the rendered year back as a signed decimal gives the year. |
| `Collection.PageFileName` | Data_Collection.py:54 | The saved name starts with "TS_" followed by the team and "_", and ends with ".html". |
| `Collection.PageFileNamePieces` | Data_Collection.py:54 | The saved file name is "TS", the team and "<year>.html" joined by "_". |
| `Consolidation.TeamFromPageFileName` | Data_Cleaning.py:122 | For every year, the team is recovered from the collector's file name exactly when the team contains no "_". |
| `Consolidation.Append` | Data_Cleaning.py:132 | Concatenating two frames under the same labels gives the rows of the first, then those of the second, and concatenates the indexes. |
| `Consolidation.ConcatAligned` | Data_Cleaning.py:132 | Concatenating aligned frames gives all their rows frame after frame. The row count is the sum of the frames' row counts. |
| `Consolidation.Concat` | Data_Cleaning.py:132 | Concatenating no frames raises ValueError. Frames under one label list succeed, with every row in order and the summed row count. |
| `Consolidation.CleanFile` | Data_Cleaning.py:122-128 | One file succeeds exactly when its name has a "_" and `clean_data` succeeds on its table with the team from the name. A name without "_" fails with IndexError before the table is cleaned. Otherwise the outcome is `clean_data`'s. |
| `Consolidation.CollectAll` | Data_Cleaning.py:117-129 | The per-file loop gives all frames in listing order when every file succeeds. Otherwise it gives the first failure. |
| `Consolidation.CollectAllFailure` | Data_Cleaning.py:117-129 | A failed loop fails with the first failing file's exception, whichever file that is. |
| `Consolidation.CollectedFrames` | Data_Cleaning.py:117-132 | The collected frames are the per-file cleaned frames, and their concatenation holds exactly their rows. |
| `Consolidation.Gather` | Data_Cleaning.py:117-132 | The loop and the concatenation succeed exactly when every file's outcome is a frame and all share the first frame's labels. Otherwise the failure is the first failing file's exception. When every file succeeded, the failure is the ValueError for no files or the misalignment. On success the rows are the collected frames' rows, frame after frame, under the first frame's labels. |
| `Consolidation.Consolidate` | Data_Cleaning.py:114-132 | `main` without its I/O succeeds exactly when every file cleans and the cleaned frames share one label list. Otherwise it fails with the first failing file's exception, or with the ValueError for no files. A name without "_" aborts the run. On success the result carries the first cleaned frame's labels and holds every cleaned row of every file, file after file. Its row count is the sum of the per-file counts. |
| `Consolidation.AllRowsAt` | Data_Cleaning.py:132 | Row `p` of frame `i` sits in the concatenation at the total row count of the frames before it, plus `p`. |
| `Consolidation.ConcatenatedCell` | Data_Cleaning.py:132 | Each cell of a concatenated frame is the cell of the same column, at the matching row, in the frame it came from. |
| `Consolidation.ConsolidatedTeams` | Data_Cleaning.py:114-132 | In the consolidated frame, every "Team" cell of a row from file `i` is the team taken from file `i`'s name. |

## Left out

- Reading the HTML file and parsing it with BeautifulSoup and `pd.read_html` (Data_Cleaning.py:8-20) are foreign library code. Their output enters the model as a `Cleaning.RawFrame`: two-level headers, cells and a row count, with the index 0..n-1.
- In `main`, `os.listdir` ordering, the `tqdm` progress bar and `to_excel` (Data_Cleaning.py:117, 135) are I/O. The directory listing arrives as a sequence of `Consolidation.PageFile` values in listing order.
- The collector's HTTP GET, status check, file write and two-second sleep (Data_Collection.py:47-61) are network, file and clock I/O. Its hard-coded roster is constant data. Only the file-name format of line 54 is modelled. The URL format of line 48 is not.
- There is no retry or exponential backoff in the collector. Line 49 is a single request, so none is modelled.
- `main` has no exception handler. A failing file therefore ends the whole run, and the model follows the code here. It does not skip the file and continue.
- EDA.py is out of scope: a spreadsheet read, floating-point means, a t-test and a plot.
- Statistic cells are never interpreted as numbers. They stay opaque strings.
- Consolidation.Concat, Consolidation.Gather and Consolidation.Consolidate: pandas aligns frames whose label lists differ by an outer join with NaN fill. The model does not follow this and reports `ColumnsNotAligned` instead. Cleaned frames share one label list whenever each `col_order` label names one column.
- Cleaning.ClassifyLocations and Cleaning.DropBlankRows: a label carried by several columns makes `df[label]` a frame, not a column. The model reports `RepeatedLabel` for that case. It does not model which exception pandas raises from the `.loc` assignment or row selection built on that frame, or whether pandas raises one at all.
- Cleaning.Project, Cleaning.Finish and Cleaning.CleanDataOutcome: the KeyError's payload is reduced to the first listed label that is missing. pandas names every missing label, or reports "None of ..." when none is present. The model keeps only that first label.
- `create_dataframe_from_html` failing (Data_Cleaning.py:15-18) is not modelled. A page without a `<table>` makes `read_html` raise and aborts `main`, but every `Consolidation.PageFile` carries an already parsed table, so the model cannot express that failure.
