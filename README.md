# actiPy preprocessing, modelled in Dafny

This project models the sequence logic of the actiPy preprocessing module
(`actigraphy_analysis/preprocessing.py`). That module prepares actigraphy recordings for analysis:

- drop non-numeric columns;
- split a recording by experimental condition;
- cut each animal's channel into days (periods) re-indexed by circadian time;
- remap the light sensor (LDR) column;
- cut out a window around a labelled section;
- keep the list bookkeeping of the batch pipeline that applies one of these to every file of a
  directory.

A pandas data frame becomes a `Frame.Table`, which holds:

- an index of strictly increasing integer timestamps, in milliseconds;
- a sequence of named columns, each numeric or object-typed;
- an optional name tag.

A cell is an integer (`Num`), a text label (`Text`) or the missing marker (`Missing`, for NaN/None).
Row selection is written as `Frame.Positions`: the ascending list of positions a first-order
filter keeps. A filter is a closed `.loc` window, a `.loc[lo:]` tail, a `== v` mask or a `> bound` mask.

Modules:

- `Frame`: the table, and row selection.
- `Columns`: `remove_object_col`.
- `Conditions`: `separate_by_condition`.
- `Periods`: `create_period_index`, `slice_dataframe_by_index`, `create_ct_based_index`,
  `split_dataframe_by_period` and `split_entire_dataframe`.
- `Light`: `remap_LDR`.
- `LabelWindow`: `slice_by_label_col`.
- `Paths`: `pathlib` names, `create_file_name_path`, `create_subdir` and the suffix check of
  `read_file_to_df`.
- `Pipeline`: the `SaveObjectPipeline` class, with its list fields.
- `Arith`: helper lemmas on multiplication and division.

Tables are values, so no operation can change its input. That is how the model states that
`remap_LDR` and `slice_by_label_col` work on copies. The one place where the source does write
to its input, the name tag in `remove_object_col`, is listed under "Left out".

An equality mask `column == v` keeps no row at all when `v` is null, as `== None` and `== NaN`
are false on every row in pandas; so `slice_by_label_col` fails for a null section label.

The slicer's windows are easily read as half-open, but the model follows the code, where they are
closed: `.loc[b_i:b_(i+1)]` on a sorted index includes both boundaries. Read as half-open, slicing
4320 ten-second samples (12 hours) every 6 hours gives two columns of 2160 rows. The code gives
2161 rows: the sample at exactly 6 hours is in both columns, and the second column ends in NaN
(`Periods.SixHourSlicesOfTwelveHours`).

## Model

| member | source | states |
|---|---|---|
| Columns.RemoveObjectColumns | actigraphy_analysis/preprocessing.py:21-37 | the result keeps the input's index and exactly its non-object columns in order, tagged with the input's name or "NaN"; with `return_cols` the dropped list is exactly the object columns in order, otherwise nothing |
| Columns.FilterSplitsColumns | actigraphy_analysis/preprocessing.py:26-31 | kept and dropped columns partition the input: their counts add up, their multisets add up to the input's, and a column is kept iff it is non-object, dropped iff object |
| Columns.FilterIdempotent | actigraphy_analysis/preprocessing.py:26-31 | filtering an already filtered column list changes nothing and drops nothing |
| Columns.DropUnique | actigraphy_analysis/preprocessing.py:31 | with distinct column names, dropping by the current column's name removes that column and no other |
| Columns.Drop | actigraphy_analysis/preprocessing.py:31 | `drop(name, axis=1)` keeps exactly the columns not carrying that name, and never adds any |
| Columns.DropOnly | actigraphy_analysis/preprocessing.py:31 | dropping a name that only x carries from a + [x] + b leaves exactly a + b |
| Conditions.Conditions | actigraphy_analysis/preprocessing.py:56-58 | the conditions hold every non-null label and nothing else, each once |
| Conditions.ConditionPart | actigraphy_analysis/preprocessing.py:61-62 | a part is a well-formed table of the same columns, tagged with its label, with one row per row carrying it |
| Conditions.SeparateByCondition | actigraphy_analysis/preprocessing.py:56-65 | one part per distinct non-null label, part j being the rows whose label is condition j, named by it |
| Conditions.FirstIndex | actigraphy_analysis/preprocessing.py:56 | the position returned holds the value and no earlier position does |
| Conditions.ConditionsExact | actigraphy_analysis/preprocessing.py:56-58 | the conditions are exactly the non-null labels, without repeats, ordered by first appearance |
| Conditions.RowLandsInItsPart | actigraphy_analysis/preprocessing.py:60-61 | row k is in the part of condition j iff its label is that condition |
| Conditions.LabelledRowLandsInAPart | actigraphy_analysis/preprocessing.py:58-61 | a row lands in some part iff its label is not null |
| Conditions.PartShape | actigraphy_analysis/preprocessing.py:61-62 | each part is well formed, keeps all columns, is named by its label, holds only rows with that label and, for a non-null label, every row with it; a null label gets no row |
| Frame.PositionsSpec | actigraphy_analysis/preprocessing.py:61 | a mask turned into positions lists, ascending, exactly the positions the filter keeps |
| Frame.NothingKept | actigraphy_analysis/preprocessing.py:61 | a filter that keeps no row gives no position |
| Frame.WindowPositionsSpec | actigraphy_analysis/preprocessing.py:339 | `.loc[lo:hi]` keeps, in order, exactly the rows with lo <= timestamp <= hi (closed at both ends) |
| Frame.TailPositionsSpec | actigraphy_analysis/preprocessing.py:344 | `.loc[lo:]` keeps, in order, exactly the rows with timestamp >= lo |
| Frame.MatchPositionsSpec | actigraphy_analysis/preprocessing.py:494 | the mask `== v` keeps, in order, exactly the rows holding v, and no row at all when v is null (NaN/None compare unequal) |
| Frame.MatchPositionsEmpty | actigraphy_analysis/preprocessing.py:494-495 | the mask `== v` is empty exactly when v is null or absent from the column, which is when `[0]` raises |
| Frame.AbovePositionsSpec | actigraphy_analysis/preprocessing.py:462 | the mask `> 150` keeps, in order, exactly the rows holding a number above the bound |
| Frame.SelectRowsWellFormed | actigraphy_analysis/preprocessing.py:61 | selecting ascending rows keeps the table well formed, one row per position, same columns, names, kinds and name tag |
| Frame.SliceWindowExact | actigraphy_analysis/preprocessing.py:497 | `.loc[lo:hi]` on a table is well formed, keeps columns and name tag, and holds exactly the rows with lo <= t <= hi |
| Frame.ResolveColumn | actigraphy_analysis/preprocessing.py:56 | a Python column position (negative counts from the end) resolves to a column that exists |
| Periods.DateRangeLast | actigraphy_analysis/preprocessing.py:315-317 | the last boundary is within one period of the end and not past it |
| Periods.DateRangeSpec | actigraphy_analysis/preprocessing.py:315-317 | the range starts at start, steps by exactly p, stays in [start, end], is strictly increasing and one more step would pass end |
| Periods.PeriodIndex | actigraphy_analysis/preprocessing.py:307-319 | the boundaries are empty only for a decreasing index; the first is the first timestamp and the last lies within one period before the last timestamp |
| Periods.PeriodIndexSpec | actigraphy_analysis/preprocessing.py:307-319 | the boundaries start at the first timestamp, step by the period (24 hours by default), never pass the last timestamp and include every step that fits |
| Periods.SegmentPositionsSpec | actigraphy_analysis/preprocessing.py:338-344 | segment i takes exactly the rows with b_i <= t <= b_(i+1), and the last segment the rows with t >= b_last |
| Periods.SegmentsUpToAt | actigraphy_analysis/preprocessing.py:337-345 | the list holds one segment per boundary, segment i at place i |
| Periods.MaxLength | actigraphy_analysis/preprocessing.py:348 | the row count of the padded frame bounds every segment's length and is reached by one of them |
| Periods.AsColumns | actigraphy_analysis/preprocessing.py:348 | `DataFrame(list).T` has one column per segment, each as long as the longest segment, holding its segment followed by NaN |
| Periods.SliceByIndex | actigraphy_analysis/preprocessing.py:337-350 | the loop builds exactly the padded columns of the segments of all boundaries |
| Periods.SliceShape | actigraphy_analysis/preprocessing.py:348-350 | one column per boundary, every column as long as the longest segment, its segment followed by NaN |
| Periods.BoundarySampleInTwoColumns | actigraphy_analysis/preprocessing.py:338-340 | a sample exactly on an inner boundary is in both neighbouring columns |
| Periods.CountInterval | actigraphy_analysis/preprocessing.py:339 | a filter keeping exactly an interval of positions keeps as many rows as the interval has below n |
| Periods.RegularBounds | actigraphy_analysis/preprocessing.py:312-317 | on a regular series cut every m samples, there are (L-1)/m + 1 boundaries falling on every m-th sample |
| Periods.RegularInnerSegment | actigraphy_analysis/preprocessing.py:338-340 | on a regular series an inner window holds m + 1 samples |
| Periods.RegularLastSegment | actigraphy_analysis/preprocessing.py:343-345 | on a regular series the last segment holds the samples from (N-1) m on |
| Periods.RegularSeriesShape | actigraphy_analysis/preprocessing.py:337-345 | on a regular series every column but the last has m + 1 samples (both boundaries), the last the remainder |
| Periods.SixHourSegments | actigraphy_analysis/preprocessing.py:337-345 | 4320 ten-second samples cut every 6 hours give two segments, of 2161 and 2160 samples |
| Periods.SixHourSlicesOfTwelveHours | actigraphy_analysis/preprocessing.py:348-350 | that frame has 2161 rows and the second column ends in NaN |
| Periods.RoundHalfEvenNearest | actigraphy_analysis/preprocessing.py:375 | `round` of an exact ratio is within half a unit of it |
| Periods.RoundHalfEvenPositive | actigraphy_analysis/preprocessing.py:375 | `round` of an exact ratio is positive iff the ratio exceeds one half |
| Periods.CtStep | actigraphy_analysis/preprocessing.py:371-376 | whole seconds plus the rounded milliseconds is within half a millisecond of CT / n, and is zero iff 2 CT <= n |
| Periods.CtIndex | actigraphy_analysis/preprocessing.py:366-383 | n ticks starting at 0, spaced by the step (CT 24 hours by default), strictly increasing; the step must be positive |
| Periods.FirstSegmentHoldsFirstSample | actigraphy_analysis/preprocessing.py:403-411 | the first segment holds the first sample, so the sliced frame has at least one row |
| Periods.PeriodSplitOfSliced | actigraphy_analysis/preprocessing.py:407-419 | given the sliced columns, there is at least one column with at least one row, and the split is their circadian index, day numbers, columns and channel name |
| Periods.SplitByPeriod | actigraphy_analysis/preprocessing.py:403-421 | the channel is sliced at the period boundaries, indexed by circadian time, columns numbered, named after the channel |
| Periods.PeriodSplitShape | actigraphy_analysis/preprocessing.py:411-421 | one column per boundary numbered 0..N-1, one increasing circadian tick per row, all columns as long as the index, the channel's name |
| Periods.SplitEntireTable | actigraphy_analysis/preprocessing.py:439-447 | one split per column, split j being channel j's split named by column j |
| Light.RemapLight | actigraphy_analysis/preprocessing.py:459-470 | fails iff no reading exceeds 150; otherwise the copy whose light column is remapped from the first reading above 150 up to, excluding, the last |
| Light.RemapRange | actigraphy_analysis/preprocessing.py:465-469 | outside the stretch nothing changes; inside, numbers are capped at 150 (or non-negative once inverted) and missing values stay missing |
| Light.RemapChangesOnlyTheStretch | actigraphy_analysis/preprocessing.py:465-469 | the remapped copy is well formed, has the same index and other columns, the light column keeps name and kind, readings outside the stretch are unchanged, inside each becomes its remapped value, never negative when inverted |
| Light.LastBrightReadingKept | actigraphy_analysis/preprocessing.py:460-469 | as written, the last reading above 150 is left unchanged, so a reading above 150 remains |
| Light.RemapLightInclusive | actigraphy_analysis/preprocessing.py:460-464 | the corrected remap fails iff no reading exceeds 150 |
| Light.InclusiveRemapCapsLight | actigraphy_analysis/preprocessing.py:460-469 | the corrected remap leaves no reading above 150 |
| LabelWindow.LastMatch | actigraphy_analysis/preprocessing.py:496 | `disrupted_index[-1]` holds the label and no later row does |
| LabelWindow.FirstMatchIsFirstIndex | actigraphy_analysis/preprocessing.py:494-495 | `disrupted_index[0]` is the first row holding the (non-null) label |
| LabelWindow.MatchesBracketLabel | actigraphy_analysis/preprocessing.py:494-496 | every row holding a non-null label lies between its first and last occurrence |
| LabelWindow.SliceByLabel | actigraphy_analysis/preprocessing.py:492-498 | fails iff the label is null or no row carries it |
| LabelWindow.LabelWindowExact | actigraphy_analysis/preprocessing.py:492-498 | for a non-null label present in the column, the slice is a well-formed copy without name tag holding exactly the rows with first match - baseline <= t <= last match + post (6 and 16 days by default) |
| LabelWindow.LabelledStretchKept | actigraphy_analysis/preprocessing.py:494-497 | for a non-null label, with non-negative lead and trail every row from the first to the last match is kept, whatever its label |
| Paths.LastDot | actigraphy_analysis/preprocessing.py:127 | the position found is -1 or holds a dot, and no later character is a dot |
| Paths.CreateFileNamePath | actigraphy_analysis/preprocessing.py:124-131 | the path is the directory plus one component named name + save_suffix, the name being the string or the file's stem; an empty name adds no component |
| Paths.SubdirPath | actigraphy_analysis/preprocessing.py:107 | the sub-directory is the input directory plus one component named subdir_name, or the input directory itself for the empty default name |
| Paths.ReadFile | actigraphy_analysis/preprocessing.py:79-86 | fails iff the suffix is not ".csv"; otherwise the table is tagged with the stem |
| Paths.NoDotNoSuffix | actigraphy_analysis/preprocessing.py:127 | a name without a dot has no suffix and is its own stem |
| Paths.Suffix | actigraphy_analysis/preprocessing.py:79 | a suffix is empty or a dot followed by at least one character, none a dot |
| Paths.Stem | actigraphy_analysis/preprocessing.py:85 | stem followed by suffix gives the name back, and the stem is empty only for an empty name |
| Paths.StemSuffixRoundTrip | actigraphy_analysis/preprocessing.py:79-85 | base + "." + ext has stem base and suffix "." + ext |
| Paths.FileNamePathKeepsStem | actigraphy_analysis/preprocessing.py:124-131 | the path built lies in the directory and keeps the file's name as stem with the new suffix |
| Paths.SavedFileBelowSaveDirectory | actigraphy_analysis/preprocessing.py:107-131 | a saved file lies in the sub-directory of the save directory (in the save directory itself for an empty sub-directory name), under the file's stem with the new suffix |
| Pipeline.SaveObjectPipeline.constructor | actigraphy_analysis/preprocessing.py:169-189 | the stored file list is the sorted glob result, the sub-directory is save_directory / subdir_name, the objects are those read, processed lists empty |
| Pipeline.SaveObjectPipeline.Create | actigraphy_analysis/preprocessing.py:157-195 | construction fails iff reading is on and some file is refused, with the error of the first refused file; otherwise the objects are every file read in order (none without readfile), processed lists empty |
| Pipeline.ReadAll | actigraphy_analysis/preprocessing.py:190-195 | the files read in order: all of them when every read succeeds, otherwise the error of the first one refused |
| Pipeline.SaveObjectPipeline.ProcessFile | actigraphy_analysis/preprocessing.py:219-235 | both lists grow by min(len(objects), len(files)) and stay in step: func of each object, and subdir / (name + save_suffix) of each file, an empty or missing list falling back to the stored one; stored objects unchanged |
| Pipeline.StoredOutputsKeepStems | actigraphy_analysis/preprocessing.py:226-235 | the paths recorded for stored input files lie in the sub-directory and keep each file's stem with the new suffix |

## Left out

- File-system input and output are not modelled:
  - `pd.read_csv`: the parsed table is a parameter of `Paths.ReadFile`;
  - `mkdir` in `create_subdir`;
  - the `glob` and `sorted` of the constructor: the sorted file list is a parameter;
  - `to_csv` with `savecsv`.
- `create_plot` (lines 241-288) is matplotlib plotting. It is not modelled.
- `getattr(module, name)` at lines 191, 217 and 265 is a dynamic lookup. `Create` takes the reader as a function parameter, and `ProcessFile` takes the transform. The `**kwargs` are folded into those functions.
- The declared defaults of those lookups do not resolve, and their failures are not modelled. `func=(globals(), "read_file_to_df")` (lines 161-162) looks the name up as an attribute of a dict, so with `readfile` the constructor raises AttributeError at line 191 before reading any file, even in an empty directory. `process_file`'s `function=()` raises IndexError at line 217. The model always has a reader and a transform.
- Pipeline.SaveObjectPipeline.ProcessFile: the transform is a total function, so a transform that raises part-way through the loop, leaving the appends made so far in place, is not modelled.
- Columns.RemoveObjectColumns: returns a new value. When no column is dropped, the source never rebinds `data`: it sets the name tag on the caller's own frame (to "NaN" when it had none) and returns that same object. Neither this write to the input nor the aliasing between result and input is modelled.
- Dates are integer milliseconds. Period strings such as "24H 0T" and "6D" are already converted to durations. Their parsing is not modelled.
- `create_ct_based_index` uses Python floats. The model computes `int(CT/n)` and the rounded millisecond remainder exactly, with ties to even. It does not model binary floating-point error. Where the float ratio lands on the other side of a rounding tie, the source's step may differ from `Periods.CtStep` by one millisecond.
- Column positions out of range and an empty table in `create_period_index` make pandas raise, and a zero-row frame in `create_ct_based_index` raises ZeroDivisionError in Python's float division `CT_seconds/dataframe_seconds` (line 373). The model does not represent these as error results: they are preconditions (`ValidColumnIndex`, a non-empty index).
- Periods.CtIndex: requires the step to round to at least one millisecond (`CtStepFits`: 2 CT > rows). With a zero step the source builds the frequency "0S 0ms", from which `pd.timedelta_range` cannot build the index; that error is a precondition, carried up to `PeriodSplit`, `SplitByPeriod` and `SplitEntireTable`. With the default CT of 24 hours it takes 172,800,000 rows or more to reach it.
- Columns.RemoveObjectColumns: requires distinct column names. With repeated names, `data.loc[:, column]` is a frame and `.dtype` raises.
- Light.RemapLight: requires the light column to hold no text. Comparing text with 150 raises in pandas.
- Light.RemapLight: follows the pandas the code was written against, where `data_new.iloc[start:end, LDR_col] = light_data` (line 469) aligns the full-length Series on the index, so each position in [start, end) receives its own remapped value. Under a pandas whose `.iloc` assignment does not align a Series, the value's length differs from the slice's and the write raises ValueError. That error is not modelled, and the as-written half of the remap finding (`Light.LastBrightReadingKept`) rests on the aligning write.
- Periods.CtIndex: the default CT string "24H 0M" (line 367) reads "M" as minutes, as the pandas of the code's era did; a pandas that rejects that unit raises there, which is not modelled.
- `get_loc` in `remap_LDR` maps a timestamp back to its position. In the model the positions are used directly, which agrees because the index is strictly increasing.
- Light.InclusiveRemapCapsLight: when inverting, assumes no reading is negative. A negative reading v becomes 150 - v > 150.
- `actiPy/waveform.py` is not part of this model: it is plotting plus floating-point means and resampling.
- `tests/test_dev.py` is not part of this model: it asserts nothing and calls functions that are not shown.
- Path components are treated as opaque strings. Separators inside a name and `pathlib` normalisation are not modelled.
- Pandas index alignment is not modelled beyond positions on a sorted index. Neither are dtype inference or the float conversion of integer columns that contain NaN.

## Findings

| source | as written | input that shows it | evidently intended | confidence | as-written member | corrected member |
|---|---|---|---|---|---|---|
| actigraphy_analysis/preprocessing.py:460-469 | `iloc[start:end]` is half-open, so the last reading above 150 is not remapped | light column [200, 100, 300]: position 2 keeps 300, above the 150 cap | the comment names the last value above the threshold as the end of the range, so the stretch should include it (`iloc[start:end+1]`) | not executed; assumes the aligning `.iloc` write of the pandas the code was written against (see Left out) | Light.LastBrightReadingKept | Light.InclusiveRemapCapsLight |
