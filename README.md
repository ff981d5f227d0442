# Credit-risk feature pipeline, modelled in Dafny

This project models the feature-preparation core of a credit-risk
application written in Python over polars, scikit-learn and joblib:

- the cleaning and encoding helpers of `src/processing.py`: year-difference
  age, currency-text parsing, null filling, fuzzy correction of professions,
  outlier replacement, the ratio feature, and the per-column fit/persist/load
  loops of the standard scalers and label encoders;
- the training orchestration of `model_creation.py`: the fixed cleaning
  chain, the `ruim`/`bom` label mapping, the column lists, and the sequence
  that fits and persists scalers and encoders for the training and the test
  split;
- the dataset builder `criar_dataset.py`: overdue instalments counted per
  credit request, the `ruim`/`bom` label, the joins, the derived columns and
  the final thirteen-column projection.

A data frame is a `Frames.Table`: an ordered list of column names, a map
from name to series and a shared row count. A series is a column of optional
cells (`None` is a null) of one of three dtypes: text, number (`real`) or
date. Every operation that can raise returns a `Result` with the error it
raises. The joblib directory is a `map` from artifact path to the persisted
state, held by the `Artifacts.ArtifactStore` class. The caller's pandas frame
that `load_scalers`/`load_encoders` overwrite column by column is the
`Artifacts.Frame` class.

Modules, one per file:

| file | module | models |
|---|---|---|
| frames.dfy | Frames | tables, series, `with_columns`, `drop` |
| stats.dfy | Stats | median and mode of a column |
| processing.dfy | Processing | `calcular_idade`, `limpar_moeda`, `substituir_nulos`, `corrigir_erros_digitacao`, `tratar_outliers`, `feature_engineering` |
| artifacts.dfy | Artifacts | StandardScaler and LabelEncoder state, `save_*` and `load_*` |
| training.dfy | Training | `model_creation.py` lines 27-66 |
| dataset.dfy | Dataset | `criar_dataset.py` lines 18-53 |

Three behaviours of the code that the model keeps as written:

- `limpar_moeda` ends in a strict `cast(pl.Float64)`. A cleaned text that is
  not a number (two commas, or no digit at all) makes the cast raise; the
  result is not a null.
- `LabelEncoder` numbers the *sorted* distinct labels (a null sorts last),
  not the labels in order of first appearance.
- `substituir_nulos` fills a text column with `mode()[0]`, and the mode
  counts the null like any other cell. When the null is the most frequent
  cell, or a column has no non-null value, the fill value is null and
  `fill_null` raises; the model raises `NullFill` for that column.

The dataset builder writes its amounts as `valor_solicitado` and
`valor_total_bem` and keeps `nomecomercial`. The training script reads
`valorsolicitado`, `valortotalbem` and `produto` from its own query. The
model keeps both sets of names as the sources spell them.

## Model

| member | source | states |
|---|---|---|
| Frames.WithColumn | criar_dataset.py:39-43 | `with_columns` overwrites an existing column in place or appends a new one; every other column, the order of names and the row count are kept |
| Frames.Drop | model_creation.py:47 | dropping `classe` raises when it is absent, otherwise removes exactly that column and keeps every other column and the row count |
| Stats.Median | src/processing.py:24 | the median exists exactly when the column has a non-null value |
| Stats.MedianWithin | src/processing.py:49 | the median of values within an interval lies within that interval |
| Stats.Mode | src/processing.py:21 | `mode()[0]` exists exactly for a non-empty column, is one of its cells, and no cell is more frequent |
| Processing.Age | src/processing.py:9-11 | the age succeeds exactly on a date column and yields one cell per row, null exactly where the birth date is null |
| Processing.AgeAgainstCompletedYears | src/processing.py:9-11 | the age is the completed years plus one whenever the birthday has not yet come this year: no month or day adjustment |
| Processing.KeepDigitsAndCommas | src/processing.py:14 | the cleaned text is a subsequence of the input made only of digits and commas, with as many digits and as many commas as the input and no dot: exactly the input's digits and commas, in order |
| Processing.FirstCommaToDot | src/processing.py:14 | a text without a comma is unchanged; otherwise the result is the text before the first comma, a dot, and the rest as it was, so later commas stay commas |
| Processing.ParseCurrency | src/processing.py:13-14 | a null stays null and a parsed text is never null |
| Processing.CurrencyParsesIff | src/processing.py:14 | a text parses exactly when it has at most one comma and at least one digit; otherwise the cast raises |
| Processing.NoCommaReadsAllDigits | src/processing.py:13-14 | without a comma the value is the integer read from all digits, so "R$ 1.234" reads 1234 |
| Processing.OneCommaValue | src/processing.py:13-14 | with exactly one comma and a digit, the value is the digits before the comma read as an integer plus the digits after it as the decimal fraction, other characters dropped, so "R$ 1.234,56" reads 1234.56 |
| Processing.ParseCurrencyCells | src/processing.py:14 | the column parses exactly when every cell parses, cell by cell; otherwise the error is the error of a failing cell |
| Processing.ParseCurrencyColumn | src/processing.py:13-14 | succeeds only on a text column and holds, row by row, the parsed value of each cell |
| Processing.FillNullCells | src/processing.py:22-25 | `fill_null(v)` replaces exactly the nulls by `v` |
| Processing.FillValue | src/processing.py:19-25 | a text column is filled with its mode and a numeric one with the median of its non-null values; a text column without rows raises the out-of-range error and a null mode or median raises; a date column is left as it is, and raises only when it holds no date |
| Processing.FillNulls | src/processing.py:17-26 | a frame that is filled keeps its names, its row count and its validity |
| Processing.ReplaceNulls | src/processing.py:17-26 | the loop that builds one fill expression per column, in column order, returns exactly what `FillNulls` gives: the error of the first column without a fill value, or the frame with every expression applied |
| Processing.FillNullsRaises | src/processing.py:17-26 | raises exactly when some column has no fill value, and then for the first such column in column order, with the out-of-range error for a text column without rows and the null-fill error otherwise |
| Processing.FillNullsMeaning | src/processing.py:17-26 | when nothing raises: names and rows are kept, non-null cells are kept, a text null becomes a non-null most frequent cell, a numeric null the median of the non-null values, dates are unchanged, and no text or numeric column has a null left |
| Processing.NullMode | src/processing.py:21 | the mode is the null when the null is strictly the most frequent cell, and only when no cell is more frequent than the null |
| Processing.BestMatch | src/processing.py:40 | the chosen candidate scores highest, and no earlier candidate scores as high |
| Processing.CorrectTypos | src/processing.py:28-46 | succeeds exactly on a text column whose vocabulary is non-empty or whose cells are all null (an empty vocabulary raises at the first non-null cell); only the target column changes; nulls and listed values pass through; every non-null result is a listed value |
| Processing.CorrectTyposPicksBestMatch | src/processing.py:38-41 | an unlisted value becomes the first best-scoring listed value |
| Processing.CorrectTyposIdempotent | src/processing.py:33-46 | correcting a corrected column changes nothing |
| Processing.InRange | src/processing.py:49 | every value kept lies within the bounds, every in-range value is kept, and nothing is kept exactly when no value is in range |
| Processing.InRangeCounts | src/processing.py:49 | the values kept are, with multiplicity, exactly the in-range non-null cells: each in-range value as many times as it occurs, nothing else |
| Processing.ReplaceOutliers | src/processing.py:48-53 | succeeds exactly on a numeric column, changes only that column, and leaves every non-null value within the bounds |
| Processing.ReplaceOutliersCells | src/processing.py:48-53 | in-range values and nulls are untouched; out-of-range ones become the in-range median, which is within the bounds, and null exactly when no value is in range |
| Processing.ReplaceOutliersComplete | src/processing.py:48-53 | on a column without nulls, every cell comes out present and in range exactly when some cell was in range or there are no rows |
| Processing.ReplaceOutliersIdempotent | src/processing.py:48-53 | replacing outliers twice is the same as once |
| Processing.FirstZeroDivision | src/processing.py:75 | finds a row where both amounts are present and the denominator is zero, with no such row before it; none exactly when there is no such row |
| Processing.AddRatioFeature | src/processing.py:73-76 | succeeds exactly when both amounts are numeric columns and no row with both amounts present has a zero total, and otherwise, for numeric amounts, raises at the first such row; adds or overwrites only `proporcaosolicitadototal`; a ratio is present exactly when both amounts are, and ratio times total gives the requested amount |
| Artifacts.FitScaler | src/processing.py:59-60 | fitting succeeds exactly when a value is present, and raises otherwise; the mean is the mean of the present values, and the scale is the square root of their population variance, or 1 for a zero variance |
| Artifacts.Standardize | src/processing.py:60 | one output per cell, and nulls stay null |
| Artifacts.StandardizeRoundTrip | src/processing.py:60 | undoing the standardization gives back the column |
| Artifacts.Classes | src/processing.py:69 | the classes are the distinct labels of the column, strictly sorted |
| Artifacts.Encode | src/processing.py:87 | encoding succeeds exactly when every label was seen at fit time, and otherwise raises; each code is the label's index among the classes |
| Artifacts.EncoderRoundTrip | src/processing.py:69 | a fitted encoder encodes its own column, decodes each code back to its label, and gives different labels different codes |
| Artifacts.EncoderCodesDense | src/processing.py:69 | every code 0..k-1 is the code of some row of the fitted column |
| Artifacts.EncoderOrderPreserving | src/processing.py:69 | codes follow the sorted order of the labels |
| Artifacts.PathsDistinct | src/processing.py:55-71 | different columns have different scaler and encoder file names, and a scaler file name is never an encoder file name |
| Artifacts.FitScalerColumn | src/processing.py:59-61 | one iteration of `save_scalers`: succeeds exactly on a numeric column with a present value; the column becomes its values standardized with the scaler fitted on it, and the file holds that scaler |
| Artifacts.FitEncoderColumn | src/processing.py:68-70 | one iteration of `save_encoders`: succeeds exactly on a text column; the column becomes the code of each label under the encoder fitted on it, and the file holds that encoder |
| Artifacts.ApplyScalerColumn | src/processing.py:80-81 | one iteration of `load_scalers`: a missing file raises; it succeeds exactly with a scaler file and a numeric column, and the column becomes its values standardized with the stored scaler |
| Artifacts.ApplyEncoderColumn | src/processing.py:86-87 | one iteration of `load_encoders`: a missing file raises; it succeeds exactly when the file holds an encoder, the column is text and the stored encoder has seen every label; each label then becomes its code under the stored encoder |
| Artifacts.StepEffect | src/processing.py:58-61 | one iteration changes only its own column and its own file, stops the loop exactly when the column's operation raises, and otherwise stores the column and file it computed |
| Artifacts.LoopStops | src/processing.py:78-82 | after the first raise no further column is processed |
| Artifacts.LoopKeepsColumns | src/processing.py:58-61 | unlisted columns are untouched |
| Artifacts.LoopKeepsFiles | src/processing.py:58-61 | files of unlisted columns are untouched |
| Artifacts.LoopSucceedsIff | src/processing.py:78-88 | a loop over distinct columns succeeds exactly when every column's operation succeeds on the input |
| Artifacts.LoopColumn | src/processing.py:78-82 | after a successful loop each listed column holds its operation's result on the input and every other column is unchanged |
| Artifacts.ApplyScalersReadsOwnFiles | src/processing.py:78-82 | loading scalers reads only the files of the listed columns |
| Artifacts.ScalersTrainServeAgree | src/processing.py:78-82 | loading the scalers just saved reproduces the saved frame and leaves the files as they are |
| Artifacts.EncodersTrainServeAgree | src/processing.py:84-88 | loading the encoders just saved reproduces the saved frame |
| Artifacts.FitEncodersSucceedsIff | src/processing.py:64-71 | fitting encoders succeeds exactly when every listed column exists and is text |
| Artifacts.ApplyEncodersRejectsUnseen | src/processing.py:84-88 | a label unseen at fit time makes loading raise |
| Artifacts.ApplyNeedsArtifact | src/processing.py:78-88 | a missing artifact makes loading raise |
| Artifacts.ArtifactStore.SaveScalers | src/processing.py:55-62 | the loop leaves the files and returns the frame the fitting loop describes |
| Artifacts.ArtifactStore.SaveEncoders | src/processing.py:64-71 | the loop leaves the files and returns the frame the fitting loop describes |
| Artifacts.Frame.LoadScalers | src/processing.py:78-82 | the caller's frame is overwritten column by column as the loading loop describes, including the columns done before a raise |
| Artifacts.Frame.LoadEncoders | src/processing.py:84-88 | the caller's frame is overwritten column by column as the loading loop describes, including the columns done before a raise |
| Training.ColumnListsDisjoint | model_creation.py:57-59 | neither list repeats a name, no column is both scaled and encoded, and the label is in neither |
| Training.ParseAmounts | model_creation.py:32-35 | only the two amounts change, each parsed cell by cell; the step succeeds exactly when both amount columns parse |
| Training.TyposStage | model_creation.py:38 | after the correction every non-null profession is one of the nine listed |
| Training.OutlierStage | model_creation.py:39-40 | after the clamp the column is within its bounds, and the earlier guarantees on other columns still hold |
| Training.RatioStage | model_creation.py:42 | the ratio step keeps the earlier guarantees and adds a consistent ratio column |
| Training.CleanGuarantees | model_creation.py:30-43 | the cleaned frame keeps its rows, has only listed professions, `tempoprofissao` in [0,70] and `idade` in [0,110] wherever a value is present, and a consistent ratio |
| Training.CleanCompletesBounds | model_creation.py:37-40 | after the chain, every row of `tempoprofissao` holds a value in [0,70] (and of `idade` one in [0,110]) exactly when the null-filled frame held such a value in some row or has no rows |
| Training.RefineKeepsAmounts | model_creation.py:38-42 | the steps after the null filling do not touch the two amounts |
| Training.CleanRatioUsesFilledAmounts | model_creation.py:30-43 | the amounts the ratio reads are the parsed amounts after null filling |
| Training.LabelCode | model_creation.py:51-52 | `ruim` maps to 0, `bom` to 1, anything else to a missing value |
| Training.SplitTarget | model_creation.py:47-52 | fails exactly without a `classe` column; the features are the frame without it; a text target is mapped row by row, and a target of any other dtype is missing in every row |
| Training.Serve | src/processing.py:78-88 | loading scalers and then encoders keeps the names and the row count |
| Training.ScalersFittedOn | model_creation.py:62 | after `save_scalers` each numeric column's file holds the scaler fitted on that frame's column |
| Training.EncodersFittedOn | model_creation.py:65 | after `save_encoders` each categorical column's file holds the encoder fitted on that frame's column |
| Training.EncodersKeepScalerFiles | model_creation.py:62-66 | fitting encoders does not touch the scaler files |
| Training.ScalingKeepsCategories | model_creation.py:62-65 | scaling leaves the categorical columns as they were |
| Training.AsWrittenPersistsTestStates | model_creation.py:62-66 | as written, every persisted scaler and encoder is the one fitted on the test split |
| Training.AsWrittenRejectsTrainingLabel | model_creation.py:62-66 | as written, serving a frame like the training split raises as soon as one categorical label is absent from the test split |
| Training.PersistedEncoderShiftsCodes | model_creation.py:65-66 | a test-fitted encoder gives a shared label a different code than the training encoder did, and rejects a training-only label |
| Training.PreparePersistsTrainingStates | model_creation.py:62-66 | corrected: every persisted scaler and encoder is the one fitted on the training split |
| Training.PrepareServesTraining | model_creation.py:62-66 | corrected: serving each split with the persisted files reproduces exactly the prepared split |
| Training.PrepareFeaturesAsWritten | model_creation.py:62-66 | the four saving calls, in order, leave the store and return the frames `PrepareAsWritten` describes |
| Training.PrepareFeatures | model_creation.py:62-66 | the corrected sequence leaves the store and returns the frames `Prepare` describes |
| Dataset.FinalColumnsDistinct | criar_dataset.py:46-51 | the thirteen final names are distinct and include `classe` |
| Dataset.FirstRows | criar_dataset.py:19 | one row per group: the groups' keys are distinct and every key of the input is among them |
| Dataset.CountOverdueCounts | criar_dataset.py:19-22 | `qtd_vencidos` is the number of the request's instalment rows with status "Vencido" |
| Dataset.CountOverdueAbsent | criar_dataset.py:33-35 | a request without instalments counts no overdue one |
| Dataset.LabelOf | criar_dataset.py:23-25 | the label is `ruim` exactly when the count is positive and `bom` exactly when it is zero |
| Dataset.Target | criar_dataset.py:18-26 | succeeds exactly when the request id exists and the status is text, with the three columns `solicitacaoid`, `qtd_vencidos`, `classe` |
| Dataset.TargetOnePerRequest | criar_dataset.py:18-22 | the target has one row per request: distinct keys, exactly the requests that have instalments |
| Dataset.TargetLabels | criar_dataset.py:18-26 | row by row the target holds the request's overdue count and `ruim` exactly when it is positive |
| Dataset.Matches | criar_dataset.py:31-33 | the matches of a key are exactly the right rows with that non-null key |
| Dataset.MatchesAscending | criar_dataset.py:31-33 | the matches of a key come in right row order |
| Dataset.Lookup | criar_dataset.py:33 | a found right row carries the same non-null key; none is found only for a null or absent key |
| Dataset.MatchesUnique | criar_dataset.py:33 | against unique keys a left row matches at most one right row |
| Dataset.LeftJoinPairs | criar_dataset.py:33 | against unique keys the left join yields each left row exactly once, in order, with its lookup |
| Dataset.InnerJoinPairs | criar_dataset.py:31-32 | an inner join emits exactly the (left, right) pairs of rows with the same non-null key: each pair matches, every matching pair is emitted, and they come in left then right row order, so none repeats |
| Dataset.JoinPairsOrdered | criar_dataset.py:31-33 | every join emits its pairs in left row order, then right row order |
| Dataset.AddRightColumns | criar_dataset.py:31-33 | the left columns are kept; each right column but the key is added, renamed on a clash, gathered by the matched rows |
| Dataset.Join | criar_dataset.py:31-33 | a join succeeds only with the key on both sides with the same dtype, and then is the join on that key |
| Dataset.JoinOn | criar_dataset.py:31-33 | the joined frame is valid and has one row per pair the join emits; each left column is gathered at the pairs' left rows, each right column but the key, renamed on a clash, at their right rows, and there is no other column |
| Dataset.LeftJoinKeepsRows | criar_dataset.py:33 | against unique keys the left join keeps every left row and column unchanged and adds the right values of the matching row, or nulls |
| Dataset.LeftJoinIsLookup | criar_dataset.py:33 | against unique keys the left join is the left frame plus the right columns gathered by lookup |
| Dataset.Approved | criar_dataset.py:30-32 | the two inner joins give a valid frame |
| Dataset.ChainedInnerJoins | criar_dataset.py:30-32 | two inner joins in a row, the second on a key of the first's rows, emit exactly the (left, middle, right) triples whose keys agree, each once, in lexicographic order |
| Dataset.ApprovedRows | criar_dataset.py:30-32 | the rows of the approved frame are exactly the (request, client, product) triples whose client and product ids agree, each once, in request, then client, then product order |
| Dataset.ApprovedColumns | criar_dataset.py:30-32 | every request column, and every client and product column but the keys (renamed on a clash), holds at each row the value of the request, client or product of the triple behind that row |
| Dataset.FillClass | criar_dataset.py:35 | only `classe` changes: its nulls become `bom`, every other cell is kept; fails without a text `classe` |
| Dataset.JoinedLabels | criar_dataset.py:33-35 | after the left join each request keeps its row and columns, and its joined label is the one it deserves, or a null when it deserves `bom` |
| Dataset.JoinedRow | criar_dataset.py:33-35 | the label a request finds in the target by its key is its deserved label, or nothing when it deserves `bom` |
| Dataset.LabelRule | criar_dataset.py:29-36 | every approved request keeps exactly one unchanged row and is labelled `ruim` exactly when it has an overdue instalment, `bom` otherwise, null keys and requests without instalments included |
| Dataset.Project | criar_dataset.py:53 | the projection lists the requested names in order, each column taken unchanged from the frame |
| Dataset.Select | criar_dataset.py:53 | `select` keeps exactly the listed columns in order, unchanged, and succeeds whenever they are distinct and present |
| Dataset.ProjectSucceeds | criar_dataset.py:53 | distinct present names never make the projection fail |
| Dataset.WithDerived | criar_dataset.py:39-43 | the three derived columns are set and every other column is kept |
| Dataset.Finish | criar_dataset.py:39-53 | the result has exactly the thirteen columns in order and the input's rows; ten columns come through unchanged and the three derived ones hold the age and the two parsed amounts |
| Dataset.FinishSucceeds | criar_dataset.py:39-53 | the final step succeeds whenever the three derivations succeed and the ten other columns exist |
| Dataset.FinishKeepsLabel | criar_dataset.py:46-53 | the final projection keeps the label column unchanged |
| Dataset.BuildDataset | criar_dataset.py:18-53 | a built dataset has exactly the thirteen listed columns, in order |
| Dataset.DatasetLabels | criar_dataset.py:18-53 | the dataset has one row per approved request, and each row's label is the one its request deserves |
| Dataset.ExpectedLabelIsBinary | criar_dataset.py:23-35 | every deserved label is `bom` or `ruim`, and `ruim` exactly when the request has an overdue instalment |

## Left out

- Database access (`execute_query`), the HTTP and web front ends, `print` and `write_parquet`: I/O. The four fetched tables and the training frame are inputs.
- The Keras network, RFE selection, `train_test_split` and LIME: foreign ML code with stochastic numerics. The two splits are inputs to `Training.Prepare` and `Training.PrepareAsWritten`.
- `date.today()`: the current year is a parameter of `Processing.Age`.
- IEEE Float64: numbers are exact `real`s. Rounding, overflow, inf and NaN are not modelled.
- The fuzzy similarity score is a parameter of the correction (`(string, string) -> Score`, 0 to 100). The square root of the scaler is a parameter too, constrained to be positive on positive input.
- joblib files are entries of a `map` from path to state. Directory creation and file formats are not modelled.
- Processing.AddRatioFeature: a zero denominator is an error (`DivisionByZero`) in the model, where polars yields inf or NaN, because IEEE division is not modelled.
- Processing.FillNulls: a Date column that holds a date keeps its nulls; polars would fill them with the median date, but date arithmetic is not modelled.
- FitScaler: a column with rows but no present value raises `NoSamples`, where scikit-learn's scaler, which ignores NaN, would store a NaN mean and scale; NaN is not modelled.
- CorrectTypos: a column that is not text raises `SchemaMismatch`, where `map_elements` would render each cell with `str()` and correct the rendered text; rendering numbers and dates as text is not modelled, and the pipeline corrects only the text column `profissao`.
- FitEncoderColumn: a numeric or date column raises `SchemaMismatch`, where `LabelEncoder` would also fit numbers; the encoder model orders text labels only, and the pipeline encodes only text columns.
- FitEncodersSucceedsIff: for the same reason it states success exactly when every listed column is text, where the source would also accept numeric columns.
- Stats.Mode: polars leaves the order among equally frequent values unspecified; the model takes the first encountered.
- Dataset.FirstRows: polars leaves the order of `group_by` groups unspecified; the model takes the order of first appearance, which the left join does not observe.
- Dataset.JoinPairs: an inner join lists each left row's matches in left-then-right order; polars does not promise a row order unless asked.
- Artifacts.FitScaler: the population standard deviation is `sqrt` applied to the mean squared deviation; the numeric library's internals (and the variance computation in Float64) are not modelled.
- Dataset.LabelRule, Dataset.JoinedLabels and Dataset.DatasetLabels: they assume the approved requests carry no `classe` column of their own; with one, the join would rename the target's label to `classe_right` and the fill would act on the other column.
- `model_creation_modified.py` and `xai.py` repeat the same cleaning chain and saving sequence and are not modelled separately.

## Findings

| source | as written | input that shows it | evidently intended | confidence | as-written member | corrected member |
|---|---|---|---|---|---|---|
| model_creation.py:62-66 | scalers and encoders are fitted on the training split and saved, then fitted again on the test split and saved under the same file names, so the files left for serving hold the test split's states | a training split with professions [Advogado, Médico] and a test split with [Médico]: the persisted encoder codes Médico 0 where training used 1, and serving rejects Advogado | fit and persist on the training split only; transform the test split with the persisted states | not executed | Training.PrepareAsWritten, Training.AsWrittenPersistsTestStates, Training.AsWrittenRejectsTrainingLabel, Training.PersistedEncoderShiftsCodes | Training.Prepare, Training.PreparePersistsTrainingStates, Training.PrepareServesTraining |
