# Normal gene sets and raw expression tables, modelled in Dafny

This project models the two pieces of real logic in a set of pandas batch
scripts that prepare TCGA Pan-Cancer gene-expression data. It also proves
properties of them.

1. **Normal-sample selection and gene-table partitioning**
   (`scripts/Final_Scripts/TCGA_Normal_Gene_Set_Generation.py`, module
   `NormalGeneSet` in `normal_gene_set.dfy`).
   - A sample column name is split on `-`. Segment 2 is the participant and
     segment 3 is the type code. Each is missing (pandas NaN) when the name is
     too short.
   - A sample is kept when its participant has a healthy-coded sample
     (`10`, `12`, `14`, `11`), its participant has no metastatic-coded sample
     (`06`, `07`), and its own type is a healthy code.
   - The full table is projected onto its first two columns (`id`, `Gene`)
     plus the kept samples.
   - Its rows are split into the set-of-interest (SOI) subset and the
     all-controls subset.
   - One normal control set is built per tumour control set `df1`, `df2`, ….
2. **Tab-separated text to table parsing**
   (`scripts/Wrangling/Dataset_config/TXT_2_CSV_DF_Creation.py` and
   `scripts/Final_Scripts/TCGA_Raw_Data_Processing.py`, module `RawTable` in
   `raw_table.dfy`). The two scripts hold the same lines 27-30. Every line is
   stripped of `'\n'` at both ends and split on `'\t'`. The first line is the
   header and the later lines are the data rows.

Supporting modules:
- `Wrappers` (`wrappers.dfy`): `Option` and `Result`.
- `Seqs` (`seqs.dfy`): order-preserving `Filter`, `MapSeq`, the
  `IsSubsequence` order relation, and their lemmas.
- `Text` (`text.dfy`): Python's `str.split`, `str.join` and `str.strip` for
  a one-character argument, with their round-trip and counting lemmas.

How the model represents the data:
- Strings are `seq<char>`. Expression values are opaque strings.
- A table is a header (`seq<string>`) plus rows. Each row is
  `Row(id, gene, values)`, where `values` line up with the header from
  position 2 on.
- The first two header columns are taken to be `id` and `Gene`, as the
  script's later `['id']` and `['Gene']` selections assume.
- The SOI ids and genes come from `TCGA_SOI_tpm_df`, which the script
  uses but never defines. Here they are explicit parameters.
- The tumour control series is a finite sequence of id lists, one per
  `df{N}` file.

Behaviour of the code that is easy to misread, and that the model keeps:
- `isin` matches type codes as whole strings, so a sample typed `10A` is not
  healthy. In the header `X-Y-01-10A, X-Y-01-10B, X-Y-02-06A` no sample is
  kept (`ExactCodesExample`).
- A sample name with fewer than four segments does not raise an error. Its
  type is NaN, and such a sample is never kept.
- The control-set loop has no stopping test of its own. It ends when reading
  the next `df{N}` file raises. The model iterates over a finite series.

## Model

| member | source | states |
|---|---|---|
| `RawTable.Fields` | scripts/Wrangling/Dataset_config/TXT_2_CSV_DF_Creation.py:27-30 | `line.strip('\n').split('\t')` yields one field more than the raw line holds tabs. No field holds a tab. Joining the fields with tabs gives back the line without its leading and trailing newlines. |
| `RawTable.ParseLines` | scripts/Wrangling/Dataset_config/TXT_2_CSV_DF_Creation.py:27-30 | It fails exactly when there are no lines (`raw_data[0]`). Otherwise the header is the fields of the first line, and there is one row per later line, in file order, so the row count is the line count minus one. |
| `RawTable.FieldsOfJoin` | scripts/Final_Scripts/TCGA_Raw_Data_Processing.py:30 | Conversely, fields with no tab and no newline are exactly the fields of their tab-join. |
| `RawTable.FieldsOfSurrounded` | scripts/Final_Scripts/TCGA_Raw_Data_Processing.py:27 | Newline runs around tab-joined fields, where the joined text neither starts nor ends with a newline, are stripped, and the fields come back exactly. |
| `RawTable.StripExample` | scripts/Wrangling/Dataset_config/TXT_2_CSV_DF_Creation.py:27 | `strip('\n')` on its own removes only newlines at the ends: on the string `"\n\nA\tB\r\n"` a `'\r'` before the end stays in the last field. (Such a string is not what `readlines` delivers; see Left out.) |
| `RawTable.InnerNewlineExample` | scripts/Final_Scripts/TCGA_Raw_Data_Processing.py:27 | `strip('\n')` on its own leaves a newline inside the string, and it stays inside its field. (`readlines` never delivers such a line; see Left out.) |
| `Text.Split` | scripts/Wrangling/Dataset_config/TXT_2_CSV_DF_Creation.py:27 | `s.split(sep)` yields one piece more than `s` holds separators. `Text.JoinSplit`, `Text.SplitJoin` and `Text.SplitPiecesHaveNoSeparator` characterise the pieces. |
| `Text.Join` | scripts/Final_Scripts/TCGA_Raw_Data_Processing.py:30 | `sep.join(parts)` puts exactly one separator between neighbouring pieces that hold none, so it holds one separator fewer than there are pieces. `Text.SplitJoin` states that it is the inverse of `Text.Split`. |
| `Text.Strip` | scripts/Wrangling/Dataset_config/TXT_2_CSV_DF_Creation.py:30 | `strip('\n')` keeps one contiguous middle of the line. Everything before and after it is `'\n'`, and the middle neither starts nor ends with `'\n'`. |
| `Text.StripKeepsOtherCharacters` | scripts/Final_Scripts/TCGA_Raw_Data_Processing.py:27 | Stripping `'\n'` leaves the count of every other character unchanged. |
| `Text.StripSurrounded` | scripts/Final_Scripts/TCGA_Raw_Data_Processing.py:30 | Runs of `'\n'` around a middle that does not start or end with `'\n'` are removed, and the middle is kept whole. |
| `Text.StripIdempotent` | scripts/Wrangling/Dataset_config/TXT_2_CSV_DF_Creation.py:27 | Stripping an already stripped line changes nothing. |
| `Text.JoinSplit` | scripts/Wrangling/Dataset_config/TXT_2_CSV_DF_Creation.py:30 | `sep.join(s.split(sep)) == s`. |
| `Text.SplitJoin` | scripts/Final_Scripts/TCGA_Normal_Gene_Set_Generation.py:32-33 | Splitting the join of pieces that hold no separator gives back the pieces. |
| `Text.SplitPiecesHaveNoSeparator` | scripts/Final_Scripts/TCGA_Raw_Data_Processing.py:30 | No piece of a split holds the separator. |
| `NormalGeneSet.ParseSample` | scripts/Final_Scripts/TCGA_Normal_Gene_Set_Generation.py:32-33 | The sample keeps its name. `.str[2]` (participant) is present exactly when the name holds at least two dashes, and `.str[3]` (type) exactly when it holds at least three; otherwise NaN. |
| `NormalGeneSet.ParseSampleSegments` | scripts/Final_Scripts/TCGA_Normal_Gene_Set_Generation.py:32-33 | When present, participant and type are the dash-free third and fourth segments: the name is `a-b-participant-type` followed by nothing or a dash-led rest. |
| `NormalGeneSet.ParseSampleOfSegments` | scripts/Final_Scripts/TCGA_Normal_Gene_Set_Generation.py:32-33 | Conversely, in a name of that shape the third and fourth segments are the participant and the type. |
| `NormalGeneSet.SampleFrame` | scripts/Final_Scripts/TCGA_Normal_Gene_Set_Generation.py:31 | The classified samples are exactly the header columns from position 2 on, in order. `id` and `Gene` are never samples. |
| `NormalGeneSet.HealthyParticipants` | scripts/Final_Scripts/TCGA_Normal_Gene_Set_Generation.py:41 | A participant is listed exactly when some sample carries a healthy code and belongs to that participant. There is at most one entry per sample. |
| `NormalGeneSet.HealthyParticipantsCover` | scripts/Final_Scripts/TCGA_Normal_Gene_Set_Generation.py:41 | Every healthy-coded sample's participant is among the healthy participants. |
| `NormalGeneSet.MetastaticParticipants` | scripts/Final_Scripts/TCGA_Normal_Gene_Set_Generation.py:45 | A participant is listed exactly when some sample carries `06` or `07` and belongs to that participant. There is at most one entry per sample. |
| `NormalGeneSet.MetastaticParticipantsExactly` | scripts/Final_Scripts/TCGA_Normal_Gene_Set_Generation.py:45 | At header level: a participant is a metastatic participant iff some sample column of theirs carries `06` or `07`. |
| `NormalGeneSet.UsableSamples` | scripts/Final_Scripts/TCGA_Normal_Gene_Set_Generation.py:49 | A sample is usable exactly when some healthy-coded sample shares its participant and no metastatic-coded sample does. The usable samples keep frame order. |
| `NormalGeneSet.KeptSamples` | scripts/Final_Scripts/TCGA_Normal_Gene_Set_Generation.py:41-53 | The script's three-stage list pipeline equals one filter over the sample columns: healthy-coded, with a participant that is not metastatic. The healthy-participant test is implied by the sample's own type. |
| `NormalGeneSet.KeptSamplesExactly` | scripts/Final_Scripts/TCGA_Normal_Gene_Set_Generation.py:36-53 | A column is kept iff it is a sample column, its type is a healthy code, and no sample column of the same participant has a metastatic code. |
| `NormalGeneSet.KeptSamplesInOrder` | scripts/Final_Scripts/TCGA_Normal_Gene_Set_Generation.py:49-53 | The kept samples are a subsequence of the sample columns, so header order is kept. |
| `NormalGeneSet.MetastaticExcludesParticipant` | scripts/Final_Scripts/TCGA_Normal_Gene_Set_Generation.py:37-53 | One metastatic-coded sample excludes every sample of its participant, including the healthy-coded ones. |
| `NormalGeneSet.KeptSamplesAreHealthy` | scripts/Final_Scripts/TCGA_Normal_Gene_Set_Generation.py:36-53 | Every kept sample's type is exactly `10`, `11`, `12` or `14`. |
| `NormalGeneSet.NothingHealthyNothingKept` | scripts/Final_Scripts/TCGA_Normal_Gene_Set_Generation.py:53 | Without a healthy-coded sample column, no sample is kept. |
| `NormalGeneSet.ExactCodesExample` | scripts/Final_Scripts/TCGA_Normal_Gene_Set_Generation.py:36-53 | With types `10A`, `10B` and `06A`, nothing is kept, because codes match as whole strings. |
| `NormalGeneSet.Projection` | scripts/Final_Scripts/TCGA_Normal_Gene_Set_Generation.py:56-59 | The projected header is the two identifier columns followed by the requested sample columns in header order. Every row is kept, with its id and gene. `NormalGeneSet.SelectColumnsKeepsCells` and `NormalGeneSet.ProjectionTwice` characterise the cut rows. |
| `NormalGeneSet.SelectColumns` | scripts/Final_Scripts/TCGA_Normal_Gene_Set_Generation.py:56-59 | `usecols` fails exactly when a requested name is missing from the header, and reports exactly the missing names. Otherwise the result is the projection: the two identifier columns plus the requested samples in header order, and each row keeps its id and gene. |
| `NormalGeneSet.SelectColumnsKeepsCells` | scripts/Final_Scripts/TCGA_Normal_Gene_Set_Generation.py:59 | A projected well-formed table is well-formed, and each kept value stays under a column of the same name. |
| `NormalGeneSet.ProjectionTwice` | scripts/Final_Scripts/TCGA_Normal_Gene_Set_Generation.py:59 | Projecting a projection onto the same request gives the same table. |
| `NormalGeneSet.SelectColumnsIdempotent` | scripts/Final_Scripts/TCGA_Normal_Gene_Set_Generation.py:56-59 | A successful column selection, applied again with the same samples, succeeds and gives the same table. |
| `NormalGeneSet.KeptSamplesSelectable` | scripts/Final_Scripts/TCGA_Normal_Gene_Set_Generation.py:56 | Every kept sample is a header column, and selecting the kept samples from the sample columns gives them back in order. |
| `NormalGeneSet.NormalTable` | scripts/Final_Scripts/TCGA_Normal_Gene_Set_Generation.py:56-59 | The read with `usecols` always succeeds. The healthy table has every gene row, and its columns are the first two header columns followed by the kept samples. |
| `NormalGeneSet.SoiSubset` | scripts/Final_Scripts/TCGA_Normal_Gene_Set_Generation.py:77-80 | A row is in the SOI subset exactly when its `id` is in the SOI ids or its `Gene` is in the SOI genes. The header and the row order are kept. |
| `NormalGeneSet.ControlSubset` | scripts/Final_Scripts/TCGA_Normal_Gene_Set_Generation.py:100-103 | A row is in the all-controls subset exactly when neither its `id` nor its `Gene` belongs to the SOI. The header and the row order are kept. |
| `NormalGeneSet.SoiControlPartition` | scripts/Final_Scripts/TCGA_Normal_Gene_Set_Generation.py:77-103 | Together the two subsets hold each row of the table exactly once (multiset sum), and no row of the table is in both. |
| `NormalGeneSet.NormalControlSet` | scripts/Final_Scripts/TCGA_Normal_Gene_Set_Generation.py:127 | A row is in the set exactly when it is an all-controls row whose `id` is in the tumour set. The header and the row order are kept. |
| `NormalGeneSet.NormalControlSets` | scripts/Final_Scripts/TCGA_Normal_Gene_Set_Generation.py:119-134 | One output per tumour control set, numbered 1, 2, 3, … in order. Output N holds the all-controls rows whose `id` is in set `df{N}`. |
| `NormalGeneSet.NormalControlSetRows` | scripts/Final_Scripts/TCGA_Normal_Gene_Set_Generation.py:100-127 | A normal control set built from the controls holds exactly the table rows that are outside the SOI and whose id is in the tumour set. It is a subsequence of the all-controls rows. |

## Left out

- File I/O and printing (`read_csv`, `to_csv`, `open`, `print`) are left out. Inputs and outputs are in-memory values.
- `RawTable.ParseLines`: the line splitting and newline translation that `open(…, 'r')` and `readlines` perform are not modelled. In universal-newline mode, `readlines` turns `"\r\n"` into `"\n"` and never returns a line holding a `'\n'` other than a final one. `ParseLines` accepts arbitrary strings. `RawTable.StripExample` and `RawTable.InnerNewlineExample` describe `strip('\n')` itself, on strings the scripts never receive.
- The `pd.set_option` display settings are left out: they only affect presentation.
- The reads of previously saved outputs (TCGA_Normal_Gene_Set_Generation.py lines 21, 71 and 93) are left out, because recomputation overwrites them straight away.
- `NormalControlSets`: the loop ends because reading the missing `df{N+1}` file raises. That exception is not modelled. The series is a finite input.
- The construction of the pandas `DataFrame` from possibly ragged rows (TXT scripts line 37) is library behaviour and is not stated.
- Expression values (TPM, counts) are treated as opaque strings, since the scripts never compute with them.
- The unused imports (`random`, `numpy`, `subprocess`, `StringIO`) and `nrows = None` are left out.
- pandas renaming of duplicate column names on read is not modelled. The header is taken as pandas presents it.
- `reset_index(drop = True)` is not modelled separately. Rows are a sequence, so positions are always 0, 1, 2, ….
- The cell contents of `id` and `Gene` in the header row are not checked. The model takes the first two columns to be those identifiers.
