# Customer validation: a verified model of the reconciliation core

`MACE_VALIDATIONS.py` is a small web tool that a master-data team uses to check
SAP customer extracts against each other. It offers three comparisons:

1. **KNA1 vs KNVV.** It lists the customers that appear in one extract but not
   in the other. It then builds the left merge of the two extracts, which is
   the "KNA1+KNVV" sheet.
2. **KNA1+KNVV vs MACE.** Each merged row is looked up among the MACE rows
   that carry the same `CUSTOMER_NATURAL_ID`. The two are compared field by
   field through a fixed 15-entry column mapping. A row with no exactly
   matching MACE row is reported with a reason. Separately, the tool lists the
   MACE rows whose customer the merged sheet lacks.
3. **KNVV vs KNVP.** KNVP rows are grouped by customer. Each KNVV row is
   compared with its group on "Sales Org.", "Distr. Channel" and "Division".
   A row is reported when the group is missing or no group row agrees.

This project models that core in Dafny, on sheets that are already in memory.
A sheet is a list of column names plus rows of cells, with cells matched to
columns by position. The model covers:

- the column lookup `find_column`;
- the header clean-up: strip the names, then drop the empty ones and the
  `Unnamed…` ones;
- the cell cleaning `clean_all_text_columns`: missing cells become "",
  whitespace runs collapse to one space, and cells are stripped;
- the key set differences;
- the left merge;
- the two reconcilers.

The model follows the source's own form:

- Code that only computes is written as functions and lemmas.
- The loops of `clean_all_text_columns`, the field loop, the column loop and
  the two row loops are written as methods with loop invariants.
- Each method is proved equal to a specification function: `Cleaned`,
  `Mismatches`/`RowMismatches`, `HasExactMatch`, and `Report`.
- The properties the tool relies on are proved about those functions.

The modules are:

- `Text`: Python's whitespace class, `strip`, the `\s+` collapse, ASCII
  `lower`, and `join`.
- `Tables`: sheets, the header filter, cleaning, and the row filters `!= ''`,
  `isin` and `== key`.
- `KeyDifference`: the first comparison.
- `MaceComparison`: the second comparison.
- `KnvpComparison`: the third comparison.
- `Validations`: each comparison run from the sheets as read to the reports,
  including the errors when a stripped header repeats a name and when a key
  column is missing.

A few choices decide what the model means:

- **Headers that repeat a name once stripped.** Stripping can give two
  columns the same name ("Customer" and "Customer "). `df[col]` is then a
  data frame, which has no `.str`, so `clean_all_text_columns` raises (line
  26).
  - In the first comparison KNA1 is filtered and cleaned before KNVV.
  - In the third comparison both headers are filtered before either sheet
    is cleaned, KNVV first.
  - The model returns `Failure(RepeatedColumn(..))` for the first sheet that
    fails. The first comparison shows nothing in that case; the third shows
    the error.
  - The second comparison cleans the sheets as read. The reader renames a
    repeated header cell ("X.1"), so there names are always distinct.
- **Sheets that are missing a key column.**
  - In the first and third comparisons the key column is the one
    `find_column` returns. When it returns `None`, indexing with it raises and
    the comparison stops. The model returns `Failure(MissingColumn(..))`.
  - In the second comparison a MACE sheet without `CUSTOMER_NATURAL_ID` is
    refused first (lines 116-118).
  - Then a merged sheet without a "Customer" column fails at line 142, before
    the row loop starts. So the default of `row.get("Customer", "")` is never
    used.
- **`float(...)`.** It is the parameter `parse: string -> Option<Float>`.
  A `Float` is a finite number, an infinity or NaN; `None` stands for the
  `ValueError` that sends the comparison to the text branch. Texts such as
  "nan", "NAN" or "+nan" read as NaN, and NaN differs from every value,
  itself included. So a field can differ from an identical text.
- **Whitespace.** It is the set of characters Python's `str.isspace()` accepts,
  which is also what `\s` and `str.strip()` use. That set includes U+00A0, so
  the `"\xa0"` replacement on line 26 never changes anything; this is proved.
- **Stripped and unstripped keys in the second comparison.** Key membership
  (lines 141 and 148) uses stripped keys, while the candidate lookup (line
  154) compares the key cell unstripped. The model keeps both.
  - On cleaned sheets they agree, and the generic "Mismatch" reason can never
    be given.
  - On uncleaned sheets it can; a two-cell example proves this.
  - The script itself always cleans both sheets first.

## Model

| member | source | states |
|---|---|---|
| Text.Strip | MACE_VALIDATIONS.py:26 | `str.strip()` leaves no whitespace at either end and never lengthens the text |
| Text.NonSpaceStrip | MACE_VALIDATIONS.py:26 | stripping removes only whitespace: the other characters survive, in order |
| Text.StripIsSlice | MACE_VALIDATIONS.py:26 | the stripped text is a contiguous slice of the original |
| Text.Collapse | MACE_VALIDATIONS.py:26 | after `re.sub(r"\s+", " ", ..)` every whitespace is a single space between non-spaces, the non-whitespace characters are unchanged, a leading space stays leading, and only the empty text becomes empty |
| Text.StripCollapseIsJoinedWords | MACE_VALIDATIONS.py:26 | collapsing and then stripping gives the whitespace-separated words of the text joined by single spaces |
| Text.CollapseFixpoint | MACE_VALIDATIONS.py:26 | an already collapsed text is left unchanged by the collapse |
| Text.NbspReplaceIsNoOp | MACE_VALIDATIONS.py:26 | after the collapse no U+00A0 remains, so the `\xa0` replacement is the identity |
| Text.CleanText | MACE_VALIDATIONS.py:26 | a cleaned cell is the words of the cell (`s.split()`) joined by single spaces: every inner whitespace run becomes one space, the ends lose their whitespace, and every non-whitespace character is kept in order |
| Text.Words | MACE_VALIDATIONS.py:26 | the words of a text are non-empty and contain no whitespace |
| Text.WordsOfJoin | MACE_VALIDATIONS.py:26 | joining words with single spaces and splitting again gives back the same words |
| Text.CleanTextSameWords | MACE_VALIDATIONS.py:26 | two cells clean to the same text exactly when they have the same words |
| Text.CleanTextFixpoints | MACE_VALIDATIONS.py:26 | cleaning leaves a cell unchanged exactly when the cell is already clean |
| Text.CleanTextIdempotent | MACE_VALIDATIONS.py:26 | cleaning a cell twice gives the same as cleaning it once |
| Text.StripIdempotent | MACE_VALIDATIONS.py:142-145 | stripping a stripped key again changes nothing |
| Text.CleanIsStripped | MACE_VALIDATIONS.py:145 | a clean cell is its own strip, so the later `.strip()` calls change nothing on cleaned sheets |
| Text.Join | MACE_VALIDATIONS.py:195 | `", ".join(parts)` begins with its first part |
| Text.Lower | MACE_VALIDATIONS.py:19 | `lower()` keeps the length, leaves no upper-case ASCII letter, and changes no other character |
| Text.EqualsIgnoreCase | MACE_VALIDATIONS.py:19 | equal texts match ignoring case, and texts that match have the same length |
| Text.JoinSingle | MACE_VALIDATIONS.py:290 | joining the single "not found" reason gives that reason |
| Tables.IndexOf | MACE_VALIDATIONS.py:49 | `df[name]` reads a column carrying that name, the first one; on sheets whose names are distinct it is the only one |
| Tables.FindColumn | MACE_VALIDATIONS.py:17-21 | `None` exactly when no column equals the target ignoring case; otherwise the first column that does |
| Tables.KeepHeader | MACE_VALIDATIONS.py:35 | a kept name is non-empty; a name starting with "Unnamed", "unnamed" or "UNNAMED" is dropped; a non-empty name not starting with "u" or "U" is kept |
| Tables.KeptPositions | MACE_VALIDATIONS.py:35 | the kept positions are increasing, each names a column whose stripped name is kept, and no kept column is missed |
| Tables.FilterHeader | MACE_VALIDATIONS.py:34-35 | the header filter keeps every row, and gives each kept column its stripped name and its own cells |
| Tables.FilterHeaderNames | MACE_VALIDATIONS.py:34-35 | a name survives the filter exactly when it is the stripped name of a column, is non-empty, and does not start with "Unnamed" in any case |
| Tables.FilterHeaderKeepsOrder | MACE_VALIDATIONS.py:35 | the surviving columns keep their original relative order |
| Tables.FilterHeaderRepeats | MACE_VALIDATIONS.py:34-35 | the filtered header repeats a name exactly when two kept columns strip to the same name, as "Customer" and "Customer " do |
| Tables.Cleaned | MACE_VALIDATIONS.py:23-27 | cleaning keeps the columns and the row count; every cell becomes clean, a missing cell becomes "", and a present cell becomes its words joined by single spaces |
| Tables.CleanAllTextColumns | MACE_VALIDATIONS.py:23-27 | on a sheet whose names are distinct, the column-by-column loop ends with exactly the cleaned table (with a repeated name `df[col]` has no `.str` and the loop raises) |
| Tables.CleanColumnStep | MACE_VALIDATIONS.py:25-26 | reassigning one column cleans exactly that column, which is the loop invariant |
| Tables.CleanedIdempotent | MACE_VALIDATIONS.py:23-27 | cleaning an already cleaned table changes nothing |
| Tables.NonEmptyKey | MACE_VALIDATIONS.py:50 | `df[df[col] != '']` keeps only rows of the input with a non-empty key, and no more rows than it had |
| Tables.NonEmptyKeyMembers | MACE_VALIDATIONS.py:49-50 | `df[df[col] != '']` keeps exactly the rows with a non-empty key |
| Tables.NonEmptyKeyAppend | MACE_VALIDATIONS.py:49-50 | the empty-key filter keeps row order: filtering a concatenation concatenates the filtered parts |
| Tables.KeyIn | MACE_VALIDATIONS.py:57-58 | `df[df[col].isin(keys)]` keeps only rows of the input whose key is one of `keys` |
| Tables.KeyInMembers | MACE_VALIDATIONS.py:57-58 | `df[df[col].isin(keys)]` keeps exactly the rows whose key is one of `keys` |
| Tables.KeyInAppend | MACE_VALIDATIONS.py:57-58 | the `isin` filter keeps row order |
| Tables.RowsWithKey | MACE_VALIDATIONS.py:154 | `df[df[col] == key]` keeps only rows of the input carrying that key, and no more rows than it had |
| Tables.RowsWithKeyIsKeyIn | MACE_VALIDATIONS.py:154 | selecting with `== key` is the `isin` filter for the set holding only that key |
| Tables.RowsWithKeyMembers | MACE_VALIDATIONS.py:154 | `df[df[col] == key]` keeps exactly the rows carrying that key |
| Tables.KeyInNonEmpty | MACE_VALIDATIONS.py:256 | when no key is empty, dropping the empty-key rows first changes nothing |
| Tables.KeySet | MACE_VALIDATIONS.py:53-54 | `set(df[col])` holds exactly the keys that some row carries |
| Tables.StrippedKeySet | MACE_VALIDATIONS.py:141 | the stripped key set has at most one key per row |
| Tables.StrippedKeySetMembers | MACE_VALIDATIONS.py:141 | a key is in `set(df[col].astype(str).str.strip())` exactly when some row's cell strips to it |
| Tables.StrippedKeySetOfClean | MACE_VALIDATIONS.py:203-204 | on clean cells the stripped key set is the plain key set |
| KeyDifference.Keys | MACE_VALIDATIONS.py:49-54 | the key set of the rows with a customer holds exactly the non-empty keys that some row carries |
| KeyDifference.DiffByKey | MACE_VALIDATIONS.py:49-58 | each result holds only rows of its own side with a non-empty customer that the other side lacks, and is no longer than its side |
| KeyDifference.DiffLeftOnly | MACE_VALIDATIONS.py:49-57 | `df_diff1` holds exactly the KNA1 rows with a non-empty customer that KNVV lacks |
| KeyDifference.DiffRightOnly | MACE_VALIDATIONS.py:49-58 | `df_diff2` holds exactly the KNVV rows with a non-empty customer that KNA1 lacks |
| KeyDifference.DiffSymmetric | MACE_VALIDATIONS.py:57-58 | swapping the two sheets swaps the two results |
| KeyDifference.DiffKeysDisjoint | MACE_VALIDATIONS.py:53-58 | no customer appears in both results |
| KeyDifference.DiffComplete | MACE_VALIDATIONS.py:53-58 | a customer on one side only is reported on that side only; a customer on both sides is reported on neither |
| KeyDifference.LeftKept | MACE_VALIDATIONS.py:82 | the left columns that survive are exactly those whose names do not end in `_KNVV` |
| KeyDifference.RightKept | MACE_VALIDATIONS.py:72-82 | the right columns that survive are exactly those whose names neither collide with a left name (they become `_KNVV` names) nor end in `_KNVV` |
| KeyDifference.MergedRowsFor | MACE_VALIDATIONS.py:72-79 | a left row gives one merged row per right row with its key, made of the left row's kept cells followed by that right row's kept cells; when there is no such right row it gives one row whose right cells are empty |
| KeyDifference.MergeCount | MACE_VALIDATIONS.py:72-79 | the join's row count is at least one per left row |
| KeyDifference.MergedRows | MACE_VALIDATIONS.py:72-79 | the merge has exactly the join's row count, each row with one cell per kept column |
| KeyDifference.MergedRowsJoin | MACE_VALIDATIONS.py:72-79 | every merged row is a left row's kept cells followed by the kept cells of a right row with the same key, or by empty cells when no right row has that key |
| KeyDifference.MergedRowsComplete | MACE_VALIDATIONS.py:72-79 | every pair of a left row and a right row with the same key appears as a merged row |
| KeyDifference.LeftMerge | MACE_VALIDATIONS.py:72-82 | the merged sheet is rectangular, has exactly the join's row count, and has no `_KNVV` column |
| KeyDifference.LeftMergeColumns | MACE_VALIDATIONS.py:72-82 | a name is a merged column exactly when it does not end in `_KNVV` and is a left name or a right name the left side lacks |
| KeyDifference.LeftMergeRows | MACE_VALIDATIONS.py:72-82 | the merged rows are the key join of the two sheets: each joins a left row with a right row of the same key (or empty cells), and every such pair appears |
| KeyDifference.MergedRowsAppend | MACE_VALIDATIONS.py:72-79 | the merge handles left rows one at a time, in left order |
| KeyDifference.MergedRowsUniqueKeys | MACE_VALIDATIONS.py:72-79 | with at most one right row per key, the merge has exactly one row per left row |
| KnvpComparison.ColumnMismatches | MACE_VALIDATIONS.py:275-280 | the list of differing columns is no longer than the list of columns checked |
| KnvpComparison.ColumnMismatchesListed | MACE_VALIDATIONS.py:275-280 | a column is listed exactly when it is a comparison column, present on both sides, with different stripped values |
| KnvpComparison.Group | MACE_VALIDATIONS.py:263-271 | every group row is a full KNVP row |
| KnvpComparison.GroupOfCleanRows | MACE_VALIDATIONS.py:256-271 | the group of a customer is the part of `df_knvp_clean` that carries it, in KNVP order |
| KnvpComparison.GroupMembers | MACE_VALIDATIONS.py:256-271 | the group holds exactly the KNVP rows carrying the non-empty customer |
| KnvpComparison.GroupedKeys | MACE_VALIDATIONS.py:263-270 | `cust in knvp_grouped.groups` exactly when its group is not empty |
| KnvpComparison.HasExactMatchIff | MACE_VALIDATIONS.py:273-284 | the scan finds an agreeing row exactly when some group row has no mismatch |
| KnvpComparison.Verdict | MACE_VALIDATIONS.py:266-294 | a row without a group gets "Customer not found in KNVP"; a row is not reported exactly when some group row agrees on every comparison column |
| KnvpComparison.Entry | MACE_VALIDATIONS.py:292-294 | a row adds nothing exactly when it is not reported; otherwise it adds itself, once, with its verdict's reason |
| KnvpComparison.Report | MACE_VALIDATIONS.py:265-294 | the report has at most one entry per row, and each entry carries its own row's verdict as reason |
| KnvpComparison.KnvvWithCustomerMembers | MACE_VALIDATIONS.py:255-265 | the loop visits exactly the KNVV rows with a non-empty customer |
| KnvpComparison.CompareColumns | MACE_VALIDATIONS.py:274-280 | the column loop builds exactly the row's list of differing comparison columns |
| KnvpComparison.ScanGroup | MACE_VALIDATIONS.py:273-287 | the group loop finds a match exactly when one exists; otherwise it keeps the first group row's mismatch list |
| KnvpComparison.CheckRow | MACE_VALIDATIONS.py:266-294 | one KNVV row is reported, with its reason, exactly as the row's verdict says |
| KnvpComparison.RecordRow | MACE_VALIDATIONS.py:292-294 | appending the checked row keeps the lists equal to the report on the rows seen so far |
| KnvpComparison.ReconcileWithKnvp | MACE_VALIDATIONS.py:260-294 | `mismatched_rows` and `reasons` have the same length, and paired together they are the report on the KNVV rows with a customer |
| KnvpComparison.ReportAppend | MACE_VALIDATIONS.py:265-294 | rows are reported at most once each, in KNVV order |
| KnvpComparison.ReportedRowsFrom | MACE_VALIDATIONS.py:293 | every reported row is one of the rows scanned |
| KnvpComparison.MismatchReason | MACE_VALIDATIONS.py:290-294 | a joined list of differing columns is never empty and never the "not found" reason |
| KnvpComparison.NotFoundIffNoGroup | MACE_VALIDATIONS.py:270-294 | the reason is "Customer not found in KNVP" exactly when the customer has no group |
| KnvpComparison.ExactMatchSuppresses | MACE_VALIDATIONS.py:282-284 | one group row that agrees on every comparison column suppresses the KNVV row |
| KnvpComparison.FirstGroupRowReason | MACE_VALIDATIONS.py:286-294 | without an agreeing row, the reason is the first group row's non-empty mismatch list joined by ", " |
| KnvpComparison.ReasonNeverEmpty | MACE_VALIDATIONS.py:294 | every reason given is non-empty |
| KnvpComparison.TextOnlyComparison | MACE_VALIDATIONS.py:277-280 | values are compared as text, so "10" and "10.0" differ |
| KnvpComparison.MissingColumnNeverListed | MACE_VALIDATIONS.py:276 | a comparison column missing from either sheet never contributes |
| MaceComparison.Mismatches | MACE_VALIDATIONS.py:161-182 | the list of differing mapped fields is no longer than the mapping |
| MaceComparison.MismatchesListed | MACE_VALIDATIONS.py:161-182 | a name is listed exactly when some mapped pair with that merged-side name differs |
| MaceComparison.Ignored | MACE_VALIDATIONS.py:168-174 | a skipped value is empty or nine characters long; "" and "not found" in its usual capitalisations are skipped |
| MaceComparison.ValuesDiffer | MACE_VALIDATIONS.py:177-182 | when either side is not a number the values compare as text; NaN differs from every value; two texts reading as the same non-NaN number agree |
| MaceComparison.FieldDiffers | MACE_VALIDATIONS.py:162-182 | a pair differs only when both columns exist; a present pair with the same stripped text, not read as NaN, never differs |
| MaceComparison.Candidates | MACE_VALIDATIONS.py:154 | every candidate is a full MACE row |
| MaceComparison.CandidatesMembers | MACE_VALIDATIONS.py:154 | the candidates are exactly the MACE rows whose unstripped key equals the customer |
| MaceComparison.HasExactMatchIff | MACE_VALIDATIONS.py:158-187 | the scan finds an agreeing candidate exactly when some candidate has no mismatch |
| MaceComparison.Verdict | MACE_VALIDATIONS.py:145-195 | a customer that is no MACE key gets "Customer not found in MACE"; a row is not reported exactly when its customer is a MACE key and some candidate agrees on every mapped field |
| MaceComparison.Entry | MACE_VALIDATIONS.py:193-195 | a row adds nothing exactly when it is not reported; otherwise it adds itself, once, with its verdict's reason |
| MaceComparison.Report | MACE_VALIDATIONS.py:144-195 | the report has at most one entry per row, and each entry carries its own row's verdict as reason |
| MaceComparison.CompareField | MACE_VALIDATIONS.py:162-182 | one pair is recorded exactly when both columns exist, neither stripped value is blank or "not found", and the values differ (as numbers when both parse, as text otherwise) |
| MaceComparison.CompareMapped | MACE_VALIDATIONS.py:159-182 | the field loop builds exactly the candidate's list of differing fields, in mapping order |
| MaceComparison.ScanCandidates | MACE_VALIDATIONS.py:155-191 | the candidate loop finds a match exactly when one exists; otherwise it keeps the first candidate's mismatch list |
| MaceComparison.CheckRow | MACE_VALIDATIONS.py:145-195 | one merged row is reported, with its reason, exactly as the row's verdict says |
| MaceComparison.ReconcileWithMace | MACE_VALIDATIONS.py:139-195 | `merged_not_in_mace` and `mismatch_reason` have the same length, and paired together they are the report on the merged rows |
| MaceComparison.ReportAppend | MACE_VALIDATIONS.py:144-195 | rows are reported at most once each, in merged-sheet order |
| MaceComparison.ReportSingle | MACE_VALIDATIONS.py:193-195 | a row adds nothing to the report, or itself once with its reason |
| MaceComparison.NotFoundReported | MACE_VALIDATIONS.py:145-151 | a row whose stripped customer is not a MACE key is reported once, with "Customer not found in MACE" |
| MaceComparison.ExactMatchSuppresses | MACE_VALIDATIONS.py:154-187 | one MACE row with the key and no mismatch suppresses the row, wherever it stands among the candidates |
| MaceComparison.FirstCandidateReason | MACE_VALIDATIONS.py:189-195 | without an agreeing candidate, the reason is the first candidate's non-empty mismatch list joined by ", " |
| MaceComparison.ValuesDifferOnlyIfTextsDiffer | MACE_VALIDATIONS.py:177-182 | the numeric stage only forgives, except for NaN: values that differ are different texts or read as NaN, and a text differs from itself exactly when it reads as NaN |
| MaceComparison.NumericEquivalence | MACE_VALIDATIONS.py:177-182 | with a parser reading "10" and "10.0" as 10 and "11" as 11, "10" matches "10.0" and not "11" |
| MaceComparison.ColumnMappingShape | MACE_VALIDATIONS.py:121-137 | the mapping's merged-side names are distinct, and it pairs "Customer" with CUSTOMER_NATURAL_ID |
| MaceComparison.ListedOnlyBy | MACE_VALIDATIONS.py:161-182 | with distinct names, a field is listed exactly when its own pair differs |
| MaceComparison.SkippedFieldNeverListed | MACE_VALIDATIONS.py:162-175 | a pair with a missing column, or with a blank or "not found" value, is never listed |
| MaceComparison.ComparedFieldListed | MACE_VALIDATIONS.py:165-182 | a present pair whose values are not skipped is listed exactly when the values differ |
| MaceComparison.KeyFieldListedOnlyIfNan | MACE_VALIDATIONS.py:122-182 | "Customer" appears in a reason exactly when the key is not skipped and reads as NaN: every candidate carries the row's key, so only NaN makes it differ from itself |
| MaceComparison.CleanedKeysHaveCandidates | MACE_VALIDATIONS.py:141-154 | on a cleaned MACE sheet every MACE key has a candidate |
| MaceComparison.MappedReason | MACE_VALIDATIONS.py:121-195 | with the script's mapping, a non-empty mismatch list joined is never "Mismatch" |
| MaceComparison.CleanedNeverGenericMismatch | MACE_VALIDATIONS.py:141-195 | on a cleaned MACE sheet the reason is never the generic "Mismatch" |
| MaceComparison.UncleanKeyGivesGenericMismatch | MACE_VALIDATIONS.py:141-195 | on an uncleaned MACE sheet (a key cell " " against an empty customer) the reason is "Mismatch" |
| MaceComparison.SuppressionIgnoresMaceOrder | MACE_VALIDATIONS.py:154-187 | reordering the MACE rows never changes whether a merged row is reported |
| MaceComparison.MaceOnly | MACE_VALIDATIONS.py:203-205 | lists only MACE rows, at most all of them, each with a key that is a stripped MACE key and no stripped merged key |
| MaceComparison.MaceOnlyOfCleaned | MACE_VALIDATIONS.py:203-205 | on cleaned sheets a MACE row is listed exactly when no merged row carries its key (an empty key included) |
| MaceComparison.MaceOnlyDisjointFromMerged | MACE_VALIDATIONS.py:203-205 | a listed MACE row's key is never a merged row's customer |
| Validations.Prepared | MACE_VALIDATIONS.py:34-36 | a prepared sheet is rectangular and keeps every row |
| Validations.PreparedShape | MACE_VALIDATIONS.py:34-36 | a prepared sheet has only clean cells and only wanted, stripped column names |
| Validations.KeyComparison | MACE_VALIDATIONS.py:44-82 | the KNA1-only rows are KNA1 rows whose customer KNVV lacks, and the other way round; the merge is rectangular with at least one row per KNA1 row with a customer |
| Validations.CompareKna1Knvv | MACE_VALIDATIONS.py:33-82 | fails with the first sheet (KNA1, then KNVV) whose stripped header repeats a name, then with the first whose "Customer" column is missing; otherwise gives the two difference lists and the merge |
| Validations.Kna1OnlyMeaning | MACE_VALIDATIONS.py:49-57 | the KNA1-only list holds exactly the KNA1 rows with a customer that KNVV lacks |
| Validations.KnvvOnlyMeaning | MACE_VALIDATIONS.py:49-58 | the KNVV-only list holds exactly the KNVV rows with a customer that KNA1 lacks |
| Validations.MergedMeaning | MACE_VALIDATIONS.py:72-82 | the merged view has exactly the join's row count, so at least one row per KNA1 row with a customer, and no `_KNVV` column |
| Validations.CompareWithMace | MACE_VALIDATIONS.py:107-205 | refuses a MACE sheet without CUSTOMER_NATURAL_ID, then fails on a merged sheet without "Customer"; otherwise gives the report on the merged rows and the MACE-only rows |
| Validations.MaceReportMeaning | MACE_VALIDATIONS.py:141-205 | on the cleaned sheets the reason is never "Mismatch", and a MACE row is listed exactly when its key is no merged customer |
| Validations.CompareKnvvKnvp | MACE_VALIDATIONS.py:238-298 | fails with the first sheet (KNVV, then KNVP) whose stripped header repeats a name, then with the first whose "Customer" column is missing; otherwise gives the report on the KNVV rows with a customer |

## Left out

- The web interface is not modelled: tabs, uploaders, buttons, spinners, the
  counts and tables shown, and the download buttons. It is presentation only.
- Reading the workbooks (`pd.read_excel` with `header=4, skiprows=[5]`) and
  writing them (`ExcelWriter`, `BytesIO`) are not modelled; they are library
  I/O. Each comparison starts from sheets whose cells are text or missing.
- The `try`/`except` blocks that catch a reading failure and show it are not
  modelled. The errors the script's own logic raises are modelled: a
  stripped header that repeats a name, and a missing key column.
- Attaching the "Mismatch Reason" column and renumbering the display index
  from 1 (lines 59-60, 85, 197-200, 206, 296-299) are not modelled; they are
  cosmetic.
- `float(...)` is the `parse` parameter. Its results (finite values,
  infinities, NaN) and their comparison are modelled; which texts Python
  accepts as numbers, and rounding, are not.
- The rendering of numbers and NaN by `astype(str)` is not modelled. Cells are
  text once a sheet is read, and a missing cell is `None`.
- Text.Lower: only ASCII letters are folded. Python's `lower()` also folds
  other scripts, but it folds no non-ASCII character to the letters of
  "customer", "unnamed" or "not found" except that U+212A KELVIN SIGN lowers
  to "k", which none of these words contains.
- Validations.CompareWithMace: it requires the names of each sheet to be
  distinct. pandas' reader makes them so by renaming a repeated header cell;
  that renaming is not modelled.
- KeyDifference.MergedRowsFor: a left row without a KNVV match gets "" in its
  KNVV cells, where pandas puts NaN. The merged view is only displayed and
  downloaded, so nothing in the model reads those cells.
- KeyDifference.LeftMerge: the columns follow pandas' renaming rule. A right
  column whose name the left side already uses becomes `<name>_KNVV` and is
  then dropped. pandas' handling of a collision involving the key columns
  themselves is not modelled further.
