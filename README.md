# DEploid-vcf-lib readers in Dafny

This project models the two input readers of DEploid-vcf-lib:

- `VcfReader` reads a VCF file of one sample's variants.
- `TxtReader` reads a whitespace- or comma-separated table with a header line. Its rows are CHROM, POS and one or more numbers.

Both readers do the same pass over their input. They test the first two
bytes for the gzip magic and split each line into fields with an inline
cursor loop (`min` of several `find` calls, then `substr`). They parse the
fields of every data line and build the chromosome index:

- one name per run of consecutive rows with the same chromosome;
- each name's positions, in file order.

The VCF reader does more:

- it checks the nine fixed columns of the `#CHROM` line;
- it picks the sample column;
- from each data line it takes VQSLOD and AF (from INFO), the AD tag index (from FORMAT) and the allele depths (from the sample column);
- it builds the flat ref/alt/VQSLOD/PLAF arrays;
- it selects markers by VQSLOD threshold, in a plain and a "Half" policy.

Both readers can also compact their markers to a list of kept indices.

## Layout

| module (file) | contents |
|---|---|
| `Results` (results.dfy) | `Option`, `Result` and `Outcome` values, which stand in for the C++ exceptions |
| `LoadErrors` (load_errors.dfy) | one constructor per exception a load can end with |
| `Tokenizer` (tokenizer.dfy) | `find` and the cursor loop, the field split `Tokenize`, and its inverse `Join` |
| `Numbers` (numbers.dfy) | `stoi` on plain digit strings, `maybe_dot_to_integer`, decimal printing |
| `Gzip` (gzip.dfy) | the two-byte gzip magic test |
| `ChromRuns` (chrom_runs.dfy) | what it means for (names, position lists) to index a labelled sequence of markers |
| `Selection` (selection.dfy) | index-list compaction, and the two VQSLOD selection policies |
| `Variants` (variant_line.dfy) | the `VariantLine` constructor and its `extract_field_*` steps |
| `Vcf` (vcf_reader.dfy) | class `VcfReader`, with the header check, chromosome list, compaction, selection and flat arrays |
| `Txt` (txt_reader.dfy) | class `TxtReader`, with the header, row and field loops, reshape to `info`, compaction and the whole load |

Each loop of the modelled functions is a `method` with a `while` or `for` loop. It is proved equal to a specification function, as follows:

- `ParseVariantLine` and `VariantSpec`;
- `ScanHeader` and `HeaderFrom`, with `CheckFields` applying the scan as `CheckFieldsSpec` says;
- `GetChromList` and `ChromListSpec`;
- `ReadFields` and `ReadRow`, and `RowSpec`;
- `ReadRows` and `RowsSpec`;
- `ReadFromFileBase` and `LoadSpec`.

Lemmas state what those functions mean:

- the index built really indexes the markers (`Indexed`);
- a selection keeps exactly the markers whose VQSLOD passes;
- the error reported is the first one met;
- several round trips hold (tokenize and join; a header read back; stoi of a printed number; AD of printed counts).

The reader classes keep the source's member names as fields. Their methods
modify only the members the C++ methods assign.

## Model

| member | source | states |
|---|---|---|
| Tokenizer.Find | src/vcfReader.cpp:146-147 | `find(c, from)` returns an index at or after `from`, holding `c` when inside the text, with the text length standing for npos |
| Tokenizer.FindFirst | src/vcfReader.cpp:146-147 | no character between `from` and the found index is `c`: `find` returns the first occurrence |
| Tokenizer.MinFind2 | src/vcfReader.cpp:146-147 | the `min` of the two `find` results is the nearest character of the two-delimiter set |
| Tokenizer.MinFind4 | src/txtReader.cpp:77-82 | the nested `min` of four `find` results is the nearest space, comma, tab or newline |
| Tokenizer.CursorAdvance | src/vcfReader.cpp:145-177 | one loop round: the `substr` from the cursor to the next delimiter is the next field of the line, and the loop resumes after that delimiter |
| Tokenizer.NextField | src/vcfReader.cpp:285-289 | the readers' two-delimiter field step yields exactly the next field of the tokenized line and keeps the cursor invariant |
| Tokenizer.NextTxtField | src/txtReader.cpp:76-85 | the text reader's four-delimiter field step yields exactly the next field and keeps the cursor invariant |
| Tokenizer.Tokenize | src/txtReader.cpp:151-167 | a line has no fields exactly when it is empty |
| Tokenizer.TokenizeEmpty | src/txtReader.cpp:151 | an empty line is never entered by a field loop: it has no fields |
| Tokenizer.TokenizeNoDelimiter | src/txtReader.cpp:77-85 | no field ever contains one of the delimiters it was split on |
| Tokenizer.TokenizeCount | src/txtReader.cpp:76-96 | a non-empty line has one more field than it has delimiter characters |
| Tokenizer.TrailingDelimiter | src/vcfReader.cpp:145-178 | the last field is empty exactly when the line ends in a delimiter (the loop still runs once more after a trailing tab) |
| Tokenizer.JoinTokenize | src/vcfReader.cpp:145-149 | splitting on one delimiter and joining with it gives the line back |
| Tokenizer.TokenizeJoin | src/txtReader.cpp:151-167 | joining delimiter-free fields with a delimiter of the set and splitting gives the fields back |
| Numbers.ParseInt | src/txtReader.cpp:201 | stoi on a plain digit string up to INT_MAX, as ParseDecimal and ParseIntRejectsNonDigit state; anything else fails |
| Numbers.MaybeDotToInteger | src/vcfReader.cpp:419-424 | an accepted count lies between 0 and INT_MAX |
| Numbers.MaybeDotAccepts | src/vcfReader.cpp:419-424 | only "." or a non-empty digit string is accepted |
| Numbers.MaybeDotMissing | src/vcfReader.cpp:420-421 | a missing count "." reads as 0 |
| Numbers.MaybeDotDecimal | src/vcfReader.cpp:419-424 | every count printed in decimal up to INT_MAX reads back as itself |
| Numbers.MaybeDotEmpty | src/vcfReader.cpp:423 | an empty count is rejected |
| Numbers.MaybeDotRejectsNonDigit | src/vcfReader.cpp:423 | any text other than "." holding a non-digit is rejected |
| Numbers.DecimalValue | src/vcfReader.cpp:423 | the decimal value of a printed number is the number |
| Numbers.ParseDecimal | src/vcfReader.cpp:423 | stoi reads back every printed value up to INT_MAX |
| Numbers.ParseIntRejectsNonDigit | src/txtReader.cpp:201-206 | a text with a character other than a digit is rejected by the integer parse |
| Gzip.IsCompressedFile | src/vcfReader.cpp:60-65 | the file is gzip exactly when its first two bytes are 0x1F 0x8B |
| Gzip.PrintableStartIsPlain | src/txtReader.cpp:136-141 | a file starting with a printable character is read as plain text |
| ChromRuns.CollapseRuns | src/vcfReader.cpp:218-231 | the run names are never more than the labels, none only for no labels, end with the last label and have no two equal neighbours |
| ChromRuns.IndexedEmpty | src/vcfReader.cpp:209-213 | no markers are indexed by no runs |
| ChromRuns.IndexedNew | src/vcfReader.cpp:219-225 | a marker with a new label opens a run, and the index still indexes the longer marker list |
| ChromRuns.IndexedSame | src/vcfReader.cpp:225-227 | a marker with the previous label extends the last run, and the index still indexes the longer marker list |
| Selection.Select | src/vcfReader.cpp:236-244 | compaction by an index list: entry `k` of the result is entry `idx[k]` of the input |
| Selection.RangeAbove | src/vcfReader.cpp:270-275 | the indices of one window whose VQSLOD is above the threshold, in order, as RangeAboveSpec states |
| Selection.LegitIndices | src/vcfReader.cpp:249-257 | the plain selection, whose meaning LegitIndicesSpec and SelectLegit state |
| Selection.HalfIndices | src/vcfReader.cpp:260-278 | the Half selection over the first `c` runs, whose meaning HalfIndicesSpec states |
| Selection.SelectIdentity | src/vcfReader.cpp:236-244 | compacting with the identity index list leaves the markers unchanged |
| Selection.SelectCompose | src/txtReader.cpp:219-228 | two compactions in a row are one compaction with the composed index list |
| Selection.RangeAboveSpec | src/vcfReader.cpp:270-275 | the indices kept from a window are strictly increasing, lie in the window, and are exactly those whose VQSLOD exceeds the threshold |
| Selection.LegitIndicesSpec | src/vcfReader.cpp:249-257 | the plain policy keeps exactly the markers whose VQSLOD is strictly above the threshold, in increasing order |
| Selection.LegitExample | src/vcfReader.cpp:252-256 | VQSLODs 5, 15, 8, 20 with threshold 10 keep indices 1 and 3 |
| Selection.SelectLegit | src/vcfReader.cpp:252-256 | compacting the VQSLOD list with the plain selection gives the values above the threshold, in order, as an independent filter does |
| Selection.HalfIndicesStep | src/vcfReader.cpp:264-277 | finishing run `c` appends that run's kept markers to the earlier ones |
| Selection.RunKeptMember | src/vcfReader.cpp:269-276 | a marker is kept from a run exactly when the run's ordinal is above 10, it lies in the run and its VQSLOD passes |
| Selection.ConcatMember | src/vcfReader.cpp:264-277 | an index is in the run-by-run result exactly when one run kept it |
| Selection.ConcatIncreasing | src/vcfReader.cpp:264-277 | increasing lists from consecutive windows concatenate to an increasing list |
| Selection.HalfIndicesSpec | src/vcfReader.cpp:260-278 | the Half policy keeps exactly the markers in a run of ordinal above 10 whose VQSLOD passes |
| Selection.HalfIncreasing | src/vcfReader.cpp:260-278 | with runs laid out one after another, the Half selection is strictly increasing |
| Variants.InfoSpec | src/vcfReader.cpp:358-392 | INFO: the last VQSLOD and AF values through toReal, or VcfVQSLODNotFound, as LastValueSpec and InfoNotFound state |
| Variants.EntryRoundTrip | src/vcfReader.cpp:370-375 | an entry `key=value` with no '=' in the key reads back as that name and that value |
| Variants.LastValueSpec | src/vcfReader.cpp:365-385 | the value found for a name is absent exactly when no entry has the name, and otherwise is that of an entry with no later namesake (later entries overwrite) |
| Variants.InfoNotFound | src/vcfReader.cpp:387-389 | INFO is rejected exactly when no entry is named VQSLOD, with VcfVQSLODNotFound on the INFO text |
| Variants.InfoIgnoresAf | src/vcfReader.cpp:378-381 | without PLAF extraction, AF entries leave PLAF unset |
| Variants.InfoExample | src/vcfReader.cpp:358-392 | `VQSLOD=10.5;AF=0.3` yields VQSLOD 10.5 and PLAF 0.3 |
| Variants.InfoMissingExample | src/vcfReader.cpp:387-389 | `AF=0.3` is rejected for its missing VQSLOD |
| Variants.InfoStep | src/vcfReader.cpp:372-381 | one more entry named VQSLOD or AF replaces the value seen so far; any other entry changes nothing |
| Variants.InfoEntry | src/vcfReader.cpp:370-381 | one entry's loop body: VQSLOD clears the not-found flag and sets the value, AF sets PLAF only when extracting it |
| Variants.ExtractInfo | src/vcfReader.cpp:358-392 | the INFO loop's VQSLOD, PLAF and error are those of the last VQSLOD and AF entries |
| Variants.AdIndexSpec | src/vcfReader.cpp:395-416 | FORMAT: the first AD index, or VcfCoverageFieldNotFound, as AdIndexCharacterised states |
| Variants.FirstIndex | src/vcfReader.cpp:401-411 | absent exactly when the tag is not there, otherwise the first index holding the tag |
| Variants.AdIndexCharacterised | src/vcfReader.cpp:395-416 | FORMAT is rejected exactly when no tag is `AD`; otherwise the AD index is the first tag equal to `AD` |
| Variants.AdIndexExample | src/vcfReader.cpp:401-411 | `GT:AD:DP` has its AD tag at index 1 |
| Variants.AdIndexMissingExample | src/vcfReader.cpp:412-414 | `GT:DP` is rejected with VcfCoverageFieldNotFound |
| Variants.ExtractFormat | src/vcfReader.cpp:395-416 | the FORMAT loop stops at the first AD tag and returns its index, or the error |
| Variants.NFields | src/vcfReader.cpp:426-432 | `n_fields` is the number of delimiter characters plus one |
| Variants.NFieldsCountsFields | src/vcfReader.cpp:426-432 | on a non-empty text, `n_fields` equals the number of fields the tokenizer finds |
| Variants.ParseAd | src/vcfReader.cpp:446-458 | AD: two counts separated by one comma, or the error, as ParseAdRoundTrip and ParseAdOneComma state |
| Variants.ParseAdRoundTrip | src/vcfReader.cpp:446-458 | two counts printed as `ref,alt` parse back to those counts |
| Variants.ParseAdOneComma | src/vcfReader.cpp:446-451 | an accepted AD has exactly one comma; any other count is rejected with the number of counts found |
| Variants.ParseAdExample | src/vcfReader.cpp:453-458 | `7,3` gives depths 7 and 3 |
| Variants.ParseAdDotExample | src/vcfReader.cpp:457 | `.,5` gives depths 0 and 5 |
| Variants.ParseAdThreeExample | src/vcfReader.cpp:446-451 | `1,2,3` is rejected for its three counts |
| Variants.ParseAdOneExample | src/vcfReader.cpp:446-451 | `7` is rejected for its one count |
| Variants.SampleSpec | src/vcfReader.cpp:434-470 | the sample column: the AD sub-field's depths when there is one, as ExtractSample states |
| Variants.ExtractSample | src/vcfReader.cpp:434-470 | the sample loop parses the sub-field at the AD index, if there is one; no AD index, or one past the last sub-field, sets no depth |
| Variants.VariantSpec | src/vcfReader.cpp:281-309 | the whole line: its variant or its first error, as VariantColumns, VariantErrorOrder and VariantIgnoresLaterColumns state |
| Variants.VariantColumns | src/vcfReader.cpp:281-309 | with the sample column past FORMAT, an accepted line fills the nine fixed columns in order, takes VQSLOD and PLAF from INFO, and takes the depths from the AD sub-field |
| Variants.VariantIgnoresLaterColumns | src/vcfReader.cpp:302-305 | two lines that agree up to the sample column parse alike |
| Variants.VariantErrorOrder | src/vcfReader.cpp:290-300 | a bad INFO is reported before a bad FORMAT, and a bad FORMAT before the sample |
| Variants.VariantAtSample | src/vcfReader.cpp:302-304 | at the sample column, the line's result is the fields so far with the sample's depths |
| Variants.VariantShortLine | src/vcfReader.cpp:285-308 | a line that ends before the sample column leaves the depths unset |
| Variants.StoreField | src/vcfReader.cpp:290-300 | the field dispatch fails exactly on a bad INFO at column 7 or a bad FORMAT at column 8; otherwise it advances the read-so-far state by one column |
| Variants.StoreSample | src/vcfReader.cpp:302-304 | reading the sample column ends the constructor with the line's result |
| Variants.ParseVariantLine | src/vcfReader.cpp:281-309 | the constructor's field loop computes the line's variant or its first error |
| Vcf.HeaderSkip | src/vcfReader.cpp:145-177 | fields that pass the fixed-name check, do not match the sample and adopt nothing are passed over |
| Vcf.HeaderFrom | src/vcfReader.cpp:145-178 | the header scan from one field on, whose meaning HeaderSkip, HeaderFindsSample and HeaderMismatch state |
| Vcf.CheckFieldsSpec | src/vcfReader.cpp:140-185 | checkFeilds on a header line: the sample and its column, or the first error |
| Vcf.HeaderContinue | src/vcfReader.cpp:163-177 | a field that is its fixed name, adopts nothing and differs from the sample name moves the scan to the next field |
| Vcf.HeaderFromFailure | src/vcfReader.cpp:163-165 | the header scan fails only with VcfInvalidHeaderFieldNames |
| Vcf.ScanHeader | src/vcfReader.cpp:141-178 | the find-based field loop on the #CHROM line computes the header scan: the first misplaced fixed column, or the adopted name and the first column matching it |
| Vcf.HeaderAdoptsFirstSample | src/vcfReader.cpp:167-174 | with no sample name given, the column after FORMAT becomes the sample, at index 9 |
| Vcf.HeaderFindsSample | src/vcfReader.cpp:145-182 | with the fixed columns in place, a named sample is matched at its first column (rejected only at column 0); with no column of that name the prior column index decides, where 0 means InvalidSampleInVcf |
| Vcf.HeaderMismatch | src/vcfReader.cpp:151-165 | the first fixed column out of place is reported with its expected and actual names |
| Vcf.HeaderSampleNamedLikeColumn | src/vcfReader.cpp:171-182 | a sample named `POS` matches column 1, and one named `#CHROM` matches column 0 and is then rejected |
| Vcf.ChromStep | src/vcfReader.cpp:219-227 | one variant of getChromList, whose cases ChromStepFirst, ChromStepNewRun and ChromStepSameRun state |
| Vcf.ScanChroms | src/vcfReader.cpp:218-228 | the getChromList loop after `n` variants, as ScanChromsIndexed and ScanChromsFlat state |
| Vcf.ChromListSpec | src/vcfReader.cpp:208-233 | getChromList with the last run closed, as ChromListAll and ChromListIndexes state |
| Vcf.ScanChromsFailureStays | src/vcfReader.cpp:225-226 | once a POS is rejected, getChromList stays rejected with that error |
| Vcf.ScanChromsFailure | src/vcfReader.cpp:225-226 | the scan fails exactly when some POS is not an integer, with the first such POS |
| Vcf.ChromListFailure | src/vcfReader.cpp:208-233 | getChromList fails exactly when some POS is not an integer |
| Vcf.ChromStepNewRun | src/vcfReader.cpp:219-227 | a label different from a non-empty previous one closes the run and starts a new one |
| Vcf.ChromStepSameRun | src/vcfReader.cpp:225-227 | the previous label again appends its position to the current run |
| Vcf.ChromStepFirst | src/vcfReader.cpp:215-227 | the first variant opens the first run |
| Vcf.ScanChromsIndexed | src/vcfReader.cpp:218-228 | with non-empty labels, the closed runs plus the current run index the variants read so far |
| Vcf.ChromListIndexes | src/vcfReader.cpp:208-233 | with non-empty labels and integer positions, the list has one name per run of equal labels, in order, each with the run's positions in order |
| Vcf.ChromStepFlat | src/vcfReader.cpp:219-227 | whatever its label, one variant adds its position after the positions read and keeps one list per finished name |
| Vcf.ScanChromsFlat | src/vcfReader.cpp:218-228 | for any labels, the finished lists followed by the current one are the positions read, one list per finished name |
| Vcf.ChromListAll | src/vcfReader.cpp:208-233 | for any labels, chrom and position have equal length (the assert at line 232) and the lists together are the POS values in order |
| Vcf.ChromListNoVariants | src/vcfReader.cpp:230-232 | with no variants the list holds one empty name with no positions |
| Vcf.ChromListEmptyLabelMerges | src/vcfReader.cpp:219-220 | a variant with an empty CHROM closes no run; its position joins the next label's run |
| Vcf.FlatArraysSelect | src/vcfReader.cpp:84-90 | compacting and then building the flat arrays equals compacting each array |
| Vcf.LegitVariants | src/vcfReader.cpp:249-257 | selecting over the VQSLOD array keeps exactly the variants whose VQSLOD passes, in increasing order |
| Vcf.FlatArraysStep | src/vcfReader.cpp:85-90 | one more variant appends one entry to each flat array |
| Vcf.VcfReader.constructor | src/vcfReader.cpp:38-43 | the members set before the file is read; sample column 0 |
| Vcf.VcfReader.CheckFileCompressed | src/vcfReader.cpp:53-66 | the compressed flag is set exactly for the gzip magic |
| Vcf.VcfReader.CheckFields | src/vcfReader.cpp:140-185 | checkFeilds sets the sample name and column the header check gives, or reports its error; a rejected line leaves the sample name, and an unfound sample with column 0 gives InvalidSampleInVcf |
| Vcf.VcfReader.GetChromList | src/vcfReader.cpp:208-233 | the chromosome names and position lists are those of the chromosome-list function, or its error |
| Vcf.VcfReader.RemoveMarkers | src/vcfReader.cpp:236-246 | the variants become those at the kept indices, in index-list order, and nLoci is their number |
| Vcf.VcfReader.FindLegitSnpsGivenVqslod | src/vcfReader.cpp:249-257 | legitVqslodAt becomes the plain threshold selection |
| Vcf.VcfReader.FindLegitSnpsGivenVqslodHalf | src/vcfReader.cpp:260-278 | legitVqslodAt becomes the Half selection, run by run |
| Vcf.VcfReader.AppendAbove | src/vcfReader.cpp:270-275 | one run's markers whose VQSLOD passes are appended to legitVqslodAt |
| Vcf.VcfReader.Finalize | src/vcfReader.cpp:84-90 | every flat array gains one entry per variant, in variant order |
| Txt.HeaderFields | src/txtReader.cpp:146-168 | the header: the line's fields after CHROM and POS, as HeaderRoundTrip states |
| Txt.HeaderRoundTrip | src/txtReader.cpp:146-168 | a header written from delimiter-free names reads back as the value-column names |
| Txt.ChromStep | src/txtReader.cpp:171-189 | extractChrom keeps the chromosome state consistent: the index names the last chromosome, and every earlier chromosome has its position list |
| Txt.PosStep | src/txtReader.cpp:192-208 | extractPOS, whose cases PosStepDecimal, PosStepExponent and PosStepNotInteger state |
| Txt.PosStepDecimal | src/txtReader.cpp:192-208 | a position printed in decimal is accepted and appended |
| Txt.PosStepExponent | src/txtReader.cpp:193-199 | a POS with `e` or `E` is rejected as scientific notation, before any conversion |
| Txt.PosStepNotInteger | src/txtReader.cpp:201-206 | any other non-digit in POS is rejected as a bad conversion |
| Txt.RowPrefix | src/txtReader.cpp:84-92 | the chromosome state after a row's first fields: CHROM at field 0, POS at field 1 |
| Txt.RowSpec | src/txtReader.cpp:76-96 | the field loop on one row, as RowKeepsConsistent and RowIndexedStep state |
| Txt.ValuesUpToSpec | src/txtReader.cpp:86-87 | every field after CHROM and POS becomes one number, in order |
| Txt.RowKeepsConsistent | src/txtReader.cpp:76-96 | a row with a CHROM and an integer POS is accepted and leaves its chromosome current |
| Txt.DataRowCountSpec | src/txtReader.cpp:71 | the rows read are the non-empty lines before the first empty one |
| Txt.RowsSpec | src/txtReader.cpp:71-104 | reading rows keeps the chromosome state consistent |
| Txt.RowsContent | src/txtReader.cpp:97 | one content row per data row |
| Txt.RowsContentAt | src/txtReader.cpp:75-97 | content row `k` holds the numbers of data row `k` |
| Txt.RowStepFirst | src/txtReader.cpp:182-187 | the first row enters the first chromosome with its position |
| Txt.RowStepNew | src/txtReader.cpp:172-181 | a row with another chromosome saves the current positions and starts a new chromosome |
| Txt.RowStepSame | src/txtReader.cpp:172-173 | a row with the current chromosome adds its position to the current list |
| Txt.RowsIndexed | src/txtReader.cpp:71-104 | after well-formed rows, the names with the saved lists and the current list index the rows read |
| Txt.RowsStep | src/txtReader.cpp:71-104 | one more row applies its step to the state and appends its content row |
| Txt.RowsSpecFailureStays | src/txtReader.cpp:71-104 | a rejected row ends the load with its error |
| Txt.RowPrefixFailure | src/txtReader.cpp:90-92 | a rejected POS decides the whole row |
| Txt.RowIndexedStep | src/txtReader.cpp:171-207 | one well-formed row keeps the names with the saved lists and the current list indexing the rows read |
| Txt.RowIndexedFirst | src/txtReader.cpp:182-187 | the first well-formed row leaves one chromosome whose list holds its position, indexing that row |
| Txt.RowIndexedNew | src/txtReader.cpp:172-181 | a row with another chromosome leaves a state indexing the rows read with it added |
| Txt.RowIndexedSame | src/txtReader.cpp:172-173 | a row with the current chromosome leaves a state indexing the rows read with it added |
| Txt.InfoColumn | src/txtReader.cpp:211-216 | the reshaped column has one entry per row |
| Txt.InfoColumnSpec | src/txtReader.cpp:211-216 | the reshape succeeds exactly when no row is empty, and then holds each row's first number; otherwise the first empty row is reported |
| Txt.InfoColumnFailureStays | src/txtReader.cpp:213-215 | once an empty row is met, the reshape stays rejected |
| Txt.InfoColumnSelect | src/txtReader.cpp:219-233 | compacting the table and then reshaping gives the compacted column |
| Txt.LoadSpec | src/txtReader.cpp:35-126 | readFromFileBase: the table or the first error, as LoadIndexes, LoadParity and LoadOnlyFailsOnEmptyInfoRow state |
| Txt.FinishSpec | src/txtReader.cpp:112-119 | the end of the load: the last list saved, the size taken, a one-column table reshaped |
| Txt.LoadIndexes | src/txtReader.cpp:35-126 | a load of well-formed rows indexes their chromosomes and positions, keeps the header, and has one content row per row |
| Txt.RowChromNonEmpty | src/txtReader.cpp:171-189 | an accepted non-empty row leaves at least one chromosome entered |
| Txt.RowsChromNonEmpty | src/txtReader.cpp:71-104 | after accepted non-empty rows at least one chromosome is entered |
| Txt.LoadParity | src/txtReader.cpp:112-123 | for any rows, a successful load has one position list per chromosome name (the assert at line 123) |
| Txt.LoadOnlyFailsOnEmptyInfoRow | src/txtReader.cpp:112-119 | with well-formed rows, a load fails only on an empty row in a one-column table |
| Txt.LoadNoRows | src/txtReader.cpp:114-115 | a file with no data rows is rejected |
| Txt.TxtReader.CheckFileCompressed | src/txtReader.cpp:129-143 | the compressed flag is set exactly for the gzip magic |
| Txt.TxtReader.ExtractHeader | src/txtReader.cpp:146-168 | the header becomes the line's fields after the second |
| Txt.TxtReader.ExtractChrom | src/txtReader.cpp:171-189 | the chromosome members take the extractChrom step |
| Txt.TxtReader.ExtractPos | src/txtReader.cpp:192-208 | an accepted POS is appended to the current positions; a rejected one leaves them as they were and reports why |
| Txt.TxtReader.ReadRow | src/txtReader.cpp:72-97 | the field loop on one row applies the row's chromosome and position steps and appends its numbers to the content |
| Txt.TxtReader.ReadFields | src/txtReader.cpp:76-96 | the field loop applies the chromosome and position steps of the row and collects its numbers, or stops at the first rejected field |
| Txt.TxtReader.ReadField | src/txtReader.cpp:86-92 | one field is a number after column 1, the chromosome at column 0 and the position at column 1 |
| Txt.TxtReader.ReadNextRow | src/txtReader.cpp:71-104 | one round of the row loop reads the next row, or ends the load with the row's error |
| Txt.TxtReader.ReadRows | src/txtReader.cpp:71-104 | the row loop reads the rows up to the first empty line, with the rows' state, content and first error |
| Txt.TxtReader.ReshapeContentToInfo | src/txtReader.cpp:211-216 | info becomes the reshaped column, or the first empty row is reported |
| Txt.TxtReader.ReadFromFileBase | src/txtReader.cpp:35-126 | the reader's members hold the table the whole-load function describes, or the load's first error |
| Txt.TxtReader.Finish | src/txtReader.cpp:112-119 | the current positions are saved, the size comes from the last row, and a one-column table is reshaped |
| Txt.TxtReader.RemoveMarkers | src/txtReader.cpp:219-235 | the table becomes the rows at the kept indices; a one-column table rebuilds info from it, and nLoci is the new row count |

## Left out

- File opening, `fopen`/`fread`, the gzip and plain streams, and `getline` are left out. A file is its first two bytes, for the magic test, and its header and data lines, for the loops.
- Readers whose file cannot be opened (`InvalidInputFile`) are left out, since the model has no file system.
- `VcfReader::init`, `readHeader` and `readVariants` (the stream driving of the VCF reader) are left out. The header lines before `#CHROM` are never parsed field by field. The VCF variants are a member the model's methods take as given, and `readVariants` itself is not modelled.
- The `inFile.good()` test of both row loops is left out. The text reader tests the plain stream even for a gzip file. The model ends the rows at the first empty line or at the end of the lines.
- `getIndexOfChromStarts` and `checkSortedPositions` are left out: they are not part of this model. `indexOfChromStarts` is a field the Half policy reads. `Selection.HalfIncreasing` assumes the runs it describes lie one after another.
- Logging (`dout`) and the `assert(printSampleName())` call are left out, since they have no effect on the result.
- `findLegitSnpsGivenVQSLODandWsfGt0` is left out because it is commented out in the source.
- The txtReader.hpp header (the constructors and the getters) is not part of this model. The `TxtReader` constructor here only gives every member its empty value.
- `std::stod` and `std::strtod` are a caller-supplied function `toReal` from text to real. Nothing is proved about it, and floating point is `real`.
- Variants.InfoSpec: `std::stod` throws `invalid_argument` or `out_of_range` on a VQSLOD or AF value that is not a number (`VQSLOD`, `VQSLOD=`, `VQSLOD=abc`), and the VariantLine constructor does not catch it, so such a line aborts the load. The model does not model these exceptions: it accepts the entry and takes `toReal` of the text. The same holds for Variants.ExtractInfo and Variants.ParseVariantLine. `strtod` in the text reader never throws, so there `toReal` is the whole behaviour.
- Numbers.ParseInt: models `std::stoi` only on strings of decimal digits, with the INT_MAX bound. Leading whitespace, signs and trailing text, which stoi accepts, are rejected here.
- Variants.Variant: the numeric members a line never assigns are uninitialised in the C++ class. They are 0 and 0.0 here.
- Gzip.IsCompressedFile: requires two bytes. A file shorter than that leaves the source's `magic` buffer uninitialised.
- Several cases are undefined behaviour in the source. The model turns each into an explicit error:
  - Txt.FinishSpec: `content_.back()` of a table without data rows becomes `NoDataRows`.
  - Txt.InfoColumn: `content_[i][0]` of an empty row becomes `EmptyInfoRow`.
  - Vcf.ChromStep: `stoi` throwing on a VCF POS, which the source does not catch, becomes `PositionNotInteger`.
- Txt.TxtReader.ReadFromFileBase: requires the chromosome lists and `info` to start empty. The source asserts this in `extractChrom` and `reshapeContentToInfo`.
- Txt.TxtReader.ReadFromFileBase: when the load fails, the model describes only the error, not the members the source had already changed before throwing. The same holds for ReadRow, ReadRows, ReshapeContentToInfo, Finish, Vcf.VcfReader.GetChromList and Txt.TxtReader.RemoveMarkers.
- Vcf.VcfReader.RemoveMarkers: follows the code, which compacts only `variants`. The flat arrays and the chromosome index are not rebuilt. Txt.TxtReader.RemoveMarkers likewise rebuilds only `info`.
- Scalars: `size_t` and `int` are unbounded integers. No loop in the model can reach the 32- or 64-bit limits on input that fits in memory.
