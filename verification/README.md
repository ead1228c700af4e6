# HERV-K pipeline: text-processing core in Dafny

This project models the text-processing steps of the HERV-K insertion
pipeline and proves what each step does. The steps are:

- **Reading fuzznuc reports** (`process_results.py`). `determine_prime` finds
  which LTR terminus the report scanned for. `parse_report` reads the per-read
  hits with its line-driven state machine. `check_results` keeps the hits
  that leave at least 20 bp of read on the side to be extracted.
- **Ordering read keys and cutting sequences** (`extract_sequences.py`).
  `sort_read_ids` orders the `<read id>.<terminus>` keys numerically.
  `extract_sequence` cuts the off-by-one-shifted flank. The lookup loop of
  `main` makes one forward pass over the FASTA lines with a shared cursor and
  stores the rstripped flank and the inclusive LTR slice.
- **Assembling FASTA records** (`create_fasta_from_json.py`). `concat_ltr_seq`
  orders the LTR and the flank. `extract_from_json` filters for exactly 50 bp
  flanks and builds the record ids. `write_to_file` fixes the record format.
- **Decoding BLAST rows** (`process_blast_output.py`). A 12-column tabular row
  becomes a record, and a table becomes one record per row.
- **Indexing the repeat table** (`extract_repeating_regions.py`). `main` skips
  the header, groups the rows by chromosome, and stable-sorts each group by
  integer start.
- **Filtering a directory by suffix** (`herv_lib.py`). `Directory` matches
  suffixes as `os.path.splitext` splits them, keeps matching entries in order,
  and joins full paths.

Files and modules:

- `common.dfy` (`Common`): `Option` and `Result`, the errors the scripts raise
  (as values), and the Python 2 string operations the scripts rely on:
  `rstrip`/`strip`, `int()`, `str.split`, `str.lower`, slicing with negative
  and clipped bounds, and the regex building blocks `\s*`, `\S+` and
  leftmost search.
- `sorting.dfy` (`Sorting`): a stable sort by an integer key. Python's
  `sorted(..., key=...)` and `list.sort(key=...)` are stable.
- `hit_table.dfy` (`HitTable`): the JSON hit documents that
  `extract_sequences.py` extends and `create_fasta_from_json.py` reads.
- `process_results.dfy`, `extract_sequences.dfy`, `create_fasta.dfy`,
  `blast_output.dfy`, `repeating_regions.dfy`, `herv_lib.dfy`: one module per
  script.

Loops in the source become `method`s with `while` loops, proved equal to a
function that specifies them. The properties are proved about those
functions. `Directory` is a `class`, because its methods update its `path`
and `contents` fields. Exceptions the scripts raise become `Failure` values.
Files, directories and command lines become values: lists of lines, lists of
rows, maps and strings.

Where the code and its documentation differ, the model follows the code:

- `format_blast_output_in_dict` on a row of fewer than 12 columns raises
  `IndexError`. The model returns that error instead of requiring 12 columns.
- The `get_files_with_suffix` docstring says directories are filtered out.
  The code does not do this, and neither does the model.

## Model

| member | source | states |
|---|---|---|
| ProcessResults.PrimeOf | process_results.py:114-119 | the motif AGGGGCAACCCACCCCTACA gives 3_prime and TGTGGGGAAAAGCAAGAGAG gives 5_prime (both directions); any other pattern is the UserWarning carrying it |
| ProcessResults.DeterminePrime | process_results.py:105-119 | the loop that stops at the first -pattern line returns the terminus of that line's motif, or of the default pattern when no line has one; a success is always 5_prime or 3_prime |
| ProcessResults.FirstPatternIsFirstDirective | process_results.py:108-113 | the motif used is the one on the first directive line |
| ProcessResults.FirstPatternNone | process_results.py:107-114 | no motif is found exactly when no line is a directive, and the default pattern is then used |
| ProcessResults.LaterDirectivesIgnored | process_results.py:110-113 | lines after the first directive cannot change the motif |
| ProcessResults.PatternLineRoundTrip | process_results.py:106 | the line `# -pattern <motif>` is read back as that motif |
| ProcessResults.SequenceLineRoundTrip | process_results.py:29-44 | seq_re reads the `# Sequence: <id> from: <f> to: <t>` line back as id, from and to (the "to" group is the read length) |
| ProcessResults.TagLineRoundTrip | process_results.py:30-33 | a `Start:`/`End:`/`Strand:`/`Mismatch:` line is read back as its value by its own regex and by no other |
| ProcessResults.TagsExclusive | process_results.py:30-33 | at most one of the four tag regexes matches a line |
| ProcessResults.StepLine | process_results.py:38-60 | one turn of the line loop has the effect of the state-machine step on the rstripped line |
| ProcessResults.StepKeys | process_results.py:40-43 | a sequence line adds its id to the records and makes it current; any other line keeps both the records' ids and the current id |
| ProcessResults.ScanReport | process_results.py:35-60 | the loop over the report's lines yields the records of the state machine |
| ProcessResults.ScanKeys | process_results.py:40-43 | a read has a record exactly when some sequence line names it |
| ProcessResults.NoHeaderNoHits | process_results.py:36-60 | tag lines seen before any sequence line change nothing |
| ProcessResults.SequenceLineOpensFreshRecord | process_results.py:40-44 | a sequence line replaces its read's record with a fresh one holding only read_length, and makes the read current |
| ProcessResults.ReadLengthFromLastHeader | process_results.py:40-44 | a record's read_length is the "to" of the last sequence line for its read |
| ProcessResults.TagsKeepReadLength | process_results.py:46-60 | tag lines never change read_length |
| ProcessResults.TagLineSetsField | process_results.py:46-60 | after a sequence line, a tag sets its field of the current record, overwriting an earlier value, and changes nothing else |
| ProcessResults.HitError | process_results.py:76-78 | check_results raises on a hit exactly when read_length, from or to is missing or not an integer, reporting the first in that order |
| ProcessResults.CheckHit | process_results.py:76-98 | the loop body raises that error, or else keeps a 5_prime hit iff from - 1 >= 20 and any other hit iff read_length - to >= 20 |
| ProcessResults.CheckResults | process_results.py:73-102 | succeeds iff every hit is numeric, and otherwise reports the error of some hit; the result is the sub-map of the kept hits with identical records (strand and mismatch play no part) |
| ProcessResults.ReportPrime | process_results.py:17-23 | the terminus parse_report uses is 5_prime or 3_prime exactly for the two motifs, and '' otherwise (the warning is swallowed) |
| ProcessResults.UnknownMotifFiltersByEnd | process_results.py:84-98 | with an unrecognised motif, hits are filtered by the read_length - to >= 20 rule |
| ProcessResults.ParseReport | process_results.py:15-62 | parse_report is check_results applied to the scanned records and the report's terminus |
| Common.RStripSpec | process_results.py:38 | rstrip removes exactly the trailing whitespace |
| Common.ParseIntOfDecimal | process_results.py:76-78 | int() reads every decimal numeral back as its value |
| Common.ParseIntSpaceAfterSign | process_results.py:76-78 | int() skips whitespace between a minus sign and the digits and reads the negated value, as CPython 2's int() does ("- 5" is -5) |
| ExtractSequences.SplitKeyJoin | extract_sequences.py:23 | a key with exactly one dot unpacks to its read id and terminus |
| ExtractSequences.SplitAllSpec | extract_sequences.py:22-25 | every key splits, or the first key without exactly one dot is reported |
| ExtractSequences.PrimesKeys | extract_sequences.py:22-25 | the primes dict has an entry exactly for each read id |
| ExtractSequences.PrimesLast | extract_sequences.py:25 | a read id's terminus is the one of the last key naming it |
| ExtractSequences.SplitKeys | extract_sequences.py:20-25 | the first loop builds the read-id list and the primes dict, or stops at the first malformed key |
| ExtractSequences.RejoinInPlace | extract_sequences.py:28-29 | the in-place rewrite turns each sorted id into id + "." + primes[id] |
| ExtractSequences.SortedBasesFacts | extract_sequences.py:27 | sorted(read_ids, key=int) is a permutation of the ids, ascending by integer value |
| ExtractSequences.SortReadIds | extract_sequences.py:19-30 | sort_read_ids computes SortedReadIds |
| ExtractSequences.SortedReadIdsSucceeds | extract_sequences.py:23-27 | sorting succeeds iff every key has exactly one dot and an integer read id |
| ExtractSequences.SortedReadIdsMalformed | extract_sequences.py:23 | the first key without exactly one dot is the error |
| ExtractSequences.SortedReadIdsLastKey | extract_sequences.py:22-29 | the output has the input's length and carries the input's read ids, each as often as in the input, and each output key is a read id joined with the terminus of the last key naming it (so a duplicated id comes out twice with the last-seen suffix) |
| ExtractSequences.SortedReadIdsAscending | extract_sequences.py:27 | the output is ascending by the integer value of the part before the dot |
| ExtractSequences.DistinctKeysRejoin | extract_sequences.py:22-29 | with distinct read ids every key is rebuilt as itself |
| ExtractSequences.SortedReadIdsPermutation | extract_sequences.py:19-30 | with distinct read ids the output is a permutation of the input |
| ExtractSequences.FlankShift | extract_sequences.py:33-44 | the shift is 1 for (+, 5_prime) and (non-+, 3_prime), and 0 otherwise |
| ExtractSequences.FlankIsShiftedSlice | extract_sequences.py:33-44 | the flank is the Python slice [seq_from - k, seq_to - k) for that shift; every strand other than + behaves as - |
| ExtractSequences.FlankLength | extract_sequences.py:36-43 | with bounds inside the sequence the flank has exactly seq_to - seq_from characters, starting at seq_from - k |
| ExtractSequences.LtrInclusive | extract_sequences.py:110 | the LTR is the 1-indexed inclusive range LTR_from..LTR_to |
| ExtractSequences.ReadIdOfHeader | extract_sequences.py:100-104 | a line ending in _<digits>, with or without its newline, yields those digits |
| ExtractSequences.ReadIdOfMatch | extract_sequences.py:100-104 | a captured read id is the digit run that follows an underscore at the end of the line |
| ExtractSequences.FindRead | extract_sequences.py:101-107 | the inner loop from the cursor computes Seek |
| ExtractSequences.SeekFound | extract_sequences.py:101-107 | a found read is the first header for it at or after the cursor, its sequence is the next line, and the cursor moves past that line |
| ExtractSequences.SeekNotFound | extract_sequences.py:101-103 | nothing is found exactly when no header for the read lies at or after the cursor, so a read before the cursor is never found |
| ExtractSequences.SeekTruncated | extract_sequences.py:106 | next() raises StopIteration exactly when that header is the file's last line |
| ExtractSequences.WithSequence | extract_sequences.py:109-113 | a non-empty sequence line stores the rstripped flank and the unstripped LTR; an empty one changes nothing |
| ExtractSequences.AttachOne | extract_sequences.py:90-113 | one lookup keeps the dict's keys, moves the cursor forward, changes only the sequence fields of its own entry, and leaves the others alone |
| ExtractSequences.AttachAtEnd | extract_sequences.py:89-107 | once the cursor is at the end of the file no later read is found, and the entries stay as they are |
| ExtractSequences.AttachKeepsHits | extract_sequences.py:90-113 | only the two sequence fields of an entry change, and an entry that is not looked up does not change |
| ExtractSequences.SortedIdsAreKeys | extract_sequences.py:87-91 | every key sort_read_ids returns names an entry of the document |
| ExtractSequences.ExtractedFile | extract_sequences.py:84-113 | the extended document is well formed, with the same name and keys |
| ExtractSequences.StoreRead | extract_sequences.py:91-113 | the loop body computes one lookup-and-store step |
| ExtractSequences.ExtractFile | extract_sequences.py:84-113 | the loop over the sorted keys, sharing one cursor, computes ExtractedFile |
| CreateFasta.ConcatLtrSeq | create_fasta_from_json.py:9-20 | the result has length len(ltr) + len(seq) and is one of the two concatenations |
| CreateFasta.ConcatOrder | create_fasta_from_json.py:9-20 | seq + ltr for (+, 5_prime) and (non-+, non-5_prime); ltr + seq otherwise |
| CreateFasta.ConcatStrandsOpposite | create_fasta_from_json.py:9-20 | the two strands give the two different orders |
| CreateFasta.StrandName | create_fasta_from_json.py:25-28 | only + and - have a name |
| CreateFasta.RecordOfEmits | create_fasta_from_json.py:34-55 | a record is emitted iff seq_to - seq_from == 50, extracted_sequence is non-empty and the strand is + or -; its id is fasta_file.read_id.forward/reverse and its sequence is concat_ltr_seq |
| CreateFasta.RecordOfStrandError | create_fasta_from_json.py:48-49 | an unknown strand raises only for an entry that passes the filter |
| CreateFasta.RecordOfMissing | create_fasta_from_json.py:36-37 | a missing LTR_sequence or extracted_sequence is the KeyError, LTR first |
| CreateFasta.KeyRecords | create_fasta_from_json.py:33-55 | one key yields at most one record |
| CreateFasta.DocRecordsAppend | create_fasta_from_json.py:33-55 | the records of a key list are those of its parts, in order |
| CreateFasta.DocRecordsStop | create_fasta_from_json.py:33-55 | the first failing key ends the document with its error |
| CreateFasta.AllRecords | create_fasta_from_json.py:30-56 | there are at most as many records as entries in all documents |
| CreateFasta.AllRecordsAppend | create_fasta_from_json.py:30-56 | documents contribute records in document order, with no de-duplication |
| CreateFasta.AllRecordsStop | create_fasta_from_json.py:30-56 | a failing document ends the run with its error |
| CreateFasta.AllRecordsOne | create_fasta_from_json.py:31-33 | one document contributes its own records, those of its single top-level key |
| CreateFasta.DocumentRecords | create_fasta_from_json.py:31-55 | the inner loop appends a document's records to those already processed |
| CreateFasta.ExtractFromJson | create_fasta_from_json.py:23-56 | the nested loops compute AllRecords |
| CreateFasta.SerializeAppend | create_fasta_from_json.py:61-63 | writing two record lists writes the first, then the second |
| CreateFasta.WriteToFile | create_fasta_from_json.py:59-63 | the file, opened for appending, gains '>' + id + '\n' + seq + '\n' for each record, in list order |
| CreateFasta.SerializeLines | create_fasta_from_json.py:61-63 | the written text splits into the header and sequence lines of the records |
| CreateFasta.ParseSerializedLines | create_fasta_from_json.py:61-63 | reading the lines back pairwise gives the records back |
| BlastOutput.FormatRowColumns | process_blast_output.py:16-35 | a row decodes iff it has 12 or more columns, and the hit's fields are columns 0..11 in order, verbatim; a shorter row is the IndexError |
| BlastOutput.FormatRowRoundTrip | process_blast_output.py:20-33 | a hit's columns, followed by any extra columns, decode to the hit |
| BlastOutput.FormatRows | process_blast_output.py:38-46 | a decoded table has one hit per row |
| BlastOutput.FormatRowsSpec | process_blast_output.py:41-46 | the table decodes iff every row is long enough, and then hit i is row i's; otherwise the first short row is the error |
| BlastOutput.FormatRowsStop | process_blast_output.py:43-45 | a failure on the first rows is the failure of the table |
| BlastOutput.ProcessBlastOutput | process_blast_output.py:38-46 | the loop over the rows computes FormatRows |
| RepeatingRegions.FirstShort | extract_repeating_regions.py:35-36 | no row is short exactly when every row has columns 5-7; otherwise this is the first short row |
| RepeatingRegions.GroupRows | extract_repeating_regions.py:30-39 | the row loop raises IndexError on the first short row, and otherwise yields the grouped dict |
| RepeatingRegions.GroupedSpec | extract_repeating_regions.py:35-39 | the keys are exactly the column-5 values; each list holds, in row order, the (column 6, column 7) pairs of that chromosome's rows and is non-empty |
| RepeatingRegions.RowInRegionsOn | extract_repeating_regions.py:35-39 | every row's pair is in its chromosome's list |
| RepeatingRegions.SortRegionsSorted | extract_repeating_regions.py:44 | a sorted list is a permutation of the list, ascending by int(start) |
| RepeatingRegions.SortRegionsStable | extract_repeating_regions.py:44 | regions with equal integer starts keep their order |
| RepeatingRegions.FirstNonIntStart | extract_repeating_regions.py:44 | int() fails on a list exactly when some start is not an integer |
| RepeatingRegions.SortGroups | extract_repeating_regions.py:43-44 | the sort loop sorts every list, or raises the ValueError of a non-integer start found in some list |
| RepeatingRegions.GroupsIntStartsOfRows | extract_repeating_regions.py:36-44 | the lists' starts are integers exactly when the rows' starts are |
| RepeatingRegions.NonIntStartRow | extract_repeating_regions.py:36-39 | a start in a list is the start of one of the rows |
| RepeatingRegions.IndexSpec | extract_repeating_regions.py:35-44 | the index has a list exactly for the chromosomes of the rows; each list is non-empty, a permutation of that chromosome's pairs, ascending by int(start), and stable for equal starts |
| RepeatingRegions.IndexRepeats | extract_repeating_regions.py:30-44 | an empty file is StopIteration; the header line is skipped; the result is the index of the data rows, or the first short row, or a non-integer start |
| RepeatingRegions.OutputName | extract_repeating_regions.py:46-47 | no output name, or an empty one, gives repeating_regions.out |
| Sorting.SortByKey | extract_repeating_regions.py:44 | the sort key orders the output, which is a permutation of the input |
| Sorting.SortByKeyStable | extract_repeating_regions.py:44 | elements with equal keys keep their relative order |
| HervLib.FileSuffixShape | herv_lib.py:62 | the suffix ends the path and holds neither a dot nor a slash |
| HervLib.FileSuffixOfComponent | herv_lib.py:62 | only the final path component decides the suffix |
| HervLib.ExtensionOfName | herv_lib.py:62 | splitext of name.ext gives .ext when something other than dots precedes the dot |
| HervLib.FileSuffixOfName | herv_lib.py:62 | the suffix of dir/name.ext is ext |
| HervLib.FileSuffixNoDot | herv_lib.py:62 | a name without a dot has an empty suffix |
| HervLib.ExtensionHidden | herv_lib.py:62 | leading dots do not start an extension (.bashrc has none) |
| HervLib.FileSuffixHidden | herv_lib.py:62 | such a name has an empty suffix in any directory |
| HervLib.CompareFileSuffices | herv_lib.py:60-68 | the result is True or the None the function falls through to, never False |
| HervLib.MatchesOwnExtension | herv_lib.py:61-68 | name.ext matches ext with or without ignore_case |
| HervLib.ExactMatchIgnoringCase | herv_lib.py:63-68 | an exact match is also a match when case is ignored |
| HervLib.MatchesLowered | herv_lib.py:63-64 | ignoring case, a suffix and its lowercase form match the same files |
| HervLib.MatchingFiles | herv_lib.py:83-86 | every returned entry matches, and there are at most as many as entries |
| HervLib.MatchingFilesPositions | herv_lib.py:83-86 | the returned entries are the entries at increasing positions, exactly those that match: an order-preserving subsequence |
| HervLib.MatchingFilesExact | herv_lib.py:83-86 | a name is returned iff it is an entry that matches |
| HervLib.NoneMatch | herv_lib.py:83-89 | the list is empty exactly when no entry matches |
| HervLib.FullPaths | herv_lib.py:54-55 | one full path per entry, in entry order |
| HervLib.FullPathSuffix | herv_lib.py:54-62 | a full path has its name's suffix |
| HervLib.MatchingFullPaths | herv_lib.py:54-86 | filtering full paths gives the full paths of the filtered names |
| HervLib.Directory.constructor | herv_lib.py:40-41 | the directory holds the resolved path and the listing |
| HervLib.Directory.CreateDir | herv_lib.py:50-52 | create_dir sets the path and keeps the contents |
| HervLib.Directory.ContentsWithFullPath | herv_lib.py:54-55 | path + '/' + name for each entry, with the same length and order |
| HervLib.Directory.SetContentsWithFullPath | herv_lib.py:57-58 | the contents become the former full paths, and the path is kept |
| HervLib.Directory.GetFilesWithSuffix | herv_lib.py:70-89 | None exactly when no entry matches, and otherwise the non-empty, ordered list of matching entries |

## Left out

- File, JSON, CSV and command-line I/O (`open`, `json.load`/`json.dump`, `csv.reader`, argparse, `print`). Reports and FASTA files are lists of lines, tables are lists of rows, and JSON documents are values. Each element of a list of lines keeps its line terminator, as iterating over a file yields it. The FASTA lookup therefore sees sequence lines ending in '\n', and the stored LTR slice can end in it too.
- `Directory.__init__`'s type and `os.path.isdir` checks, and `os.path.realpath`, `os.listdir` and `os.makedirs`. The resolved path and the listing are parameters.
- The `isinstance` check of `format_blast_output_in_dict` and its `TypeError`. Rows are typed as lists of strings.
- `load_repeating_regions` and `load_json`. They only read JSON.
- Dictionary iteration order. A dict the scripts iterate is a sequence of keys next to its map. Each JSON document is assumed to have a single top-level key, so `keys()[0]` is that key. `check_results` and the sort loop of the repeat table visit keys in an order left unspecified.
- The `int()` calls on the JSON fields `seq_from`, `seq_to`, `LTR_from` and `LTR_to`. `ReadEntry` holds them as integers, so a non-numeric JSON value is not modelled.
- Missing `prime` or `strand` fields in a JSON entry. `ReadEntry` always has them.
- The shallow `copy.copy` in `extract_sequences.py`. It shares the inner dicts with the loaded document, and nothing reads the original afterwards, so the model updates one value.
- `str.lower` is modelled on ASCII letters only, as Python 2 byte strings behave in the C locale.
- Text is modelled as sequences of characters. Encodings and Unicode whitespace beyond the ASCII set are not modelled.
- `CheckResults`: reports the error of some failing hit, not necessarily the first one, because dict order is unspecified.
- `SortGroups`: reports a non-integer start of some list, not a particular one, for the same reason.
