# Discordant read parser — a verified model

`Discordant_parser.py` reads a sorted alignment (BAM) file and finds the
discordant read pairs in it. It works in two stages.

1. **Extraction** (`extract_discordant_reads`). It keeps every record whose
   SAM FLAG is exactly one of 113, 177, 81, 161, 97, 145, 65 or 129. Each kept
   record becomes a seven-column row: query_name, chr_name, start_pos, MapQ,
   chr_of_mate, seq, CigarString. The rows are then sorted by query_name.
2. **Classification** (`analyse_discordant_reads`). A cursor walks the sorted
   rows.
   - A row whose name occurs more than once is paired with the row after it.
   - The pair goes to the same-chromosome bucket when the two chr_name values
     are equal, and to the different-chromosome bucket when they differ.
   - Every other row is a single.
   - Each pair becomes one wide row, mate 1's columns then mate 2's, without
     the two mate-chr columns.

The model has four modules:

- `NameOrder` (`name_order.dfy`): the order in which names are sorted, which
  is Python's lexicographic `str` order.
- `Records` (`records.dfy`): the alignment record, the table row, how often a
  name occurs, and what a sort by name implies.
- `Extract` (`extract.dfy`): the extraction stage. It is a method with the
  filtering loop, followed by a sort by name that is specified as a
  permutation with non-decreasing names.
- `Analyse` (`analyse.dfy`): the classification stage.
  - The cursor loop is a method that runs on any input and returns `Err` where
    the source raises `IndexError`.
  - A second description of the three buckets uses no cursor: adjacent rows
    with one name are pairs, and rows whose name occurs once are singles.
  - The method is proved to produce exactly that description whenever the rows
    are sorted by name and no name occurs more than twice. The partition,
    membership and ordering properties are proved about the description.

## Model

| member | source | states |
|---|---|---|
| NameOrder.LexLeReflexive | Discordant_parser.py:85 | every name sorts before or equal to itself |
| NameOrder.LexLeTotal | Discordant_parser.py:85 | any two names are comparable, so a sort by name exists |
| NameOrder.LexLeAntisymmetric | Discordant_parser.py:85 | two names that each sort before or equal to the other are equal |
| NameOrder.LexLeTransitive | Discordant_parser.py:85 | the name order is transitive |
| Records.SortedContiguous | Discordant_parser.py:116-117 | in a name-sorted table, every row between two rows with one name has that name too, so a name's rows are contiguous |
| Records.OccurrencesWitness | Discordant_parser.py:95-96 | a name counted at least twice has a second row |
| Records.OccurrencesOnce | Discordant_parser.py:95-96 | a name counted once belongs to no other row |
| Extract.DiscordantFlagBits | Discordant_parser.py:61 | a 16-bit FLAG is one of the eight listed values iff bit 0x1 is set, exactly one of 0x40 and 0x80 is set, and no bit outside 0xF1 is set |
| Extract.KeptRows | Discordant_parser.py:64-73 | the filter never yields more rows than there are records |
| Extract.KeptRowsMembers | Discordant_parser.py:64-82 | a row is kept iff some record with a listed FLAG projects to it |
| Extract.KeptRowsPrefix | Discordant_parser.py:64-73 | kept rows follow file order: the rows kept from a prefix of the file are a prefix of the rows kept from the whole file |
| Extract.Insert | Discordant_parser.py:85 | inserting into a name-sorted table keeps it sorted and adds exactly that row |
| Extract.SortByName | Discordant_parser.py:85 | the sorted table is a permutation of its input, with non-decreasing names |
| Extract.ExtractDiscordantReads | Discordant_parser.py:61-89 | the result is sorted by name, is a permutation of the projected discordant records in file order, and contains a row iff a record with a listed FLAG projects to it |
| Analyse.DuplicatedNames | Discordant_parser.py:95-97 | a name is in the list iff it occurs on at least two rows |
| Analyse.AnalyseDiscordantReads | Discordant_parser.py:91-163 | on sorted input with no name more than twice, the result is exactly the two pair tables and the singles described without a cursor; on empty input, three empty results; the walk fails only when the last row's name is duplicated, at mate index len |
| Analyse.MateFollows | Discordant_parser.py:114-117 | when the cursor stands at the start of a duplicated name, its mate is the next row and the row after that starts a new name |
| Analyse.LastRowUnpaired | Discordant_parser.py:117 | the cursor reaching a duplicated name on the last row rules out sorted input with every name at most twice |
| Analyse.PairScanned | Discordant_parser.py:114-129 | a pair step keeps the walk's invariant: the buckets equal the description up to the new cursor |
| Analyse.SingleScanned | Discordant_parser.py:132-136 | a single step keeps the walk's invariant |
| Analyse.GroupsBefore | Discordant_parser.py:110-136 | up to any group start, the mates of the pairs and the singles together are the rows so far, each once |
| Analyse.GroupsBeforeInOrder | Discordant_parser.py:110-136 | up to any group start, the mates and the singles each keep the row order |
| Analyse.Partition | Discordant_parser.py:110-136 | every input row appears exactly once across the same-chromosome mates, the different-chromosome mates and the singles |
| Analyse.BucketsInInputOrder | Discordant_parser.py:117-133 | each bucket, read mate by mate, keeps the order of the sorted input |
| Analyse.ChrBucketsPartition | Discordant_parser.py:117-126 | splitting pairs by chromosome loses no mate and adds none |
| Analyse.ChrBucketInOrder | Discordant_parser.py:117-126 | each chromosome bucket keeps the order of the pairs |
| Analyse.ChrBucketMembers | Discordant_parser.py:117-126 | a pair is in the same-chromosome bucket iff its mates' chr_name are equal, and in the other bucket iff they differ |
| Analyse.SinglesMembers | Discordant_parser.py:131-136 | a row is a single iff it is an input row whose name occurs exactly once |
| Analyse.MatePairsMembers | Discordant_parser.py:114-121 | every pair is two adjacent rows with one name, mate 1 at some index k and mate 2 at k + 1, and every two such rows form a pair |
| Analyse.DropColumn | Discordant_parser.py:147 | dropping column k shortens the row by one and shifts the later cells left |
| Analyse.PairRowLayout | Discordant_parser.py:139-147 | a wide pair row is mate 1's six cells then mate 2's six cells, each without chr_of_mate: 12 of 14 columns |
| Analyse.PairTableColumns | Discordant_parser.py:142-147 | the two dropped labels are Read1_mate_chr and Read2_mate_chr, and the twelve remaining labels are the written columns |
| Analyse.BucketTable | Discordant_parser.py:139-158 | a bucket's table has one row per pair and labels when non-empty; each row has 12 cells, the same query name twice, and chr_name cells that are equal in the same-chromosome table and differ in the other |

## Left out

- Reading the BAM file (`pysam.AlignmentFile`, `fetch`, Discordant_parser.py:46, 64). This is foreign I/O. The model takes the records in file order as its input sequence.
- Creating the output directory (Discordant_parser.py:43) and writing the four tab-separated files, including skipping an empty singles file (Discordant_parser.py:166-183). This is file output.
- Argument parsing, logging, wall-clock timing, the catch-all handler in `main` (Discordant_parser.py:10-38), and the progress messages (Discordant_parser.py:48, 87, 93, 168). This is plumbing.
- The FLAG list collected at Discordant_parser.py:67. It never reaches the table, so the row has no FLAG.
- pandas and numpy mechanics. Tables are Dafny values: a row is a datatype, and a pair table is a list of labels and a list of cell rows.
- The five lists of the classification. Each pair of mate lists is one sequence of pairs, so mate 1 and mate 2 stay aligned.
- The singles frame's integer column labels. Singles are a sequence of rows.
- Extract.SortByName: an insertion sort stands for the pandas sort. Only its contract is relied on: a permutation with non-decreasing names. The order of rows with equal names is not stated, because the default pandas sort is not stable. pandas' default sort does not keep rows with equal names in file order.
- Analyse.AnalyseDiscordantReads: for input that is not sorted, or where a name occurs three or more times, the result is not stated beyond where it may fail. The source misassigns mates on such input, and no bucket contents are intended for it.
- Analyse.AnalyseDiscordantReads: the `IndexError` the source raises is an `Err` result carrying the index it would read.
- Analyse.AnalyseDiscordantReads: the cursor ending exactly at the row count is a loop invariant together with the exit condition, not an output.
- Idempotence of the classification is not a separate lemma. The model is a deterministic function of its input.
