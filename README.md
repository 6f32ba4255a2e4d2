# DNA analysis and grade table, modelled in Dafny

This project models two Python programs.

- `python-for-genomic/fasta_file.py` analyses a collection of DNA records, each an identifier with its sequence. It counts the records and takes per-record lengths and their extremes. It finds frame-aligned start (`ATG`) and stop (`TAA`, `TAG`, `TGA`) codons. It extracts open reading frames (ORFs) with a greedy rule, ranks them as `(length, text)` tuples and locates an ORF by substring search. It also counts k-mers that repeat within a record and totals them over the collection.
- `student-grade-system/students_grade_system.py` keeps a table of students to their lists of grades. It adds a grade, removes a student, and re-prompts until a menu option or a grade in [0, 100] is entered.

The collection is a `map<string, string>` from identifier to sequence text. Python's string order, clipped slicing, `str.find`, `Counter`, `max` and `sorted` are defined explicitly (`PyText`, `OrfRanker`, `RepeatCounter`). The console input of `get_grade` and `selection` becomes a sequence of input lines. Running out of lines raises `EOFError`, as `input()` does.

`orfs` is modelled as written, including three quirks:
- The `stop_index` cursor starts at 0 and the test is strict, so an `ATG` at offset 0 never starts an ORF.
- The cursor grows by 3 per accepted ORF; it is not moved to the stop codon.
- The offsets are computed on `seq` but applied to `seq[frame - 1:]`.

Because of the last quirk, an ORF found in frame 2 or 3 is the slice of `seq` that begins `frame - 1` bases after its start codon, so it never begins with `ATG` (`OrfExtractor.ShiftedFrameSkipsStartCodon`). Its slice `seq[frame - 1:][start:stop + 3]` still spans `stop + 3 - start` bases, a whole number of codons, unless the end of the string clips it (`OrfExtractor.AnyFrameUnclipped`). A clipped ORF can have a length that is not a multiple of 3: `OrfExtractor.Frame2Example` exhibits one of length 5. `OrfExtractor.Frame1OrfShape` proves the full codon shape, `ATG` first and a stop codon last, for frame 1.

Modules, one per part of the program:
- `Wrappers`: `Option`, `Result` and the Python exceptions raised.
- `PyText`: slicing and string order.
- `CodonScanner`: `find_start_codon_pos` and `find_stop_codon_pos`.
- `OrfExtractor`: `orfs`.
- `OrfRanker`: `len_orfs`, `longest_ORF`, `longest_ORF_in_seq` and `ORF_start_position`.
- `SeqLengths`: `count_records`, `seq_len`, `seq_len_min_max` and `seq_len_min_max_id`.
- `RepeatCounter`: `repeats` and `drop_repeats`.
- `StudentGradeSystem`: the `Student` class, `selection` and `get_grade`.

## Model

| member | source | states |
|---|---|---|
| PyText.PySlice | python-for-genomic/fasta_file.py:64 | `s[i:j]` is clipped to the string: its length is `min(j, len) - i` when `i` is below both, and 0 otherwise |
| PyText.PySliceFrom | python-for-genomic/fasta_file.py:85 | `s[i:]` has length `len - i`, or 0 when `i` is past the end |
| PyText.SliceOfSuffix | python-for-genomic/fasta_file.py:85-94 | slicing `s[d:]` at `i:j` is slicing `s` at `d+i:d+j` |
| PyText.StrLt | python-for-genomic/fasta_file.py:109 | Python's `<` on `str`: at the first differing position the smaller character wins, and a proper prefix is smaller; its properties are the four lemmas below |
| PyText.StrLtIsLexicographic | python-for-genomic/fasta_file.py:109 | Python's `<` on `str` holds iff the strings share a prefix followed by the end of the first string or a smaller character |
| PyText.ProperPrefixIsStrLt | python-for-genomic/fasta_file.py:109 | a proper prefix is below the longer string |
| PyText.StrLtIrreflexive | python-for-genomic/fasta_file.py:109 | no string is below itself |
| PyText.StrLtTransitive | python-for-genomic/fasta_file.py:109 | the string order is transitive |
| PyText.StrLtTotal | python-for-genomic/fasta_file.py:109 | two different strings are ordered one way or the other |
| CodonScanner.ScanFrom | python-for-genomic/fasta_file.py:64-71 | the comprehension over `range(i, len(seq), 3)`: the offsets whose window is one of the codons, in range order; characterised by `ScanFromExact` and `ScanFromIncreasing` |
| CodonScanner.ScanFromMembers | python-for-genomic/fasta_file.py:64 | every offset the scan returns is aligned with the range, lies below the length, and has a matching window |
| CodonScanner.ScanFromIncreasing | python-for-genomic/fasta_file.py:64 | the offsets the scan returns strictly increase |
| CodonScanner.ScanFromSound | python-for-genomic/fasta_file.py:64 | every offset the scan returns is aligned with the range, lies below the length, has a matching window, and the offsets increase |
| CodonScanner.ScanFromComplete | python-for-genomic/fasta_file.py:64 | every aligned offset whose window matches is returned |
| CodonScanner.ScanFromExact | python-for-genomic/fasta_file.py:64 | an offset is returned iff it is aligned, below the length, and its window matches |
| CodonScanner.ScanFromInFrame | python-for-genomic/fasta_file.py:59-72 | scanning from `frame - 1` yields, in increasing order, exactly the in-frame offsets whose window is one of the codons |
| CodonScanner.FullWindow | python-for-genomic/fasta_file.py:64 | a window equal to a 3-letter codon is an unclipped slice |
| CodonScanner.ScanFromFull | python-for-genomic/fasta_file.py:64 | matches of 3-letter codons are unclipped slices |
| CodonScanner.FindStartCodonPos | python-for-genomic/fasta_file.py:59-64 | the offsets `frame - 1, frame + 2, ...` below `len(seq)` whose 3-letter window is `ATG`, in range order; characterised by `StartCodonPositions` |
| CodonScanner.FindStopCodonPos | python-for-genomic/fasta_file.py:67-71 | the offsets of the same range whose window is `TAA`, `TAG` or `TGA`, in range order; characterised by `StopCodonPositions` |
| CodonScanner.StartCodonPositions | python-for-genomic/fasta_file.py:59-64 | `find_start_codon_pos` returns exactly the offsets in `range(frame-1, len, 3)` whose window is `ATG`, in increasing order |
| CodonScanner.StopCodonPositions | python-for-genomic/fasta_file.py:67-71 | `find_stop_codon_pos` returns exactly the offsets in `range(frame-1, len, 3)` whose window is `TAA`, `TAG` or `TGA`, in increasing order |
| CodonScanner.StartCodonsAreFull | python-for-genomic/fasta_file.py:64 | a found start is a full `ATG`: a window clipped at the end never matches |
| CodonScanner.StopCodonsAreFull | python-for-genomic/fasta_file.py:71 | a found stop is a full stop codon: a window clipped at the end never matches |
| OrfExtractor.FirstStopAfter | python-for-genomic/fasta_file.py:91-97 | the inner loop finds no stop iff every stop is at or before the start; otherwise it picks a stop after the start |
| OrfExtractor.FirstStopAfterIsLeast | python-for-genomic/fasta_file.py:91-97 | with increasing stops, the one picked is the least stop after the start |
| OrfExtractor.Step | python-for-genomic/fasta_file.py:90-97 | one start of the outer loop: when it lies beyond the cursor and some stop follows it, the ORF `(start, first later stop)` is appended and the cursor grows by 3; otherwise nothing changes; its invariants are `StepShape` |
| OrfExtractor.Run | python-for-genomic/fasta_file.py:86-97 | the outer loop over all starts from no ORF and cursor 0; its invariants are `RunShape` |
| OrfExtractor.Texts | python-for-genomic/fasta_file.py:94 | each accepted `(start, stop)` cut as `shifted[start:stop + 3]`, in order |
| OrfExtractor.Picks | python-for-genomic/fasta_file.py:80-97 | the `(start, stop)` pairs the outer loop accepts for `seq` in `frame`; characterised by `OrfCodons`, `OrfStopIsLeast`, `OrfOrder` and `OrfStartIff` |
| OrfExtractor.Shifted | python-for-genomic/fasta_file.py:85 | `seq[frame - 1:]`, the string the ORF texts are cut from |
| OrfExtractor.OrfTexts | python-for-genomic/fasta_file.py:74-98 | what `orfs(seq, frame)` returns: each accepted `(start, stop)` cut from `seq[frame - 1:]` as `[start:stop + 3]`; the loop `Orfs` is proved equal to it |
| OrfExtractor.RunExtend | python-for-genomic/fasta_file.py:90-97 | the outer loop over one more start is one more step |
| OrfExtractor.TextsExtend | python-for-genomic/fasta_file.py:94 | appending the slice of a new ORF extends the list of texts |
| OrfExtractor.TextsIndex | python-for-genomic/fasta_file.py:94 | the `k`-th text is `shifted[start:stop + 3]` for the `k`-th pick |
| OrfExtractor.Orfs | python-for-genomic/fasta_file.py:74-98 | the nested loop with its cursor returns exactly the ORF texts of the greedy rule |
| OrfExtractor.RunShape | python-for-genomic/fasta_file.py:87-96 | the cursor is 3 times the number of ORFs so far; the `k`-th accepted start is a start beyond `3*k` and its stop is the first stop after it; accepted starts strictly increase; the converse, that every start passing the test is accepted, is `StartPickedIff` |
| OrfExtractor.StepShape | python-for-genomic/fasta_file.py:90-96 | one turn of the outer loop keeps the cursor at 3 times the number of ORFs, every ORF accepted, and the starts increasing |
| OrfExtractor.RunPrefix | python-for-genomic/fasta_file.py:86-97 | the ORFs accepted over the first `i` starts are a prefix of those accepted over all starts |
| OrfExtractor.LaterPicks | python-for-genomic/fasta_file.py:86-97 | the ORFs accepted after the first `i` starts begin at one of the later starts |
| OrfExtractor.StartPickedIff | python-for-genomic/fasta_file.py:90-97 | the `i`-th start is accepted iff it lies beyond the cursor `3 * (ORFs accepted before it)` and some stop follows it, the test at line 93 in both directions |
| OrfExtractor.StopAfterIff | python-for-genomic/fasta_file.py:91-93 | a found stop follows an offset iff an in-frame stop codon does |
| OrfExtractor.OrfStartIff | python-for-genomic/fasta_file.py:74-97 | for `seq` in `frame`, the `i`-th in-frame `ATG` starts an ORF iff it lies beyond 3 times the number of ORFs accepted over the `ATG`s before it and some in-frame stop codon follows it |
| OrfExtractor.OrfCodons | python-for-genomic/fasta_file.py:80-96 | the `k`-th ORF starts at an in-frame `ATG` beyond `3*k`, so never at offset 0, and ends at a later in-frame stop codon |
| OrfExtractor.OrfStopIsLeast | python-for-genomic/fasta_file.py:91-97 | each ORF's stop is the first in-frame stop codon after its start |
| OrfExtractor.OrfOrder | python-for-genomic/fasta_file.py:86-98 | one text per accepted start, starts strictly increasing, and the final cursor is 3 times the number of ORFs |
| OrfExtractor.TextAt | python-for-genomic/fasta_file.py:85-94 | the `k`-th text cut from `s[d:]` is the slice of `s` moved `d` places |
| OrfExtractor.OrfTextIsShifted | python-for-genomic/fasta_file.py:85-94 | each ORF text is `seq[frame-1:][start:stop+3]`, which is `seq[frame-1+start : frame-1+stop+3]` |
| OrfExtractor.CodonSpanShape | python-for-genomic/fasta_file.py:94 | a slice from an aligned `ATG` through a later aligned stop codon starts with `ATG`, ends with the stop codon, and has a length that is a multiple of 3 and at least 6 |
| OrfExtractor.Frame1OrfAt | python-for-genomic/fasta_file.py:74-98 | in frame 1 the `k`-th ORF starts with `ATG`, ends with a stop codon, and has a length that is a multiple of 3 and at least 6 |
| OrfExtractor.Frame1OrfShape | python-for-genomic/fasta_file.py:74-98 | every frame-1 ORF has that shape |
| OrfExtractor.ShiftedSpanLength | python-for-genomic/fasta_file.py:94 | a slice `d` places past an aligned start-to-stop span, not clipped by the end of the string, has length `stop + 3 - start`, a multiple of 3 and at least 6 |
| OrfExtractor.ShiftedStartIsNotStartCodon | python-for-genomic/fasta_file.py:85-94 | a slice that begins 1 or 2 bases after an `ATG` does not begin with `ATG` |
| OrfExtractor.OrfSpan | python-for-genomic/fasta_file.py:80-96 | the stop of each ORF lies a positive whole number of codons after its start |
| OrfExtractor.OrfTextAt | python-for-genomic/fasta_file.py:85-94 | the `k`-th ORF text is the slice of `seq` from `frame - 1 + start` to `frame - 1 + stop + 3` |
| OrfExtractor.AnyFrameUnclipped | python-for-genomic/fasta_file.py:85-94 | in every frame, an ORF whose slice is not clipped at the end of `seq` has length `stop + 3 - start`, a multiple of 3 and at least 6 |
| OrfExtractor.ShiftedFrameSkipsStartCodon | python-for-genomic/fasta_file.py:85-94 | in frames 2 and 3 no ORF begins with `ATG` |
| OrfExtractor.Frame2Example | python-for-genomic/fasta_file.py:85-94 | `orfs("CATGTAG", 2) == ["TGTAG"]`: the slice `[1:7]` of the 6-long `seq[1:]` is clipped at its end, so this frame-2 ORF has a length that is not a multiple of 3 |
| OrfExtractor.Frame2ExampleCodons | python-for-genomic/fasta_file.py:80-81 | in frame 2 of `CATGTAG` the only start is at 1 and the only stop at 4 |
| OrfExtractor.CursorExampleWindows | python-for-genomic/fasta_file.py:64 | the in-frame windows of `ATGCCCTAAATGAAATAG` |
| OrfExtractor.CursorExampleStarts | python-for-genomic/fasta_file.py:80 | in `ATGCCCTAAATGAAATAG` the frame-1 starts are at 0 and 9 |
| OrfExtractor.CursorExampleStops | python-for-genomic/fasta_file.py:81 | in `ATGCCCTAAATGAAATAG` the frame-1 stops are at 6 and 15 |
| OrfExtractor.CursorExampleRun | python-for-genomic/fasta_file.py:87-96 | with starts 0 and 9 and stops 6 and 15, only start 9 is accepted, paired with stop 15 |
| OrfExtractor.CursorExample | python-for-genomic/fasta_file.py:74-98 | `orfs("ATGCCCTAAATGAAATAG", 1) == ["ATGAAATAG"]`: the `ATG` at offset 0 is skipped |
| OrfRanker.RankedLt | python-for-genomic/fasta_file.py:109 | Python's `<` on `(int, str)` tuples: the lengths first, then the texts by `StrLt`; a strict total order by the four lemmas below |
| OrfRanker.RankedLtIrreflexive | python-for-genomic/fasta_file.py:109 | no `(int, str)` tuple is below itself |
| OrfRanker.RankedLtTransitive | python-for-genomic/fasta_file.py:109 | tuple order is transitive |
| OrfRanker.RankedLtTotal | python-for-genomic/fasta_file.py:109 | two different tuples are ordered one way or the other |
| OrfRanker.RankedLtAsymmetric | python-for-genomic/fasta_file.py:109 | tuple order is asymmetric |
| OrfRanker.RankedOf | python-for-genomic/fasta_file.py:109 | the list `[(len(s), s) for s in seq_orfs]`, in order |
| OrfRanker.RankedOfPairs | python-for-genomic/fasta_file.py:109 | each built tuple holds the length of its own text, and the text is one of the ORFs |
| OrfRanker.Insert | python-for-genomic/fasta_file.py:109 | insertion of one tuple into an ascending list, the step of `Sort`; characterised by `InsertPermutes` and `InsertSorted` |
| OrfRanker.InsertPermutes | python-for-genomic/fasta_file.py:109 | insertion adds exactly the new element |
| OrfRanker.InsertSorted | python-for-genomic/fasta_file.py:109 | insertion keeps a list ascending |
| OrfRanker.ConsSorted | python-for-genomic/fasta_file.py:109 | an ascending list stays ascending under a head that no element is below |
| OrfRanker.HeadBound | python-for-genomic/fasta_file.py:109 | no element of an ascending list is below a value its head is not below |
| OrfRanker.Sort | python-for-genomic/fasta_file.py:109 | `sorted` as insertion sort; `SortSorted`, `SortPermutes` and `SortedUnique` show it returns the one ascending permutation, the same list as Python's `sorted` |
| OrfRanker.SortSorted | python-for-genomic/fasta_file.py:109 | `sorted` returns an ascending list |
| OrfRanker.SortPermutes | python-for-genomic/fasta_file.py:109 | `sorted` returns a permutation of its input |
| OrfRanker.SortedHeadIsLeast | python-for-genomic/fasta_file.py:109 | the head of an ascending list is below none of its elements |
| OrfRanker.SortedTail | python-for-genomic/fasta_file.py:109 | the tail of an ascending list is ascending |
| OrfRanker.SortedUnique | python-for-genomic/fasta_file.py:109 | two ascending permutations of the same tuples are equal, so the sorted result is unique |
| OrfRanker.MaxRanked | python-for-genomic/fasta_file.py:123 | `max` of a non-empty list is an element of it that no element exceeds |
| OrfRanker.MaxUnique | python-for-genomic/fasta_file.py:123 | that greatest element is unique |
| OrfRanker.SortedMaxIsLast | python-for-genomic/fasta_file.py:137 | the maximum of an ascending list is its last element |
| OrfRanker.SortedPairs | python-for-genomic/fasta_file.py:106-110 | `None` for no ORF, otherwise `sorted` of the `(len(s), s)` tuples; characterised by `SortedPairsSpec` |
| OrfRanker.SortedPairsSpec | python-for-genomic/fasta_file.py:106-110 | the result is `None` iff there is no ORF; otherwise it is ascending, a permutation of the `(len(s), s)` tuples, and the only such list |
| OrfRanker.LenOrfs | python-for-genomic/fasta_file.py:101-110 | `len_orfs(seq, frame)`: `None` for no ORF, otherwise the sorted `(len(s), s)` tuples of `orfs(seq, frame)`; characterised by `LenOrfsSpec` |
| OrfRanker.LenOrfsSpec | python-for-genomic/fasta_file.py:101-110 | `len_orfs` is `None` iff `orfs` is empty; otherwise it holds the sorted `(len(s), s)` tuples of the ORFs |
| OrfRanker.BestOf | python-for-genomic/fasta_file.py:137 | `max` of the sorted tuples of a non-empty ORF list; characterised by `BestOfIsLongest` |
| OrfRanker.Best | python-for-genomic/fasta_file.py:121-123 | `max(len_orfs(seq, frame))` for a sequence with an ORF |
| OrfRanker.BestOfIsLongest | python-for-genomic/fasta_file.py:137 | the greatest tuple is the last one; its text is an ORF of that length; no ORF is longer, and none of equal length is greater as text |
| OrfRanker.LongestOrfInSeq | python-for-genomic/fasta_file.py:128-139 | `KeyError` for an unknown id, `None` when the sequence has no ORF, otherwise the length of its greatest tuple; characterised by `LongestOrfInSeqSpec` |
| OrfRanker.LongestOrfInSeqSpec | python-for-genomic/fasta_file.py:128-139 | `KeyError` iff the id is unknown; `None` iff its sequence has no ORF; otherwise the length of a longest ORF |
| OrfRanker.CandidateLt | python-for-genomic/fasta_file.py:125 | Python's `<` on `((int, str), str)` tuples: by `RankedLt`, then by id; a strict total order by the three lemmas below |
| OrfRanker.CandidateLtIrreflexive | python-for-genomic/fasta_file.py:125 | no `((int, str), str)` tuple is below itself |
| OrfRanker.CandidateLtTransitive | python-for-genomic/fasta_file.py:125 | that order is transitive |
| OrfRanker.CandidateLtTotal | python-for-genomic/fasta_file.py:125 | two different candidates are ordered one way or the other |
| OrfRanker.MaxCandidate | python-for-genomic/fasta_file.py:125 | `max` over candidates returns one that no candidate exceeds |
| OrfRanker.CandidateOf | python-for-genomic/fasta_file.py:123 | the tuple `(max(seq_orfs), seq_id)` collected for one record with an ORF |
| OrfRanker.LongestOrf | python-for-genomic/fasta_file.py:113-125 | `ValueError` iff no record has an ORF; otherwise it returns some record's own greatest tuple and id, and no record's candidate is greater |
| OrfRanker.IsLongestOrfUnique | python-for-genomic/fasta_file.py:113-125 | that contract determines the result: ties are broken by text, then by id |
| OrfRanker.LongestOrfIsLongest | python-for-genomic/fasta_file.py:113-125 | the length returned is that of the longest ORF of any record |
| OrfRanker.FindFrom | python-for-genomic/fasta_file.py:146 | `str.find` from offset `i`: the first offset at which the pattern occurs, or -1; characterised by `FindFromSpec` |
| OrfRanker.OrfStartPosition | python-for-genomic/fasta_file.py:142-146 | `ORF_start_position(seq, orf)`, `seq.find(orf)`; characterised by `OrfStartPositionSpec` |
| OrfRanker.FindFromSpec | python-for-genomic/fasta_file.py:146 | `find` from `i` gives -1 iff the pattern never occurs from `i` on; otherwise it gives the least such offset |
| OrfRanker.OrfStartPositionSpec | python-for-genomic/fasta_file.py:142-146 | `ORF_start_position` gives -1 iff `orf` is not a substring; otherwise the first offset where it occurs |
| OrfRanker.FindAtMost | python-for-genomic/fasta_file.py:146 | where the pattern occurs, `find` answers no later |
| OrfRanker.SliceIsFound | python-for-genomic/fasta_file.py:146 | a slice of `seq` is found at or before the offset it was cut from |
| OrfRanker.OrfIsFound | python-for-genomic/fasta_file.py:142-146 | every ORF of `seq` is found in `seq`, at or before `frame-1+start` |
| SeqLengths.CountRecords | python-for-genomic/fasta_file.py:15-20 | `count_records`: the number of records |
| SeqLengths.SeqLen | python-for-genomic/fasta_file.py:31-36 | `seq_len`: each id mapped to the length of its sequence; characterised by `SeqLenSpec` |
| SeqLengths.SeqLenSpec | python-for-genomic/fasta_file.py:15-36 | `seq_len` has the same ids as the records and maps each to its sequence length; it has `count_records` entries |
| SeqLengths.ExtremeExists | python-for-genomic/fasta_file.py:44-47 | a non-empty map has a greatest and a least value |
| SeqLengths.SeqLenMinMax | python-for-genomic/fasta_file.py:39-47 | `seq_len_min_max`: `ValueError` on an empty map, otherwise the greatest value (`longest`) or the least; characterised by `SeqLenMinMaxSpec` |
| SeqLengths.SeqLenMinMaxSpec | python-for-genomic/fasta_file.py:39-47 | `ValueError` iff the map is empty; otherwise a value of the map that bounds all values from above (`longest`) or below |
| SeqLengths.LongestAndShortest | python-for-genomic/fasta_file.py:31-47 | over `seq_len`, the maximum is a longest sequence's length, the minimum a shortest one's, and min ≤ max |
| SeqLengths.SeqLenMinMaxId | python-for-genomic/fasta_file.py:50-56 | `seq_len_min_max_id`: the ids whose value is the extreme, or the `ValueError` of `seq_len_min_max`; characterised by `SeqLenMinMaxIdSpec` |
| SeqLengths.SeqLenMinMaxIdSpec | python-for-genomic/fasta_file.py:50-56 | `ValueError` iff the map is empty; otherwise a non-empty set holding exactly the ids whose value is the extreme |
| RepeatCounter.NMers | python-for-genomic/fasta_file.py:167 | the overlapping k-mers `seq[i:i + n]` for `i` in `range(len(seq) - n + 1)`, in order |
| RepeatCounter.CounterOf | python-for-genomic/fasta_file.py:169 | `Counter(nmers)`: each k-mer mapped to its number of occurrences |
| RepeatCounter.Repeated | python-for-genomic/fasta_file.py:154-160 | what `drop_repeats` leaves: the entries counted more than once; the loop `DropRepeats` is proved equal to it |
| RepeatCounter.Kept | python-for-genomic/fasta_file.py:165-171 | the counts one record adds to the total: its k-mers seen more than once; characterised by `KeptSpec` |
| RepeatCounter.DropRepeats | python-for-genomic/fasta_file.py:154-160 | deleting the entries counted at most once leaves exactly those counted more than once |
| RepeatCounter.Update | python-for-genomic/fasta_file.py:171 | `Counter.update` adds the counts key by key, over the union of the keys |
| RepeatCounter.KeptSpec | python-for-genomic/fasta_file.py:165-171 | a k-mer kept from a record has length `n`, a count of at least 2, and that count is its number of overlapping occurrences |
| RepeatCounter.ShortSequenceKeepsNothing | python-for-genomic/fasta_file.py:167 | a sequence shorter than `n` has no k-mers and keeps nothing |
| RepeatCounter.TallyRemove | python-for-genomic/fasta_file.py:164-171 | the per-record sum may take any record out first, so record order does not matter |
| RepeatCounter.TallyAgree | python-for-genomic/fasta_file.py:164-171 | the sum reads only the records it runs over |
| RepeatCounter.TallyStepCounts | python-for-genomic/fasta_file.py:171 | one `update` adds one record's kept counts to the sum of every k-mer |
| RepeatCounter.TallyStepKeys | python-for-genomic/fasta_file.py:171 | after one `update` the keys are those kept from the records seen so far |
| RepeatCounter.TallyStep | python-for-genomic/fasta_file.py:171 | one `update` keeps the running total equal to the sums over the records seen so far |
| RepeatCounter.PartialComplete | python-for-genomic/fasta_file.py:164-173 | once every record has been seen, the running total is the result |
| RepeatCounter.RepeatTally | python-for-genomic/fasta_file.py:149-173 | the result of `repeats`: every k-mer kept by some record, mapped to the sum of its counts over the records that keep it; the loop `Repeats` is proved equal to it |
| RepeatCounter.Repeats | python-for-genomic/fasta_file.py:149-173 | the result maps every k-mer kept from some record to the sum of its kept counts over all records |
| RepeatCounter.RepeatTallyShape | python-for-genomic/fasta_file.py:149-173 | every key of the result has length `n` and a count of at least 2 |
| RepeatCounter.ShortRecordIgnored | python-for-genomic/fasta_file.py:167-171 | a record shorter than `n` does not change the result |
| RepeatCounter.ShortRecordKeys | python-for-genomic/fasta_file.py:167-171 | such a record adds no key |
| RepeatCounter.ShortRecordTally | python-for-genomic/fasta_file.py:167-171 | such a record adds nothing to any sum |
| RepeatCounter.SingleRecordKeys | python-for-genomic/fasta_file.py:162-173 | with one record the keys are those the record keeps |
| RepeatCounter.SingleRecordTally | python-for-genomic/fasta_file.py:162-173 | with one record each sum is that record's kept count |
| RepeatCounter.SingleRecord | python-for-genomic/fasta_file.py:162-173 | with one record the result is what that record keeps |
| RepeatCounter.NMersAAAA | python-for-genomic/fasta_file.py:167 | the 1-mers of `AAAA` are four `A`s |
| RepeatCounter.CounterAAAA | python-for-genomic/fasta_file.py:169 | `Counter` of four `A`s is `{A: 4}` |
| RepeatCounter.KeptAAAA | python-for-genomic/fasta_file.py:165-171 | `AAAA` keeps `{A: 4}` for `n = 1` |
| RepeatCounter.NMersATAT | python-for-genomic/fasta_file.py:167 | the 2-mers of `ATAT` are `AT`, `TA`, `AT`, overlapping |
| RepeatCounter.CounterATAT | python-for-genomic/fasta_file.py:169 | their `Counter` is `{AT: 2, TA: 1}` |
| RepeatCounter.KeptATAT | python-for-genomic/fasta_file.py:154-171 | `ATAT` keeps `{AT: 2}` for `n = 2`; `TA`, seen once, is dropped |
| RepeatCounter.ExampleOneRecord | python-for-genomic/fasta_file.py:149-173 | `repeats({r1: AAAA}, 1) == {A: 4}` |
| RepeatCounter.ExampleOverlap | python-for-genomic/fasta_file.py:149-173 | `repeats({r1: ATAT}, 2) == {AT: 2}` |
| RepeatCounter.NothingKept | python-for-genomic/fasta_file.py:149-173 | when no record keeps anything, the result is empty |
| RepeatCounter.KeptAC | python-for-genomic/fasta_file.py:154-171 | `AC` keeps nothing for `n = 1` |
| RepeatCounter.ExampleNothingRepeated | python-for-genomic/fasta_file.py:149-173 | `repeats({r1: AC, r2: AC}, 1) == {}`: k-mers seen once per record are dropped even when several records hold them |
| StudentGradeSystem.WithGrade | student-grade-system/students_grade_system.py:62-69 | the table after `add_grade`: a new student gets `[grade]`, otherwise the grade is appended to the student's list; characterised by `WithGradeSpec` |
| StudentGradeSystem.Without | student-grade-system/students_grade_system.py:71-78 | the table after `remove_student`: the student is removed when present with a non-empty list, otherwise the table is unchanged; characterised by `WithoutSpec` |
| StudentGradeSystem.WithGradeSpec | student-grade-system/students_grade_system.py:62-69 | adding a grade gives a new student `[grade]`, appends to an existing student's list keeping the earlier grades, and leaves every other student alone |
| StudentGradeSystem.WithoutSpec | student-grade-system/students_grade_system.py:71-78 | removal deletes the entry iff it is present with a non-empty list; otherwise the table is unchanged; other students are untouched |
| StudentGradeSystem.AddThenRemove | student-grade-system/students_grade_system.py:62-78 | after a grade is added, removing that student always succeeds |
| StudentGradeSystem.WithoutIdempotent | student-grade-system/students_grade_system.py:71-78 | removing twice is removing once |
| StudentGradeSystem.GradesStayInRange | student-grade-system/students_grade_system.py:62-78 | adding a grade in [0, 100] and removing a student keep every grade in [0, 100] |
| StudentGradeSystem.Student.constructor | student-grade-system/students_grade_system.py:53-60 | the table starts as the given map |
| StudentGradeSystem.Student.AddGrade | student-grade-system/students_grade_system.py:62-69 | the new table is the old one with the grade added, and the student's last grade is the one added |
| StudentGradeSystem.Student.RemoveStudent | student-grade-system/students_grade_system.py:71-78 | the new table is the old one with the removal rule applied: the student is gone or nothing changed |
| StudentGradeSystem.ParseInt | student-grade-system/students_grade_system.py:133 | `int(line)`: surrounding whitespace ignored, an optional sign, then one or more decimal digits; anything else is `ValueError`; its properties are `ParseIntRoundTrip`, `ParseIntIgnoresPadding` and `BlankLineIsRejected` |
| StudentGradeSystem.DigitsValueOfDigits | student-grade-system/students_grade_system.py:133 | the decimal digits of `n` are digits and read back as `n` |
| StudentGradeSystem.ParseIntRoundTrip | student-grade-system/students_grade_system.py:133 | `int(str(n)) == n` for every integer |
| StudentGradeSystem.StripLeftAllSpace | student-grade-system/students_grade_system.py:133 | stripping an all-blank string from the left leaves nothing |
| StudentGradeSystem.StripLeftAppendSpace | student-grade-system/students_grade_system.py:133 | left stripping keeps a trailing blank unless it consumes the whole string |
| StudentGradeSystem.ParseIntIgnoresPadding | student-grade-system/students_grade_system.py:133 | `int` ignores a blank added before or after its argument |
| StudentGradeSystem.BlankLineIsRejected | student-grade-system/students_grade_system.py:130-137 | a blank line is a `ValueError` for `int()`, so `get_grade` asks again |
| StudentGradeSystem.GetGrade | student-grade-system/students_grade_system.py:125-144 | returns the first input line that parses as an integer in [0, 100]; every earlier line is rejected; `EOFError` iff no line qualifies |
| StudentGradeSystem.Selection | student-grade-system/students_grade_system.py:114-122 | returns `int(option)` of the first line among the choices; `EOFError` iff no line is among them; `ValueError` only if that option does not parse |
| StudentGradeSystem.SingleDigitParses | student-grade-system/students_grade_system.py:122 | a single digit parses to its value |
| StudentGradeSystem.MenuOptionsParse | student-grade-system/students_grade_system.py:21 | the menu options `"1"` to `"4"` parse to numbers from 1 to 4, so the menu's `selection` never raises `ValueError` |

## Left out

- `import_data` and `as_dict` (python-for-genomic/fasta_file.py:8-28): reading FASTA files goes through Biopython's `SeqIO`, a foreign library. The records are given as an id-to-sequence map, and `str(record.seq)` is a plain string.
- The `__main__` block of `fasta_file.py`: a hard-coded file path and printing.
- Dict and `Counter` iteration order and the order of `most_common`. Only per-key values are modelled. `LongestOrf` and `Repeats` visit records in an arbitrary order, and their results do not depend on it.
- SeqLengths.SeqLenMinMaxIdSpec: the result is a set, not a list, because the list's order is the dict's key order, which is not modelled.
- RepeatCounter.DropRepeats: the `dropwhile` over `most_common()` is modelled as deleting every entry counted at most once. Deletion order is not modelled.
- Frames below 1: every ORF and codon member requires `frame >= 1`. Python's negative-index slicing for `frame <= 0` is not modelled.
- RepeatCounter.Repeats: requires `n >= 1`. With `n = 0` the source counts `len + 1` empty strings, and a negative `n` slices with negative indices; neither is modelled.
- StudentGradeSystem.ParseInt: models `int()` on ASCII text only: optional surrounding ASCII whitespace, an optional sign, then decimal digits. Underscores between digits, non-ASCII digits and non-ASCII whitespace, which Python's `int` also accepts, are not modelled. In the other direction, the model accepts any number of digits, while CPython 3.11 and later (and the 2022 security releases of 3.7 to 3.10) raise `ValueError` for more than 4300 digits, leading zeros included: for a line of 4300 zeros followed by `7`, `get_grade` asks again while `GetGrade` returns 7.
- `Student.__init__` and `update_session` (student-grade-system/students_grade_system.py:53-60, 96-103): CSV reading and writing and `ast.literal_eval`. The constructor takes the map instead.
- `average_grade` uses floating-point `statistics.mean` and formatted printing; `print_grades` only prints.
- `main`, `platform`, `logger`, `in_database`, `register`, `log_in`, `get_username_and_password` and `get_password`: console I/O, `getpass`, the `admin.csv` file and password hashing.
- Prompts and printed messages of `get_grade`, `selection` and `remove_student` are not modelled.
- StudentGradeSystem.Student.AddGrade: grade lists are values, so aliasing of a list shared with another reference and appended in place is not modelled.
