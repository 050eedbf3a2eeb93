# PCR duplicate removal for single-end SAM files, in Dafny

This project models `kearns_deduper.py`, a script that removes PCR duplicates
from the alignment lines of a single-end SAM file. It covers three parts.

- **Forward-strand position reconstruction.** `FWD_Correct_pos` becomes
  `Cigar.FwdCorrectPos`. It works on the CIGAR and position texts, as the
  script does.
- **Reverse-strand position reconstruction.** `REV_Correct_pos` becomes the
  method `Cigar.RevCorrectPos`. It keeps the script's two loops that fill
  the dictionary of run lengths. The method is proved equal to the
  text-level function `Cigar.ReverseStart`. On a well-formed CIGAR (the text
  `Render(ts)` of a sequence of runs `ts`), `ReverseStart` is proved equal
  to `ReverseStartOfRuns`, which is stated on the runs. The regular
  expression searches are modelled by `Cigar.FindRuns`. It is defined on any
  text, and on a well-formed CIGAR it is proved to find exactly the runs of
  the wanted operations.
- **The streaming engine** (lines 97-137). The class `Engine.Deduper` holds
  the following fields:
  - the dictionary `Read_Dict`, as an insertion-ordered sequence of
    (key, line) entries;
  - `last_chrom`, which starts as `"0"`;
  - the two sinks, as sequences that are appended to.

  `ProcessLine` keeps the fields equal to `Dedup.Run` of the lines received
  so far. `Dedup.Run` is the loop written as a function of its state,
  `Dedup.Step`. `Finish` appends what is left in the table to the output.
  The behaviour of `Run` is then proved against an independent description
  of the result:
  - the input's data lines fall into chromosome windows, which are maximal
    runs of consecutive data lines on one chromosome (header lines do not
    break a run);
  - `Reps` keeps the first line of every key in a window;
  - the output is exactly `Dedup.Written`: each header where it stands,
    and the kept lines of each window just before the line that opens the
    next window, or at the end for the last one; so it holds the headers in
    input order and, as data lines, the kept lines window by window;
  - the wrong-UMI sink holds exactly the data lines with an unknown UMI, in
    order;
  - every input line ends up in exactly one of the output, the wrong-UMI
    sink or the discarded duplicates;
  - the number of data lines written is the number of distinct keys, summed
    over the windows.

The model follows the script's text handling:
- A line is the text as the file yields it, line terminator included.
- Fields come from `split('\t')` (`Text.Split`, proved inverse to
  `Text.Join`).
- The UMI is the last eight characters of QNAME.
- The key is the string `UMI_chrom_strand_pos` that line 130 builds, and the
  position part is the text that `str()` gives (`Text.IntToString`).
  `Sam.KeyIdentifies` shows that two lines of one chromosome window, whose
  UMIs have the same length, share a key exactly when they agree on UMI,
  strand and true position.
- The known UMIs are a set, because the script only tests membership in
  its list.

### A soft clip that is the last operation

On the reverse strand, a soft clip that is the CIGAR's last operation is
never subtracted. Line 67 searches only `CigarString[:-1]`, which ends in
the digits of the last run, so a final `nS` never matches. Subtracting a
final clip would give 171 for `"71M2S"` at position 100 with 73 bases, and
173 for `"30M2D41M2S"`. The code gives 173 and 175. The model follows the
code:
- `Cigar.ReverseExampleTrailingClip` proves 173;
- `Cigar.ReverseExampleDeletion` proves 175;
- `Cigar.ReverseClipNone` shows that a final clip is never counted.

## Model

| member | source | states |
|---|---|---|
| Text.NatToString | kearns_deduper.py:49 | `str()` of a natural number is a non-empty digit string, without a leading zero, that `int()` reads back as the number |
| Text.ParseNat | kearns_deduper.py:46 | `int()` of an ASCII digit string; it has no `ensures`, and `NatToString` with `IntToString` say that it reads back what `str()` writes |
| Text.IntToString | kearns_deduper.py:93-94 | `str()` of an integer: for a non-negative value, digits without a leading zero (other than "0" itself) that `int()` reads back as the value; for a negative one, a minus sign followed by the digits of its absolute value, which do not start with 0 |
| Text.Split | kearns_deduper.py:104 | `split(sep)` returns at least one part, and no part contains the separator |
| Text.JoinSplit | kearns_deduper.py:104 | joining the split fields with the separator gives back the original line, so splitting loses nothing |
| Text.SplitJoin | kearns_deduper.py:104 | splitting the join of separator-free parts gives back exactly those parts |
| Cigar.FwdCorrectPos | kearns_deduper.py:38-49 | `FWD_Correct_pos` itself; it has no `ensures`, and `FwdLeadingClip`, `FwdUnclipped` and `FwdInteriorClipRejected` give its result on every well-formed CIGAR |
| Cigar.DropLast | kearns_deduper.py:44 | `CigarString[:-1]` is the text without its last character, with every remaining character in place, and is empty for empty text |
| Cigar.BeforeFirst | kearns_deduper.py:45 | `split("S")[0]` is the longest prefix free of `S`: the next character is `S` when `S` occurs, and it is the whole text when `S` does not occur |
| Cigar.FwdLeadingClip | kearns_deduper.py:44-46 | when the CIGAR starts with a run `nS` followed by at least one more run, the forward function accepts any digit position and returns the text of `pos - n` |
| Cigar.FwdUnclipped | kearns_deduper.py:44-48 | when no run before the last is a soft clip (including a CIGAR whose only clip is its last run), the position text is returned unchanged, whatever it holds |
| Cigar.FwdInteriorClipRejected | kearns_deduper.py:44-46 | when the first run is not a clip, a soft clip that is neither the first nor the last run puts a non-digit before the first `S`, so the CIGAR is outside what the model's `int()` (ASCII digit strings) accepts |
| Cigar.FwdExampleLeadingClip | kearns_deduper.py:38-49 | "2S71M" at position "100" gives "98" |
| Cigar.FwdExampleUnclipped | kearns_deduper.py:38-49 | "73M" at position "100" gives "100" |
| Cigar.FwdExampleTrailingClip | kearns_deduper.py:38-49 | "71M2S" at position "100" gives "100": a final clip is not subtracted |
| Cigar.FindRuns | kearns_deduper.py:64-67 | the search for `([0-9]+)([ops])` finds only runs with a digit length and an operation from the pattern |
| Cigar.FindRunsRender | kearns_deduper.py:66-67 | on the text of well-formed runs followed by any text, the search finds exactly the runs of the wanted operations, in order, and then goes on into the rest |
| Cigar.FindRunsAll | kearns_deduper.py:66 | on a well-formed CIGAR, the I/N/D search finds exactly its I, N and D runs, in order |
| Cigar.FindRunsButLast | kearns_deduper.py:67 | on a well-formed CIGAR without its last character, the S search finds exactly the S runs among all runs but the last |
| Cigar.FindRunsDigits | kearns_deduper.py:67 | a text of digits with no operation letter after them matches nothing |
| Cigar.ReverseStartOfRuns | kearns_deduper.py:92-93 | the reverse-strand start stated on the runs, `pos + (readLen - clip - ΣI) + ΣN + ΣD`; it has no `ensures`, and `ReverseClipLastWins` and `ReverseClipNone` characterise its clip |
| Cigar.ReverseStart | kearns_deduper.py:63-94 | `REV_Correct_pos`'s value on the CIGAR text, through the two searches; it has no `ensures`, `ReverseStartRender` equates it with `ReverseStartOfRuns`, and `RevCorrectPos` is proved to compute it |
| Cigar.ReverseStartRender | kearns_deduper.py:63-94 | on a well-formed CIGAR, the text-level reverse computation equals `pos + readLen - clip - ΣI + ΣN + ΣD` over its runs, where the clip is the last S run before the final run, or 0 |
| Cigar.ReverseClipLastWins | kearns_deduper.py:73-76 | when several soft clips come before the last run, the last of them is the one subtracted |
| Cigar.ReverseClipNone | kearns_deduper.py:67-78 | without a soft clip before the last run, the clip is 0; a clip that is the last run is never subtracted |
| Cigar.CountsDictStep | kearns_deduper.py:69-72 | appending a run's length to its operation's list, or creating the list, keeps the dictionary equal to the per-operation length lists of the runs seen |
| Cigar.DictTotal | kearns_deduper.py:79-90 | the sum read from the dictionary, or 0 for an absent operation, is that operation's total over the runs |
| Cigar.GatherLengths | kearns_deduper.py:68-72 | after the loop, the dictionary has an entry exactly for each operation that occurs, and that entry lists the operation's run lengths in order |
| Cigar.RecordClips | kearns_deduper.py:73-74 | after the loop, the `S` entry holds the length of the last soft clip found, or the dictionary is unchanged when there is none |
| Cigar.RevCorrectPos | kearns_deduper.py:51-94 | the returned text is `str()` of the reverse-strand true start computed from the CIGAR text, the position and the read length |
| Cigar.ReverseExampleLeadingClip | kearns_deduper.py:51-94 | "2S71M", 100, 73 gives 171 |
| Cigar.ReverseExampleTrailingClip | kearns_deduper.py:51-94 | "71M2S", 100, 73 gives 173: the final clip is not subtracted |
| Cigar.ReverseExampleDeletion | kearns_deduper.py:51-94 | "30M2D41M2S", 100, 73 gives 175: the deletion is added and the final clip is ignored |
| Cigar.ReverseExampleUnmapped | kearns_deduper.py:51-94 | "*" has no runs, so only the read length is added: 100, 73 gives 173 |
| Sam.IsHeader | kearns_deduper.py:101 | `line.startswith("@")`; it has no `ensures`, and `Emitted` copies such a line through where it stands, `WrittenParts` saying the headers written are those read, in order |
| Sam.KnownUmi | kearns_deduper.py:114-115 | `qname[-8:] in Umi_list`; it has no `ensures`, and `Reps` and `OutputCount` say every written data line satisfies it |
| Sam.Umi | kearns_deduper.py:114 | `qname[-8:]` has eight characters, or all of a shorter name |
| Sam.UmiIsSuffix | kearns_deduper.py:114 | the UMI is a suffix of the read name |
| Sam.ReverseBit | kearns_deduper.py:122-123 | for a 16-bit flag, `flag & 16 == 16` holds exactly when bit 4 is set, which is the strand test the model uses |
| Sam.Keyable | kearns_deduper.py:122-128 | what the key computation needs so that no `int()` raises: a decimal flag (line 122), then a decimal position on the reverse strand (line 93), or what `FwdParses` asks on the forward strand (line 46); it has no `ensures` |
| Sam.LineOk | kearns_deduper.py:101-115 | a line the loop gets through without raising: a header, or a line with at least ten fields (lines 105-107) that is `Keyable` when its UMI is known; it has no `ensures` |
| Sam.StrandName | kearns_deduper.py:123-127 | "Rev" when bit 4 of the flag is set, "Fwd" otherwise; it has no `ensures`, and `ReverseBit` relates its test to `flag & 16` |
| Sam.TruePos | kearns_deduper.py:121-128 | the true-position text from the strand's function; it has no `ensures`, and the CIGAR lemmas give its value |
| Sam.KeyOf | kearns_deduper.py:114-130 | the key string of a line; it has no `ensures`, `JoinFour` gives its text and `KeyIdentifies` says when two keys are equal |
| Sam.JoinFour | kearns_deduper.py:130 | joining the four key parts with "_" is the concatenation that line 130 writes |
| Sam.KeyIdentifies | kearns_deduper.py:114-130 | two keyable lines on one chromosome whose UMIs have the same length get the same key exactly when their UMIs, strands and true-position texts are equal |
| Sam.ComputeKey | kearns_deduper.py:104-130 | the key built from the split fields, with the true position from the strand's function, is the key of the line |
| Dedup.Windows | kearns_deduper.py:97-113 | every chromosome window is non-empty |
| Dedup.WindowsCoverData | kearns_deduper.py:99-113 | the windows, put back together, are exactly the data lines in input order |
| Dedup.WindowsShape | kearns_deduper.py:109-113 | all lines of a window share a chromosome, and consecutive windows differ in chromosome |
| Dedup.WindowsKeyable | kearns_deduper.py:99-130 | when every input line can be processed, every known-UMI line of every window has a computable key |
| Dedup.Reps | kearns_deduper.py:131-134 | the lines kept from a window are no more than the window's lines, and each has a known UMI and a key |
| Dedup.Values | kearns_deduper.py:111-112 | `Read_Dict.values()`: one line per entry, in insertion order, the i-th being the i-th entry's line |
| Dedup.TableKeys | kearns_deduper.py:131 | the dictionary's keys, in insertion order, the i-th being the i-th entry's key |
| Dedup.RepsKeys | kearns_deduper.py:131-134 | the keys of the kept lines are exactly the keys of the window's known-UMI lines |
| Dedup.RepsKeysDistinct | kearns_deduper.py:131-134 | no two kept lines share a key |
| Dedup.RepsCount | kearns_deduper.py:131-134 | the number of kept lines equals the number of distinct keys in the window |
| Dedup.RepsFirstSeen | kearns_deduper.py:131-134 | every kept line is, at some position of the window, the first known-UMI line with its key |
| Dedup.FirstSeenKept | kearns_deduper.py:131-134 | the first known-UMI line of each key is kept |
| Dedup.FirstPositions | kearns_deduper.py:131-134 | the positions of a window's lines that are first with their key, in window order; every one is a position of the window |
| Dedup.FirstPositionsExact | kearns_deduper.py:131-134 | a position is among them exactly when its line is the first known-UMI line with its key |
| Dedup.RepsGrows | kearns_deduper.py:131-134 | a window's last line is kept exactly when it is the first known-UMI line with its key |
| Dedup.RepsInOrder | kearns_deduper.py:111-134 | the kept lines, in the order they are flushed, are the window's first-of-key lines in window order |
| Dedup.DistinctKeysHas | kearns_deduper.py:115-130 | the key of every known-UMI line of a window is among the window's keys |
| Dedup.DistinctKeysWitness | kearns_deduper.py:115-130 | every key of a window is the key of one of its known-UMI lines |
| Dedup.ConcatRepsCount | kearns_deduper.py:109-137 | the kept lines of all windows number the sum of their distinct-key counts |
| Dedup.ConcatRepsKnown | kearns_deduper.py:114-119 | every line kept from any window has a known UMI |
| Dedup.StepNewChrom | kearns_deduper.py:109-113 | a data line on another chromosome closes the current window, so the kept lines of the closed windows gain that window's kept lines, and it opens a window holding only itself |
| Dedup.Step | kearns_deduper.py:99-134 | one iteration of the loop as a function of its state; it has no `ensures`, and `StepData`, `StepTable` and `StepPartition` state what it keeps |
| Dedup.Run | kearns_deduper.py:97-134 | the loop over a whole input from the empty table and chromosome "0"; it has no `ensures`, and `RunInv`, `RunTable`, `RunPartition`, `RunEmitted` and `RunFinal` characterise it |
| Dedup.InvHeader | kearns_deduper.py:101-103 | a header written to the output keeps the engine's state in step with the input |
| Dedup.ReadyNewChrom | kearns_deduper.py:109-113 | flushing and emptying the table on a chromosome change puts every closed window's kept lines in the output |
| Dedup.FlushedOutput | kearns_deduper.py:111-112 | after the flush, the output holds the headers and the kept lines of every window the new line closes |
| Dedup.ReadySameChrom | kearns_deduper.py:109 | on the tracked chromosome the table already holds the current window's kept lines |
| Dedup.PlaceRejected | kearns_deduper.py:115-119 | an unknown-UMI line goes to the wrong-UMI sink only, and the table is neither read nor changed |
| Dedup.PlaceDuplicate | kearns_deduper.py:131-132 | a line whose key is in the table is discarded, and the table is unchanged |
| Dedup.PlaceNew | kearns_deduper.py:133-134 | a line with a new key is added to the table under that key |
| Dedup.StepData | kearns_deduper.py:104-134 | each of the three routes of a data line (rejected, duplicate, new), after the chromosome check, keeps the engine's state in step with the input |
| Dedup.RunInv | kearns_deduper.py:97-134 | after any input: the table holds the current window's kept lines; the output holds the headers and the closed windows' kept lines; the wrong-UMI sink holds the unknown-UMI lines |
| Dedup.InvFinish | kearns_deduper.py:136-137 | the final flush completes the output with the last window's kept lines |
| Dedup.StepTable | kearns_deduper.py:109-134 | one step keeps the table's keys distinct and all its lines on the tracked chromosome |
| Dedup.RunTable | kearns_deduper.py:97-134 | at every point the table holds at most one line per key, and only lines of the current chromosome |
| Dedup.FlushPartition | kearns_deduper.py:111-113 | flushing moves lines from the table to the output without losing or duplicating any |
| Dedup.PlacePartition | kearns_deduper.py:101-134 | appending the line to exactly one of the output, the wrong-UMI sink, the duplicates or the table accounts for it once |
| Dedup.StepPartition | kearns_deduper.py:99-134 | one step puts the new line in exactly one place, so the input is still split exactly among the sinks, the duplicates and the table |
| Dedup.RunPartition | kearns_deduper.py:97-134 | at every point, every input line is in exactly one of the output, the wrong-UMI sink, the duplicates or the table |
| Dedup.RunFinal | kearns_deduper.py:97-137 | after the final flush, the output is exactly the written text; its headers are the input's headers in order; its data lines are the kept lines, window by window; the wrong-UMI sink is the unknown-UMI lines; and every line is accounted for exactly once |
| Dedup.Emitted | kearns_deduper.py:101-113 | the output written while reading, described through the windows: each header where it stands, and at the first data line of a new window after an earlier one, the kept lines of the window it closes; it has no `ensures` |
| Dedup.Written | kearns_deduper.py:97-137 | the emitted text followed by the kept lines of the last window; it has no `ensures`, and `WrittenParts` and `RunFinal` characterise it |
| Dedup.RunEmitted | kearns_deduper.py:99-113 | after any input, the loop's output is exactly the emitted text: headers in place and each window's kept lines at the line that closes it |
| Dedup.RunWritten | kearns_deduper.py:136-137 | after the final flush, the output is exactly the written text |
| Dedup.WrittenParts | kearns_deduper.py:97-137 | the written text holds the input's headers in order and, as data lines, the kept lines window by window |
| Dedup.OutputCount | kearns_deduper.py:97-137 | the number of data lines written is the sum, over the chromosome windows, of the number of distinct keys in each, and every one of them has a known UMI |
| Engine.Deduper.constructor | kearns_deduper.py:97-98 | the engine starts with an empty table, chromosome "0" and empty sinks |
| Engine.Deduper.Flush | kearns_deduper.py:111-112 | every table line is written to the output, in insertion order |
| Engine.Deduper.ProcessData | kearns_deduper.py:104-134 | the new fields are one step of the loop applied to the old fields and the data line |
| Engine.Deduper.ProcessLine | kearns_deduper.py:99-134 | the new fields are one step of the loop, and they remain the loop's state on all lines received |
| Engine.Deduper.Finish | kearns_deduper.py:136-137 | the remaining table is appended to the output; the output is then exactly the written text of the lines received, so it has the input's headers and, as data lines, the kept lines window by window; the wrong-UMI sink is the unknown-UMI lines; every line is in exactly one of the output, the wrong-UMI sink or the duplicates |
| Engine.Deduplicate | kearns_deduper.py:97-137 | the whole run: the output is exactly the written text of the input, with headers in place and in order, the first line of every key window by window, the unknown-UMI lines in order, and every line accounted for exactly once |

Proof steps without a row of their own: `Dedup.Snoc`, `Dedup.RunSnoc`, `Dedup.RepsStep`, `Dedup.StepSameChrom`, `Dedup.TableSnoc`, `Dedup.TableKeysAreKeysOf`, `Dedup.InvStart`, `Dedup.ListedAtSnoc` and `Dedup.AllKnownAppend`. Each unfolds a definition one line further.

## Left out

- Argument parsing (lines 8-14) and the paired-end exit (lines 23-25) are command-line configuration, not logic.
- Opening the files and writing to them (lines 27-30, 102, 112, 118, 137) are left out. The two sinks are sequences that get appended to.
- Loading the UMI list (lines 32-36) is left out. The known UMIs are a set parameter, because only membership is tested.
- Python's `int()` also accepts signs, surrounding whitespace and underscores. The model reads only strings of decimal digits, so those spellings fall outside its preconditions.
- The script's crashes are stated as preconditions (`Sam.LineOk`, `Sam.Keyable`), not modelled as error results. These are an `IndexError` on a data line with fewer than ten fields, and a `ValueError` from `int()` on a non-numeric flag, position or forward clip.
- Engine.Deduper.ProcessData: dictionary hashing and constant-time lookup are not modelled. The table is an insertion-ordered sequence searched linearly, which has the same contents and the same value order.
- Sam.ReverseBit: relates `flag & 16` to the strand test only for flags below 65536, the width of the SAM flag field. Larger numbers are read with the same bit-4 test.
- The `duplicates` sequence is ghost state. The script simply drops those lines; the model records them only to state that every line is accounted for.
