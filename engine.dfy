module Engine {
  import opened Text
  import opened Cigar
  import opened Sam
  import opened Dedup
  import opened Seqs

  /**
   * The engine of kearns_deduper.py lines 97-137. `table` is `Read_Dict`
   * (an insertion-ordered dictionary from key to line), `lastChrom` is
   * `last_chrom`, `output` and `wrongUmi` are what has been written to the
   * primary output and to the wrong-UMI file. The ghost fields record every
   * line received and the lines discarded as duplicates.
   */
  class Deduper {
    const known: set<string>
    var table: seq<Entry>
    var lastChrom: string
    var output: seq<string>
    var wrongUmi: seq<string>
    ghost var seen: seq<string>
    ghost var duplicates: seq<string>

    /** The fields, as a state of the reference loop. */
    ghost function Snapshot(): State
      reads this
    {
      State(table, lastChrom, output, wrongUmi, duplicates)
    }

    /** The fields are the state the main loop reaches on the lines received. */
    ghost predicate Valid()
      reads this
    {
      AllOk(known, seen) && Snapshot() == Run(known, seen)
    }

    constructor (knownUmis: set<string>)
      ensures Valid()
      ensures known == knownUmis && seen == [] && duplicates == []
      ensures table == [] && lastChrom == "0" && output == [] && wrongUmi == []
    {
      known := knownUmis;
      table := [];
      lastChrom := "0";
      output := [];
      wrongUmi := [];
      seen := [];
      duplicates := [];
    }

    /** Writes every table line to the output, in insertion order. */
    method Flush()
      modifies this`output
      ensures output == old(output) + Values(table)
    {
      var i := 0;
      while i < |table|
        invariant 0 <= i <= |table|
        invariant output == old(output) + Values(table[..i])
      {
        assert table[..i + 1][..i] == table[..i];
        output := output + [table[i].line];
        i := i + 1;
      }
      assert table[..i] == table;
    }

    /**
     * The main loop's work on a data line: on a chromosome other than the
     * tracked one, the table is first flushed to the output and emptied and
     * that chromosome becomes the tracked one; then a line with an unknown
     * UMI goes to the wrong-UMI sink, and a line with a known UMI is added
     * under its key unless the key is already there, in which case it is
     * discarded.
     */
    method ProcessData(line: string)
      requires !IsHeader(line) && LineOk(known, line)
      modifies this`table, this`lastChrom, this`output, this`wrongUmi, this`duplicates
      ensures Snapshot() == Step(known, old(Snapshot()), line)
    {
      var entry := Fields(line);
      var chrom := entry[2];
      if chrom != lastChrom {
        lastChrom := chrom;
        Flush();
        table := [];
      }
      var umi := Umi(entry[0]);
      if umi !in known {
        wrongUmi := wrongUmi + [line];
      } else {
        var key := ComputeKey(line);
        if key in TableKeys(table) {
          duplicates := duplicates + [line];
        } else {
          table := table + [Entry(key, line)];
        }
      }
    }

    /**
     * One iteration of the main loop: a header goes straight to the output,
     * a data line is handled as `ProcessData` says.
     */
    method ProcessLine(line: string)
      requires Valid() && LineOk(known, line)
      modifies this
      ensures Valid()
      ensures seen == old(seen) + [line]
      ensures Snapshot() == Step(known, old(Snapshot()), line)
    {
      ghost var s0 := seen;
      if IsHeader(line) {
        output := output + [line];
      } else {
        ProcessData(line);
      }
      seen := seen + [line];
      RunSnoc(known, s0, line);
    }

    /**
     * The end of input: the remaining table lines are written out. The
     * output is then exactly `Written` of the lines received: every header
     * where it stands, and the kept lines of each window just before the
     * line that opens the next window, or at the end for the last one.
     */
    method Finish()
      requires Valid()
      modifies this`output
      ensures output == old(output) + Values(table)
      ensures output == Written(known, seen)
      ensures WindowsOk(known, Windows(seen))
      ensures Headers(output) == Headers(seen)
      ensures DataLines(output) == ConcatReps(known, Windows(seen))
      ensures wrongUmi == Rejected(known, seen)
      ensures multiset(seen) == multiset(output) + multiset(wrongUmi) + multiset(duplicates)
    {
      Flush();
      RunFinal(known, seen);
    }
  }

  /**
   * The whole run (kearns_deduper.py lines 97-137): every line goes through
   * the engine in order, then the final flush. The output is exactly
   * `Written` of the input, so header lines reach it in input order and its
   * data lines are the first line of each key, window by window; the
   * rejected lines are exactly the unknown-UMI data lines, in order; and
   * every input line is in exactly one of the output, the rejected lines or
   * the discarded duplicates.
   */
  method Deduplicate(known: set<string>, lines: seq<string>)
    returns (output: seq<string>, wrongUmi: seq<string>, ghost duplicates: seq<string>)
    requires AllOk(known, lines)
    ensures output == Written(known, lines)
    ensures WindowsOk(known, Windows(lines))
    ensures Headers(output) == Headers(lines)
    ensures DataLines(output) == ConcatReps(known, Windows(lines))
    ensures wrongUmi == Rejected(known, lines)
    ensures multiset(lines) == multiset(output) + multiset(wrongUmi) + multiset(duplicates)
  {
    var engine := new Deduper(known);
    var i := 0;
    while i < |lines|
      invariant 0 <= i <= |lines|
      invariant engine.Valid() && engine.known == known && engine.seen == lines[..i]
    {
      engine.ProcessLine(lines[i]);
      TakeSnoc(lines, i);
      i := i + 1;
    }
    TakeAll(lines);
    engine.Finish();
    output, wrongUmi, duplicates := engine.output, engine.wrongUmi, engine.duplicates;
  }

}
