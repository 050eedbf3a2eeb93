/**
 * One line of a single-end SAM file, as the deduplicator reads it: header
 * lines start with `@`; every other line is split on tabs and its fields
 * give the UMI (last 8 characters of QNAME), the flag, the chromosome, the
 * position, the CIGAR and the sequence. The duplicate key is built from them.
 * A line is the text as the file yields it, line terminator included, so a
 * sequence that is the last field counts its terminator in the read length,
 * as in the source.
 */
module Sam {
  import opened Text
  import opened Cigar
  import opened Seqs

  /** The duplicate key, the text the source builds and looks up in its dictionary. */
  type Key = string

  predicate IsHeader(line: string) {
    |line| > 0 && line[0] == '@'
  }

  /** `line.split('\t')` */
  function Fields(line: string): seq<string> {
    Split(line, '\t')
  }

  /** Field `i` of a line, or the empty text if the line has fewer fields. */
  function Field(line: string, i: nat): string {
    var f := Fields(line);
    if i < |f| then f[i] else ""
  }

  /** RNAME, the chromosome (field 2). */
  function Chrom(line: string): string {
    Field(line, 2)
  }

  /** Python's `qname[-8:]`. */
  function Umi(qname: string): (u: string)
    ensures |u| == if |qname| < 8 then |qname| else 8
  {
    if |qname| <= 8 then qname else qname[|qname| - 8..]
  }

  /** The UMI is the last eight characters of the read name, or all of a shorter name. */
  lemma UmiIsSuffix(qname: string)
    ensures qname == qname[..|qname| - |Umi(qname)|] + Umi(qname)
  {
  }

  predicate KnownUmi(known: set<string>, line: string) {
    Umi(Field(line, 0)) in known
  }

  /** `flag & 16 == 16`: bit 4 of the flag marks a reverse-strand read. */
  predicate IsReverse(flag: nat) {
    (flag / 16) % 2 == 1
  }

  /**
   * The test on bit 4, stated on the 16-bit flag word of the SAM format, is
   * the division form used by `IsReverse`.
   */
  lemma ReverseBit(flag: nat)
    requires flag < 0x1_0000
    ensures ((flag as bv16) & 16 == 16) == IsReverse(flag)
  {
  }

  /**
   * What the key computation needs of a line: a decimal FLAG, and then what
   * the strand's function reads as a number (the position always for the
   * reverse strand; for the forward strand, the position and the clip length
   * when an `S` occurs before the CIGAR's last character).
   */
  predicate Keyable(line: string) {
    IsDigits(Field(line, 1)) &&
    if IsReverse(ParseNat(Field(line, 1))) then IsDigits(Field(line, 3))
    else FwdParses(Field(line, 5), Field(line, 3))
  }

  /** The strand name the key records: "Rev" when the flag's bit 4 is set, "Fwd" otherwise. */
  function StrandName(line: string): string
    requires IsDigits(Field(line, 1))
  {
    if IsReverse(ParseNat(Field(line, 1))) then "Rev" else "Fwd"
  }

  /**
   * The true start as the text the strand's function returns; the read
   * length is that of field 9 as split from the line.
   */
  function TruePos(line: string): string
    requires Keyable(line)
  {
    if IsReverse(ParseNat(Field(line, 1))) then
      IntToString(ReverseStart(Field(line, 5), ParseNat(Field(line, 3)), |Field(line, 9)|))
    else
      FwdCorrectPos(Field(line, 5), Field(line, 3))
  }

  /** The duplicate key: UMI, chromosome, strand and true start joined by underscores. */
  function KeyOf(line: string): Key
    requires Keyable(line)
  {
    Join([Umi(Field(line, 0)), Chrom(line), StrandName(line), TruePos(line)], '_')
  }

  /** Joining four parts puts an underscore between consecutive ones. */
  lemma JoinFour(u: string, c: string, s: string, p: string)
    ensures Join([u, c, s, p], '_') == u + "_" + c + "_" + s + "_" + p
  {
    assert [u, c, s, p][1..] == [c, s, p];
    assert [c, s, p][1..] == [s, p];
    assert [s, p][1..] == [p];
    var tail := s + "_" + p;
    assert Join([s, p], '_') == tail;
    assert Join([c, s, p], '_') == (c + "_") + tail;
    calc {
      Join([u, c, s, p], '_');
      (u + "_") + ((c + "_") + tail);
      { AppendAssoc(u + "_", c + "_", tail); }
      ((u + "_") + (c + "_")) + tail;
      { AppendAssoc(u + "_", c, "_"); }
      (u + "_" + c + "_") + ((s + "_") + p);
      { AppendAssoc(u + "_" + c + "_", s + "_", p); }
      (u + "_" + c + "_" + (s + "_")) + p;
      { AppendAssoc(u + "_" + c + "_", s, "_"); }
      u + "_" + c + "_" + s + "_" + p;
    }
  }

  /**
   * On one chromosome, and for UMIs of one length (eight characters whenever
   * the read names have at least eight), two lines share a key exactly when
   * they have the same UMI, the same strand and the same true start.
   */
  lemma KeyIdentifies(a: string, b: string)
    requires Keyable(a) && Keyable(b) && Chrom(a) == Chrom(b)
    requires |Umi(Field(a, 0))| == |Umi(Field(b, 0))|
    ensures KeyOf(a) == KeyOf(b) <==>
      && Umi(Field(a, 0)) == Umi(Field(b, 0))
      && IsReverse(ParseNat(Field(a, 1))) == IsReverse(ParseNat(Field(b, 1)))
      && TruePos(a) == TruePos(b)
  {
    JoinFour(Umi(Field(a, 0)), Chrom(a), StrandName(a), TruePos(a));
    JoinFour(Umi(Field(b, 0)), Chrom(b), StrandName(b), TruePos(b));
    JoinedParts(Umi(Field(a, 0)), Chrom(a), StrandName(a), TruePos(a), Umi(Field(b, 0)), StrandName(b), TruePos(b));
  }

  /** Four parts joined by underscores, with the first two of fixed lengths, can be told apart. */
  lemma JoinedParts(u: string, c: string, s: string, p: string, u': string, s': string, p': string)
    requires |u| == |u'| && |s| == |s'|
    ensures u + "_" + c + "_" + s + "_" + p == u' + "_" + c + "_" + s' + "_" + p' <==> u == u' && s == s' && p == p'
  {
    var k, k' := u + "_" + c + "_" + s + "_" + p, u' + "_" + c + "_" + s' + "_" + p';
    var m := |u| + 1 + |c| + 1;
    assert k[..|u|] == u && k'[..|u|] == u';
    assert k[m..m + |s|] == s && k'[m..m + |s|] == s';
    assert k[m + |s| + 1..] == p && k'[m + |s| + 1..] == p';
  }

  /**
   * The key computation of the main loop: the UMI, chromosome, flag,
   * position, CIGAR and read length are read from the fields, the strand's
   * function gives the true start, and the parts are joined by underscores.
   */
  method ComputeKey(line: string) returns (key: Key)
    requires |Fields(line)| >= 10 && Keyable(line)
    ensures key == KeyOf(line)
  {
    var entry := Fields(line);
    var chrom := entry[2];
    var cigar := entry[5];
    var readLen := |entry[9]|;
    var qnameUmi := Umi(entry[0]);
    var pos := entry[3];
    var flag := ParseNat(entry[1]);
    var strand, truePos;
    if IsReverse(flag) {
      strand := "Rev";
      truePos := RevCorrectPos(cigar, pos, readLen);
    } else {
      strand := "Fwd";
      truePos := FwdCorrectPos(cigar, pos);
    }
    key := qnameUmi + "_" + chrom + "_" + strand + "_" + truePos;
    JoinFour(qnameUmi, chrom, strand, truePos);
    assert [qnameUmi, chrom, strand, truePos] == [Umi(Field(line, 0)), Chrom(line), StrandName(line), TruePos(line)];
  }

  /**
   * A line the deduplicator can process: a header, or a line with at least
   * ten fields whose key can be computed when its UMI is known (only then
   * are the flag, position and CIGAR read).
   */
  predicate LineOk(known: set<string>, line: string) {
    IsHeader(line) || (|Fields(line)| >= 10 && (KnownUmi(known, line) ==> Keyable(line)))
  }
}
