/**
 * CIGAR strings and the reconstruction of a read's unclipped 5' start
 * position (FWD_Correct_pos and REV_Correct_pos in kearns_deduper.py).
 *
 * Both functions work on the CIGAR text as the source does: the forward one
 * by looking for `S` characters, the reverse one through two regular
 * expression searches (`FindRuns`). A well-formed CIGAR is the text of a
 * sequence of runs (`Render`), each a non-empty digit string followed by one
 * operation letter; on such text the lemmas below give each function's result
 * in terms of the runs.
 */
module Cigar {
  import opened Text
  import opened Seqs

  /** One run: the digit text of its length and its operation code. */
  datatype Token = Token(run: string, op: char)

  predicate ValidToken(t: Token) {
    IsDigits(t.run) && !IsDigit(t.op)
  }

  predicate ValidTokens(ts: seq<Token>) {
    forall i :: 0 <= i < |ts| ==> ValidToken(ts[i])
  }

  /** The length of a run, as `int()` reads its digits. */
  function Count(t: Token): nat
    requires ValidToken(t)
  {
    ParseNat(t.run)
  }

  /** The CIGAR text of a sequence of runs. */
  function Render(ts: seq<Token>): string
  {
    if |ts| == 0 then "" else ts[0].run + [ts[0].op] + Render(ts[1..])
  }

  /** The length of the longest prefix of `s` made of digits. */
  function DigitPrefix(s: string): (n: nat)
    ensures n <= |s|
    ensures forall i :: 0 <= i < n ==> IsDigit(s[i])
    ensures n < |s| ==> !IsDigit(s[n])
  {
    if |s| == 0 || !IsDigit(s[0]) then 0 else 1 + DigitPrefix(s[1..])
  }

  lemma {:induction false} DigitPrefixOfRun(a: string, c: char, b: string)
    requires IsDigits(a) && !IsDigit(c)
    ensures DigitPrefix(a + [c] + b) == |a|
    decreases |a|
  {
    var s := a + [c] + b;
    if |a| > 1 {
      assert s[1..] == a[1..] + [c] + b;
      DigitPrefixOfRun(a[1..], c, b);
    } else {
      assert s[1..] == [c] + b;
    }
  }

  lemma {:induction false} RenderAppend(a: seq<Token>, b: seq<Token>)
    ensures Render(a + b) == Render(a) + Render(b)
    decreases |a|
  {
    if |a| > 0 {
      assert (a + b)[1..] == a[1..] + b;
      RenderAppend(a[1..], b);
    } else {
      assert a + b == b;
    }
  }

  /** An `S` occurs in the text of valid runs exactly when some run is a soft clip. */
  lemma {:induction false} SoftClipInRender(ts: seq<Token>)
    requires ValidTokens(ts)
    ensures ('S' in Render(ts)) <==> exists i :: 0 <= i < |ts| && ts[i].op == 'S'
    decreases |ts|
  {
    if |ts| > 0 {
      SoftClipInRender(ts[1..]);
      var t := ts[0];
      DigitsHaveNoClip(t.run);
      var s := Render(ts);
      assert s == t.run + [t.op] + Render(ts[1..]);
      if exists i :: 0 <= i < |ts| && ts[i].op == 'S' {
        var i :| 0 <= i < |ts| && ts[i].op == 'S';
        if i == 0 {
          assert s[|t.run|] == 'S';
        } else {
          assert ts[1..][i - 1].op == 'S';
        }
      }
      if 'S' in s {
        if t.op != 'S' {
          assert 'S' in Render(ts[1..]);
          var j :| 0 <= j < |ts[1..]| && ts[1..][j].op == 'S';
          assert ts[j + 1].op == 'S';
        }
      }
    }
  }

  lemma DigitsHaveNoClip(s: string)
    requires forall i :: 0 <= i < |s| ==> IsDigit(s[i])
    ensures 'S' !in s
  {
  }

  // ---------------------------------------------------------------------
  // Forward strand (kearns_deduper.py, FWD_Correct_pos)

  /** Python's `s[:-1]`. */
  function DropLast(s: string): (r: string)
    ensures |r| == if |s| == 0 then 0 else |s| - 1
    ensures forall i :: 0 <= i < |r| ==> r[i] == s[i]
  {
    if |s| == 0 then s else s[..|s| - 1]
  }

  /** Python's `s.split(c)[0]`: the text before the first `c`, or all of `s`. */
  function BeforeFirst(s: string, c: char): (r: string)
    ensures c !in r
    ensures |r| <= |s| && forall i :: 0 <= i < |r| ==> r[i] == s[i]
    ensures c in s ==> |r| < |s| && s[|r|] == c
    ensures c !in s ==> r == s
  {
    if |s| == 0 || s[0] == c then "" else [s[0]] + BeforeFirst(s[1..], c)
  }

  lemma {:induction false} BeforeFirstAfterPrefix(a: string, b: string, c: char)
    requires c !in a
    ensures BeforeFirst(a + b, c) == a + BeforeFirst(b, c)
    decreases |a|
  {
    if |a| > 0 {
      assert (a + b)[1..] == a[1..] + b;
      BeforeFirstAfterPrefix(a[1..], b, c);
    } else {
      assert a + b == b;
    }
  }

  /**
   * The forward function only evaluates `int()` when an `S` occurs before
   * the last character: on the position and on the text before the first
   * `S`, which must then both be digits, or the source raises.
   */
  predicate FwdParses(cigar: string, pos: string) {
    'S' in DropLast(cigar) ==> IsDigits(pos) && IsDigits(BeforeFirst(cigar, 'S'))
  }

  /**
   * FWD_Correct_pos: when an `S` occurs anywhere but in the last character,
   * the number written before the first `S` is subtracted from the position
   * and the difference returned as text; otherwise the position text is
   * returned unchanged.
   */
  function FwdCorrectPos(cigar: string, pos: string): string
    requires FwdParses(cigar, pos)
  {
    if 'S' in DropLast(cigar) then IntToString(ParseNat(pos) - ParseNat(BeforeFirst(cigar, 'S'))) else pos
  }

  /** With a leading soft clip that is not the only run, the text before the first `S` is its length. */
  lemma LeadingClipText(ts: seq<Token>)
    requires ValidTokens(ts) && |ts| >= 2 && ts[0].op == 'S'
    ensures 'S' in DropLast(Render(ts)) && BeforeFirst(Render(ts), 'S') == ts[0].run
  {
    var t := ts[0];
    var rest := Render(ts[1..]);
    var whole := Render(ts);
    assert whole == t.run + (['S'] + rest);
    assert ts[1..] == [ts[1]] + ts[2..];
    assert |rest| > 0;
    assert whole[|t.run|] == 'S';
    assert 'S' in DropLast(whole) by {
      assert DropLast(whole)[|t.run|] == 'S';
    }
    DigitsHaveNoClip(t.run);
    BeforeFirstAfterPrefix(t.run, ['S'] + rest, 'S');
    assert BeforeFirst(['S'] + rest, 'S') == "";
    assert t.run + "" == t.run;
  }

  /** A leading soft clip that is not the only run moves the start left by its length. */
  lemma FwdLeadingClip(ts: seq<Token>, pos: string)
    requires ValidTokens(ts) && |ts| >= 2 && ts[0].op == 'S' && IsDigits(pos)
    ensures FwdParses(Render(ts), pos)
    ensures FwdCorrectPos(Render(ts), pos) == IntToString(ParseNat(pos) - Count(ts[0]))
  {
    LeadingClipText(ts);
  }

  /**
   * Without a soft clip before the last run the position text is returned
   * as it is, whatever it holds (it is not read as a number).
   */
  lemma {:induction false} FwdUnclipped(ts: seq<Token>, pos: string)
    requires ValidTokens(ts)
    requires forall i :: 0 <= i < |ts| - 1 ==> ts[i].op != 'S'
    ensures FwdParses(Render(ts), pos)
    ensures FwdCorrectPos(Render(ts), pos) == pos
  {
    if |ts| > 0 {
      var init := ts[..|ts| - 1];
      var last := ts[|ts| - 1];
      assert ts == init + [last];
      RenderAppend(init, [last]);
      assert [last][1..] == [];
      assert Render([last]) == last.run + [last.op];
      assert DropLast(Render(ts)) == Render(init) + last.run;
      SoftClipInRender(init);
      DigitsHaveNoClip(last.run);
    }
  }

  /**
   * A soft clip after the first run and before the last one, when the first
   * run is not a clip, puts a non-digit before the first `S`, so such a
   * CIGAR is outside what the function accepts: `int()` is modelled on
   * ASCII digit strings only.
   */
  lemma {:induction false} FwdInteriorClipRejected(ts: seq<Token>, j: nat, pos: string)
    requires ValidTokens(ts) && 0 < j < |ts| - 1
    requires ts[0].op != 'S' && ts[j].op == 'S'
    ensures !FwdParses(Render(ts), pos)
  {
    var t := ts[0];
    var init := ts[..|ts| - 1];
    var last := ts[|ts| - 1];
    assert ts == init + [last];
    RenderAppend(init, [last]);
    assert [last][1..] == [];
    assert DropLast(Render(ts)) == Render(init) + last.run;
    assert init[j].op == 'S';
    SoftClipInRender(init);
    DigitsHaveNoClip(t.run);
    assert Render(ts) == (t.run + [t.op]) + Render(ts[1..]);
    BeforeFirstAfterPrefix(t.run + [t.op], Render(ts[1..]), 'S');
    var b := BeforeFirst(Render(ts), 'S');
    assert b[|t.run|] == t.op;
  }

  // ---------------------------------------------------------------------
  // Reverse strand (kearns_deduper.py, REV_Correct_pos)

  /** The runs whose operation is in `ops`, in order. */
  function Matching(ts: seq<Token>, ops: set<char>): (r: seq<Token>)
    ensures |r| <= |ts|
    ensures forall i :: 0 <= i < |r| ==> r[i].op in ops
    ensures ValidTokens(ts) ==> ValidTokens(r)
  {
    if |ts| == 0 then []
    else Matching(ts[..|ts| - 1], ops) + (if ts[|ts| - 1].op in ops then [ts[|ts| - 1]] else [])
  }

  /** All runs but the last. */
  function AllButLast(ts: seq<Token>): seq<Token>
  {
    if |ts| == 0 then ts else ts[..|ts| - 1]
  }

  /** The lengths of the runs with operation `op`, in order (the list `cigar_dict[op]`). */
  function Lengths(ts: seq<Token>, op: char): seq<nat>
    requires ValidTokens(ts)
  {
    if |ts| == 0 then []
    else Lengths(ts[..|ts| - 1], op) + (if ts[|ts| - 1].op == op then [Count(ts[|ts| - 1])] else [])
  }

  function Sum(xs: seq<nat>): nat
  {
    if |xs| == 0 then 0 else Sum(xs[..|xs| - 1]) + xs[|xs| - 1]
  }

  /** The total length of the runs with operation `op`. */
  function Total(ts: seq<Token>, op: char): nat
    requires ValidTokens(ts)
  {
    Sum(Lengths(ts, op))
  }

  /** The length of the last of the runs, or 0 when there is none (the source's `cigar_dict['S'][0]`). */
  function LastClip(clips: seq<Token>): nat
    requires ValidTokens(clips)
  {
    if |clips| == 0 then 0 else Count(clips[|clips| - 1])
  }

  /**
   * On the runs of a CIGAR, the soft clip the reverse function subtracts:
   * the length of the last `S` run among all runs but the last one, or 0
   * when there is none.
   */
  function ReverseClip(ts: seq<Token>): nat
    requires ValidTokens(ts)
  {
    LastClip(Matching(AllButLast(ts), {'S'}))
  }

  /**
   * On the runs of a CIGAR, the reverse-strand true start: the reported
   * position plus the read length, less the clip and the inserted bases,
   * plus the skipped (N) and deleted (D) reference bases.
   */
  function ReverseStartOfRuns(ts: seq<Token>, pos: int, readLen: nat): int
    requires ValidTokens(ts)
  {
    pos + (readLen - ReverseClip(ts) - Total(ts, 'I')) + Total(ts, 'N') + Total(ts, 'D')
  }

  /**
   * Python's `re.findall('([0-9]+)([<ops>])', s)` for a set of non-digit
   * operation letters: the search moves left to right; a match is a maximal
   * run of digits followed by a letter of `ops`, and everything else is
   * skipped over. It applies to any text, not only to well-formed CIGARs.
   */
  function FindRuns(s: string, ops: set<char>): (r: seq<Token>)
    ensures ValidTokens(r)
    ensures forall i :: 0 <= i < |r| ==> r[i].op in ops
    decreases |s|
  {
    if |s| == 0 then []
    else
      var n := DigitPrefix(s);
      if n == 0 then FindRuns(s[1..], ops)
      else if n == |s| then []
      else if s[n] in ops then [Token(s[..n], s[n])] + FindRuns(s[n + 1..], ops)
      else FindRuns(s[n + 1..], ops)
  }

  lemma MatchingSingle(t: Token, ops: set<char>)
    ensures Matching([t], ops) == if t.op in ops then [t] else []
  {
    assert [t][..0] == [];
  }

  lemma MatchingCons(ts: seq<Token>, ops: set<char>)
    requires |ts| > 0
    ensures Matching(ts, ops) == (if ts[0].op in ops then [ts[0]] else []) + Matching(ts[1..], ops)
  {
    MatchingAppend([ts[0]], ts[1..], ops);
    MatchingSingle(ts[0], ops);
    assert [ts[0]] + ts[1..] == ts;
  }

  /** One run at the front of the text: matched when its letter is wanted, skipped otherwise. */
  lemma FindRunsRun(a: string, c: char, b: string, ops: set<char>)
    requires IsDigits(a) && !IsDigit(c)
    ensures FindRuns(a + [c] + b, ops) == (if c in ops then [Token(a, c)] else []) + FindRuns(b, ops)
  {
    var s := a + [c] + b;
    DigitPrefixOfRun(a, c, b);
    assert s[..|a|] == a && s[|a|] == c && s[|a| + 1..] == b;
  }

  /**
   * On the text of a well-formed CIGAR followed by any text, the search
   * finds exactly the CIGAR's runs of the wanted operations, then carries on.
   */
  lemma {:induction false} FindRunsRender(ts: seq<Token>, tail: string, ops: set<char>)
    requires ValidTokens(ts)
    ensures FindRuns(Render(ts) + tail, ops) == Matching(ts, ops) + FindRuns(tail, ops)
    decreases |ts|
  {
    if |ts| == 0 {
      assert Render(ts) + tail == tail;
    } else {
      var t := ts[0];
      var rest := Render(ts[1..]) + tail;
      var x := if t.op in ops then [t] else [];
      var m := Matching(ts[1..], ops);
      var f := FindRuns(tail, ops);
      assert Render(ts) + tail == t.run + [t.op] + rest;
      FindRunsRun(t.run, t.op, rest, ops);
      FindRunsRender(ts[1..], tail, ops);
      assert FindRuns(Render(ts) + tail, ops) == x + (m + f);
      MatchingCons(ts, ops);
      AppendAssoc(x, m, f);
    }
  }

  /** Digits without an operation letter after them match nothing. */
  lemma FindRunsDigits(s: string, ops: set<char>)
    requires forall i :: 0 <= i < |s| ==> IsDigit(s[i])
    ensures FindRuns(s, ops) == []
  {
  }

  /**
   * REV_Correct_pos on the CIGAR text: the I, N and D runs found in the whole
   * text and the last soft clip found in all of it but its last character.
   */
  function ReverseStart(cigar: string, pos: int, readLen: nat): int
  {
    var found := FindRuns(cigar, {'I', 'N', 'D'});
    var clip := LastClip(FindRuns(DropLast(cigar), {'S'}));
    pos + (readLen - clip - Total(found, 'I')) + Total(found, 'N') + Total(found, 'D')
  }

  /** On the text of a well-formed CIGAR the search finds exactly its wanted runs. */
  lemma FindRunsAll(ts: seq<Token>, ops: set<char>)
    requires ValidTokens(ts)
    ensures FindRuns(Render(ts), ops) == Matching(ts, ops)
  {
    FindRunsRender(ts, "", ops);
    FindRunsDigits("", ops);
    assert Render(ts) + "" == Render(ts);
    assert Matching(ts, ops) + [] == Matching(ts, ops);
  }

  /**
   * Without its last character, the text of a well-formed CIGAR ends in the
   * digits of the last run: the search finds the wanted runs among the others.
   */
  lemma FindRunsButLast(ts: seq<Token>, ops: set<char>)
    requires ValidTokens(ts)
    ensures FindRuns(DropLast(Render(ts)), ops) == Matching(AllButLast(ts), ops)
  {
    if |ts| > 0 {
      var init := ts[..|ts| - 1];
      var last := ts[|ts| - 1];
      assert ts == init + [last];
      RenderAppend(init, [last]);
      assert [last][1..] == [];
      assert DropLast(Render(ts)) == Render(init) + last.run;
      FindRunsRender(init, last.run, ops);
      FindRunsDigits(last.run, ops);
      assert Matching(init, ops) + [] == Matching(init, ops);
    }
  }

  /** On a well-formed CIGAR, the text-level function computes the start from its runs. */
  lemma ReverseStartRender(ts: seq<Token>, pos: int, readLen: nat)
    requires ValidTokens(ts)
    ensures ReverseStart(Render(ts), pos, readLen) == ReverseStartOfRuns(ts, pos, readLen)
  {
    var ind := {'I', 'N', 'D'};
    FindRunsAll(ts, ind);
    FindRunsButLast(ts, {'S'});
    LengthsOfMatching(ts, ind, 'I');
    LengthsOfMatching(ts, ind, 'N');
    LengthsOfMatching(ts, ind, 'D');
  }

  lemma {:induction false} LengthsOfMatching(ts: seq<Token>, ops: set<char>, op: char)
    requires ValidTokens(ts) && op in ops
    ensures Lengths(Matching(ts, ops), op) == Lengths(ts, op)
    decreases |ts|
  {
    if |ts| > 0 {
      var init := ts[..|ts| - 1];
      var last := ts[|ts| - 1];
      LengthsOfMatching(init, ops, op);
      var m := Matching(init, ops);
      if last.op in ops {
        assert Matching(ts, ops) == m + [last];
        assert (m + [last])[..|m|] == m;
      } else {
        assert Matching(ts, ops) == m;
      }
    }
  }

  lemma {:induction false} LengthsOfOthers(ts: seq<Token>, op: char)
    requires ValidTokens(ts)
    requires forall i :: 0 <= i < |ts| ==> ts[i].op != op
    ensures Lengths(ts, op) == []
    decreases |ts|
  {
    if |ts| > 0 {
      LengthsOfOthers(ts[..|ts| - 1], op);
    }
  }

  lemma {:induction false} MatchingNone(ts: seq<Token>, ops: set<char>)
    requires forall i :: 0 <= i < |ts| ==> ts[i].op !in ops
    ensures Matching(ts, ops) == []
    decreases |ts|
  {
    if |ts| > 0 {
      MatchingNone(ts[..|ts| - 1], ops);
    }
  }

  lemma {:induction false} MatchingAppend(a: seq<Token>, b: seq<Token>, ops: set<char>)
    ensures Matching(a + b, ops) == Matching(a, ops) + Matching(b, ops)
    decreases |b|
  {
    if |b| == 0 {
      assert a + b == a;
    } else {
      var b' := b[..|b| - 1];
      assert (a + b)[..|a + b| - 1] == a + b';
      MatchingAppend(a, b', ops);
    }
  }

  /**
   * When several soft clips precede the last run, the last of them is the one
   * subtracted (each later match overwrites `cigar_dict['S']`).
   */
  lemma {:induction false} ReverseClipLastWins(ts: seq<Token>, j: nat)
    requires ValidTokens(ts) && j < |ts| - 1 && ts[j].op == 'S'
    requires forall k :: j < k < |ts| - 1 ==> ts[k].op != 'S'
    ensures ReverseClip(ts) == Count(ts[j])
  {
    var init := ts[..|ts| - 1];
    assert init == init[..j + 1] + init[j + 1..];
    MatchingAppend(init[..j + 1], init[j + 1..], {'S'});
    MatchingNone(init[j + 1..], {'S'});
    assert init[..j + 1][..j] == init[..j];
    assert Matching(init[..j + 1], {'S'}) == Matching(init[..j], {'S'}) + [ts[j]];
  }

  /**
   * Without a soft clip before the last run nothing is subtracted; in
   * particular a soft clip that is the last run ("71M2S") is never counted.
   */
  lemma {:induction false} ReverseClipNone(ts: seq<Token>)
    requires ValidTokens(ts)
    requires forall k :: 0 <= k < |ts| - 1 ==> ts[k].op != 'S'
    ensures ReverseClip(ts) == 0
  {
    MatchingNone(AllButLast(ts), {'S'});
  }

  /**
   * What the dictionary holds after the I/N/D loop: for each operation the
   * list of its run lengths, present exactly when that list is non-empty.
   */
  ghost predicate CountsDict(d: map<char, seq<nat>>, ts: seq<Token>)
    requires ValidTokens(ts)
  {
    forall c :: (c in d <==> Lengths(ts, c) != []) && (c in d ==> d[c] == Lengths(ts, c))
  }

  lemma CountsDictStep(d: map<char, seq<nat>>, ts: seq<Token>, t: Token)
    requires ValidTokens(ts) && ValidToken(t) && CountsDict(d, ts)
    ensures ValidTokens(ts + [t])
    ensures CountsDict(d[t.op := if t.op in d then d[t.op] + [Count(t)] else [Count(t)]], ts + [t])
  {
    assert (ts + [t])[..|ts|] == ts;
  }

  lemma DictTotal(d: map<char, seq<nat>>, ts: seq<Token>, op: char)
    requires ValidTokens(ts) && CountsDict(d, ts)
    ensures (if op in d then Sum(d[op]) else 0) == Total(ts, op)
  {
  }

  /**
   * The first loop of REV_Correct_pos: appends each matched run's length to
   * the dictionary entry of its operation, creating the entry on first use.
   */
  method GatherLengths(matches: seq<Token>) returns (cigarDict: map<char, seq<nat>>)
    requires ValidTokens(matches)
    ensures CountsDict(cigarDict, matches)
  {
    cigarDict := map[];
    var i := 0;
    while i < |matches|
      invariant 0 <= i <= |matches|
      invariant CountsDict(cigarDict, matches[..i])
    {
      var item := matches[i];
      CountsDictStep(cigarDict, matches[..i], item);
      assert matches[..i] + [item] == matches[..i + 1];
      if item.op in cigarDict {
        cigarDict := cigarDict[item.op := cigarDict[item.op] + [Count(item)]];
      } else {
        cigarDict := cigarDict[item.op := [Count(item)]];
      }
      i := i + 1;
    }
    assert matches[..i] == matches;
  }

  /**
   * The second loop of REV_Correct_pos: each soft clip found replaces the
   * `S` entry, so the last one found is what remains.
   */
  method RecordClips(counted: map<char, seq<nat>>, clipMatches: seq<Token>) returns (cigarDict: map<char, seq<nat>>)
    requires ValidTokens(clipMatches)
    ensures |clipMatches| == 0 ==> cigarDict == counted
    ensures |clipMatches| > 0 ==> cigarDict == counted['S' := [Count(clipMatches[|clipMatches| - 1])]]
  {
    cigarDict := counted;
    var j := 0;
    while j < |clipMatches|
      invariant 0 <= j <= |clipMatches|
      invariant cigarDict == if j == 0 then counted else counted['S' := [Count(clipMatches[j - 1])]]
    {
      cigarDict := cigarDict['S' := [Count(clipMatches[j])]];
      j := j + 1;
    }
  }

  /**
   * REV_Correct_pos: gathers the lengths of the I, N and D runs found in the
   * CIGAR into a dictionary keyed by operation, overwrites its `S` entry with
   * each soft clip found before the last character, combines the totals with
   * the position and returns the result as text.
   */
  method RevCorrectPos(cigar: string, pos: string, readLen: nat) returns (truePos: string)
    requires IsDigits(pos)
    ensures truePos == IntToString(ReverseStart(cigar, ParseNat(pos), readLen))
  {
    var matches := FindRuns(cigar, {'I', 'N', 'D'});
    var sMatches := FindRuns(DropLast(cigar), {'S'});
    var counted := GatherLengths(matches);
    LengthsOfOthers(matches, 'S');
    DictTotal(counted, matches, 'I');
    DictTotal(counted, matches, 'N');
    DictTotal(counted, matches, 'D');
    var cigarDict := RecordClips(counted, sMatches);
    var numClipped := if 'S' in cigarDict then cigarDict['S'][0] else 0;
    var numInserted := if 'I' in cigarDict then Sum(cigarDict['I']) else 0;
    var numGapped := if 'N' in cigarDict then Sum(cigarDict['N']) else 0;
    var numDeleted := if 'D' in cigarDict then Sum(cigarDict['D']) else 0;
    assert numClipped == LastClip(sMatches);
    assert numInserted == Total(matches, 'I') by {
      assert ('I' in cigarDict <==> 'I' in counted) && ('I' in counted ==> cigarDict['I'] == counted['I']);
    }
    assert numGapped == Total(matches, 'N') by {
      assert ('N' in cigarDict <==> 'N' in counted) && ('N' in counted ==> cigarDict['N'] == counted['N']);
    }
    assert numDeleted == Total(matches, 'D') by {
      assert ('D' in cigarDict <==> 'D' in counted) && ('D' in counted ==> cigarDict['D'] == counted['D']);
    }
    var adjust := readLen - numClipped - numInserted;
    var value := ParseNat(pos) + adjust + numGapped + numDeleted;
    assert value == ReverseStart(cigar, ParseNat(pos), readLen);
    truePos := IntToString(value);
  }

  lemma RenderPair(a: Token, b: Token)
    ensures Render([a, b]) == a.run + [a.op] + b.run + [b.op]
  {
    assert [a, b][1..] == [b];
    assert [b][1..] == [];
    assert Render([b]) == b.run + [b.op] + "";
    assert b.run + [b.op] + "" == b.run + [b.op];
    AppendAssoc(a.run + [a.op], b.run, [b.op]);
  }

  /** The texts of the worked examples' runs. */
  lemma RenderExamples()
    ensures Render([Token("2", 'S'), Token("71", 'M')]) == "2S71M"
    ensures Render([Token("73", 'M')]) == "73M"
    ensures Render([Token("71", 'M'), Token("2", 'S')]) == "71M2S"
    ensures Render([Token("30", 'M'), Token("2", 'D'), Token("41", 'M'), Token("2", 'S')]) == "30M2D41M2S"
  {
    RenderPair(Token("2", 'S'), Token("71", 'M'));
    assert [Token("73", 'M')][1..] == [];
    RenderPair(Token("71", 'M'), Token("2", 'S'));
    RenderPair(Token("30", 'M'), Token("2", 'D'));
    RenderPair(Token("41", 'M'), Token("2", 'S'));
    RenderAppend([Token("30", 'M'), Token("2", 'D')], [Token("41", 'M'), Token("2", 'S')]);
    assert [Token("30", 'M'), Token("2", 'D')] + [Token("41", 'M'), Token("2", 'S')]
        == [Token("30", 'M'), Token("2", 'D'), Token("41", 'M'), Token("2", 'S')];
  }

  lemma NumberExamples()
    ensures ParseNat("100") == 100 && IntToString(98) == "98"
  {
    assert NatToString(98) == NatToString(9) + ['8'];
  }

  /** Worked example: "2S71M" at position 100 starts at 98. */
  lemma FwdExampleLeadingClip()
    ensures FwdParses("2S71M", "100") && FwdCorrectPos("2S71M", "100") == "98"
  {
    FwdLeadingClip([Token("2", 'S'), Token("71", 'M')], "100");
    RenderExamples();
    NumberExamples();
  }

  /** Worked example: "73M" at position 100 starts at 100. */
  lemma FwdExampleUnclipped()
    ensures FwdParses("73M", "100") && FwdCorrectPos("73M", "100") == "100"
  {
    FwdUnclipped([Token("73", 'M')], "100");
    RenderExamples();
  }

  /** Worked example: "71M2S" at position 100 starts at 100 (a final clip is not subtracted). */
  lemma FwdExampleTrailingClip()
    ensures FwdParses("71M2S", "100") && FwdCorrectPos("71M2S", "100") == "100"
  {
    FwdUnclipped([Token("71", 'M'), Token("2", 'S')], "100");
    RenderExamples();
  }

  lemma {:induction false} TotalOfOthers(ts: seq<Token>, op: char)
    requires ValidTokens(ts)
    requires forall i :: 0 <= i < |ts| ==> ts[i].op != op
    ensures Total(ts, op) == 0
  {
    LengthsOfOthers(ts, op);
  }

  lemma RunsExampleLeadingClip()
    ensures ReverseStartOfRuns([Token("2", 'S'), Token("71", 'M')], 100, 73) == 171
  {
    var ts := [Token("2", 'S'), Token("71", 'M')];
    ReverseClipLastWins(ts, 0);
    TotalOfOthers(ts, 'I');
    TotalOfOthers(ts, 'N');
    TotalOfOthers(ts, 'D');
  }

  /** "2S71M" at 100 with 73 bases: the leading clip is subtracted, 171. */
  lemma ReverseExampleLeadingClip()
    ensures ReverseStart("2S71M", 100, 73) == 171
  {
    var ts := [Token("2", 'S'), Token("71", 'M')];
    RunsExampleLeadingClip();
    ReverseStartRender(ts, 100, 73);
    RenderExamples();
  }

  lemma RunsExampleTrailingClip()
    ensures ReverseStartOfRuns([Token("71", 'M'), Token("2", 'S')], 100, 73) == 173
  {
    var ts := [Token("71", 'M'), Token("2", 'S')];
    ReverseClipNone(ts);
    TotalOfOthers(ts, 'I');
    TotalOfOthers(ts, 'N');
    TotalOfOthers(ts, 'D');
  }

  /** "71M2S" at 100 with 73 bases: the final clip is not subtracted, 173. */
  lemma ReverseExampleTrailingClip()
    ensures ReverseStart("71M2S", 100, 73) == 173
  {
    var ts := [Token("71", 'M'), Token("2", 'S')];
    RunsExampleTrailingClip();
    ReverseStartRender(ts, 100, 73);
    RenderExamples();
  }

  lemma DeletionExampleLengths()
    ensures Lengths([Token("30", 'M'), Token("2", 'D'), Token("41", 'M'), Token("2", 'S')], 'D') == [2]
  {
    var ts := [Token("30", 'M'), Token("2", 'D'), Token("41", 'M'), Token("2", 'S')];
    var t3 := [Token("30", 'M'), Token("2", 'D'), Token("41", 'M')];
    var t2 := [Token("30", 'M'), Token("2", 'D')];
    var t1 := [Token("30", 'M')];
    assert ts[..3] == t3 && t3[..2] == t2 && t2[..1] == t1 && t1[..0] == [];
    assert Lengths(t1, 'D') == [];
    assert Lengths(t2, 'D') == [2];
  }

  lemma RunsExampleDeletion()
    ensures var ts := [Token("30", 'M'), Token("2", 'D'), Token("41", 'M'), Token("2", 'S')];
      ValidTokens(ts) && ReverseClip(ts) == 0 && Total(ts, 'I') == 0 && Total(ts, 'N') == 0 && Total(ts, 'D') == 2
  {
    var ts := [Token("30", 'M'), Token("2", 'D'), Token("41", 'M'), Token("2", 'S')];
    ReverseClipNone(ts);
    TotalOfOthers(ts, 'I');
    TotalOfOthers(ts, 'N');
    DeletionExampleLengths();
    assert [2][..0] == [];
  }

  /** "30M2D41M2S" at 100 with 73 bases: the deletion is added, the final clip ignored, 175. */
  lemma ReverseExampleDeletion()
    ensures ReverseStart("30M2D41M2S", 100, 73) == 175
  {
    var ts := [Token("30", 'M'), Token("2", 'D'), Token("41", 'M'), Token("2", 'S')];
    RunsExampleDeletion();
    ReverseStartRender(ts, 100, 73);
    RenderExamples();
  }

  /** An unmapped read's CIGAR, "*", has no runs: only the read length is added. */
  lemma ReverseExampleUnmapped()
    ensures ReverseStart("*", 100, 73) == 173
  {
    assert FindRuns("*", {'I', 'N', 'D'}) == FindRuns("", {'I', 'N', 'D'});
  }
}
