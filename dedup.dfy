/**
 * The streaming deduplication engine of kearns_deduper.py (lines 97-137).
 *
 * The first half defines, over the whole input, what the engine should
 * produce: the input's data lines fall into chromosome windows (maximal runs
 * of consecutive data lines on one chromosome; header lines do not break a
 * run), and from each window the engine keeps the first line of every key.
 * The second half is the main loop as a function of its state (`Step`, and
 * `Run` over a whole input: the per-chromosome table, the last chromosome
 * seen, the two output sinks and the discarded lines), proved to produce
 * exactly that. The class in module Engine keeps its fields equal to `Run`
 * of the lines it has received.
 */
module Dedup {
  import opened Text
  import opened Cigar
  import opened Sam
  import opened Seqs

  // ---------------------------------------------------------------------
  // The input and its partition into chromosome windows

  /** Every line is one the engine can process. */
  ghost predicate AllOk(known: set<string>, lines: seq<string>) {
    forall i :: 0 <= i < |lines| ==> LineOk(known, lines[i])
  }

  /** The header lines, in input order. */
  ghost function Headers(lines: seq<string>): (r: seq<string>)
  {
    if |lines| == 0 then []
    else Headers(lines[..|lines| - 1]) + (if IsHeader(lines[|lines| - 1]) then [lines[|lines| - 1]] else [])
  }

  /** The data (non-header) lines, in input order. */
  ghost function DataLines(lines: seq<string>): (r: seq<string>)
  {
    if |lines| == 0 then []
    else DataLines(lines[..|lines| - 1]) + (if IsHeader(lines[|lines| - 1]) then [] else [lines[|lines| - 1]])
  }

  /** The data lines whose UMI is not a known one, in input order. */
  ghost function Rejected(known: set<string>, lines: seq<string>): (r: seq<string>)
  {
    if |lines| == 0 then []
    else
      var l := lines[|lines| - 1];
      Rejected(known, lines[..|lines| - 1]) + (if !IsHeader(l) && !KnownUmi(known, l) then [l] else [])
  }

  /**
   * The chromosome windows of the input: each is a non-empty run of data
   * lines on one chromosome, consecutive windows are on different
   * chromosomes, and a chromosome that comes back after another opens a
   * new window.
   */
  ghost function Windows(lines: seq<string>): (ws: seq<seq<string>>)
    ensures forall j :: 0 <= j < |ws| ==> |ws[j]| > 0
    decreases |lines|
  {
    if |lines| == 0 then []
    else
      var ws := Windows(lines[..|lines| - 1]);
      var l := lines[|lines| - 1];
      if IsHeader(l) then ws
      else if |ws| > 0 && Chrom(ws[|ws| - 1][0]) == Chrom(l) then ws[..|ws| - 1] + [ws[|ws| - 1] + [l]]
      else ws + [[l]]
  }

  function Concat(ws: seq<seq<string>>): seq<string>
  {
    if |ws| == 0 then [] else Concat(ws[..|ws| - 1]) + ws[|ws| - 1]
  }

  /** The windows hold every data line, once each and in input order, and nothing else. */
  lemma {:induction false} WindowsCoverData(lines: seq<string>)
    ensures Concat(Windows(lines)) == DataLines(lines)
    decreases |lines|
  {
    if |lines| > 0 {
      var init := lines[..|lines| - 1];
      var l := lines[|lines| - 1];
      WindowsCoverData(init);
      var ws := Windows(init);
      if !IsHeader(l) {
        if |ws| > 0 && Chrom(ws[|ws| - 1][0]) == Chrom(l) {
          var ws' := ws[..|ws| - 1] + [ws[|ws| - 1] + [l]];
          ReplaceLast(ws, ws[|ws| - 1] + [l]);
          assert Concat(ws) == Concat(ws[..|ws| - 1]) + ws[|ws| - 1];
        } else {
          SnocParts(ws, [l]);
        }
      }
    }
  }

  /**
   * The shape of the windows: every line of a window is a data line on the
   * window's chromosome, and consecutive windows are on different
   * chromosomes.
   */
  ghost predicate WindowsShaped(ws: seq<seq<string>>)
    requires forall j :: 0 <= j < |ws| ==> |ws[j]| > 0
  {
    && (forall j, i :: 0 <= j < |ws| && 0 <= i < |ws[j]| ==>
          !IsHeader(ws[j][i]) && Chrom(ws[j][i]) == Chrom(ws[j][0]))
    && (forall j, k :: 0 <= j < |ws| && 0 <= k < |ws| && k == j + 1 ==>
          Chrom(ws[j][0]) != Chrom(ws[k][0]))
  }

  /** A data line on the last window's chromosome extends that window. */
  lemma ShapedExtend(ws: seq<seq<string>>, l: string)
    requires forall j :: 0 <= j < |ws| ==> |ws[j]| > 0
    requires WindowsShaped(ws) && |ws| > 0
    requires !IsHeader(l) && Chrom(ws[|ws| - 1][0]) == Chrom(l)
    ensures WindowsShaped(ws[..|ws| - 1] + [ws[|ws| - 1] + [l]])
  {
    var last := ws[|ws| - 1] + [l];
    ReplaceLast(ws, last);
    var ws' := ws[..|ws| - 1] + [last];
    assert forall j :: 0 <= j < |ws| - 1 ==> ws'[j] == ws[j];
    assert forall i :: 0 <= i < |last| ==> last[i] == if i < |last| - 1 then ws[|ws| - 1][i] else l;
  }

  /** A data line on another chromosome opens a new window. */
  lemma ShapedOpen(ws: seq<seq<string>>, l: string)
    requires forall j :: 0 <= j < |ws| ==> |ws[j]| > 0
    requires WindowsShaped(ws)
    requires !IsHeader(l) && (|ws| == 0 || Chrom(ws[|ws| - 1][0]) != Chrom(l))
    ensures WindowsShaped(ws + [[l]])
  {
    SnocParts(ws, [l]);
  }

  /** The windows are maximal runs of data lines on one chromosome. */
  lemma {:induction false} WindowsShape(lines: seq<string>)
    ensures WindowsShaped(Windows(lines))
    decreases |lines|
  {
    if |lines| > 0 {
      var init := lines[..|lines| - 1];
      var l := lines[|lines| - 1];
      WindowsShape(init);
      var ws := Windows(init);
      if !IsHeader(l) {
        if |ws| > 0 && Chrom(ws[|ws| - 1][0]) == Chrom(l) {
          ShapedExtend(ws, l);
        } else {
          ShapedOpen(ws, l);
        }
      }
    }
  }

  // ---------------------------------------------------------------------
  // The representatives of a window: the first line of every key

  /** Every line of `w` with a known UMI has a computable key. */
  ghost predicate KeyableIfKnown(known: set<string>, w: seq<string>) {
    forall i :: 0 <= i < |w| ==> KnownUmi(known, w[i]) ==> Keyable(w[i])
  }

  ghost predicate WindowsOk(known: set<string>, ws: seq<seq<string>>) {
    forall j :: 0 <= j < |ws| ==> KeyableIfKnown(known, ws[j])
  }

  /** A window extended by a line it accepts stays keyable. */
  lemma KeyableSnoc(known: set<string>, w: seq<string>, l: string)
    requires KeyableIfKnown(known, w) && (KnownUmi(known, l) ==> Keyable(l))
    ensures KeyableIfKnown(known, w + [l])
  {
    forall i | 0 <= i < |w| + 1 ensures (w + [l])[i] == if i < |w| then w[i] else l {}
  }

  lemma {:induction false} WindowsKeyable(known: set<string>, lines: seq<string>)
    requires AllOk(known, lines)
    ensures WindowsOk(known, Windows(lines))
    decreases |lines|
  {
    if |lines| > 0 {
      var init := lines[..|lines| - 1];
      var l := lines[|lines| - 1];
      assert AllOk(known, init) by {
        forall x | x in init ensures LineOk(known, x) {
          assert x in lines;
        }
      }
      assert LineOk(known, l) by {
        assert l in lines;
      }
      WindowsKeyable(known, init);
      var ws := Windows(init);
      if !IsHeader(l) {
        if |ws| > 0 && Chrom(ws[|ws| - 1][0]) == Chrom(l) {
          KeyableSnoc(known, ws[|ws| - 1], l);
          var ws' := ws[..|ws| - 1] + [ws[|ws| - 1] + [l]];
          assert forall j :: 0 <= j < |ws'| - 1 ==> ws'[j] == ws[j];
        } else {
          KeyableSnoc(known, [], l);
          AppendEmpty([l]);
          assert forall j :: 0 <= j < |ws| ==> (ws + [[l]])[j] == ws[j];
        }
      }
    }
  }

  /** The keys of a sequence of keyable lines, in order. */
  ghost function KeysOf(lines: seq<string>): (ks: seq<Key>)
    requires forall i :: 0 <= i < |lines| ==> Keyable(lines[i])
    ensures |ks| == |lines|
    ensures forall i :: 0 <= i < |lines| ==> ks[i] == KeyOf(lines[i])
  {
    seq(|lines|, i requires 0 <= i < |lines| => KeyOf(lines[i]))
  }

  lemma KeysOfSnoc(lines: seq<string>, l: string)
    requires forall i :: 0 <= i < |lines| ==> Keyable(lines[i])
    requires Keyable(l)
    ensures KeysOf(lines + [l]) == KeysOf(lines) + [KeyOf(l)]
  {
    SnocParts(lines, l);
  }

  /**
   * The lines the engine keeps from one window: going through the window in
   * order, a line with a known UMI is kept when no kept line has its key.
   */
  ghost function Reps(known: set<string>, w: seq<string>): (r: seq<string>)
    requires KeyableIfKnown(known, w)
    ensures |r| <= |w|
    ensures forall i :: 0 <= i < |r| ==> KnownUmi(known, r[i]) && Keyable(r[i])
  {
    if |w| == 0 then []
    else
      var r := Reps(known, w[..|w| - 1]);
      var l := w[|w| - 1];
      if KnownUmi(known, l) && KeyOf(l) !in KeysOf(r) then r + [l] else r
  }

  /** The set of keys of the known-UMI lines of a window. */
  ghost function DistinctKeys(known: set<string>, w: seq<string>): set<Key>
    requires KeyableIfKnown(known, w)
  {
    if |w| == 0 then {}
    else
      var l := w[|w| - 1];
      DistinctKeys(known, w[..|w| - 1]) + (if KnownUmi(known, l) then {KeyOf(l)} else {})
  }

  /** The kept lines of successive windows, one window after the other. */
  ghost function ConcatReps(known: set<string>, ws: seq<seq<string>>): (r: seq<string>)
    requires WindowsOk(known, ws)
  {
    if |ws| == 0 then [] else ConcatReps(known, ws[..|ws| - 1]) + Reps(known, ws[|ws| - 1])
  }

  /** The total number of distinct keys, window by window. */
  ghost function SumDistinct(known: set<string>, ws: seq<seq<string>>): nat
    requires WindowsOk(known, ws)
  {
    if |ws| == 0 then 0 else SumDistinct(known, ws[..|ws| - 1]) + |DistinctKeys(known, ws[|ws| - 1])|
  }

  /** The kept lines have exactly the keys of the window's known-UMI lines. */
  lemma {:induction false} RepsKeys(known: set<string>, w: seq<string>)
    requires KeyableIfKnown(known, w)
    ensures forall k :: k in KeysOf(Reps(known, w)) <==> k in DistinctKeys(known, w)
    decreases |w|
  {
    if |w| > 0 {
      RepsKeys(known, w[..|w| - 1]);
      var r := Reps(known, w[..|w| - 1]);
      var l := w[|w| - 1];
      if KnownUmi(known, l) && KeyOf(l) !in KeysOf(r) {
        KeysOfSnoc(r, l);
      }
    }
  }

  /** At most one kept line per key. */
  lemma {:induction false} RepsKeysDistinct(known: set<string>, w: seq<string>)
    requires KeyableIfKnown(known, w)
    ensures forall i, j :: 0 <= i < j < |Reps(known, w)| ==> KeyOf(Reps(known, w)[i]) != KeyOf(Reps(known, w)[j])
    decreases |w|
  {
    if |w| > 0 {
      RepsKeysDistinct(known, w[..|w| - 1]);
      var r := Reps(known, w[..|w| - 1]);
      var l := w[|w| - 1];
      if KnownUmi(known, l) && KeyOf(l) !in KeysOf(r) {
        forall i | 0 <= i < |r| ensures KeyOf(r[i]) != KeyOf(l) {
          assert KeysOf(r)[i] == KeyOf(r[i]);
        }
      }
    }
  }

  /** One kept line per distinct key of the window. */
  lemma {:induction false} RepsCount(known: set<string>, w: seq<string>)
    requires KeyableIfKnown(known, w)
    ensures |Reps(known, w)| == |DistinctKeys(known, w)|
    decreases |w|
  {
    if |w| > 0 {
      var init := w[..|w| - 1];
      var l := w[|w| - 1];
      assert KeyableIfKnown(known, init) by {
        forall i | 0 <= i < |init| ensures init[i] == w[i] {}
      }
      RepsCount(known, init);
      RepsKeys(known, init);
      var d := DistinctKeys(known, init);
      if KnownUmi(known, l) {
        var k := KeyOf(l);
        assert DistinctKeys(known, w) == d + {k};
        if k in d {
          assert d + {k} == d;
        } else {
          assert |d + {k}| == |d| + 1;
        }
      }
    }
  }

  /** Line `k` of a window is the first line of the window with its key. */
  ghost predicate FirstOfKey(known: set<string>, w: seq<string>, k: nat)
    requires KeyableIfKnown(known, w)
    requires k < |w|
  {
    KnownUmi(known, w[k]) && Keyable(w[k]) &&
    forall m :: 0 <= m < k && KnownUmi(known, w[m]) ==> KeyOf(w[m]) != KeyOf(w[k])
  }

  /** Dropping the last line keeps a window's lines keyable. */
  lemma KeyableInit(known: set<string>, w: seq<string>)
    requires |w| > 0 && KeyableIfKnown(known, w)
    ensures KeyableIfKnown(known, w[..|w| - 1])
  {
    forall i | 0 <= i < |w| - 1 ensures w[..|w| - 1][i] == w[i] {}
  }

  /** A line first with its key stays first when the window grows. */
  lemma FirstOfKeyGrow(known: set<string>, w: seq<string>, k: nat)
    requires |w| > 0 && KeyableIfKnown(known, w) && k < |w| - 1
    requires KeyableIfKnown(known, w[..|w| - 1]) && FirstOfKey(known, w[..|w| - 1], k)
    ensures FirstOfKey(known, w, k)
  {
    var init := w[..|w| - 1];
    assert w[k] == init[k];
    forall m | 0 <= m < k && KnownUmi(known, w[m]) ensures KeyOf(w[m]) != KeyOf(w[k]) {
      assert w[m] == init[m];
    }
  }

  /** A line the window's last line adds to the kept lines is the first with its key. */
  lemma RepsNewLineFirst(known: set<string>, w: seq<string>)
    requires |w| > 0 && KeyableIfKnown(known, w) && KeyableIfKnown(known, w[..|w| - 1])
    requires |Reps(known, w)| > |Reps(known, w[..|w| - 1])|
    ensures Reps(known, w)[|Reps(known, w)| - 1] == w[|w| - 1]
    ensures FirstOfKey(known, w, |w| - 1)
  {
    var init := w[..|w| - 1];
    var l := w[|w| - 1];
    var r := Reps(known, init);
    assert KnownUmi(known, l) && KeyOf(l) !in KeysOf(r);
    RepsKeys(known, init);
    forall m | 0 <= m < |w| - 1 && KnownUmi(known, w[m])
      ensures KeyOf(w[m]) != KeyOf(l)
    {
      assert init[m] == w[m];
      DistinctKeysHas(known, init, m);
    }
  }

  /** Every kept line is the first line of the window with its key. */
  lemma {:induction false} RepsFirstSeen(known: set<string>, w: seq<string>, i: nat)
    requires KeyableIfKnown(known, w)
    requires i < |Reps(known, w)|
    ensures exists k :: 0 <= k < |w| && w[k] == Reps(known, w)[i] && FirstOfKey(known, w, k)
    decreases |w|
  {
    var init := w[..|w| - 1];
    KeyableInit(known, w);
    var r := Reps(known, init);
    if i < |r| {
      assert Reps(known, w)[i] == r[i];
      RepsFirstSeen(known, init, i);
      var k :| 0 <= k < |init| && init[k] == r[i] && FirstOfKey(known, init, k);
      FirstOfKeyGrow(known, w, k);
      assert w[k] == Reps(known, w)[i];
    } else {
      RepsNewLineFirst(known, w);
      assert w[|w| - 1] == Reps(known, w)[i];
    }
  }

  lemma {:induction false} DistinctKeysHas(known: set<string>, w: seq<string>, m: nat)
    requires KeyableIfKnown(known, w)
    requires m < |w| && KnownUmi(known, w[m])
    ensures KeyOf(w[m]) in DistinctKeys(known, w)
    decreases |w|
  {
    if m < |w| - 1 {
      DistinctKeysHas(known, w[..|w| - 1], m);
    }
  }

  /** A key among the window's distinct keys is the key of one of its known-UMI lines. */
  lemma {:induction false} DistinctKeysWitness(known: set<string>, w: seq<string>, key: Key)
    requires KeyableIfKnown(known, w)
    requires key in DistinctKeys(known, w)
    ensures exists m :: 0 <= m < |w| && KnownUmi(known, w[m]) && KeyOf(w[m]) == key
    decreases |w|
  {
    var init := w[..|w| - 1];
    KeyableInit(known, w);
    if key in DistinctKeys(known, init) {
      DistinctKeysWitness(known, init, key);
      var m :| 0 <= m < |init| && KnownUmi(known, init[m]) && KeyOf(init[m]) == key;
      assert w[m] == init[m];
    }
  }

  /** Every line that is the first of the window with its key is kept. */
  lemma FirstSeenKept(known: set<string>, w: seq<string>, k: nat)
    requires KeyableIfKnown(known, w)
    requires k < |w| && FirstOfKey(known, w, k)
    ensures w[k] in Reps(known, w)
  {
    RepsInOrder(known, w);
    var ix := FirstPositions(known, w);
    var i :| 0 <= i < |ix| && ix[i] == k;
    assert Reps(known, w)[i] == w[k];
  }

  /** The positions of a window's lines that are first with their key, in increasing order. */
  ghost function FirstPositions(known: set<string>, w: seq<string>): (ix: seq<nat>)
    requires KeyableIfKnown(known, w)
    ensures forall i :: 0 <= i < |ix| ==> ix[i] < |w|
    decreases |w|
  {
    if |w| == 0 then []
    else
      var ix := FirstPositions(known, w[..|w| - 1]);
      if FirstOfKey(known, w, |w| - 1) then ix + [|w| - 1] else ix
  }

  /** Before the last line, being first with a key does not depend on the last line. */
  lemma FirstOfKeyInit(known: set<string>, w: seq<string>, k: nat)
    requires |w| > 0 && KeyableIfKnown(known, w) && KeyableIfKnown(known, w[..|w| - 1]) && k < |w| - 1
    ensures FirstOfKey(known, w, k) <==> FirstOfKey(known, w[..|w| - 1], k)
  {
    var init := w[..|w| - 1];
    assert forall m :: 0 <= m <= k ==> init[m] == w[m];
  }

  /** A window's last line is kept exactly when it is the first with its key. */
  lemma RepsGrows(known: set<string>, w: seq<string>)
    requires |w| > 0 && KeyableIfKnown(known, w)
    ensures KeyableIfKnown(known, w[..|w| - 1])
    ensures Reps(known, w) ==
      if FirstOfKey(known, w, |w| - 1) then Reps(known, w[..|w| - 1]) + [w[|w| - 1]] else Reps(known, w[..|w| - 1])
  {
    var init := w[..|w| - 1];
    var l := w[|w| - 1];
    KeyableInit(known, w);
    if KnownUmi(known, l) && KeyOf(l) !in KeysOf(Reps(known, init)) {
      RepsNewLineFirst(known, w);
    } else if KnownUmi(known, l) {
      RepsKeys(known, init);
      DistinctKeysWitness(known, init, KeyOf(l));
      var m :| 0 <= m < |init| && KnownUmi(known, init[m]) && KeyOf(init[m]) == KeyOf(l);
      assert init[m] == w[m];
    }
  }

  /** `r` lists the lines of `w` at the strictly increasing positions `ix`. */
  ghost predicate ListedAt(w: seq<string>, r: seq<string>, ix: seq<nat>) {
    && |ix| == |r|
    && (forall i :: 0 <= i < |ix| ==> ix[i] < |w| && r[i] == w[ix[i]])
    && (forall i, j :: 0 <= i < j < |ix| ==> ix[i] < ix[j])
  }

  /** A listing of all but the last line stays one when the last line is added, listed or not. */
  lemma ListedAtSnoc(w: seq<string>, r: seq<string>, ix: seq<nat>)
    requires |w| > 0 && ListedAt(w[..|w| - 1], r, ix)
    ensures ListedAt(w, r, ix)
    ensures ListedAt(w, r + [w[|w| - 1]], ix + [|w| - 1])
  {
    var init := w[..|w| - 1];
    forall i | 0 <= i < |ix| ensures w[ix[i]] == init[ix[i]] {}
  }

  /** The first-of-key positions are exactly the positions whose line is first with its key. */
  lemma {:induction false} FirstPositionsExact(known: set<string>, w: seq<string>)
    requires KeyableIfKnown(known, w)
    ensures forall k :: 0 <= k < |w| ==> (FirstOfKey(known, w, k) <==> k in FirstPositions(known, w))
    decreases |w|
  {
    if |w| > 0 {
      var init := w[..|w| - 1];
      KeyableInit(known, w);
      FirstPositionsExact(known, init);
      var ix := FirstPositions(known, init);
      var last := |w| - 1;
      assert FirstPositions(known, w) == if FirstOfKey(known, w, last) then ix + [last] else ix;
      assert last !in ix;
      forall k | 0 <= k < last ensures FirstOfKey(known, w, k) <==> k in FirstPositions(known, w) {
        FirstOfKeyInit(known, w, k);
        assert k in FirstPositions(known, w) <==> k in ix;
      }
    }
  }

  /**
   * The kept lines of a window are its first-of-key lines in window order:
   * the i-th kept line is the line at the i-th first-of-key position, and
   * those positions are exactly the lines first with their key.
   */
  lemma {:induction false} RepsInOrder(known: set<string>, w: seq<string>)
    requires KeyableIfKnown(known, w)
    ensures ListedAt(w, Reps(known, w), FirstPositions(known, w))
    ensures forall k :: 0 <= k < |w| ==> (FirstOfKey(known, w, k) <==> k in FirstPositions(known, w))
    decreases |w|
  {
    FirstPositionsExact(known, w);
    if |w| > 0 {
      RepsGrows(known, w);
      RepsInOrder(known, w[..|w| - 1]);
      ListedAtSnoc(w, Reps(known, w[..|w| - 1]), FirstPositions(known, w[..|w| - 1]));
    }
  }

  /** The number of kept lines is the number of distinct keys summed over the windows. */
  lemma {:induction false} ConcatRepsCount(known: set<string>, ws: seq<seq<string>>)
    requires WindowsOk(known, ws)
    ensures |ConcatReps(known, ws)| == SumDistinct(known, ws)
    decreases |ws|
  {
    if |ws| > 0 {
      ConcatRepsCount(known, ws[..|ws| - 1]);
      RepsCount(known, ws[|ws| - 1]);
    }
  }

  // ---------------------------------------------------------------------
  // The engine

  /** One table entry: the key and the first line seen with it. */
  datatype Entry = Entry(key: Key, line: string)

  /** The table's lines in insertion order (`Read_Dict.values()`). */
  ghost function Values(table: seq<Entry>): (r: seq<string>)
    ensures |r| == |table|
    ensures forall i :: 0 <= i < |table| ==> r[i] == table[i].line
  {
    if |table| == 0 then [] else Values(table[..|table| - 1]) + [table[|table| - 1].line]
  }

  /** Appending an entry appends its line to the values. */
  lemma TableValuesSnoc(table: seq<Entry>, e: Entry)
    ensures Values(table + [e]) == Values(table) + [e.line]
  {
    SnocParts(table, e);
  }

  /** The table's keys in insertion order. */
  function TableKeys(table: seq<Entry>): (r: seq<Key>)
    ensures |r| == |table|
    ensures forall i :: 0 <= i < |table| ==> r[i] == table[i].key
  {
    if |table| == 0 then [] else TableKeys(table[..|table| - 1]) + [table[|table| - 1].key]
  }

  /** The entry holds a data line under that line's own key. */
  ghost predicate Keyed(e: Entry) {
    !IsHeader(e.line) && Keyable(e.line) && e.key == KeyOf(e.line)
  }

  /** Every entry holds a data line under that line's own key. */
  ghost predicate EntriesKeyed(table: seq<Entry>) {
    forall i :: 0 <= i < |table| ==> Keyed(table[i])
  }

  /** The chromosome the engine tracks: that of the last window, or the initial "0". */
  ghost predicate Tracks(lastChrom: string, ws: seq<seq<string>>)
    requires forall j :: 0 <= j < |ws| ==> |ws[j]| > 0
  {
    if |ws| == 0 then lastChrom == "0" else lastChrom == Chrom(ws[|ws| - 1][0])
  }

  /** The windows already flushed: all but the last. */
  ghost function Closed(ws: seq<seq<string>>): seq<seq<string>>
  {
    if |ws| == 0 then [] else ws[..|ws| - 1]
  }

  /** The window being filled: the last one, or none yet. */
  ghost function Current(ws: seq<seq<string>>): seq<string>
  {
    if |ws| == 0 then [] else ws[|ws| - 1]
  }

  lemma TableKeysAreKeysOf(table: seq<Entry>)
    requires EntriesKeyed(table)
    ensures TableKeys(table) == KeysOf(Values(table))
  {
  }

  lemma {:induction false} HeadersAppend(a: seq<string>, b: seq<string>)
    ensures Headers(a + b) == Headers(a) + Headers(b)
    ensures DataLines(a + b) == DataLines(a) + DataLines(b)
    decreases |b|
  {
    if |b| == 0 {
      assert a + b == a;
    } else {
      assert (a + b)[..|a + b| - 1] == a + b[..|b| - 1];
      HeadersAppend(a, b[..|b| - 1]);
    }
  }

  lemma {:induction false} AllData(b: seq<string>)
    requires forall i :: 0 <= i < |b| ==> !IsHeader(b[i])
    ensures Headers(b) == [] && DataLines(b) == b
    decreases |b|
  {
    if |b| > 0 {
      AllData(b[..|b| - 1]);
    }
  }

  /** A data line on the tracked chromosome joins the current window. */
  lemma StepSameChrom(known: set<string>, lines: seq<string>, l: string, lastChrom: string)
    requires AllOk(known, lines + [l]) && !IsHeader(l)
    requires Tracks(lastChrom, Windows(lines)) && Chrom(l) == lastChrom
    ensures Tracks(lastChrom, Windows(lines + [l]))
    ensures Closed(Windows(lines + [l])) == Closed(Windows(lines))
    ensures Current(Windows(lines + [l])) == Current(Windows(lines)) + [l]
  {
    SnocParts(lines, l);
    var ws := Windows(lines);
    if |ws| > 0 {
      ReplaceLast(ws, ws[|ws| - 1] + [l]);
    }
  }

  /** A data line on another chromosome opens a new window, which becomes the tracked one. */
  lemma NewChromWindow(lines: seq<string>, l: string, lastChrom: string)
    requires !IsHeader(l) && Tracks(lastChrom, Windows(lines)) && Chrom(l) != lastChrom
    ensures Tracks(Chrom(l), Windows(lines + [l]))
    ensures Current(Windows(lines + [l])) == [l]
  {
    SnocParts(lines, l);
    SnocParts(Windows(lines), [l]);
  }

  /** A data line on another chromosome closes the current window and opens a new one. */
  lemma StepNewChrom(known: set<string>, lines: seq<string>, l: string, lastChrom: string)
    requires AllOk(known, lines + [l]) && !IsHeader(l)
    requires Tracks(lastChrom, Windows(lines)) && Chrom(l) != lastChrom
    ensures Tracks(Chrom(l), Windows(lines + [l]))
    ensures Current(Windows(lines + [l])) == [l]
    ensures WindowsOk(known, Windows(lines)) && WindowsOk(known, Windows(lines + [l]))
    ensures ConcatReps(known, Closed(Windows(lines + [l]))) ==
            ConcatReps(known, Closed(Windows(lines))) + Reps(known, Current(Windows(lines)))
  {
    SnocParts(lines, l);
    assert AllOk(known, lines) by {
      forall x | x in lines ensures LineOk(known, x) {
        assert x in lines + [l];
      }
    }
    WindowsKeyable(known, lines);
    WindowsKeyable(known, lines + [l]);
    var ws := Windows(lines);
    SnocParts(ws, [l]);
    if |ws| > 0 {
      LastSplit(ws);
    }
  }

  /** Adding a line to a window keeps it exactly when it has a known UMI and a new key. */
  lemma RepsStep(known: set<string>, w: seq<string>, l: string)
    requires KeyableIfKnown(known, w + [l])
    ensures KeyableIfKnown(known, w)
    ensures KnownUmi(known, l) ==> Keyable(l)
    ensures Reps(known, w + [l]) ==
      if KnownUmi(known, l) && KeyOf(l) !in KeysOf(Reps(known, w)) then Reps(known, w) + [l] else Reps(known, w)
  {
    SnocParts(w, l);
  }

  /** How one more line extends the header, data and rejected lines. */
  lemma Snoc(known: set<string>, s: seq<string>, l: string)
    ensures Headers(s + [l]) == Headers(s) + (if IsHeader(l) then [l] else [])
    ensures DataLines(s + [l]) == DataLines(s) + (if IsHeader(l) then [] else [l])
    ensures Rejected(known, s + [l]) == Rejected(known, s) + (if !IsHeader(l) && !KnownUmi(known, l) then [l] else [])
    ensures IsHeader(l) ==> Windows(s + [l]) == Windows(s)
  {
    SnocParts(s, l);
  }

  /** Every line of `s + [l]` is acceptable when those of `s` and `l` are. */
  lemma AllOkSnoc(known: set<string>, s: seq<string>, l: string)
    requires AllOk(known, s) && LineOk(known, l)
    ensures AllOk(known, s + [l])
  {
  }

  /**
   * The engine's invariant over the lines received so far (`seen`): the
   * table holds the first line of every key in the current window, in
   * insertion order; the output holds the headers and the kept lines of the
   * closed windows; and the wrong-UMI sink holds the rejected lines.
   */
  ghost predicate Inv(known: set<string>, seen: seq<string>, table: seq<Entry>, lastChrom: string,
                      output: seq<string>, wrongUmi: seq<string>)
  {
    && AllOk(known, seen)
    && WindowsOk(known, Windows(seen))
    && Tracks(lastChrom, Windows(seen))
    && EntriesKeyed(table)
    && Values(table) == Reps(known, Current(Windows(seen)))
    && Headers(output) == Headers(seen)
    && DataLines(output) == ConcatReps(known, Closed(Windows(seen)))
    && wrongUmi == Rejected(known, seen)
  }

  /**
   * The state once data line `l` has been through the chromosome check and
   * before it is placed: `l` extends window `w`, whose representatives are
   * in the table, and every closed window is in the output.
   */
  ghost predicate Ready(known: set<string>, seen: seq<string>, l: string, w: seq<string>,
                        table: seq<Entry>, lastChrom: string,
                        output: seq<string>, wrongUmi: seq<string>)
  {
    && !IsHeader(l) && LineOk(known, l)
    && AllOk(known, seen + [l])
    && WindowsOk(known, Windows(seen + [l]))
    && Tracks(lastChrom, Windows(seen + [l]))
    && Current(Windows(seen + [l])) == w + [l]
    && KeyableIfKnown(known, w)
    && EntriesKeyed(table)
    && Values(table) == Reps(known, w)
    && Headers(output) == Headers(seen)
    && DataLines(output) == ConcatReps(known, Closed(Windows(seen + [l])))
    && wrongUmi == Rejected(known, seen)
  }

  lemma InvStart(known: set<string>)
    ensures Inv(known, [], [], "0", [], [])
  {
  }

  /** A header goes to the output and changes nothing else. */
  lemma InvHeader(known: set<string>, seen: seq<string>, table: seq<Entry>, lastChrom: string,
                  output: seq<string>, wrongUmi: seq<string>, l: string)
    requires Inv(known, seen, table, lastChrom, output, wrongUmi)
    requires IsHeader(l) && LineOk(known, l)
    ensures Inv(known, seen + [l], table, lastChrom, output + [l], wrongUmi)
  {
    Snoc(known, seen, l);
    Snoc(known, output, l);
    AllOkSnoc(known, seen, l);
  }

  /** Flushing data lines `v` adds no header and appends `v` to the data lines. */
  lemma FlushOutput(seen: seq<string>, output: seq<string>, v: seq<string>, closed: seq<string>)
    requires Headers(output) == Headers(seen) && DataLines(output) == closed
    requires forall i :: 0 <= i < |v| ==> !IsHeader(v[i])
    ensures Headers(output + v) == Headers(seen) && DataLines(output + v) == closed + v
  {
    HeadersAppend(output, v);
    AllData(v);
    AppendEmpty(Headers(output));
  }

  /** A data line on a new chromosome: the table is flushed to the output and emptied. */
  lemma ReadyNewChrom(known: set<string>, seen: seq<string>, table: seq<Entry>, lastChrom: string,
                      output: seq<string>, wrongUmi: seq<string>, l: string)
    requires Inv(known, seen, table, lastChrom, output, wrongUmi)
    requires !IsHeader(l) && LineOk(known, l) && Chrom(l) != lastChrom
    ensures Ready(known, seen, l, [], [], Chrom(l), output + Values(table), wrongUmi)
  {
    FlushedOutput(known, seen, table, lastChrom, output, wrongUmi, l);
    NewChromWindow(seen, l, lastChrom);
    AppendEmpty([l]);
    assert Values([]) == [];
  }

  /** The output after the flush: the closed windows now include the one the new line closes. */
  lemma FlushedOutput(known: set<string>, seen: seq<string>, table: seq<Entry>, lastChrom: string,
                      output: seq<string>, wrongUmi: seq<string>, l: string)
    requires Inv(known, seen, table, lastChrom, output, wrongUmi)
    requires !IsHeader(l) && LineOk(known, l) && Chrom(l) != lastChrom
    ensures AllOk(known, seen + [l]) && WindowsOk(known, Windows(seen + [l]))
    ensures Headers(output + Values(table)) == Headers(seen)
    ensures DataLines(output + Values(table)) == ConcatReps(known, Closed(Windows(seen + [l])))
  {
    var v := Values(table);
    assert forall i :: 0 <= i < |v| ==> !IsHeader(v[i]);
    FlushOutput(seen, output, v, ConcatReps(known, Closed(Windows(seen))));
    AllOkSnoc(known, seen, l);
    StepNewChrom(known, seen, l, lastChrom);
  }

  /** A data line on the tracked chromosome: nothing is flushed. */
  lemma ReadySameChrom(known: set<string>, seen: seq<string>, table: seq<Entry>, lastChrom: string,
                       output: seq<string>, wrongUmi: seq<string>, l: string)
    requires Inv(known, seen, table, lastChrom, output, wrongUmi)
    requires !IsHeader(l) && LineOk(known, l) && Chrom(l) == lastChrom
    ensures Ready(known, seen, l, Current(Windows(seen)), table, lastChrom, output, wrongUmi)
  {
    AllOkSnoc(known, seen, l);
    StepSameChrom(known, seen, l, lastChrom);
    WindowsKeyable(known, seen + [l]);
  }

  /** A line with an unknown UMI goes to the wrong-UMI sink. */
  lemma PlaceRejected(known: set<string>, seen: seq<string>, l: string, w: seq<string>,
                      table: seq<Entry>, lastChrom: string,
                      output: seq<string>, wrongUmi: seq<string>)
    requires Ready(known, seen, l, w, table, lastChrom, output, wrongUmi)
    requires !KnownUmi(known, l)
    ensures Inv(known, seen + [l], table, lastChrom, output, wrongUmi + [l])
  {
    RepsStep(known, w, l);
    Snoc(known, seen, l);
  }

  /** A line whose key is already in the table is discarded. */
  lemma PlaceDuplicate(known: set<string>, seen: seq<string>, l: string, w: seq<string>,
                       table: seq<Entry>, lastChrom: string,
                       output: seq<string>, wrongUmi: seq<string>)
    requires Ready(known, seen, l, w, table, lastChrom, output, wrongUmi)
    requires KnownUmi(known, l) && Keyable(l) && KeyOf(l) in TableKeys(table)
    ensures Inv(known, seen + [l], table, lastChrom, output, wrongUmi)
  {
    RepsStep(known, w, l);
    TableKeysAreKeysOf(table);
    Snoc(known, seen, l);
  }

  /** Adding an entry for a data line under its own key. */
  lemma TableSnoc(table: seq<Entry>, e: Entry)
    requires EntriesKeyed(table) && Keyed(e)
    ensures EntriesKeyed(table + [e])
    ensures Values(table + [e]) == Values(table) + [e.line]
  {
    SnocParts(table, e);
    TableValuesSnoc(table, e);
  }

  /** A line with a new key is added to the table. */
  lemma PlaceNew(known: set<string>, seen: seq<string>, l: string, w: seq<string>,
                 table: seq<Entry>, lastChrom: string,
                 output: seq<string>, wrongUmi: seq<string>)
    requires Ready(known, seen, l, w, table, lastChrom, output, wrongUmi)
    requires KnownUmi(known, l) && Keyable(l) && KeyOf(l) !in TableKeys(table)
    ensures Inv(known, seen + [l], table + [Entry(KeyOf(l), l)], lastChrom, output, wrongUmi)
  {
    RepsStep(known, w, l);
    TableKeysAreKeysOf(table);
    Snoc(known, seen, l);
    TableSnoc(table, Entry(KeyOf(l), l));
  }

  /**
   * One data line through the main loop keeps the invariant: a line on a
   * new chromosome first flushes the table to the output and empties it;
   * then a line with an unknown UMI goes to the wrong-UMI sink, a line whose
   * key is in the table is discarded and any other line is added under its
   * key.
   */
  lemma StepData(known: set<string>, seen: seq<string>, table: seq<Entry>, lastChrom: string,
                 output: seq<string>, wrongUmi: seq<string>, l: string)
    requires Inv(known, seen, table, lastChrom, output, wrongUmi)
    requires !IsHeader(l) && LineOk(known, l)
    ensures
      var t1 := if Chrom(l) != lastChrom then [] else table;
      var o1 := if Chrom(l) != lastChrom then output + Values(table) else output;
      && (!KnownUmi(known, l) ==>
            Inv(known, seen + [l], t1, Chrom(l), o1, wrongUmi + [l]))
      && (KnownUmi(known, l) && KeyOf(l) in TableKeys(t1) ==>
            Inv(known, seen + [l], t1, Chrom(l), o1, wrongUmi))
      && (KnownUmi(known, l) && KeyOf(l) !in TableKeys(t1) ==>
            Inv(known, seen + [l], t1 + [Entry(KeyOf(l), l)], Chrom(l), o1, wrongUmi))
  {
    var t1, o1, w := table, output, Current(Windows(seen));
    if Chrom(l) != lastChrom {
      ReadyNewChrom(known, seen, table, lastChrom, output, wrongUmi, l);
      t1, o1, w := [], output + Values(table), [];
    } else {
      ReadySameChrom(known, seen, table, lastChrom, output, wrongUmi, l);
    }
    if !KnownUmi(known, l) {
      PlaceRejected(known, seen, l, w, t1, Chrom(l), o1, wrongUmi);
    } else if KeyOf(l) in TableKeys(t1) {
      PlaceDuplicate(known, seen, l, w, t1, Chrom(l), o1, wrongUmi);
    } else {
      PlaceNew(known, seen, l, w, t1, Chrom(l), o1, wrongUmi);
    }
  }

  /**
   * The engine's state between two input lines: the table, the tracked
   * chromosome, what has been written to the two sinks, and (for the
   * proofs) the lines discarded as duplicates.
   */
  datatype State = State(table: seq<Entry>, lastChrom: string, output: seq<string>,
                         wrongUmi: seq<string>, duplicates: seq<string>)

  /** The state before the first line: an empty table and chromosome "0". */
  const Start := State([], "0", [], [], [])

  /**
   * One iteration of the main loop as a function of the state before it:
   * a header goes to the output; a data line on a chromosome other than
   * the tracked one first flushes the table to the output and empties it;
   * then a line with an unknown UMI goes to the wrong-UMI sink, a line whose
   * key is in the table is discarded and any other line is added under its
   * key.
   */
  ghost function Step(known: set<string>, st: State, l: string): State
    requires LineOk(known, l)
  {
    if IsHeader(l) then st.(output := st.output + [l])
    else
      var t1 := if Chrom(l) != st.lastChrom then [] else st.table;
      var o1 := if Chrom(l) != st.lastChrom then st.output + Values(st.table) else st.output;
      if !KnownUmi(known, l) then State(t1, Chrom(l), o1, st.wrongUmi + [l], st.duplicates)
      else if KeyOf(l) in TableKeys(t1) then State(t1, Chrom(l), o1, st.wrongUmi, st.duplicates + [l])
      else State(t1 + [Entry(KeyOf(l), l)], Chrom(l), o1, st.wrongUmi, st.duplicates)
  }

  /** The main loop run over `lines` from the start state. */
  ghost function Run(known: set<string>, lines: seq<string>): State
    requires AllOk(known, lines)
  {
    if |lines| == 0 then Start
    else Step(known, Run(known, lines[..|lines| - 1]), lines[|lines| - 1])
  }

  /** Running one more line is one more step. */
  lemma RunSnoc(known: set<string>, lines: seq<string>, l: string)
    requires AllOk(known, lines) && LineOk(known, l)
    ensures AllOk(known, lines + [l])
    ensures Run(known, lines + [l]) == Step(known, Run(known, lines), l)
  {
    AllOkSnoc(known, lines, l);
    SnocParts(lines, l);
  }

  /** The state the main loop reaches satisfies the invariant. */
  lemma {:induction false} RunInv(known: set<string>, lines: seq<string>)
    requires AllOk(known, lines)
    ensures var r := Run(known, lines);
      Inv(known, lines, r.table, r.lastChrom, r.output, r.wrongUmi)
    decreases |lines|
  {
    if |lines| == 0 {
      InvStart(known);
    } else {
      var s, l := lines[..|lines| - 1], lines[|lines| - 1];
      LastSplit(lines);
      RunSnoc(known, s, l);
      RunInv(known, s);
      var r := Run(known, s);
      if IsHeader(l) {
        InvHeader(known, s, r.table, r.lastChrom, r.output, r.wrongUmi, l);
      } else {
        StepData(known, s, r.table, r.lastChrom, r.output, r.wrongUmi, l);
      }
    }
  }

  /** The final flush closes the last window. */
  lemma InvFinish(known: set<string>, seen: seq<string>, table: seq<Entry>, lastChrom: string,
                  output: seq<string>, wrongUmi: seq<string>)
    requires Inv(known, seen, table, lastChrom, output, wrongUmi)
    ensures WindowsOk(known, Windows(seen))
    ensures Headers(output + Values(table)) == Headers(seen)
    ensures DataLines(output + Values(table)) == ConcatReps(known, Windows(seen))
  {
    HeadersAppend(output, Values(table));
    AllData(Values(table));
    var ws := Windows(seen);
    if |ws| > 0 {
      LastSplit(ws);
    }
  }

  /**
   * The table never holds two entries with one key, and every entry is on
   * the tracked chromosome.
   */
  ghost predicate TableOk(st: State) {
    && (forall i, j :: 0 <= i < j < |st.table| ==> st.table[i].key != st.table[j].key)
    && (forall i :: 0 <= i < |st.table| ==> Chrom(st.table[i].line) == st.lastChrom)
  }

  /** One step of the main loop keeps the table well-formed. */
  lemma StepTable(known: set<string>, st: State, l: string)
    requires TableOk(st) && LineOk(known, l)
    ensures TableOk(Step(known, st, l))
  {
    if !IsHeader(l) && KnownUmi(known, l) {
      var t1 := if Chrom(l) != st.lastChrom then [] else st.table;
      if KeyOf(l) !in TableKeys(t1) {
        var t2 := t1 + [Entry(KeyOf(l), l)];
        assert forall i :: 0 <= i < |t1| ==> t2[i] == t1[i] && TableKeys(t1)[i] == t1[i].key;
      }
    }
  }

  /** The state the main loop reaches has a well-formed table. */
  lemma {:induction false} RunTable(known: set<string>, lines: seq<string>)
    requires AllOk(known, lines)
    ensures TableOk(Run(known, lines))
    decreases |lines|
  {
    if |lines| > 0 {
      var s, l := lines[..|lines| - 1], lines[|lines| - 1];
      LastSplit(lines);
      RunSnoc(known, s, l);
      RunTable(known, s);
      StepTable(known, Run(known, s), l);
    }
  }

  /** Every line received is in exactly one of the output, the wrong-UMI sink, the discarded lines or the table. */
  ghost predicate Partitioned(lines: seq<string>, st: State) {
    multiset(lines) == multiset(st.output) + multiset(st.wrongUmi) + multiset(st.duplicates) + multiset(Values(st.table))
  }

  /** Flushing the table to the output moves lines without losing any. */
  lemma FlushPartition(lines: seq<string>, st: State, c: string)
    requires Partitioned(lines, st)
    ensures Partitioned(lines, State([], c, st.output + Values(st.table), st.wrongUmi, st.duplicates))
  {
    MultisetAppend(st.output, Values(st.table));
  }

  /** A new line placed in exactly one of the four places. */
  lemma PlacePartition(lines: seq<string>, st: State, l: string, st': State)
    requires Partitioned(lines, st)
    requires || st' == st.(output := st.output + [l])
             || st' == st.(wrongUmi := st.wrongUmi + [l])
             || st' == st.(duplicates := st.duplicates + [l])
             || (Values(st'.table) == Values(st.table) + [l] && st'.output == st.output
                 && st'.wrongUmi == st.wrongUmi && st'.duplicates == st.duplicates)
    ensures Partitioned(lines + [l], st')
  {
    MultisetSnoc(lines, l);
    MultisetSnoc(st.output, l);
    MultisetSnoc(st.wrongUmi, l);
    MultisetSnoc(st.duplicates, l);
    MultisetSnoc(Values(st.table), l);
  }

  /** One step of the main loop puts the new line in exactly one place and moves nothing else out. */
  lemma StepPartition(known: set<string>, lines: seq<string>, st: State, l: string)
    requires Partitioned(lines, st) && LineOk(known, l)
    ensures Partitioned(lines + [l], Step(known, st, l))
  {
    if IsHeader(l) {
      PlacePartition(lines, st, l, st.(output := st.output + [l]));
    } else {
      var st1 := if Chrom(l) != st.lastChrom then State([], Chrom(l), st.output + Values(st.table), st.wrongUmi, st.duplicates)
                 else st.(lastChrom := Chrom(l));
      if Chrom(l) != st.lastChrom {
        FlushPartition(lines, st, Chrom(l));
      }
      if !KnownUmi(known, l) {
        PlacePartition(lines, st1, l, st1.(wrongUmi := st1.wrongUmi + [l]));
      } else if KeyOf(l) in TableKeys(st1.table) {
        PlacePartition(lines, st1, l, st1.(duplicates := st1.duplicates + [l]));
      } else {
        TableValuesSnoc(st1.table, Entry(KeyOf(l), l));
        PlacePartition(lines, st1, l, st1.(table := st1.table + [Entry(KeyOf(l), l)]));
      }
    }
  }

  /** The main loop loses no line and duplicates none. */
  lemma {:induction false} RunPartition(known: set<string>, lines: seq<string>)
    requires AllOk(known, lines)
    ensures Partitioned(lines, Run(known, lines))
    decreases |lines|
  {
    if |lines| > 0 {
      var s, l := lines[..|lines| - 1], lines[|lines| - 1];
      LastSplit(lines);
      RunSnoc(known, s, l);
      RunPartition(known, s);
      StepPartition(known, s, Run(known, s), l);
    }
  }

  /**
   * What the main loop and the final flush produce on the whole input: the
   * headers in input order; as data lines, the first line of every key,
   * window by window; as rejected lines, the unknown-UMI data lines in
   * input order; and every input line in exactly one of the output, the
   * rejected lines and the discarded duplicates.
   */
  lemma RunFinal(known: set<string>, lines: seq<string>)
    requires AllOk(known, lines)
    ensures var r := Run(known, lines);
      && WindowsOk(known, Windows(lines))
      && Headers(r.output + Values(r.table)) == Headers(lines)
      && DataLines(r.output + Values(r.table)) == ConcatReps(known, Windows(lines))
      && r.wrongUmi == Rejected(known, lines)
      && multiset(lines) == multiset(r.output + Values(r.table)) + multiset(r.wrongUmi) + multiset(r.duplicates)
      && r.output + Values(r.table) == Written(known, lines)
  {
    RunWritten(known, lines);
    RunInv(known, lines);
    RunPartition(known, lines);
    var r := Run(known, lines);
    InvFinish(known, lines, r.table, r.lastChrom, r.output, r.wrongUmi);
  }

  // ---------------------------------------------------------------------
  // The output line by line

  /**
   * The output written while reading `lines`, described through the
   * windows: a header is written where it stands, and a data line that
   * opens a new window after an earlier one first writes the kept lines of
   * the window it closes.
   */
  ghost function Emitted(known: set<string>, lines: seq<string>): seq<string>
    requires AllOk(known, lines)
    decreases |lines|
  {
    if |lines| == 0 then []
    else
      var s, l := lines[..|lines| - 1], lines[|lines| - 1];
      var before := Emitted(known, s);
      if IsHeader(l) then before + [l]
      else
        var ws := Windows(s);
        if |ws| > 0 && Chrom(ws[|ws| - 1][0]) != Chrom(l) then
          WindowsKeyable(known, s);
          before + Reps(known, ws[|ws| - 1])
        else before
  }

  /** The whole output: what was emitted, then the kept lines of the last window. */
  ghost function Written(known: set<string>, lines: seq<string>): seq<string>
    requires AllOk(known, lines)
  {
    WindowsKeyable(known, lines);
    var ws := Windows(lines);
    Emitted(known, lines) + (if |ws| == 0 then [] else Reps(known, ws[|ws| - 1]))
  }

  /** The loop's output after any input is the emitted text, in order. */
  lemma {:induction false} RunEmitted(known: set<string>, lines: seq<string>)
    requires AllOk(known, lines)
    ensures Run(known, lines).output == Emitted(known, lines)
    decreases |lines|
  {
    if |lines| > 0 {
      var s, l := lines[..|lines| - 1], lines[|lines| - 1];
      LastSplit(lines);
      RunSnoc(known, s, l);
      RunEmitted(known, s);
      RunInv(known, s);
      var r := Run(known, s);
      if !IsHeader(l) && Chrom(l) != r.lastChrom && |Windows(s)| == 0 {
        assert Values(r.table) == [];
      }
    }
  }

  /** After the final flush the output is exactly the written text. */
  lemma RunWritten(known: set<string>, lines: seq<string>)
    requires AllOk(known, lines)
    ensures Run(known, lines).output + Values(Run(known, lines).table) == Written(known, lines)
  {
    RunEmitted(known, lines);
    RunInv(known, lines);
  }

  /**
   * The written text holds the headers in input order and, as data lines,
   * the kept lines of every window, window by window.
   */
  lemma WrittenParts(known: set<string>, lines: seq<string>)
    requires AllOk(known, lines)
    ensures WindowsOk(known, Windows(lines))
    ensures Headers(Written(known, lines)) == Headers(lines)
    ensures DataLines(Written(known, lines)) == ConcatReps(known, Windows(lines))
  {
    RunFinal(known, lines);
  }

  /** Every line of `s` has a known UMI. */
  ghost predicate AllKnown(known: set<string>, s: seq<string>) {
    forall i :: 0 <= i < |s| ==> KnownUmi(known, s[i])
  }

  lemma AllKnownAppend(known: set<string>, a: seq<string>, b: seq<string>)
    requires AllKnown(known, a) && AllKnown(known, b)
    ensures AllKnown(known, a + b)
  {
    assert forall i :: 0 <= i < |b| ==> (a + b)[|a| + i] == b[i];
  }

  /** Every kept line of every window has a known UMI. */
  lemma {:induction false} ConcatRepsKnown(known: set<string>, ws: seq<seq<string>>)
    requires WindowsOk(known, ws)
    ensures AllKnown(known, ConcatReps(known, ws))
    decreases |ws|
  {
    if |ws| > 0 {
      ConcatRepsKnown(known, ws[..|ws| - 1]);
      AllKnownAppend(known, ConcatReps(known, ws[..|ws| - 1]), Reps(known, ws[|ws| - 1]));
    }
  }

  /**
   * The number of data lines written is the number of distinct keys summed
   * over the chromosome windows, and none of them has an unknown UMI.
   */
  lemma OutputCount(known: set<string>, lines: seq<string>)
    requires AllOk(known, lines)
    ensures WindowsOk(known, Windows(lines))
    ensures |DataLines(Written(known, lines))| == SumDistinct(known, Windows(lines))
    ensures forall i :: 0 <= i < |DataLines(Written(known, lines))| ==>
      KnownUmi(known, DataLines(Written(known, lines))[i])
  {
    WrittenParts(known, lines);
    ConcatRepsCount(known, Windows(lines));
    ConcatRepsKnown(known, Windows(lines));
  }
}
