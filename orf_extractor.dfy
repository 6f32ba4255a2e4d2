/** ORF extraction for one sequence in one reading frame (`orfs`), including the
    source's greedy cursor rule and its frame-shifted slicing, reproduced as written. */
module OrfExtractor {
  import opened Wrappers
  import opened PyText
  import opened CodonScanner

  /** An accepted ORF: the offsets of its start codon and of the stop codon paired with it. */
  datatype Pick = Pick(start: nat, stop: nat)

  /** The state of the outer loop: the ORFs accepted so far and the `stop_index` cursor. */
  datatype Scan = Scan(picks: seq<Pick>, cursor: int)

  /** The first stop offset that lies after `start` (the inner loop's `start < stop`). */
  function FirstStopAfter(stops: seq<nat>, start: nat): (r: Option<nat>)
    ensures r.None? <==> forall t :: t in stops ==> t <= start
    ensures r.Some? ==> r.value in stops && start < r.value
  {
    if stops == [] then None
    else if start < stops[0] then assert stops[0] in stops; Some(stops[0])
    else
      var r := FirstStopAfter(stops[1..], start);
      assert forall t :: t in stops ==> t == stops[0] || t in stops[1..];
      assert r.Some? ==> r.value in stops;
      r
  }

  /** In an increasing list the first stop after `start` is the least one. */
  lemma {:induction false} FirstStopAfterIsLeast(stops: seq<nat>, start: nat)
    requires Increasing(stops) && FirstStopAfter(stops, start).Some?
    ensures forall t :: t in stops && start < t ==> FirstStopAfter(stops, start).value <= t
  {
    if start >= stops[0] {
      FirstStopAfterIsLeast(stops[1..], start);
      forall t | t in stops && start < t ensures FirstStopAfter(stops, start).value <= t {
        assert t in stops[1..];
      }
    } else {
      forall t | t in stops && start < t ensures stops[0] <= t {
        var k :| 0 <= k < |stops| && stops[k] == t;
      }
    }
  }

  /** One iteration of the outer loop: a start beyond the cursor takes the first stop
      after it, and the cursor grows by 3 (it is not moved to the stop). */
  function Step(st: Scan, start: nat, stops: seq<nat>): Scan {
    if start > st.cursor then
      match FirstStopAfter(stops, start)
      case Some(stop) => Scan(st.picks + [Pick(start, stop)], st.cursor + 3)
      case None => st
    else st
  }

  /** The outer loop run over `starts`, from an empty result and cursor 0. */
  function Run(starts: seq<nat>, stops: seq<nat>): Scan
    decreases |starts|
  {
    if starts == [] then Scan([], 0)
    else Step(Run(starts[..|starts| - 1], stops), starts[|starts| - 1], stops)
  }

  lemma RunExtend(starts: seq<nat>, stops: seq<nat>, i: nat)
    requires i < |starts|
    ensures Run(starts[..i + 1], stops) == Step(Run(starts[..i], stops), starts[i], stops)
  {
    assert starts[..i + 1][..i] == starts[..i];
  }

  /** The text of each pick, sliced out of `shifted` as `shifted[start:stop + 3]`, in order. */
  function Texts(shifted: string, picks: seq<Pick>): (r: seq<string>)
    ensures |r| == |picks|
    decreases |picks|
  {
    if picks == [] then []
    else
      var last := picks[|picks| - 1];
      Texts(shifted, picks[..|picks| - 1]) + [PySlice(shifted, last.start, last.stop + 3)]
  }

  lemma TextsExtend(shifted: string, picks: seq<Pick>, start: nat, stop: nat, texts: seq<string>)
    requires texts == Texts(shifted, picks)
    ensures texts + [PySlice(shifted, start, stop + 3)] == Texts(shifted, picks + [Pick(start, stop)])
  {
    assert (picks + [Pick(start, stop)])[..|picks|] == picks;
  }

  /** The `k`-th text is the slice of the `k`-th pick. */
  lemma {:induction false} TextsIndex(shifted: string, picks: seq<Pick>, k: nat)
    requires k < |picks|
    ensures Texts(shifted, picks)[k] == PySlice(shifted, picks[k].start, picks[k].stop + 3)
    decreases |picks|
  {
    if k < |picks| - 1 {
      TextsIndex(shifted, picks[..|picks| - 1], k);
    }
  }

  /** `seq[frame - 1:]`, the string the ORF texts are cut from. */
  function Shifted(s: string, frame: nat): string
    requires frame >= 1
  {
    PySliceFrom(s, frame - 1)
  }

  /** The ORFs the source accepts for `s` in `frame`. */
  function Picks(s: string, frame: nat): seq<Pick>
    requires frame >= 1
  {
    Run(FindStartCodonPos(s, frame), FindStopCodonPos(s, frame)).picks
  }

  /** What `orfs(seq, frame)` returns. */
  function OrfTexts(s: string, frame: nat): seq<string>
    requires frame >= 1
  {
    Texts(Shifted(s, frame), Picks(s, frame))
  }

  /** `orfs(seq, frame)`: for each start offset, scan the stop offsets and keep the first
      one after the start, provided the start lies beyond the cursor. */
  method Orfs(s: string, frame: nat) returns (orfs: seq<string>)
    requires frame >= 1
    ensures orfs == OrfTexts(s, frame)
  {
    var startIndexes := FindStartCodonPos(s, frame);
    var stopIndexes := FindStopCodonPos(s, frame);
    var shifted := PySliceFrom(s, frame - 1);
    orfs := [];
    var stopIndex := 0;
    ghost var picks: seq<Pick> := [];
    var i := 0;
    while i < |startIndexes|
      invariant 0 <= i <= |startIndexes|
      invariant Run(startIndexes[..i], stopIndexes) == Scan(picks, stopIndex)
      invariant orfs == Texts(shifted, picks)
    {
      var start := startIndexes[i];
      ghost var before := Scan(picks, stopIndex);
      RunExtend(startIndexes, stopIndexes, i);
      var j := 0;
      while j < |stopIndexes|
        invariant 0 <= j <= |stopIndexes|
        invariant before == Scan(picks, stopIndex) && orfs == Texts(shifted, picks)
        invariant start > stopIndex ==> FirstStopAfter(stopIndexes, start) == FirstStopAfter(stopIndexes[j..], start)
      {
        var stop := stopIndexes[j];
        if start < stop && start > stopIndex {
          assert FirstStopAfter(stopIndexes[j..], start) == Some(stop);
          ghost var oldOrfs, oldPicks := orfs, picks;
          orfs := orfs + [PySlice(shifted, start, stop + 3)];
          picks := picks + [Pick(start, stop)];
          stopIndex := stopIndex + 3;
          assert orfs == Texts(shifted, picks) by {
            TextsExtend(shifted, oldPicks, start, stop, oldOrfs);
          }
          break;
        }
        assert stopIndexes[j..][1..] == stopIndexes[j + 1..];
        j := j + 1;
      }
      assert stopIndexes[|stopIndexes|..] == [];
      assert Scan(picks, stopIndex) == Step(before, start, stopIndexes);
      i := i + 1;
    }
    assert startIndexes[..i] == startIndexes;
    assert Picks(s, frame) == picks;
    assert Shifted(s, frame) == shifted;
  }

  /** What the source promises of an accepted ORF with index `k`: its start is a start
      offset beyond the cursor `3 * k`, and its stop is the first stop after the start. */
  predicate Accepted(p: Pick, k: int, starts: seq<nat>, stops: seq<nat>) {
    p.start in starts && p.start > 3 * k && FirstStopAfter(stops, p.start) == Some(p.stop)
  }

  /** One turn of the outer loop keeps the cursor at 3 times the number of ORFs, every
      ORF accepted and the starts increasing, when the new start lies beyond every
      earlier one. */
  lemma StepShape(before: Scan, last: nat, starts: seq<nat>, stops: seq<nat>)
    requires last in starts && before.cursor == 3 * |before.picks|
    requires forall k :: 0 <= k < |before.picks| ==>
      Accepted(before.picks[k], k, starts, stops) && before.picks[k].start < last
    requires forall k, l :: 0 <= k < l < |before.picks| ==> before.picks[k].start < before.picks[l].start
    ensures var after := Step(before, last, stops);
      && after.cursor == 3 * |after.picks|
      && (forall k :: 0 <= k < |after.picks| ==> Accepted(after.picks[k], k, starts, stops) && after.picks[k].start <= last)
      && (forall k, l :: 0 <= k < l < |after.picks| ==> after.picks[k].start < after.picks[l].start)
  {
  }

  /** The cursor is always 3 times the number of ORFs so far; every accepted start lies
      beyond the cursor of its turn; the accepted starts increase, so no start is used twice. */
  lemma {:induction false} RunShape(starts: seq<nat>, stops: seq<nat>)
    requires Increasing(starts)
    ensures Run(starts, stops).cursor == 3 * |Run(starts, stops).picks|
    ensures forall k :: 0 <= k < |Run(starts, stops).picks| ==> Accepted(Run(starts, stops).picks[k], k, starts, stops)
    ensures forall k, l :: 0 <= k < l < |Run(starts, stops).picks| ==>
      Run(starts, stops).picks[k].start < Run(starts, stops).picks[l].start
    ensures starts != [] ==> forall k :: 0 <= k < |Run(starts, stops).picks| ==>
      Run(starts, stops).picks[k].start <= starts[|starts| - 1]
    decreases |starts|
  {
    if starts != [] {
      var prefix := starts[..|starts| - 1];
      var last := starts[|starts| - 1];
      RunShape(prefix, stops);
      var before := Run(prefix, stops);
      assert Run(starts, stops) == Step(before, last, stops);
      forall k | 0 <= k < |before.picks|
        ensures Accepted(before.picks[k], k, starts, stops) && before.picks[k].start < last
      {
        assert Accepted(before.picks[k], k, prefix, stops);
        var m :| 0 <= m < |prefix| && prefix[m] == before.picks[k].start;
        assert starts[m] == prefix[m];
      }
      StepShape(before, last, starts, stops);
    }
  }

  /** The ORFs accepted over the first `i` starts are the first ORFs accepted over all of
      them: a turn of the outer loop only ever appends. */
  lemma {:induction false} RunPrefix(starts: seq<nat>, stops: seq<nat>, i: nat)
    requires i <= |starts|
    ensures Run(starts[..i], stops).picks <= Run(starts, stops).picks
    decreases |starts|
  {
    if i < |starts| {
      var prefix := starts[..|starts| - 1];
      RunPrefix(prefix, stops, i);
      assert prefix[..i] == starts[..i];
      assert Run(starts, stops) == Step(Run(prefix, stops), starts[|starts| - 1], stops);
    } else {
      assert starts[..i] == starts;
    }
  }

  /** The ORFs accepted after the first `i` starts have their start among the later starts. */
  lemma {:induction false} LaterPicks(starts: seq<nat>, stops: seq<nat>, i: nat)
    requires i <= |starts|
    ensures forall k :: |Run(starts[..i], stops).picks| <= k < |Run(starts, stops).picks| ==>
      Run(starts, stops).picks[k].start in starts[i..]
    decreases |starts|
  {
    if i < |starts| {
      var prefix := starts[..|starts| - 1];
      var last := starts[|starts| - 1];
      LaterPicks(prefix, stops, i);
      assert prefix[..i] == starts[..i];
      var before := Run(prefix, stops);
      assert Run(starts, stops) == Step(before, last, stops);
      var lo := |Run(starts[..i], stops).picks|;
      forall k | lo <= k < |Run(starts, stops).picks|
        ensures Run(starts, stops).picks[k].start in starts[i..]
      {
        var x := Run(starts, stops).picks[k].start;
        if k < |before.picks| {
          assert x == before.picks[k].start;
          assert x in prefix[i..];
          var m :| 0 <= m < |prefix[i..]| && prefix[i..][m] == x;
          assert starts[i..][m] == x;
        } else {
          assert x == last;
          assert starts[i..][|starts| - 1 - i] == x;
        }
      }
    } else {
      assert starts[..i] == starts;
    }
  }

  /** The outer loop's acceptance test is an if-and-only-if: the `i`-th start becomes an
      ORF exactly when it lies beyond the cursor left by the starts before it and some
      stop follows it. */
  lemma StartPickedIff(starts: seq<nat>, stops: seq<nat>, i: nat)
    requires Increasing(starts) && i < |starts|
    ensures (exists k :: 0 <= k < |Run(starts, stops).picks| && Run(starts, stops).picks[k].start == starts[i])
      <==> starts[i] > 3 * |Run(starts[..i], stops).picks| && FirstStopAfter(stops, starts[i]).Some?
  {
    var before := Run(starts[..i], stops);
    var after := Run(starts[..i + 1], stops);
    var all := Run(starts, stops).picks;
    RunExtend(starts, stops, i);
    RunShape(starts[..i], stops);
    RunPrefix(starts, stops, i + 1);
    LaterPicks(starts, stops, i + 1);
    assert after.picks[..|after.picks|] == all[..|after.picks|];
    if starts[i] > 3 * |before.picks| && FirstStopAfter(stops, starts[i]).Some? {
      assert after.picks[|before.picks|].start == starts[i];
      assert all[|before.picks|] == after.picks[|before.picks|];
    } else {
      assert after == before;
      forall k | 0 <= k < |all| ensures all[k].start != starts[i] {
        if k < |before.picks| {
          assert all[k] == before.picks[k];
          assert before.picks[k].start <= starts[..i][i - 1];
        } else {
          assert all[k].start in starts[i + 1..];
          var m :| 0 <= m < |starts[i + 1..]| && starts[i + 1..][m] == all[k].start;
          assert all[k].start == starts[i + 1 + m];
        }
      }
    }
  }

  /** Some stop codon position follows `p` exactly when some in-frame stop codon does. */
  lemma StopAfterIff(s: string, frame: nat, p: nat)
    requires frame >= 1
    ensures FirstStopAfter(FindStopCodonPos(s, frame), p).Some?
      <==> exists t :: InFrame(s, frame, t) && Window(s, t) in StopCodons && p < t
  {
    var stops := FindStopCodonPos(s, frame);
    StopCodonPositions(s, frame);
    if FirstStopAfter(stops, p).Some? {
      var t := FirstStopAfter(stops, p).value;
      assert InFrame(s, frame, t) && Window(s, t) in StopCodons && p < t;
    } else {
      forall t | InFrame(s, frame, t) && Window(s, t) in StopCodons ensures t <= p {
        assert t in stops;
      }
    }
  }

  /** For `s` in `frame`: the `i`-th in-frame `ATG` starts an ORF exactly when it lies
      beyond 3 times the number of ORFs accepted over the `ATG`s before it, and some in-frame
      stop codon follows it. */
  lemma OrfStartIff(s: string, frame: nat, i: nat)
    requires frame >= 1 && i < |FindStartCodonPos(s, frame)|
    ensures var starts := FindStartCodonPos(s, frame);
      (exists k :: 0 <= k < |Picks(s, frame)| && Picks(s, frame)[k].start == starts[i])
      <==> (&& starts[i] > 3 * |Run(starts[..i], FindStopCodonPos(s, frame)).picks|
            && exists t :: InFrame(s, frame, t) && Window(s, t) in StopCodons && starts[i] < t)
  {
    var starts := FindStartCodonPos(s, frame);
    var stops := FindStopCodonPos(s, frame);
    assert Increasing(starts) by {
      StartCodonPositions(s, frame);
    }
    assert Picks(s, frame) == Run(starts, stops).picks;
    StartPickedIff(starts, stops, i);
    StopAfterIff(s, frame, starts[i]);
  }

  /** The `k`-th ORF of `s` in `frame`: its start is an in-frame `ATG` beyond the cursor
      `3 * k` (so offset 0 never starts an ORF), and its stop is a later in-frame stop codon. */
  lemma OrfCodons(s: string, frame: nat, k: nat)
    requires frame >= 1 && k < |Picks(s, frame)|
    ensures InFrame(s, frame, Picks(s, frame)[k].start) && Window(s, Picks(s, frame)[k].start) == StartCodon
    ensures InFrame(s, frame, Picks(s, frame)[k].stop) && Window(s, Picks(s, frame)[k].stop) in StopCodons
    ensures Picks(s, frame)[k].start < Picks(s, frame)[k].stop
    ensures Picks(s, frame)[k].start > 3 * k
  {
    var starts := FindStartCodonPos(s, frame);
    var stops := FindStopCodonPos(s, frame);
    StartCodonPositions(s, frame);
    StopCodonPositions(s, frame);
    RunShape(starts, stops);
    var p := Picks(s, frame)[k];
    assert Accepted(p, k, starts, stops);
    assert p.stop in stops;
  }

  /** The stop codon of the `k`-th ORF is the first in-frame stop codon after its start. */
  lemma OrfStopIsLeast(s: string, frame: nat, k: nat)
    requires frame >= 1 && k < |Picks(s, frame)|
    ensures forall t :: InFrame(s, frame, t) && Window(s, t) in StopCodons && Picks(s, frame)[k].start < t ==>
      Picks(s, frame)[k].stop <= t
  {
    var starts := FindStartCodonPos(s, frame);
    var stops := FindStopCodonPos(s, frame);
    StartCodonPositions(s, frame);
    StopCodonPositions(s, frame);
    RunShape(starts, stops);
    var p := Picks(s, frame)[k];
    assert Accepted(p, k, starts, stops);
    FirstStopAfterIsLeast(stops, p.start);
  }

  /** The ORFs come in strictly increasing start order, one per accepted start, and the
      final cursor is 3 times their number. */
  lemma OrfOrder(s: string, frame: nat)
    requires frame >= 1
    ensures |OrfTexts(s, frame)| == |Picks(s, frame)|
    ensures forall k, l :: 0 <= k < l < |Picks(s, frame)| ==> Picks(s, frame)[k].start < Picks(s, frame)[l].start
    ensures Run(FindStartCodonPos(s, frame), FindStopCodonPos(s, frame)).cursor == 3 * |OrfTexts(s, frame)|
  {
    StartCodonPositions(s, frame);
    RunShape(FindStartCodonPos(s, frame), FindStopCodonPos(s, frame));
  }

  /** The `k`-th text cut from `s[d:]` is the slice of `s` moved `d` places right. */
  lemma TextAt(s: string, d: nat, picks: seq<Pick>, k: nat)
    requires k < |picks|
    ensures k < |Texts(PySliceFrom(s, d), picks)|
    ensures Texts(PySliceFrom(s, d), picks)[k] == PySlice(PySliceFrom(s, d), picks[k].start, picks[k].stop + 3)
    ensures Texts(PySliceFrom(s, d), picks)[k] == PySlice(s, d + picks[k].start, d + picks[k].stop + 3)
  {
    TextsIndex(PySliceFrom(s, d), picks, k);
    SliceOfSuffix(s, d, picks[k].start, picks[k].stop + 3);
    assert d + (picks[k].stop + 3) == d + picks[k].stop + 3;
  }

  /** The `k`-th ORF text is `seq[frame - 1:][start:stop + 3]`. Quirk of the source: the
      offsets are computed on `seq` but applied to `seq[frame - 1:]`, so the text is the
      slice of `seq` that begins `frame - 1` bases after the start codon. */
  lemma OrfTextIsShifted(s: string, frame: nat, k: nat)
    requires frame >= 1 && k < |Picks(s, frame)|
    ensures k < |OrfTexts(s, frame)|
    ensures OrfTexts(s, frame)[k] == PySlice(Shifted(s, frame), Picks(s, frame)[k].start, Picks(s, frame)[k].stop + 3)
    ensures OrfTexts(s, frame)[k] == PySlice(s, frame - 1 + Picks(s, frame)[k].start, frame - 1 + Picks(s, frame)[k].stop + 3)
  {
    OrfTextAt(s, frame, k);
    var picks := Picks(s, frame);
    assert OrfTexts(s, frame)[k] == PySlice(Shifted(s, frame), picks[k].start, picks[k].stop + 3) by {
      TextsIndex(Shifted(s, frame), picks, k);
    }
  }

  /** The stop of the `k`-th ORF lies a positive whole number of codons after its start. */
  lemma OrfSpan(s: string, frame: nat, k: nat)
    requires frame >= 1 && k < |Picks(s, frame)|
    ensures Picks(s, frame)[k].start < Picks(s, frame)[k].stop
    ensures (Picks(s, frame)[k].stop - Picks(s, frame)[k].start) % 3 == 0
  {
    var p := Picks(s, frame)[k];
    OrfCodons(s, frame, k);
    assert p.stop - p.start == (p.stop - (frame - 1)) - (p.start - (frame - 1));
  }

  /** The `k`-th ORF text as a slice of `seq` itself. */
  lemma OrfTextAt(s: string, frame: nat, k: nat)
    requires frame >= 1 && k < |Picks(s, frame)|
    ensures k < |OrfTexts(s, frame)|
    ensures OrfTexts(s, frame)[k] == PySlice(s, frame - 1 + Picks(s, frame)[k].start, frame - 1 + Picks(s, frame)[k].stop + 3)
  {
    var picks := Picks(s, frame);
    assert OrfTexts(s, frame) == Texts(PySliceFrom(s, frame - 1), picks);
    TextAt(s, frame - 1, picks, k);
  }

  /** A slice from an aligned `ATG` through a later aligned stop codon starts with `ATG`,
      ends with that stop codon, and has a length that is a multiple of 3 and at least 6. */
  lemma CodonSpanShape(s: string, start: nat, stop: nat)
    requires Window(s, start) == StartCodon && Window(s, stop) in StopCodons
    requires start < stop && start % 3 == stop % 3
    ensures var orf := PySlice(s, start, stop + 3);
      && |orf| % 3 == 0 && |orf| >= 6
      && orf[..3] == StartCodon && orf[|orf| - 3..] in StopCodons
  {
    FullWindow(s, start, StartCodon);
    FullWindow(s, stop, Window(s, stop));
    var orf := PySlice(s, start, stop + 3);
    assert orf == s[start..stop + 3];
    assert orf[..3] == s[start..start + 3];
    assert orf[|orf| - 3..] == s[stop..stop + 3];
  }

  /** In frame 1 the `k`-th ORF starts with `ATG`, ends with a stop codon, and its length
      is a multiple of 3 and at least 6. */
  lemma Frame1OrfAt(s: string, k: nat)
    requires k < |OrfTexts(s, 1)|
    ensures var orf := OrfTexts(s, 1)[k];
      && |orf| % 3 == 0 && |orf| >= 6
      && orf[..3] == StartCodon && orf[|orf| - 3..] in StopCodons
  {
    OrfOrder(s, 1);
    OrfCodons(s, 1, k);
    OrfTextIsShifted(s, 1, k);
    var p := Picks(s, 1)[k];
    CodonSpanShape(s, p.start, p.stop);
  }

  /** Every ORF found in frame 1 has that shape. */
  lemma Frame1OrfShape(s: string, orf: string)
    requires orf in OrfTexts(s, 1)
    ensures |orf| % 3 == 0 && |orf| >= 6
    ensures orf[..3] == StartCodon && orf[|orf| - 3..] in StopCodons
  {
    var k :| 0 <= k < |OrfTexts(s, 1)| && OrfTexts(s, 1)[k] == orf;
    Frame1OrfAt(s, k);
  }

  /** A slice of `s` from `d` past an aligned start through `d` past the end of a later
      aligned stop, not clipped at the end of `s`, is a whole number of codons, at least 2. */
  lemma ShiftedSpanLength(s: string, d: nat, start: nat, stop: nat)
    requires start < stop && (stop - start) % 3 == 0 && d + stop + 3 <= |s|
    ensures |PySlice(s, d + start, d + stop + 3)| == stop + 3 - start
    ensures |PySlice(s, d + start, d + stop + 3)| % 3 == 0 && |PySlice(s, d + start, d + stop + 3)| >= 6
  {
  }

  /** A slice of `s` that begins 1 or 2 bases after an `ATG` does not begin with `ATG`. */
  lemma ShiftedStartIsNotStartCodon(s: string, d: nat, start: nat, j: nat)
    requires d == 1 || d == 2
    requires Window(s, start) == StartCodon
    ensures var t := PySlice(s, d + start, j); |t| < 3 || t[..3] != StartCodon
  {
    FullWindow(s, start, StartCodon);
    assert s[start + 1] == 'T' && s[start + 2] == 'G' by {
      assert s[start..start + 3][1] == s[start + 1] && s[start..start + 3][2] == s[start + 2];
    }
    var t := PySlice(s, d + start, j);
    if |t| >= 3 {
      assert t[0] == s[d + start];
      assert t[..3][0] != 'A';
    }
  }

  /** In any frame, an ORF whose slice is not clipped at the end of `seq` is a whole
      number of codons, at least 2: the length of `seq[frame - 1:][start:stop + 3]` is
      `stop + 3 - start` unless the end of the string cuts it short. */
  lemma AnyFrameUnclipped(s: string, frame: nat, k: nat)
    requires frame >= 1 && k < |Picks(s, frame)|
    requires frame - 1 + Picks(s, frame)[k].stop + 3 <= |s|
    ensures k < |OrfTexts(s, frame)|
    ensures |OrfTexts(s, frame)[k]| == Picks(s, frame)[k].stop + 3 - Picks(s, frame)[k].start
    ensures |OrfTexts(s, frame)[k]| % 3 == 0 && |OrfTexts(s, frame)[k]| >= 6
  {
    var p := Picks(s, frame)[k];
    OrfSpan(s, frame, k);
    OrfTextAt(s, frame, k);
    ShiftedSpanLength(s, frame - 1, p.start, p.stop);
  }

  /** In frames 2 and 3 no ORF begins with `ATG`: its text begins 1 or 2 bases after the
      start codon, at a `T` or a `G`. */
  lemma ShiftedFrameSkipsStartCodon(s: string, frame: nat, k: nat)
    requires (frame == 2 || frame == 3) && k < |Picks(s, frame)|
    ensures k < |OrfTexts(s, frame)|
    ensures |OrfTexts(s, frame)[k]| < 3 || OrfTexts(s, frame)[k][..3] != StartCodon
  {
    var p := Picks(s, frame)[k];
    assert Window(s, p.start) == StartCodon by {
      OrfCodons(s, frame, k);
    }
    OrfTextAt(s, frame, k);
    ShiftedStartIsNotStartCodon(s, frame - 1, p.start, frame - 1 + p.stop + 3);
  }

  /** A frame-2 ORF whose length is not a multiple of 3: the only in-frame `ATG` is at
      offset 1 and the only in-frame stop at offset 4. The text is cut from `seq[1:]`, which
      is 6 long, as `[1:7]`; the upper bound is clipped to 6, so the text loses its last
      base. Unclipped, the length would be `4 + 3 - 1 == 6`. */
  lemma Frame2Example()
    ensures OrfTexts("CATGTAG", 2) == ["TGTAG"]
    ensures |OrfTexts("CATGTAG", 2)[0]| % 3 != 0
  {
    var s := "CATGTAG";
    Frame2ExampleCodons();
    assert Run([1], [4]) == Scan([Pick(1, 4)], 3) by {
      assert [1][..0] == [];
    }
    assert Picks(s, 2) == [Pick(1, 4)];
    assert Shifted(s, 2) == "ATGTAG" by {
      assert Shifted(s, 2) == s[1..];
    }
    assert PySlice("ATGTAG", 1, 7) == "TGTAG" by {
      assert PySlice("ATGTAG", 1, 7) == "ATGTAG"[1..6];
    }
    assert Texts("ATGTAG", [Pick(1, 4)]) == ["TGTAG"] by {
      assert [Pick(1, 4)][..0] == [];
    }
  }

  /** In frame 2 of `CATGTAG` the only `ATG` is at 1 and the only stop codon at 4. */
  lemma Frame2ExampleCodons()
    ensures FindStartCodonPos("CATGTAG", 2) == [1]
    ensures FindStopCodonPos("CATGTAG", 2) == [4]
  {
    var s := "CATGTAG";
    assert Window(s, 1) == StartCodon by { assert Window(s, 1) == s[1..4]; }
    assert Window(s, 4) == StopCodons[1] by { assert Window(s, 4) == s[4..7]; }
    assert Window(s, 1) !in StopCodons by {
      assert forall c :: c in StopCodons ==> c[0] == 'T';
    }
    assert Window(s, 4) != StartCodon by {
      assert Window(s, 4)[0] == 'T';
    }
    assert ScanFrom(s, 7, [StartCodon]) == [] && ScanFrom(s, 7, StopCodons) == [];
    assert ScanFrom(s, 4, [StartCodon]) == [] && ScanFrom(s, 4, StopCodons) == [4];
    assert ScanFrom(s, 1, [StartCodon]) == [1] && ScanFrom(s, 1, StopCodons) == [4];
  }

  /** The in-frame windows of `ATGCCCTAAATGAAATAG`. */
  lemma CursorExampleWindows()
    ensures var s := "ATGCCCTAAATGAAATAG";
      && Window(s, 0) == StartCodon && Window(s, 9) == StartCodon
      && Window(s, 6) == StopCodons[0] && Window(s, 15) == StopCodons[1]
      && Window(s, 3)[0] == 'C' && Window(s, 12)[0] == 'A' && Window(s, 12)[1] == 'A'
  {
    var s := "ATGCCCTAAATGAAATAG";
    assert Window(s, 0) == s[0..3] && Window(s, 9) == s[9..12];
    assert Window(s, 6) == s[6..9] && Window(s, 15) == s[15..18];
    assert Window(s, 3) == s[3..6] && Window(s, 12) == s[12..15];
  }

  /** The in-frame `ATG`s of `ATGCCCTAAATGAAATAG` are at 0 and 9. */
  lemma CursorExampleStarts()
    ensures FindStartCodonPos("ATGCCCTAAATGAAATAG", 1) == [0, 9]
  {
    var s := "ATGCCCTAAATGAAATAG";
    CursorExampleWindows();
    assert Window(s, 6) != StartCodon by { assert Window(s, 6)[0] != StartCodon[0]; }
    assert Window(s, 15) != StartCodon by { assert Window(s, 15)[0] != StartCodon[0]; }
    assert Window(s, 3) != StartCodon by { assert Window(s, 3)[0] != StartCodon[0]; }
    assert Window(s, 12) != StartCodon by { assert Window(s, 12)[1] != StartCodon[1]; }
    assert ScanFrom(s, 18, [StartCodon]) == [];
    assert ScanFrom(s, 15, [StartCodon]) == [];
    assert ScanFrom(s, 12, [StartCodon]) == [];
    assert ScanFrom(s, 9, [StartCodon]) == [9];
    assert ScanFrom(s, 6, [StartCodon]) == [9];
    assert ScanFrom(s, 3, [StartCodon]) == [9];
    assert ScanFrom(s, 0, [StartCodon]) == [0, 9];
  }

  /** The in-frame stop codons of `ATGCCCTAAATGAAATAG` are at 6 and 15. */
  lemma CursorExampleStops()
    ensures FindStopCodonPos("ATGCCCTAAATGAAATAG", 1) == [6, 15]
  {
    var s := "ATGCCCTAAATGAAATAG";
    CursorExampleWindows();
    assert forall c :: c in StopCodons ==> c[0] == 'T';
    assert Window(s, 0) !in StopCodons by { assert Window(s, 0)[0] == 'A'; }
    assert Window(s, 9) !in StopCodons by { assert Window(s, 9)[0] == 'A'; }
    assert Window(s, 3) !in StopCodons;
    assert Window(s, 12) !in StopCodons;
    assert ScanFrom(s, 18, StopCodons) == [];
    assert ScanFrom(s, 15, StopCodons) == [15];
    assert ScanFrom(s, 12, StopCodons) == [15];
    assert ScanFrom(s, 9, StopCodons) == [15];
    assert ScanFrom(s, 6, StopCodons) == [6, 15];
    assert ScanFrom(s, 3, StopCodons) == [6, 15];
    assert ScanFrom(s, 0, StopCodons) == [6, 15];
  }

  /** The start at offset 0 is not beyond the cursor 0 and is skipped; the start at 9
      takes the stop at 15. */
  lemma CursorExampleRun()
    ensures Run([0, 9], [6, 15]) == Scan([Pick(9, 15)], 3)
  {
    assert [0, 9][..1] == [0] && [0][..0] == [];
    assert Run([0], [6, 15]) == Scan([], 0);
    assert FirstStopAfter([6, 15], 9) == Some(15);
  }

  /** `orfs("ATGCCCTAAATGAAATAG", 1)`: the `ATG` at offset 0 never starts an ORF, since
      the cursor starts at 0 and the test is strict. */
  lemma CursorExample()
    ensures OrfTexts("ATGCCCTAAATGAAATAG", 1) == ["ATGAAATAG"]
  {
    var s := "ATGCCCTAAATGAAATAG";
    CursorExampleStarts();
    CursorExampleStops();
    CursorExampleRun();
    assert Picks(s, 1) == [Pick(9, 15)];
    assert Shifted(s, 1) == s;
    assert PySlice(s, 9, 18) == "ATGAAATAG";
    assert Texts(s, [Pick(9, 15)]) == ["ATGAAATAG"] by {
      assert [Pick(9, 15)][..0] == [];
    }
  }
}
