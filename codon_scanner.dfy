/** Frame-aligned codon positions (`find_start_codon_pos`, `find_stop_codon_pos`). */
module CodonScanner {
  import opened PyText

  const StartCodon: string := "ATG"
  const StopCodons: seq<string> := ["TAA", "TAG", "TGA"]

  /** `seq[i:i + 3]`: the codon-sized window at offset `i`, clipped at the end. */
  function Window(s: string, i: nat): string {
    PySlice(s, i, i + 3)
  }

  /** Offset `p` is visited by `range(frame - 1, len(seq), 3)`. */
  predicate InFrame(s: string, frame: nat, p: int) {
    frame - 1 <= p < |s| && (p - (frame - 1)) % 3 == 0
  }

  /** The offsets `i, i + 3, ...` below `|s|` whose window is one of `codons`. */
  function ScanFrom(s: string, i: nat, codons: seq<string>): seq<nat>
    decreases |s| - i
  {
    if i >= |s| then []
    else if Window(s, i) in codons then [i] + ScanFrom(s, i + 3, codons)
    else ScanFrom(s, i + 3, codons)
  }

  /** Alignment with `i + 3` is alignment with `i`. */
  lemma AlignedStep(i: int, p: int)
    requires (p - (i + 3)) % 3 == 0
    ensures (p - i) % 3 == 0
  {
    assert p - i == (p - (i + 3)) + 3;
  }

  /** Only aligned offsets whose window matches are found. */
  lemma {:induction false} ScanFromMembers(s: string, i: nat, codons: seq<string>)
    ensures forall p :: p in ScanFrom(s, i, codons) ==>
      i <= p < |s| && (p - i) % 3 == 0 && Window(s, p) in codons
    decreases |s| - i
  {
    if i < |s| {
      ScanFromMembers(s, i + 3, codons);
      var rest := ScanFrom(s, i + 3, codons);
      var r := ScanFrom(s, i, codons);
      assert r == if Window(s, i) in codons then [i] + rest else rest;
      forall p | p in r ensures i <= p < |s| && (p - i) % 3 == 0 && Window(s, p) in codons {
        if p in rest {
          AlignedStep(i, p);
        }
      }
    }
  }

  /** The offsets found come in increasing order. */
  lemma {:induction false} ScanFromIncreasing(s: string, i: nat, codons: seq<string>)
    ensures Increasing(ScanFrom(s, i, codons))
    decreases |s| - i
  {
    if i < |s| && Window(s, i) in codons {
      ScanFromIncreasing(s, i + 3, codons);
      ScanFromMembers(s, i + 3, codons);
      var rest := ScanFrom(s, i + 3, codons);
      var r := ScanFrom(s, i, codons);
      assert r == [i] + rest;
      forall k, l | 0 <= k < l < |r| ensures r[k] < r[l] {
        assert r[l] == rest[l - 1] && rest[l - 1] in rest;
        if k > 0 {
          assert r[k] == rest[k - 1];
        }
      }
    } else if i < |s| {
      ScanFromIncreasing(s, i + 3, codons);
    }
  }

  /** Only aligned offsets whose window matches are found, in increasing order. */
  lemma ScanFromSound(s: string, i: nat, codons: seq<string>)
    ensures var r := ScanFrom(s, i, codons);
      && (forall k :: 0 <= k < |r| ==> i <= r[k] < |s| && (r[k] - i) % 3 == 0 && Window(s, r[k]) in codons)
      && Increasing(r)
  {
    ScanFromMembers(s, i, codons);
    ScanFromIncreasing(s, i, codons);
    var r := ScanFrom(s, i, codons);
    forall k | 0 <= k < |r|
      ensures i <= r[k] < |s| && (r[k] - i) % 3 == 0 && Window(s, r[k]) in codons
    {
      assert r[k] in r;
    }
  }

  /** Every aligned offset whose window matches is found. */
  lemma {:induction false} ScanFromComplete(s: string, i: nat, codons: seq<string>, p: int)
    requires i <= p < |s| && (p - i) % 3 == 0 && Window(s, p) in codons
    ensures p in ScanFrom(s, i, codons)
    decreases |s| - i
  {
    if p != i {
      ScanFromComplete(s, i + 3, codons, p);
    }
  }

  /** A window equal to a three-letter codon is a full, unclipped slice. */
  lemma FullWindow(s: string, p: nat, c: string)
    requires |c| == 3 && Window(s, p) == c
    ensures p + 3 <= |s| && s[p..p + 3] == c
  {
  }

  /** Exactly the aligned offsets from `i` on whose window matches. */
  lemma ScanFromExact(s: string, i: nat, codons: seq<string>)
    ensures forall p: int :: p in ScanFrom(s, i, codons) <==> i <= p < |s| && (p - i) % 3 == 0 && Window(s, p) in codons
  {
    ScanFromSound(s, i, codons);
    forall p: int | i <= p < |s| && (p - i) % 3 == 0 && Window(s, p) in codons
      ensures p in ScanFrom(s, i, codons)
    {
      ScanFromComplete(s, i, codons, p);
    }
  }

  /** Matches of three-letter codons are full, unclipped slices. */
  lemma ScanFromFull(s: string, i: nat, codons: seq<string>)
    requires forall c :: c in codons ==> |c| == 3
    ensures forall p :: p in ScanFrom(s, i, codons) ==> p + 3 <= |s| && s[p..p + 3] in codons
  {
    ScanFromSound(s, i, codons);
    forall p | p in ScanFrom(s, i, codons)
      ensures p + 3 <= |s| && s[p..p + 3] in codons
    {
      FullWindow(s, p, Window(s, p));
    }
  }

  /** `find_start_codon_pos(seq, frame)`. */
  function FindStartCodonPos(s: string, frame: nat): seq<nat>
    requires frame >= 1
  {
    ScanFrom(s, frame - 1, [StartCodon])
  }

  /** `find_stop_codon_pos(seq, frame)`. */
  function FindStopCodonPos(s: string, frame: nat): seq<nat>
    requires frame >= 1
  {
    ScanFrom(s, frame - 1, StopCodons)
  }

  /** Scanning from `frame - 1` finds, in increasing order, exactly the in-frame offsets
      whose window is one of `codons`. */
  lemma ScanFromInFrame(s: string, frame: nat, codons: seq<string>)
    requires frame >= 1
    ensures forall p: int :: p in ScanFrom(s, frame - 1, codons) <==> InFrame(s, frame, p) && Window(s, p) in codons
    ensures Increasing(ScanFrom(s, frame - 1, codons))
  {
    ScanFromSound(s, frame - 1, codons);
    ScanFromExact(s, frame - 1, codons);
  }

  /** `find_start_codon_pos` returns, in increasing order, exactly the in-frame offsets
      whose window is `ATG`. */
  lemma StartCodonPositions(s: string, frame: nat)
    requires frame >= 1
    ensures forall p: int :: p in FindStartCodonPos(s, frame) <==> InFrame(s, frame, p) && Window(s, p) == StartCodon
    ensures Increasing(FindStartCodonPos(s, frame))
  {
    var r := FindStartCodonPos(s, frame);
    ScanFromInFrame(s, frame, [StartCodon]);
    forall p: int ensures p in r <==> InFrame(s, frame, p) && Window(s, p) == StartCodon {
      if p >= 0 {
        assert Window(s, p) in [StartCodon] <==> Window(s, p) == StartCodon;
      }
    }
  }

  /** `find_stop_codon_pos` returns, in increasing order, exactly the in-frame offsets
      whose window is `TAA`, `TAG` or `TGA`. */
  lemma StopCodonPositions(s: string, frame: nat)
    requires frame >= 1
    ensures forall p: int :: p in FindStopCodonPos(s, frame) <==> InFrame(s, frame, p) && Window(s, p) in StopCodons
    ensures Increasing(FindStopCodonPos(s, frame))
  {
    assert FindStopCodonPos(s, frame) == ScanFrom(s, frame - 1, StopCodons);
    ScanFromInFrame(s, frame, StopCodons);
  }

  /** A found start codon is a full three-letter window: a clipped window never matches. */
  lemma StartCodonsAreFull(s: string, frame: nat, p: nat)
    requires frame >= 1 && p in FindStartCodonPos(s, frame)
    ensures p + 3 <= |s| && s[p..p + 3] == StartCodon
  {
    StartCodonPositions(s, frame);
    FullWindow(s, p, StartCodon);
  }

  /** A found stop codon is a full three-letter window: a clipped window never matches. */
  lemma StopCodonsAreFull(s: string, frame: nat, p: nat)
    requires frame >= 1 && p in FindStopCodonPos(s, frame)
    ensures p + 3 <= |s| && s[p..p + 3] in StopCodons
  {
    StopCodonPositions(s, frame);
    FullWindow(s, p, Window(s, p));
  }
}
