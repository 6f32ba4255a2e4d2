/** Ranking of ORFs: `len_orfs`, `longest_ORF_in_seq`, `longest_ORF` and
    `ORF_start_position`, under Python's order on `(int, str)` tuples. */
module OrfRanker {
  import opened Wrappers
  import opened PyText
  import opened OrfExtractor

  /** The tuple `(len(s), s)` that `len_orfs` builds for each ORF. */
  datatype Ranked = Ranked(length: nat, text: string)

  /** Python's `<` on `(int, str)` tuples: by length, then by text. */
  predicate RankedLt(a: Ranked, b: Ranked) {
    a.length < b.length || (a.length == b.length && StrLt(a.text, b.text))
  }

  lemma RankedLtIrreflexive(a: Ranked)
    ensures !RankedLt(a, a)
  {
    StrLtIrreflexive(a.text);
  }

  lemma RankedLtTransitive(a: Ranked, b: Ranked, c: Ranked)
    requires RankedLt(a, b) && RankedLt(b, c)
    ensures RankedLt(a, c)
  {
    if a.length == b.length == c.length {
      StrLtTransitive(a.text, b.text, c.text);
    }
  }

  lemma RankedLtTotal(a: Ranked, b: Ranked)
    requires a != b
    ensures RankedLt(a, b) || RankedLt(b, a)
  {
    if a.length == b.length {
      StrLtTotal(a.text, b.text);
    }
  }

  lemma RankedLtAsymmetric(a: Ranked, b: Ranked)
    requires RankedLt(a, b)
    ensures !RankedLt(b, a)
  {
    if RankedLt(b, a) {
      RankedLtTransitive(a, b, a);
      RankedLtIrreflexive(a);
    }
  }

  /** `[(len(s), s) for s in seq_orfs]`. */
  function RankedOf(orfs: seq<string>): seq<Ranked> {
    seq(|orfs|, i requires 0 <= i < |orfs| => Ranked(|orfs[i]|, orfs[i]))
  }

  /** Every pair holds the length of its own text, and every text is one of the ORFs. */
  lemma RankedOfPairs(orfs: seq<string>, x: Ranked)
    requires x in multiset(RankedOf(orfs))
    ensures x.length == |x.text| && x.text in orfs
  {
    var i :| 0 <= i < |RankedOf(orfs)| && RankedOf(orfs)[i] == x;
  }

  /** Ascending order: no later element is below an earlier one. */
  predicate Sorted(xs: seq<Ranked>) {
    forall i, j :: 0 <= i < j < |xs| ==> !RankedLt(xs[j], xs[i])
  }

  /** Insertion of `x` into an ascending list. */
  function Insert(x: Ranked, xs: seq<Ranked>): seq<Ranked> {
    if xs == [] then [x]
    else if RankedLt(xs[0], x) then [xs[0]] + Insert(x, xs[1..])
    else [x] + xs
  }

  /** Python's `sorted` on a list of `(int, str)` tuples. */
  function Sort(xs: seq<Ranked>): seq<Ranked> {
    if xs == [] then [] else Insert(xs[0], Sort(xs[1..]))
  }

  lemma {:induction false} InsertPermutes(x: Ranked, xs: seq<Ranked>)
    ensures multiset(Insert(x, xs)) == multiset(xs) + multiset{x}
  {
    if xs != [] && RankedLt(xs[0], x) {
      InsertPermutes(x, xs[1..]);
      assert xs == [xs[0]] + xs[1..];
    }
  }

  /** An ascending list stays ascending under a head that no element is below. */
  lemma ConsSorted(a: Ranked, tail: seq<Ranked>)
    requires Sorted(tail)
    requires forall j :: 0 <= j < |tail| ==> !RankedLt(tail[j], a)
    ensures Sorted([a] + tail)
  {
    var xs := [a] + tail;
    forall i, j | 0 <= i < j < |xs| ensures !RankedLt(xs[j], xs[i]) {
      assert xs[j] == tail[j - 1];
      if i > 0 {
        assert xs[i] == tail[i - 1];
      }
    }
  }

  /** No element of an ascending list is below an `x` that its head is not below. */
  lemma HeadBound(x: Ranked, xs: seq<Ranked>)
    requires Sorted(xs) && xs != [] && !RankedLt(xs[0], x)
    ensures forall j :: 0 <= j < |xs| ==> !RankedLt(xs[j], x)
  {
    forall j | 0 < j < |xs| ensures !RankedLt(xs[j], x) {
      if RankedLt(xs[j], x) {
        if xs[j] != xs[0] {
          RankedLtTotal(xs[0], xs[j]);
          RankedLtTransitive(xs[0], xs[j], x);
        }
      }
    }
  }

  lemma {:induction false} InsertSorted(x: Ranked, xs: seq<Ranked>)
    requires Sorted(xs)
    ensures Sorted(Insert(x, xs))
  {
    if xs == [] {
    } else if RankedLt(xs[0], x) {
      var tail := Insert(x, xs[1..]);
      InsertSorted(x, xs[1..]);
      InsertPermutes(x, xs[1..]);
      forall j | 0 <= j < |tail| ensures !RankedLt(tail[j], xs[0]) {
        assert tail[j] in multiset(tail);
        if tail[j] == x {
          RankedLtAsymmetric(xs[0], x);
        } else {
          assert tail[j] in multiset(xs[1..]);
          var m :| 0 <= m < |xs[1..]| && xs[1..][m] == tail[j];
          assert xs[m + 1] == tail[j];
        }
      }
      ConsSorted(xs[0], tail);
    } else {
      HeadBound(x, xs);
      ConsSorted(x, xs);
    }
  }

  /** `Sort` returns an ascending list ... */
  lemma {:induction false} SortSorted(xs: seq<Ranked>)
    ensures Sorted(Sort(xs))
  {
    if xs != [] {
      SortSorted(xs[1..]);
      InsertSorted(xs[0], Sort(xs[1..]));
    }
  }

  /** ... holding the same tuples, each as often as before. */
  lemma {:induction false} SortPermutes(xs: seq<Ranked>)
    ensures multiset(Sort(xs)) == multiset(xs)
  {
    if xs != [] {
      SortPermutes(xs[1..]);
      InsertPermutes(xs[0], Sort(xs[1..]));
      assert xs == [xs[0]] + xs[1..];
    }
  }

  /** The head of an ascending list is below none of its elements. */
  lemma SortedHeadIsLeast(xs: seq<Ranked>, y: Ranked)
    requires Sorted(xs) && y in xs
    ensures !RankedLt(y, xs[0])
  {
    var i :| 0 <= i < |xs| && xs[i] == y;
    if i == 0 { RankedLtIrreflexive(y); }
  }

  lemma SortedTail(xs: seq<Ranked>)
    requires Sorted(xs) && xs != []
    ensures Sorted(xs[1..])
  {
    forall i, j | 0 <= i < j < |xs[1..]| ensures !RankedLt(xs[1..][j], xs[1..][i]) {
      assert xs[1..][j] == xs[j + 1] && xs[1..][i] == xs[i + 1];
    }
  }

  /** Two ascending lists with the same elements are equal, so `Sort` is the only
      possible result of sorting. */
  lemma {:induction false} SortedUnique(xs: seq<Ranked>, ys: seq<Ranked>)
    requires Sorted(xs) && Sorted(ys) && multiset(xs) == multiset(ys)
    ensures xs == ys
    decreases |xs|
  {
    assert |xs| == |multiset(xs)| == |ys|;
    if xs != [] {
      assert xs[0] in multiset(ys) && ys[0] in multiset(xs);
      SortedHeadIsLeast(ys, xs[0]);
      SortedHeadIsLeast(xs, ys[0]);
      if xs[0] != ys[0] {
        RankedLtTotal(xs[0], ys[0]);
      }
      assert xs[0] == ys[0];
      assert multiset(xs) == multiset{xs[0]} + multiset(xs[1..]) by { assert xs == [xs[0]] + xs[1..]; }
      assert multiset(ys) == multiset{ys[0]} + multiset(ys[1..]) by { assert ys == [ys[0]] + ys[1..]; }
      assert multiset(xs[1..]) == multiset(xs) - multiset{xs[0]} == multiset(ys[1..]);
      SortedTail(xs);
      SortedTail(ys);
      SortedUnique(xs[1..], ys[1..]);
    }
  }

  /** Python's `max` on a non-empty list of tuples: a left fold that replaces the running
      maximum only by a strictly greater element. `MaxCandidate` is the same fold over
      candidates; the two differ only in their order, `RankedLt` or `CandidateLt`. */
  function MaxRanked(xs: seq<Ranked>): (r: Ranked)
    requires xs != []
    ensures r in xs
    ensures forall y :: y in xs ==> !RankedLt(r, y)
  {
    if |xs| == 1 then RankedLtIrreflexive(xs[0]); xs[0]
    else
      var m := MaxRanked(xs[..|xs| - 1]);
      var last := xs[|xs| - 1];
      assert forall y :: y in xs ==> y in xs[..|xs| - 1] || y == last;
      if RankedLt(m, last) then
        assert forall y :: y in xs[..|xs| - 1] ==> !RankedLt(last, y) by {
          forall y | y in xs[..|xs| - 1] ensures !RankedLt(last, y) {
            if RankedLt(last, y) { RankedLtTransitive(m, last, y); }
          }
        }
        RankedLtIrreflexive(last);
        last
      else
        RankedLtIrreflexive(m);
        m
  }

  /** The greatest element of a list is unique. */
  lemma MaxUnique(xs: seq<Ranked>, a: Ranked, b: Ranked)
    requires a in xs && b in xs
    requires forall y :: y in xs ==> !RankedLt(a, y)
    requires forall y :: y in xs ==> !RankedLt(b, y)
    ensures a == b
  {
    if a != b { RankedLtTotal(a, b); }
  }

  /** The maximum of an ascending list is its last element. */
  lemma SortedMaxIsLast(xs: seq<Ranked>)
    requires xs != [] && Sorted(xs)
    ensures MaxRanked(xs) == xs[|xs| - 1]
  {
    var last := xs[|xs| - 1];
    forall y | y in xs ensures !RankedLt(last, y) {
      var i :| 0 <= i < |xs| && xs[i] == y;
      if i < |xs| - 1 {
      } else {
        RankedLtIrreflexive(last);
      }
    }
    MaxUnique(xs, MaxRanked(xs), last);
  }

  /** The body of `len_orfs` once `orfs` has run: `None` for no ORF, otherwise the
      sorted tuples. */
  function SortedPairs(orfs: seq<string>): Option<seq<Ranked>> {
    if orfs == [] then None else Some(Sort(RankedOf(orfs)))
  }

  /** `len_orfs(seq, frame)`. */
  function LenOrfs(s: string, frame: nat): Option<seq<Ranked>>
    requires frame >= 1
  {
    SortedPairs(OrfTexts(s, frame))
  }

  /** `SortedPairs` is `None` exactly for no ORF; otherwise it is ascending, holds one
      `(len(s), s)` tuple per ORF, and is the only list that does. */
  lemma SortedPairsSpec(orfs: seq<string>)
    ensures SortedPairs(orfs).None? <==> orfs == []
    ensures SortedPairs(orfs).Some? ==>
      var v := SortedPairs(orfs).value;
      && Sorted(v)
      && multiset(v) == multiset(RankedOf(orfs))
      && (forall x :: x in v ==> x.length == |x.text| && x.text in orfs)
      && (forall w :: Sorted(w) && multiset(w) == multiset(RankedOf(orfs)) ==> w == v)
  {
    var v := Sort(RankedOf(orfs));
    SortSorted(RankedOf(orfs));
    SortPermutes(RankedOf(orfs));
    forall x | x in v ensures x.length == |x.text| && x.text in orfs {
      assert x in multiset(v);
      RankedOfPairs(orfs, x);
    }
    forall w | Sorted(w) && multiset(w) == multiset(RankedOf(orfs)) ensures w == v {
      SortedUnique(w, v);
    }
  }

  /** The same, for the ORFs of `s` in `frame`. */
  lemma LenOrfsSpec(s: string, frame: nat)
    requires frame >= 1
    ensures LenOrfs(s, frame).None? <==> OrfTexts(s, frame) == []
    ensures LenOrfs(s, frame).Some? ==>
      var v := LenOrfs(s, frame).value;
      && Sorted(v)
      && multiset(v) == multiset(RankedOf(OrfTexts(s, frame)))
      && (forall x :: x in v ==> x.length == |x.text| && x.text in OrfTexts(s, frame))
      && (forall w :: Sorted(w) && multiset(w) == multiset(RankedOf(OrfTexts(s, frame))) ==> w == v)
  {
    var orfs := OrfTexts(s, frame);
    assert LenOrfs(s, frame) == SortedPairs(orfs);
    SortedPairsSpec(orfs);
  }

  /** `max(seq_orfs)` on the sorted tuples. */
  function BestOf(orfs: seq<string>): Ranked
    requires SortedPairs(orfs).Some?
  {
    MaxRanked(SortedPairs(orfs).value)
  }

  /** `max(len_orfs(seq, frame))`: the greatest tuple of a sequence with an ORF. */
  function Best(s: string, frame: nat): Ranked
    requires frame >= 1 && LenOrfs(s, frame).Some?
  {
    BestOf(OrfTexts(s, frame))
  }

  /** `b` is the tuple of an ORF of `orfs`, no ORF is longer, and none of equal length is
      greater as text. */
  predicate IsLongestOf(b: Ranked, orfs: seq<string>) {
    && b.text in orfs && b.length == |b.text|
    && forall o :: o in orfs ==> |o| <= b.length && (|o| == b.length ==> !StrLt(b.text, o))
  }

  /** The greatest tuple is the last of the sorted list and is the longest ORF. */
  lemma BestOfIsLongest(orfs: seq<string>)
    requires SortedPairs(orfs).Some?
    ensures var v := SortedPairs(orfs).value;
      BestOf(orfs) == v[|v| - 1] && IsLongestOf(BestOf(orfs), orfs)
  {
    var v := SortedPairs(orfs).value;
    SortedPairsSpec(orfs);
    SortedMaxIsLast(v);
    var b := MaxRanked(v);
    forall o | o in orfs ensures |o| <= b.length && (|o| == b.length ==> !StrLt(b.text, o)) {
      var i :| 0 <= i < |orfs| && orfs[i] == o;
      assert RankedOf(orfs)[i] == Ranked(|o|, o);
      assert Ranked(|o|, o) in multiset(v);
      assert !RankedLt(b, Ranked(|o|, o));
    }
  }

  /** `longest_ORF_in_seq(d, id, frame)`: `KeyError` for an unknown id, `None` when the
      sequence has no ORF, otherwise the length of its greatest tuple. */
  function LongestOrfInSeq(d: map<string, string>, id: string, frame: nat): Result<Option<nat>, PyError>
    requires frame >= 1
  {
    if id !in d then Err(KeyError)
    else
      match LenOrfs(d[id], frame)
      case None => Ok(None)
      case Some(v) => Ok(Some(MaxRanked(v).length))
  }

  /** `longest_ORF_in_seq` fails exactly on an unknown id, is `None` exactly when the
      sequence has no ORF, and otherwise is the length of a longest ORF. */
  lemma LongestOrfInSeqSpec(d: map<string, string>, id: string, frame: nat)
    requires frame >= 1
    ensures LongestOrfInSeq(d, id, frame).Err? <==> id !in d
    ensures LongestOrfInSeq(d, id, frame).Err? ==> LongestOrfInSeq(d, id, frame).error == KeyError
    ensures LongestOrfInSeq(d, id, frame) == Ok(None) <==> id in d && OrfTexts(d[id], frame) == []
    ensures LongestOrfInSeq(d, id, frame).Ok? && LongestOrfInSeq(d, id, frame).value.Some? ==>
      var n := LongestOrfInSeq(d, id, frame).value.value;
      && (exists o :: o in OrfTexts(d[id], frame) && |o| == n)
      && (forall o :: o in OrfTexts(d[id], frame) ==> |o| <= n)
  {
    if id in d && LenOrfs(d[id], frame).Some? {
      BestOfIsLongest(OrfTexts(d[id], frame));
    }
  }

  /** The tuple `(max(seq_orfs), seq_id)` that `longest_ORF` collects per record. */
  datatype Candidate = Candidate(best: Ranked, id: string)

  /** Python's `<` on `((int, str), str)` tuples. */
  predicate CandidateLt(a: Candidate, b: Candidate) {
    RankedLt(a.best, b.best) || (a.best == b.best && StrLt(a.id, b.id))
  }

  lemma CandidateLtIrreflexive(a: Candidate)
    ensures !CandidateLt(a, a)
  {
    RankedLtIrreflexive(a.best);
    StrLtIrreflexive(a.id);
  }

  lemma CandidateLtTransitive(a: Candidate, b: Candidate, c: Candidate)
    requires CandidateLt(a, b) && CandidateLt(b, c)
    ensures CandidateLt(a, c)
  {
    if RankedLt(a.best, b.best) && RankedLt(b.best, c.best) {
      RankedLtTransitive(a.best, b.best, c.best);
    } else if a.best == b.best == c.best {
      StrLtTransitive(a.id, b.id, c.id);
    }
  }

  lemma CandidateLtTotal(a: Candidate, b: Candidate)
    requires a != b
    ensures CandidateLt(a, b) || CandidateLt(b, a)
  {
    if a.best != b.best {
      RankedLtTotal(a.best, b.best);
    } else {
      StrLtTotal(a.id, b.id);
    }
  }

  /** Python's `max` on a non-empty list of candidates: the fold of `MaxRanked` under
      `CandidateLt`. */
  function MaxCandidate(xs: seq<Candidate>): (r: Candidate)
    requires xs != []
    ensures r in xs
    ensures forall y :: y in xs ==> !CandidateLt(r, y)
  {
    if |xs| == 1 then CandidateLtIrreflexive(xs[0]); xs[0]
    else
      var m := MaxCandidate(xs[..|xs| - 1]);
      var last := xs[|xs| - 1];
      assert forall y :: y in xs ==> y in xs[..|xs| - 1] || y == last;
      if CandidateLt(m, last) then
        assert forall y :: y in xs[..|xs| - 1] ==> !CandidateLt(last, y) by {
          forall y | y in xs[..|xs| - 1] ensures !CandidateLt(last, y) {
            if CandidateLt(last, y) { CandidateLtTransitive(m, last, y); }
          }
        }
        CandidateLtIrreflexive(last);
        last
      else
        CandidateLtIrreflexive(m);
        m
  }

  /** A record's own candidate: its greatest tuple paired with its id. */
  function CandidateOf(d: map<string, string>, id: string, frame: nat): Candidate
    requires frame >= 1 && id in d && LenOrfs(d[id], frame).Some?
  {
    Candidate(Best(d[id], frame), id)
  }

  /** What `longest_ORF` returns: the candidate of a record with an ORF that no other
      record's candidate exceeds. */
  predicate IsLongestOrf(d: map<string, string>, frame: nat, c: Candidate)
    requires frame >= 1
  {
    && c.id in d && LenOrfs(d[c.id], frame).Some? && c == CandidateOf(d, c.id, frame)
    && forall id :: id in d && LenOrfs(d[id], frame).Some? ==> !CandidateLt(c, CandidateOf(d, id, frame))
  }

  /** `longest_ORF(d, frame)`: collect each record's candidate, then take the maximum;
      `max` of an empty list raises `ValueError`. */
  method LongestOrf(d: map<string, string>, frame: nat) returns (r: Result<Candidate, PyError>)
    requires frame >= 1
    ensures r.Err? <==> forall id :: id in d ==> OrfTexts(d[id], frame) == []
    ensures r.Err? ==> r.error == ValueError
    ensures r.Ok? ==> IsLongestOrf(d, frame, r.value)
  {
    var fileOrfs: seq<Candidate> := [];
    var rest := d.Keys;
    while rest != {}
      invariant rest <= d.Keys
      invariant forall c :: c in fileOrfs ==>
        c.id in d && c.id !in rest && LenOrfs(d[c.id], frame).Some? && c == CandidateOf(d, c.id, frame)
      invariant forall id :: id in d && id !in rest && LenOrfs(d[id], frame).Some? ==>
        CandidateOf(d, id, frame) in fileOrfs
      decreases rest
    {
      var id :| id in rest;
      var seqOrfs := LenOrfs(d[id], frame);
      if seqOrfs != None {
        fileOrfs := fileOrfs + [Candidate(MaxRanked(seqOrfs.value), id)];
      }
      rest := rest - {id};
    }
    if fileOrfs == [] {
      r := Err(ValueError);
    } else {
      var best := MaxCandidate(fileOrfs);
      r := Ok(best);
      assert LenOrfs(d[best.id], frame).Some?;
    }
  }

  /** The contract of `LongestOrf` fixes its result: two candidates that both satisfy it
      are the same. */
  lemma IsLongestOrfUnique(d: map<string, string>, frame: nat, a: Candidate, b: Candidate)
    requires frame >= 1 && IsLongestOrf(d, frame, a) && IsLongestOrf(d, frame, b)
    ensures a == b
  {
    if a != b {
      CandidateLtTotal(a, b);
    }
  }

  /** The length in `longest_ORF`'s result is the length of the longest ORF of any record. */
  lemma LongestOrfIsLongest(d: map<string, string>, frame: nat, c: Candidate)
    requires frame >= 1 && IsLongestOrf(d, frame, c)
    ensures c.best.text in OrfTexts(d[c.id], frame) && c.best.length == |c.best.text|
    ensures forall id, o :: id in d && o in OrfTexts(d[id], frame) ==> |o| <= c.best.length
  {
    BestOfIsLongest(OrfTexts(d[c.id], frame));
    forall id, o | id in d && o in OrfTexts(d[id], frame) ensures |o| <= c.best.length {
      BestOfIsLongest(OrfTexts(d[id], frame));
      assert !CandidateLt(c, CandidateOf(d, id, frame));
    }
  }

  /** `pat` occurs in `s` at offset `i`. */
  predicate OccursAt(s: string, pat: string, i: int) {
    0 <= i && i + |pat| <= |s| && s[i..i + |pat|] == pat
  }

  /** `s.find(pat, i)`: the least offset from `i` on where `pat` occurs, or -1. */
  function FindFrom(s: string, pat: string, i: nat): int
    decreases |s| - i
  {
    if i + |pat| > |s| then -1
    else if s[i..i + |pat|] == pat then i
    else FindFrom(s, pat, i + 1)
  }

  /** `find` answers -1 exactly when `pat` never occurs from `i` on, and otherwise the
      least offset from `i` on where it occurs. */
  lemma {:induction false} FindFromSpec(s: string, pat: string, i: nat)
    decreases |s| - i
    ensures FindFrom(s, pat, i) == -1 <==> forall j :: i <= j ==> !OccursAt(s, pat, j)
    ensures FindFrom(s, pat, i) != -1 ==>
      var r := FindFrom(s, pat, i);
      i <= r && OccursAt(s, pat, r) && forall j :: i <= j < r ==> !OccursAt(s, pat, j)
  {
    if i + |pat| > |s| {
    } else if s[i..i + |pat|] == pat {
      assert OccursAt(s, pat, i);
    } else {
      FindFromSpec(s, pat, i + 1);
    }
  }

  /** `ORF_start_position(seq, orf)`, which is `seq.find(orf)`. */
  function OrfStartPosition(s: string, orf: string): int {
    FindFrom(s, orf, 0)
  }

  /** `ORF_start_position` is -1 exactly when `orf` is not a substring of `seq`, and
      otherwise the first offset where it occurs. */
  lemma OrfStartPositionSpec(s: string, orf: string)
    ensures OrfStartPosition(s, orf) == -1 <==> forall j :: !OccursAt(s, orf, j)
    ensures OrfStartPosition(s, orf) != -1 ==>
      var r := OrfStartPosition(s, orf);
      OccursAt(s, orf, r) && forall j :: j < r ==> !OccursAt(s, orf, j)
  {
    FindFromSpec(s, orf, 0);
  }

  /** Where `pat` occurs, `find` answers no later. */
  lemma FindAtMost(s: string, pat: string, i: nat)
    requires OccursAt(s, pat, i)
    ensures 0 <= OrfStartPosition(s, pat) <= i
  {
    OrfStartPositionSpec(s, pat);
  }

  /** A Python slice `t` of `s` is found in `s` at or before the offset it was cut from
      (an empty one at the latest where it was clipped). */
  lemma SliceIsFound(s: string, t: string, i: nat, j: nat)
    requires t == PySlice(s, i, j)
    ensures 0 <= OrfStartPosition(s, t) <= i
  {
    FindAtMost(s, t, if i < |s| then i else |s|);
  }

  /** The `k`-th ORF text of `s` is cut from `s` itself, so `ORF_start_position` finds
      it, at or before the offset it was cut from. */
  lemma OrfIsFound(s: string, frame: nat, k: nat)
    requires frame >= 1 && k < |Picks(s, frame)|
    ensures k < |OrfTexts(s, frame)|
    ensures 0 <= OrfStartPosition(s, OrfTexts(s, frame)[k]) <= frame - 1 + Picks(s, frame)[k].start
  {
    var p := Picks(s, frame)[k];
    OrfTextIsShifted(s, frame, k);
    SliceIsFound(s, OrfTexts(s, frame)[k], frame - 1 + p.start, frame - 1 + p.stop + 3);
  }
}
