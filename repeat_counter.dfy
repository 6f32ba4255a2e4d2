/** Counting of repeated k-mers over a collection of records (`repeats`, with its inner
    `drop_repeats`). A `Counter` is a map from k-mer to count. */
module RepeatCounter {

  /** `[seq[i:i + n] for i in range(len(seq) - n + 1)]`: every overlapping window of
      length `n`, in order; none when the sequence is shorter than `n`. */
  function NMers(s: string, n: nat): seq<string>
    requires n >= 1
  {
    if |s| < n then [] else seq(|s| - n + 1, i requires 0 <= i < |s| - n + 1 => s[i..i + n])
  }

  /** `Counter(xs)`: each distinct element mapped to its number of occurrences. */
  function CounterOf(xs: seq<string>): map<string, nat> {
    map k | k in multiset(xs) :: multiset(xs)[k]
  }

  /** The count of `k`, 0 when absent (a `Counter` lookup). */
  function Count(c: map<string, nat>, k: string): nat {
    if k in c then c[k] else 0
  }

  /** What `drop_repeats` leaves of a counter: the entries counted more than once. */
  function Repeated(c: map<string, nat>): map<string, nat> {
    map k | k in c && c[k] > 1 :: c[k]
  }

  /** `drop_repeats(counter)`: the entries that `dropwhile` yields from `most_common()`
      (those counted at most once) are deleted one by one. */
  method DropRepeats(counter: map<string, nat>) returns (kept: map<string, nat>)
    ensures kept == Repeated(counter)
  {
    kept := counter;
    var doomed := set k | k in counter && counter[k] <= 1;
    while doomed != {}
      invariant doomed <= counter.Keys
      invariant kept == map k | k in counter && (k in doomed || counter[k] > 1) :: counter[k]
      decreases doomed
    {
      var key :| key in doomed;
      kept := kept - {key};
      doomed := doomed - {key};
    }
  }

  /** `counter.update(other)`: counts of the same key are added. */
  function Update(total: map<string, nat>, other: map<string, nat>): (r: map<string, nat>)
    ensures forall k :: Count(r, k) == Count(total, k) + Count(other, k)
    ensures r.Keys == total.Keys + other.Keys
  {
    map k | k in total.Keys + other.Keys :: Count(total, k) + Count(other, k)
  }

  /** The k-mers of one sequence that occur in it at least twice, with their counts. */
  function Kept(s: string, n: nat): map<string, nat>
    requires n >= 1
  {
    Repeated(CounterOf(NMers(s, n)))
  }

  /** A kept k-mer has length `n`, is counted at least twice, and its count is its number
      of overlapping occurrences in the sequence. */
  lemma KeptSpec(s: string, n: nat, k: string)
    requires n >= 1 && k in Kept(s, n)
    ensures |k| == n && Kept(s, n)[k] >= 2
    ensures Kept(s, n)[k] == multiset(NMers(s, n))[k]
  {
    var xs := NMers(s, n);
    assert k in multiset(xs);
    var i :| 0 <= i < |xs| && xs[i] == k;
  }

  /** A sequence shorter than `n` has no k-mer, so nothing is kept from it. */
  lemma ShortSequenceKeepsNothing(s: string, n: nat)
    requires n >= 1 && |s| < n
    ensures Kept(s, n) == map[]
  {
    assert NMers(s, n) == [];
    assert multiset(NMers(s, n)) == multiset{};
  }

  /** The sum, over the records `ids`, of the count of `k` kept from each. */
  ghost function Tally(d: map<string, string>, ids: set<string>, n: nat, k: string): nat
    requires n >= 1 && ids <= d.Keys
    decreases ids
  {
    if ids == {} then 0
    else
      var id :| id in ids;
      Count(Kept(d[id], n), k) + Tally(d, ids - {id}, n, k)
  }

  /** Any record can be taken out of the sum first. */
  lemma {:induction false} TallyRemove(d: map<string, string>, ids: set<string>, id: string, n: nat, k: string)
    requires n >= 1 && ids <= d.Keys && id in ids
    ensures Tally(d, ids, n, k) == Count(Kept(d[id], n), k) + Tally(d, ids - {id}, n, k)
    decreases ids
  {
    var y :| y in ids && Tally(d, ids, n, k) == Count(Kept(d[y], n), k) + Tally(d, ids - {y}, n, k);
    if y != id {
      TallyRemove(d, ids - {y}, id, n, k);
      TallyRemove(d, ids - {id}, y, n, k);
      assert ids - {y} - {id} == ids - {id} - {y};
    }
  }

  /** The sum only reads the records in `ids`. */
  lemma {:induction false} TallyAgree(d: map<string, string>, e: map<string, string>, ids: set<string>, n: nat, k: string)
    requires n >= 1 && ids <= d.Keys && ids <= e.Keys
    requires forall id :: id in ids ==> d[id] == e[id]
    ensures Tally(d, ids, n, k) == Tally(e, ids, n, k)
    decreases ids
  {
    if ids != {} {
      var y :| y in ids && Tally(d, ids, n, k) == Count(Kept(d[y], n), k) + Tally(d, ids - {y}, n, k);
      TallyRemove(e, ids, y, n, k);
      TallyAgree(d, e, ids - {y}, n, k);
    }
  }

  /** Every k-mer kept from at least one record. */
  ghost function RepeatKeys(d: map<string, string>, n: nat): set<string>
    requires n >= 1
  {
    set id, k | id in d && k in Kept(d[id], n) :: k
  }

  /** What `repeats(d, n)` returns: every k-mer kept from some record, with the sum of its
      kept counts over all records. */
  ghost function RepeatTally(d: map<string, string>, n: nat): map<string, nat>
    requires n >= 1
  {
    map k | k in RepeatKeys(d, n) :: Tally(d, d.Keys, n, k)
  }

  /** `total` is what the loop of `repeats` has built after the records `done`: the kept
      k-mers of those records, each with the sum of its kept counts. */
  ghost predicate Partial(d: map<string, string>, n: nat, done: set<string>, total: map<string, nat>)
    requires n >= 1 && done <= d.Keys
  {
    && (forall k :: Count(total, k) == Tally(d, done, n, k))
    && (forall k :: k in total <==> exists id :: id in done && k in Kept(d[id], n))
  }

  /** Adding one more record's kept counts to the running total adds it to the sum. */
  lemma TallyStep(d: map<string, string>, done: set<string>, id: string, n: nat,
                  total: map<string, nat>, kept: map<string, nat>)
    requires n >= 1 && done <= d.Keys && id in d && id !in done
    requires Partial(d, n, done, total)
    requires kept == Kept(d[id], n)
    ensures Partial(d, n, done + {id}, Update(total, kept))
  {
    TallyStepCounts(d, done, id, n, total, kept);
    TallyStepKeys(d, done, id, n, total, kept);
  }

  lemma TallyStepCounts(d: map<string, string>, done: set<string>, id: string, n: nat,
                        total: map<string, nat>, kept: map<string, nat>)
    requires n >= 1 && done <= d.Keys && id in d && id !in done
    requires forall k :: Count(total, k) == Tally(d, done, n, k)
    requires kept == Kept(d[id], n)
    ensures forall k :: Count(Update(total, kept), k) == Tally(d, done + {id}, n, k)
  {
    forall k ensures Count(Update(total, kept), k) == Tally(d, done + {id}, n, k) {
      TallyRemove(d, done + {id}, id, n, k);
      assert done + {id} - {id} == done;
    }
  }

  lemma TallyStepKeys(d: map<string, string>, done: set<string>, id: string, n: nat,
                      total: map<string, nat>, kept: map<string, nat>)
    requires n >= 1 && done <= d.Keys && id in d
    requires forall k :: k in total <==> exists j :: j in done && k in Kept(d[j], n)
    requires kept == Kept(d[id], n)
    ensures forall k :: k in Update(total, kept) <==> exists j :: j in done + {id} && k in Kept(d[j], n)
  {
    var next := Update(total, kept);
    forall k ensures k in next <==> exists j :: j in done + {id} && k in Kept(d[j], n) {
      if k in kept {
        assert id in done + {id} && k in Kept(d[id], n);
      }
      if k in total {
        var j :| j in done && k in Kept(d[j], n);
        assert j in done + {id};
      }
    }
  }

  /** After every record, the running total is the result. */
  lemma PartialComplete(d: map<string, string>, n: nat, total: map<string, nat>)
    requires n >= 1 && Partial(d, n, d.Keys, total)
    ensures total == RepeatTally(d, n)
  {
    forall k | k in total ensures k in RepeatKeys(d, n) {
      var id :| id in d && k in Kept(d[id], n);
    }
  }

  /** `repeats(d, n)`: for each record, count its k-mers, drop those seen once, and add
      the rest into the running total. */
  method Repeats(d: map<string, string>, n: nat) returns (allRepeats: map<string, nat>)
    requires n >= 1
    ensures allRepeats == RepeatTally(d, n)
  {
    allRepeats := map[];
    var rest := d.Keys;
    ghost var done: set<string> := {};
    while rest != {}
      invariant rest !! done && rest + done == d.Keys
      invariant Partial(d, n, done, allRepeats)
      decreases rest
    {
      var id :| id in rest;
      var nmers := NMers(d[id], n);
      var counter := CounterOf(nmers);
      var kept := DropRepeats(counter);
      TallyStep(d, done, id, n, allRepeats, kept);
      allRepeats := Update(allRepeats, kept);
      rest := rest - {id};
      done := done + {id};
    }
    assert done == d.Keys;
    PartialComplete(d, n, allRepeats);
  }

  /** Every key of the result has length `n`, and every count is at least 2, being at
      least the count kept from one record. */
  lemma RepeatTallyShape(d: map<string, string>, n: nat)
    requires n >= 1
    ensures forall k :: k in RepeatTally(d, n) ==> |k| == n && RepeatTally(d, n)[k] >= 2
  {
    forall k | k in RepeatTally(d, n) ensures |k| == n && RepeatTally(d, n)[k] >= 2 {
      var id :| id in d && k in Kept(d[id], n);
      KeptSpec(d[id], n, k);
      TallyRemove(d, d.Keys, id, n, k);
    }
  }

  /** A record shorter than `n` does not change the result. */
  lemma ShortRecordIgnored(d: map<string, string>, n: nat, id: string)
    requires n >= 1 && id in d && |d[id]| < n
    ensures RepeatTally(d, n) == RepeatTally(d - {id}, n)
  {
    ShortSequenceKeepsNothing(d[id], n);
    ShortRecordKeys(d, n, id);
    ShortRecordTally(d, n, id);
  }

  lemma ShortRecordKeys(d: map<string, string>, n: nat, id: string)
    requires n >= 1 && id in d && Kept(d[id], n) == map[]
    ensures RepeatKeys(d, n) == RepeatKeys(d - {id}, n)
  {
    var e := d - {id};
    forall k | k in RepeatKeys(d, n) ensures k in RepeatKeys(e, n) {
      var j :| j in d && k in Kept(d[j], n);
      assert j in e && e[j] == d[j];
    }
    forall k | k in RepeatKeys(e, n) ensures k in RepeatKeys(d, n) {
      var j :| j in e && k in Kept(e[j], n);
      assert j in d && e[j] == d[j];
    }
  }

  lemma ShortRecordTally(d: map<string, string>, n: nat, id: string)
    requires n >= 1 && id in d && Kept(d[id], n) == map[]
    ensures forall k :: Tally(d, d.Keys, n, k) == Tally(d - {id}, (d - {id}).Keys, n, k)
  {
    var e := d - {id};
    assert e.Keys == d.Keys - {id};
    forall k ensures Tally(d, d.Keys, n, k) == Tally(e, e.Keys, n, k) {
      TallyRemove(d, d.Keys, id, n, k);
      TallyAgree(d, e, e.Keys, n, k);
    }
  }

  /** With a single record, the result is what that record keeps. */
  lemma SingleRecord(id: string, s: string, n: nat)
    requires n >= 1
    ensures RepeatTally(map[id := s], n) == Kept(s, n)
  {
    SingleRecordKeys(id, s, n);
    SingleRecordTally(id, s, n);
    var d := map[id := s];
    assert d.Keys == {id};
    var r := RepeatTally(d, n);
    assert r.Keys == Kept(s, n).Keys;
    forall k | k in r ensures r[k] == Kept(s, n)[k] {
      assert r[k] == Tally(d, {id}, n, k);
    }
  }

  lemma SingleRecordKeys(id: string, s: string, n: nat)
    requires n >= 1
    ensures RepeatKeys(map[id := s], n) == Kept(s, n).Keys
  {
    var d := map[id := s];
    forall k | k in RepeatKeys(d, n) ensures k in Kept(s, n) {
      var j :| j in d && k in Kept(d[j], n);
    }
    forall k | k in Kept(s, n) ensures k in RepeatKeys(d, n) {
      assert id in d && k in Kept(d[id], n);
    }
  }

  lemma SingleRecordTally(id: string, s: string, n: nat)
    requires n >= 1
    ensures forall k :: Tally(map[id := s], {id}, n, k) == Count(Kept(s, n), k)
  {
    var d := map[id := s];
    assert d.Keys == {id} && {id} - {id} == {};
    forall k ensures Tally(d, {id}, n, k) == Count(Kept(s, n), k) {
      TallyRemove(d, {id}, id, n, k);
    }
  }


  /** `AAAA` has the 1-mer `A` four times. */
  lemma KeptAAAA()
    ensures Kept("AAAA", 1) == map["A" := 4]
  {
    NMersAAAA();
    CounterAAAA();
    assert Repeated(map["A" := 4]) == map["A" := 4];
  }

  lemma NMersAAAA()
    ensures NMers("AAAA", 1) == ["A", "A", "A", "A"]
  {
    var xs := NMers("AAAA", 1);
    assert xs[0] == "A" && xs[1] == "A" && xs[2] == "A" && xs[3] == "A";
  }

  lemma CounterAAAA()
    ensures CounterOf(["A", "A", "A", "A"]) == map["A" := 4]
  {
    var m := multiset(["A", "A", "A", "A"]);
    assert m["A"] == 4 && forall k :: k in m ==> k == "A" by {
      assert m == multiset{"A", "A", "A", "A"};
    }
    var c := CounterOf(["A", "A", "A", "A"]);
    assert c.Keys == {"A"};
  }


  /** `ATAT` has the 2-mers `AT`, `TA`, `AT`; only `AT` repeats. */
  lemma KeptATAT()
    ensures Kept("ATAT", 2) == map["AT" := 2]
  {
    NMersATAT();
    CounterATAT();
    assert Repeated(map["AT" := 2, "TA" := 1]) == map["AT" := 2];
  }

  lemma NMersATAT()
    ensures NMers("ATAT", 2) == ["AT", "TA", "AT"]
  {
    var xs := NMers("ATAT", 2);
    assert xs[0] == "AT" && xs[1] == "TA" && xs[2] == "AT";
  }

  lemma CounterATAT()
    ensures CounterOf(["AT", "TA", "AT"]) == map["AT" := 2, "TA" := 1]
  {
    var m := multiset(["AT", "TA", "AT"]);
    assert m["AT"] == 2 && m["TA"] == 1 && forall k :: k in m ==> k == "AT" || k == "TA" by {
      assert "AT" != "TA" by { assert "AT"[0] != "TA"[0]; }
      assert m == multiset{"AT", "AT", "TA"};
    }
    var c := CounterOf(["AT", "TA", "AT"]);
    assert c.Keys == {"AT", "TA"};
    assert c["AT"] == 2 && c["TA"] == 1;
  }


  /** A single record `AAAA` gives the 1-mer `A` with count 4. */
  lemma ExampleOneRecord()
    ensures RepeatTally(map["r1" := "AAAA"], 1) == map["A" := 4]
  {
    KeptAAAA();
    SingleRecord("r1", "AAAA", 1);
  }

  /** A single record `ATAT` gives the 2-mer `AT` with count 2. */
  lemma ExampleOverlap()
    ensures RepeatTally(map["r1" := "ATAT"], 2) == map["AT" := 2]
  {
    KeptATAT();
    SingleRecord("r1", "ATAT", 2);
  }

  /** When no record keeps anything, the result is empty. */
  lemma NothingKept(d: map<string, string>, n: nat)
    requires n >= 1 && forall id :: id in d ==> Kept(d[id], n) == map[]
    ensures RepeatTally(d, n) == map[]
  {
    forall k ensures k !in RepeatKeys(d, n) {
      forall id | id in d ensures k !in Kept(d[id], n) {
        assert Kept(d[id], n) == map[];
      }
    }
    assert RepeatKeys(d, n) == {};
  }

  /** `AC` has two different 1-mers, each once, so it keeps nothing. */
  lemma KeptAC()
    ensures Kept("AC", 1) == map[]
  {
    var xs := NMers("AC", 1);
    assert xs == ["A", "C"] by {
      assert xs[0] == "A" && xs[1] == "C";
    }
    assert "A" != "C" by { assert "A"[0] != "C"[0]; }
    assert forall k :: k in multiset(xs) ==> multiset(xs)[k] == 1;
  }

  /** k-mers seen once per record are dropped, even when another record has them too. */
  lemma ExampleNothingRepeated()
    ensures RepeatTally(map["r1" := "AC", "r2" := "AC"], 1) == map[]
  {
    KeptAC();
    NothingKept(map["r1" := "AC", "r2" := "AC"], 1);
  }
}
