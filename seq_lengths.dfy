/** Record counting and sequence-length statistics over a collection of records, each
    an identifier mapped to its sequence: `count_records`, `seq_len`, `seq_len_min_max`
    and `seq_len_min_max_id`. */
module SeqLengths {
  import opened Wrappers

  /** `count_records(d)`: the number of records. */
  function CountRecords(d: map<string, string>): nat {
    |d|
  }

  /** `seq_len(d)`: each identifier mapped to the length of its sequence. */
  function SeqLen(d: map<string, string>): map<string, int> {
    map id | id in d :: |d[id]|
  }

  /** `seq_len` keeps every identifier, and only those, with its sequence length, so it
      has as many entries as there are records. */
  lemma SeqLenSpec(d: map<string, string>)
    ensures SeqLen(d).Keys == d.Keys
    ensures forall id :: id in d ==> SeqLen(d)[id] == |d[id]|
    ensures |SeqLen(d)| == CountRecords(d)
  {
    assert SeqLen(d).Keys == d.Keys;
    assert |SeqLen(d).Keys| == |SeqLen(d)| && |d.Keys| == |d|;
  }

  /** `v` is the greatest (`longest`) or least (otherwise) of the values of `lens`. */
  predicate IsExtreme(lens: map<string, int>, longest: bool, v: int) {
    && v in lens.Values
    && forall w :: w in lens.Values ==> if longest then w <= v else v <= w
  }

  /** A non-empty map has a greatest and a least value. */
  lemma {:induction false} ExtremeExists(lens: map<string, int>, longest: bool)
    requires lens != map[]
    ensures exists v :: IsExtreme(lens, longest, v)
    decreases lens.Keys
  {
    var id :| id in lens;
    var rest := lens - {id};
    assert lens[id] in lens.Values;
    if rest == map[] {
      forall w | w in lens.Values ensures w == lens[id] {
        var k :| k in lens && lens[k] == w;
        assert k !in rest;
      }
      assert IsExtreme(lens, longest, lens[id]);
    } else {
      assert rest.Keys < lens.Keys;
      ExtremeExists(rest, longest);
      var u :| IsExtreme(rest, longest, u);
      var k :| k in rest && rest[k] == u;
      assert u in lens.Values by { assert lens[k] == u; }
      var v := if (longest && lens[id] > u) || (!longest && lens[id] < u) then lens[id] else u;
      forall w | w in lens.Values ensures if longest then w <= v else v <= w {
        var j :| j in lens && lens[j] == w;
        if j != id {
          assert rest[j] == w && w in rest.Values;
        }
      }
      assert IsExtreme(lens, longest, v);
    }
  }

  /** `seq_len_min_max(lens, longest)`: `max(lens.values())`, or `min` when `longest` is
      false; both raise `ValueError` on an empty map. */
  function SeqLenMinMax(lens: map<string, int>, longest: bool): Result<int, PyError> {
    if lens == map[] then Err(ValueError)
    else
      ExtremeExists(lens, longest);
      var v :| IsExtreme(lens, longest, v);
      Ok(v)
  }

  /** `seq_len_min_max` fails exactly on an empty map, and otherwise returns a value of the
      map that bounds every value from above (`longest`) or below. */
  lemma SeqLenMinMaxSpec(lens: map<string, int>, longest: bool)
    ensures SeqLenMinMax(lens, longest).Err? <==> lens == map[]
    ensures SeqLenMinMax(lens, longest).Err? ==> SeqLenMinMax(lens, longest).error == ValueError
    ensures SeqLenMinMax(lens, longest).Ok? ==>
      var v := SeqLenMinMax(lens, longest).value;
      && (exists id :: id in lens && lens[id] == v)
      && (forall id :: id in lens ==> if longest then lens[id] <= v else v <= lens[id])
  {
    if lens != map[] {
      var v := SeqLenMinMax(lens, longest).value;
      forall id | id in lens ensures if longest then lens[id] <= v else v <= lens[id] {
        assert lens[id] in lens.Values;
      }
    }
  }

  /** Over `seq_len(d)` of a non-empty collection, the maximum is the length of a longest
      sequence and the minimum that of a shortest one, and the maximum is not below the
      minimum. */
  lemma LongestAndShortest(d: map<string, string>)
    requires d != map[]
    ensures SeqLenMinMax(SeqLen(d), true).Ok? && SeqLenMinMax(SeqLen(d), false).Ok?
    ensures var hi := SeqLenMinMax(SeqLen(d), true).value;
      && (exists id :: id in d && |d[id]| == hi)
      && (forall id :: id in d ==> |d[id]| <= hi)
    ensures var lo := SeqLenMinMax(SeqLen(d), false).value;
      && (exists id :: id in d && |d[id]| == lo)
      && (forall id :: id in d ==> lo <= |d[id]|)
    ensures SeqLenMinMax(SeqLen(d), false).value <= SeqLenMinMax(SeqLen(d), true).value
  {
    var lens := SeqLen(d);
    var id :| id in d;
    assert id in lens;
    SeqLenMinMaxSpec(lens, true);
    SeqLenMinMaxSpec(lens, false);
    assert lens[id] == |d[id]|;
    var hi, lo := SeqLenMinMax(lens, true).value, SeqLenMinMax(lens, false).value;
    var a :| a in lens && lens[a] == hi;
    var b :| b in lens && lens[b] == lo;
    assert |d[a]| == hi && |d[b]| == lo;
    forall id | id in d ensures lo <= |d[id]| <= hi {
      assert id in lens && lens[id] == |d[id]|;
    }
  }

  /** `seq_len_min_max_id(lens, longest)`: the identifiers whose value equals the
      extreme; the error of `seq_len_min_max` passes through. */
  function SeqLenMinMaxId(lens: map<string, int>, longest: bool): Result<set<string>, PyError> {
    match SeqLenMinMax(lens, longest)
    case Err(e) => Err(e)
    case Ok(threshold) => Ok(set id | id in lens && lens[id] == threshold)
  }

  /** `seq_len_min_max_id` fails exactly on an empty map; otherwise it returns a non-empty
      set holding exactly the identifiers whose value is the extreme. */
  lemma SeqLenMinMaxIdSpec(lens: map<string, int>, longest: bool)
    ensures SeqLenMinMaxId(lens, longest).Err? <==> lens == map[]
    ensures SeqLenMinMaxId(lens, longest).Err? ==> SeqLenMinMaxId(lens, longest).error == ValueError
    ensures SeqLenMinMaxId(lens, longest).Ok? ==>
      var ids := SeqLenMinMaxId(lens, longest).value;
      && ids != {}
      && (forall id :: id in ids <==> id in lens && IsExtreme(lens, longest, lens[id]))
  {
    SeqLenMinMaxSpec(lens, longest);
    if lens != map[] {
      var v := SeqLenMinMax(lens, longest).value;
      var ids := SeqLenMinMaxId(lens, longest).value;
      var id :| id in lens && lens[id] == v;
      assert id in ids;
      forall id | id in lens ensures id in ids <==> IsExtreme(lens, longest, lens[id]) {
        assert lens[id] in lens.Values;
        if IsExtreme(lens, longest, lens[id]) {
          assert v in lens.Values;
        }
      }
    }
  }
}
