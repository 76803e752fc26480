/** The duplicate filter: a record is dropped when an earlier record has the
    same airline, departure, arrival and price text. */
module Dedup {
  import opened Text
  import opened Records

  type Key = (string, string, string, string)

  /** The key the scraper compares: `(airline, departure, arrival, price)`. */
  function KeyOf(r: FlightRecord): Key
  {
    (r.airline, r.departure, r.arrival, r.price)
  }

  function KeySet(fs: seq<FlightRecord>): set<Key>
  {
    set r | r in fs :: KeyOf(r)
  }

  lemma KeySetSnoc(fs: seq<FlightRecord>, r: FlightRecord)
    ensures KeySet(fs + [r]) == KeySet(fs) + {KeyOf(r)}
  {
    assert forall x :: x in fs + [r] <==> x in fs || x == r;
  }

  /** No two records share a key. */
  predicate UniqueKeys(fs: seq<FlightRecord>)
  {
    forall i, j :: 0 <= i < j < |fs| ==> KeyOf(fs[i]) != KeyOf(fs[j])
  }

  /** The first record of each key, in input order. */
  function FirstOccurrences(fs: seq<FlightRecord>): (d: seq<FlightRecord>)
    ensures |d| <= |fs|
  {
    if fs == [] then []
    else
      var init := fs[..|fs| - 1];
      var r := fs[|fs| - 1];
      if KeyOf(r) in KeySet(init) then FirstOccurrences(init)
      else FirstOccurrences(init) + [r]
  }

  /** The loop with the `seen` set. */
  method DedupRecords(flights: seq<FlightRecord>) returns (deduped: seq<FlightRecord>)
    ensures deduped == FirstOccurrences(flights)
  {
    var seen: set<Key> := {};
    deduped := [];
    var i := 0;
    while i < |flights|
      invariant 0 <= i <= |flights|
      invariant seen == KeySet(flights[..i])
      invariant deduped == FirstOccurrences(flights[..i])
    {
      var f := flights[i];
      var key := KeyOf(f);
      PrefixSnoc(flights, i);
      KeySetSnoc(flights[..i], f);
      if key !in seen {
        seen := seen + {key};
        deduped := deduped + [f];
      }
      i := i + 1;
    }
    assert flights[..i] == flights;
  }

  /** No key is lost: every key of the input has its record in the output. */
  lemma {:induction false} DedupKeepsKeys(fs: seq<FlightRecord>)
    ensures KeySet(FirstOccurrences(fs)) == KeySet(fs)
  {
    if fs != [] {
      var init := fs[..|fs| - 1];
      var r := fs[|fs| - 1];
      assert fs == init + [r];
      DedupKeepsKeys(init);
      KeySetSnoc(init, r);
      if KeyOf(r) !in KeySet(init) {
        KeySetSnoc(FirstOccurrences(init), r);
      }
    }
  }

  /** The output holds one record per key. */
  lemma {:induction false} DedupUnique(fs: seq<FlightRecord>)
    ensures UniqueKeys(FirstOccurrences(fs))
  {
    if fs != [] {
      var init := fs[..|fs| - 1];
      var r := fs[|fs| - 1];
      DedupUnique(init);
      if KeyOf(r) !in KeySet(init) {
        var d := FirstOccurrences(init);
        DedupKeepsKeys(init);
        forall i | 0 <= i < |d| ensures KeyOf(d[i]) != KeyOf(r) {
          assert d[i] in d;
        }
        var d' := d + [r];
        forall i, j | 0 <= i < j < |d'| ensures KeyOf(d'[i]) != KeyOf(d'[j]) {
          if j < |d| {
            assert d'[i] == d[i] && d'[j] == d[j];
          } else {
            assert d'[i] == d[i];
          }
        }
      }
    }
  }

  /** The output is a subsequence of the input made of first occurrences:
      `idx[k]` is where the k-th kept record stands in the input, the
      positions increase, and no earlier input record has its key. */
  lemma {:induction false} DedupFirsts(fs: seq<FlightRecord>) returns (idx: seq<nat>)
    ensures |idx| == |FirstOccurrences(fs)|
    ensures forall k :: 0 <= k < |idx| ==> idx[k] < |fs| && fs[idx[k]] == FirstOccurrences(fs)[k]
    ensures forall k, m :: 0 <= k < m < |idx| ==> idx[k] < idx[m]
    ensures forall k, j :: 0 <= k < |idx| && 0 <= j < idx[k] ==> KeyOf(fs[j]) != KeyOf(fs[idx[k]])
  {
    if fs == [] {
      idx := [];
    } else {
      var init := fs[..|fs| - 1];
      var r := fs[|fs| - 1];
      var prev := DedupFirsts(init);
      var d := FirstOccurrences(init);
      forall k | 0 <= k < |prev|
        ensures fs[prev[k]] == d[k]
        ensures forall j :: 0 <= j < prev[k] ==> KeyOf(fs[j]) != KeyOf(fs[prev[k]])
      {
        assert fs[prev[k]] == init[prev[k]];
        forall j | 0 <= j < prev[k] ensures KeyOf(fs[j]) != KeyOf(fs[prev[k]]) {
          assert fs[j] == init[j];
        }
      }
      if KeyOf(r) in KeySet(init) {
        idx := prev;
      } else {
        idx := prev + [|fs| - 1];
        assert FirstOccurrences(fs) == d + [r];
        forall j | 0 <= j < |fs| - 1 ensures KeyOf(fs[j]) != KeyOf(r) {
          assert fs[j] == init[j];
          assert init[j] in init;
        }
        forall k | 0 <= k < |idx|
          ensures idx[k] < |fs| && fs[idx[k]] == (d + [r])[k]
          ensures forall j :: 0 <= j < idx[k] ==> KeyOf(fs[j]) != KeyOf(fs[idx[k]])
        {
          if k < |prev| {
            assert idx[k] == prev[k];
          }
        }
      }
    }
  }

  /** On records whose keys are already distinct the filter changes
      nothing; in particular filtering twice is filtering once. */
  lemma {:induction false} DedupOfUnique(fs: seq<FlightRecord>)
    requires UniqueKeys(fs)
    ensures FirstOccurrences(fs) == fs
  {
    if fs != [] {
      var init := fs[..|fs| - 1];
      var r := fs[|fs| - 1];
      DedupOfUnique(init);
    }
  }

  lemma DedupIdempotent(fs: seq<FlightRecord>)
    ensures FirstOccurrences(FirstOccurrences(fs)) == FirstOccurrences(fs)
  {
    DedupUnique(fs);
    DedupOfUnique(FirstOccurrences(fs));
  }
}
