/** Ordering the de-duplicated records by price (Python's stable `sorted`
    with the numeric price as key) and the rows of the results table. */
module Ranking {
  import opened Text
  import opened Records

  predicate SortedByPrice(fs: seq<FlightRecord>)
  {
    forall i, j :: 0 <= i < j < |fs| ==> fs[i].priceNumber <= fs[j].priceNumber
  }

  /** Puts `x` in front of the first record that costs at least as much. */
  function Insert(x: FlightRecord, s: seq<FlightRecord>): (r: seq<FlightRecord>)
    ensures |r| == |s| + 1
  {
    if s == [] || x.priceNumber <= s[0].priceNumber then [x] + s
    else [s[0]] + Insert(x, s[1..])
  }

  /** `sorted(deduped, key=lambda x: x["price_number"])`, as an insertion
      sort from the back; records with the same price keep their order. */
  function SortByPrice(fs: seq<FlightRecord>): (r: seq<FlightRecord>)
    ensures |r| == |fs|
  {
    if fs == [] then [] else Insert(fs[0], SortByPrice(fs[1..]))
  }

  lemma {:induction false} InsertMembers(x: FlightRecord, s: seq<FlightRecord>)
    ensures multiset(Insert(x, s)) == multiset(s) + multiset{x}
  {
    if s != [] && x.priceNumber > s[0].priceNumber {
      InsertMembers(x, s[1..]);
      assert s == [s[0]] + s[1..];
    }
  }

  /** Each entry of `Insert(x, s)` is `x` (`m == -1`) or the entry `m` of `s`. */
  lemma {:induction false} InsertSource(x: FlightRecord, s: seq<FlightRecord>, k: nat) returns (m: int)
    requires k < |Insert(x, s)|
    ensures -1 <= m < |s|
    ensures m == -1 ==> Insert(x, s)[k] == x
    ensures m >= 0 ==> Insert(x, s)[k] == s[m]
  {
    if s == [] || x.priceNumber <= s[0].priceNumber {
      m := k - 1;
    } else if k == 0 {
      m := 0;
    } else {
      var m' := InsertSource(x, s[1..], k - 1);
      m := if m' == -1 then -1 else m' + 1;
    }
  }

  /** Each entry of the sorted sequence is an entry of the input. */
  lemma {:induction false} SortSource(fs: seq<FlightRecord>, k: nat) returns (m: nat)
    requires k < |SortByPrice(fs)|
    ensures m < |fs| && SortByPrice(fs)[k] == fs[m]
  {
    var j := InsertSource(fs[0], SortByPrice(fs[1..]), k);
    if j == -1 {
      m := 0;
    } else {
      var m' := SortSource(fs[1..], j);
      m := m' + 1;
    }
  }

  lemma {:induction false} InsertSorted(x: FlightRecord, s: seq<FlightRecord>)
    requires SortedByPrice(s)
    ensures SortedByPrice(Insert(x, s))
  {
    if s != [] && x.priceNumber > s[0].priceNumber {
      var rest := s[1..];
      assert SortedByPrice(rest);
      InsertSorted(x, rest);
      var t := Insert(x, rest);
      forall k | 0 <= k < |t| ensures s[0].priceNumber <= t[k].priceNumber {
        var m := InsertSource(x, rest, k);
        if m >= 0 {
          assert rest[m] == s[m + 1];
        }
      }
      var r := [s[0]] + t;
      assert Insert(x, s) == r;
      forall i, j | 0 <= i < j < |r| ensures r[i].priceNumber <= r[j].priceNumber {
        assert r[j] == t[j - 1];
        if i > 0 {
          assert r[i] == t[i - 1];
        }
      }
    }
  }

  /** The result is ordered by price and holds exactly the input records. */
  lemma {:induction false} SortSorted(fs: seq<FlightRecord>)
    ensures SortedByPrice(SortByPrice(fs))
    ensures multiset(SortByPrice(fs)) == multiset(fs)
  {
    if fs != [] {
      SortSorted(fs[1..]);
      InsertSorted(fs[0], SortByPrice(fs[1..]));
      InsertMembers(fs[0], SortByPrice(fs[1..]));
      assert fs == [fs[0]] + fs[1..];
    }
  }

  /** The records of price `p`, in order. */
  function PriceFilter(p: int, s: seq<FlightRecord>): seq<FlightRecord>
  {
    if s == [] then []
    else (if s[0].priceNumber == p then [s[0]] else []) + PriceFilter(p, s[1..])
  }

  lemma {:induction false} InsertFilter(p: int, x: FlightRecord, s: seq<FlightRecord>)
    ensures PriceFilter(p, Insert(x, s)) == PriceFilter(p, [x] + s)
  {
    if s != [] && x.priceNumber > s[0].priceNumber {
      var rest := Insert(x, s[1..]);
      assert Insert(x, s) == [s[0]] + rest;
      PriceFilterCons(p, s[0], rest);
      InsertFilter(p, x, s[1..]);
      PriceFilterCons(p, x, s[1..]);
      PriceFilterCons(p, x, s);
      assert s == [s[0]] + s[1..];
      PriceFilterCons(p, s[0], s[1..]);
      var a0 := if s[0].priceNumber == p then [s[0]] else [];
      var ax := if x.priceNumber == p then [x] else [];
      SwapHeads(PriceFilter(p, Insert(x, s)), PriceFilter(p, [x] + s), a0, ax, PriceFilter(p, rest), PriceFilter(p, s), PriceFilter(p, s[1..]));
    } else {
      assert Insert(x, s) == [x] + s;
    }
  }

  /** At most one of two heads is non-empty, so their order does not matter. */
  lemma SwapHeads(l: seq<FlightRecord>, r: seq<FlightRecord>, a0: seq<FlightRecord>, ax: seq<FlightRecord>,
                  lt: seq<FlightRecord>, rt: seq<FlightRecord>, t: seq<FlightRecord>)
    requires l == a0 + lt && lt == ax + t && r == ax + rt && rt == a0 + t
    requires a0 == [] || ax == []
    ensures l == r
  {
  }

  /** Filtering a list with a given head. */
  lemma PriceFilterCons(p: int, y: FlightRecord, t: seq<FlightRecord>)
    ensures PriceFilter(p, [y] + t) == (if y.priceNumber == p then [y] else []) + PriceFilter(p, t)
  {
    assert ([y] + t)[1..] == t;
  }

  /** Stability: among records of one price the input order survives. */
  lemma {:induction false} SortStable(p: int, fs: seq<FlightRecord>)
    ensures PriceFilter(p, SortByPrice(fs)) == PriceFilter(p, fs)
  {
    if fs != [] {
      SortStable(p, fs[1..]);
      InsertFilter(p, fs[0], SortByPrice(fs[1..]));
      assert ([fs[0]] + SortByPrice(fs[1..]))[1..] == SortByPrice(fs[1..]);
    }
  }

  lemma FilterHead(s: seq<FlightRecord>)
    requires s != []
    ensures PriceFilter(s[0].priceNumber, s) != [] && PriceFilter(s[0].priceNumber, s)[0] == s[0]
  {
  }

  lemma {:induction false} FilterMember(p: int, s: seq<FlightRecord>, i: nat)
    requires i < |PriceFilter(p, s)|
    ensures PriceFilter(p, s)[i] in s && PriceFilter(p, s)[i].priceNumber == p
  {
    if s[0].priceNumber == p && i == 0 {
    } else if s[0].priceNumber == p {
      FilterMember(p, s[1..], i - 1);
    } else {
      FilterMember(p, s[1..], i);
    }
  }

  /** Two price-ordered sequences with the same records of every price, in
      the same order, are equal: a stable sort has exactly one result. */
  lemma {:induction false} SortedUnique(a: seq<FlightRecord>, b: seq<FlightRecord>)
    requires SortedByPrice(a) && SortedByPrice(b)
    requires forall p :: PriceFilter(p, a) == PriceFilter(p, b)
    ensures a == b
    decreases |a|
  {
    if a == [] {
      if b != [] {
        FilterHead(b);
      }
    } else if b == [] {
      FilterHead(a);
    } else {
      var pa, pb := a[0].priceNumber, b[0].priceNumber;
      FilterHead(a);
      FilterHead(b);
      FilterMember(pa, b, 0);
      FilterMember(pb, a, 0);
      assert pa == pb;
      assert a[0] == b[0];
      forall p ensures PriceFilter(p, a[1..]) == PriceFilter(p, b[1..]) {
        var head := if pa == p then [a[0]] else [];
        assert PriceFilter(p, a) == head + PriceFilter(p, a[1..]);
        assert PriceFilter(p, b) == head + PriceFilter(p, b[1..]);
        assert (head + PriceFilter(p, a[1..]))[|head|..] == PriceFilter(p, a[1..]);
        assert (head + PriceFilter(p, b[1..]))[|head|..] == PriceFilter(p, b[1..]);
      }
      SortedUnique(a[1..], b[1..]);
      assert a == [a[0]] + a[1..] && b == [b[0]] + b[1..];
    }
  }

  /** Any price-ordered arrangement of the records that keeps the order of
      equal prices is the sorted result. */
  lemma SortCharacterized(fs: seq<FlightRecord>, out: seq<FlightRecord>)
    requires SortedByPrice(out)
    requires forall p :: PriceFilter(p, out) == PriceFilter(p, fs)
    ensures out == SortByPrice(fs)
  {
    SortSorted(fs);
    forall p ensures PriceFilter(p, out) == PriceFilter(p, SortByPrice(fs)) {
      SortStable(p, fs);
    }
    SortedUnique(out, SortByPrice(fs));
  }

  // ---------------------------------------------------------------------
  // The results table

  const Header: seq<string> := ["Airline", "Price", "Duration", "Stops", "Departure", "Arrival"]

  /** At most this many rows are shown. */
  const MaxRows := 10

  /** The cells of one row, in header order. */
  function Columns(f: FlightRecord): (cells: seq<string>)
    ensures |cells| == |Header|
  {
    [f.airline, f.price, f.duration, f.stops, f.departure, f.arrival]
  }

  /** The table text: empty when there is no flight, otherwise the drawn
      table, represented by its header and rows. */
  datatype Table = NoTable | Drawn(header: seq<string>, rows: seq<seq<string>>)

  /** The table built from the sorted records. */
  method DrawTable(ranked: seq<FlightRecord>) returns (t: Table)
    ensures ranked == [] <==> t == NoTable
    ensures t.Drawn? ==> t.header == Header && |t.rows| == Min(MaxRows, |ranked|)
    ensures t.Drawn? ==> forall i :: 0 <= i < |t.rows| ==> t.rows[i] == Columns(ranked[i])
  {
    if ranked == [] {
      return NoTable;
    }
    var rows: seq<seq<string>> := [];
    var n := Min(MaxRows, |ranked|);
    var i := 0;
    while i < n
      invariant 0 <= i <= n
      invariant |rows| == i
      invariant forall k :: 0 <= k < i ==> rows[k] == Columns(ranked[k])
    {
      rows := rows + [Columns(ranked[i])];
      i := i + 1;
    }
    t := Drawn(Header, rows);
  }

  /** Sorting loses no record. */
  lemma SortMember(fs: seq<FlightRecord>, x: FlightRecord)
    requires x in fs
    ensures x in SortByPrice(fs)
  {
    SortSorted(fs);
    assert x in multiset(fs);
  }

  /** An element of `s` missing from its first `n` entries sits at or after `n`. */
  lemma IndexBeyond<T>(s: seq<T>, n: nat, x: T) returns (j: nat)
    requires x in s && n <= |s| && x !in s[..n]
    ensures n <= j < |s| && s[j] == x
  {
    forall k | 0 <= k < n ensures s[k] != x {
      assert s[..n][k] == s[k];
    }
    j :| 0 <= j < |s| && s[j] == x;
  }

  /** The table shows the cheapest records: every record left out of it
      costs at least as much as every record shown. */
  lemma TableHoldsCheapest(fs: seq<FlightRecord>, x: FlightRecord, i: nat)
    requires x in fs && i < Min(MaxRows, |fs|)
    requires x !in SortByPrice(fs)[..Min(MaxRows, |fs|)]
    ensures SortByPrice(fs)[i].priceNumber <= x.priceNumber
  {
    var ranked := SortByPrice(fs);
    SortSorted(fs);
    SortMember(fs, x);
    var j := IndexBeyond(ranked, Min(MaxRows, |fs|), x);
    assert ranked[i].priceNumber <= ranked[j].priceNumber;
  }
}
