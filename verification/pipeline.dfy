/** `scrape_flights` after the page has been read: build the records, drop
    duplicates, sort by price, draw the table of the first ten, then clean
    the text of every record. */
module Pipeline {
  import opened Text
  import opened Extract
  import opened Records
  import opened Dedup
  import opened Ranking
  import opened Cleanup

  /** The records in table order, before clean-up. */
  function Ranked(listings: seq<Listing>): (rs: seq<FlightRecord>)
    ensures |rs| <= MaxListings
  {
    var built := Accepted(listings[..Min(MaxListings, |listings|)]);
    SortByPrice(FirstOccurrences(built))
  }

  /** The scraper's result: the cleaned records and the table. The table is
      drawn before the clean-up runs, so its cells hold the text as it was
      read from the page. */
  method ScrapeFlights(listings: seq<Listing>, recode: string -> string)
    returns (flights: seq<FlightRecord>, table: Table)
    ensures |flights| == |Ranked(listings)|
    ensures forall i :: 0 <= i < |flights| ==> flights[i] == CleanRecord(Ranked(listings)[i], recode)
    ensures table == NoTable <==> flights == []
    ensures table.Drawn? ==> table.header == Header && |table.rows| == Min(MaxRows, |flights|)
    ensures table.Drawn? ==>
              forall i :: 0 <= i < |table.rows| ==> table.rows[i] == Columns(Ranked(listings)[i])
  {
    var ranked := RankListings(listings);
    table := DrawTable(ranked);
    flights := CleanAll(ranked, recode);
  }

  /** Read the first twenty listings, drop the rejected and duplicate ones,
      and sort the rest by price. */
  method RankListings(listings: seq<Listing>) returns (ranked: seq<FlightRecord>)
    ensures ranked == Ranked(listings)
  {
    var built := BuildRecords(listings);
    var deduped := DedupRecords(built);
    ranked := SortByPrice(deduped);
  }

  /** Clean every ranked record in place. */
  method CleanAll(ranked: seq<FlightRecord>, recode: string -> string) returns (flights: seq<FlightRecord>)
    ensures |flights| == |ranked|
    ensures forall i :: 0 <= i < |flights| ==> flights[i] == CleanRecord(ranked[i], recode)
  {
    var a := new FlightRecord[|ranked|](i requires 0 <= i < |ranked| => ranked[i]);
    CleanRecords(a, recode);
    flights := a[..];
  }

  // ---------------------------------------------------------------------
  // What the result promises

  lemma {:induction false} InsertKeepsUnique(x: FlightRecord, s: seq<FlightRecord>)
    requires UniqueKeys([x] + s)
    ensures UniqueKeys(Insert(x, s))
  {
    if s != [] && x.priceNumber > s[0].priceNumber {
      var rest := s[1..];
      assert UniqueKeys([x] + rest) by {
        forall i, j | 0 <= i < j < |[x] + rest|
          ensures KeyOf(([x] + rest)[i]) != KeyOf(([x] + rest)[j])
        {
          var u := [x] + s;
          assert ([x] + rest)[j] == u[j + 1];
          if i > 0 {
            assert ([x] + rest)[i] == u[i + 1];
            assert KeyOf(u[i + 1]) != KeyOf(u[j + 1]);
          } else {
            assert ([x] + rest)[i] == u[0];
            assert KeyOf(u[0]) != KeyOf(u[j + 1]);
          }
        }
      }
      InsertKeepsUnique(x, rest);
      var t := Insert(x, rest);
      forall j | 0 <= j < |t| ensures KeyOf(s[0]) != KeyOf(t[j]) {
        var u := [x] + s;
        var m := InsertSource(x, rest, j);
        assert u[1] == s[0];
        if m == -1 {
          assert u[0] == x;
          assert KeyOf(u[0]) != KeyOf(u[1]);
        } else {
          assert u[m + 2] == t[j];
          assert KeyOf(u[1]) != KeyOf(u[m + 2]);
        }
      }
      var r := [s[0]] + t;
      forall i, j | 0 <= i < j < |r| ensures KeyOf(r[i]) != KeyOf(r[j]) {
        if i > 0 {
          assert r[i] == t[i - 1] && r[j] == t[j - 1];
        } else {
          assert r[j] == t[j - 1];
        }
      }
    }
  }

  /** Sorting keeps keys distinct. */
  lemma {:induction false} SortKeepsUnique(fs: seq<FlightRecord>)
    requires UniqueKeys(fs)
    ensures UniqueKeys(SortByPrice(fs))
  {
    if fs != [] {
      var rest := fs[1..];
      assert UniqueKeys(rest) by {
        forall i, j | 0 <= i < j < |rest| ensures KeyOf(rest[i]) != KeyOf(rest[j]) {
          assert rest[i] == fs[i + 1] && rest[j] == fs[j + 1];
        }
      }
      SortKeepsUnique(rest);
      var t := SortByPrice(rest);
      var r := [fs[0]] + t;
      forall i, j | 0 <= i < j < |r| ensures KeyOf(r[i]) != KeyOf(r[j]) {
        if i > 0 {
          assert r[i] == t[i - 1] && r[j] == t[j - 1];
        } else {
          assert r[j] == t[j - 1];
          var m := SortSource(rest, j - 1);
          assert fs[m + 1] == t[j - 1];
        }
      }
      InsertKeepsUnique(fs[0], t);
    }
  }

  /** The records come out ordered by price, with no two sharing airline,
      departure, arrival and price text, and never more than twenty. */
  lemma RankedShape(listings: seq<Listing>)
    ensures SortedByPrice(Ranked(listings))
    ensures UniqueKeys(Ranked(listings))
    ensures |Ranked(listings)| <= MaxListings
  {
    var d := FirstOccurrences(Accepted(listings[..Min(MaxListings, |listings|)]));
    SortSorted(d);
    DedupUnique(Accepted(listings[..Min(MaxListings, |listings|)]));
    SortKeepsUnique(d);
  }

  /** The ranked records are the de-duplicated records rearranged, and
      records of equal price keep their de-duplicated order. */
  lemma RankedPermutation(listings: seq<Listing>, p: int)
    ensures multiset(Ranked(listings))
            == multiset(FirstOccurrences(Accepted(listings[..Min(MaxListings, |listings|)])))
    ensures PriceFilter(p, Ranked(listings))
            == PriceFilter(p, FirstOccurrences(Accepted(listings[..Min(MaxListings, |listings|)])))
  {
    var d := FirstOccurrences(Accepted(listings[..Min(MaxListings, |listings|)]));
    SortSorted(d);
    SortStable(p, d);
  }

  /** Clean-up keeps the price order of the result. */
  lemma ResultsOrdered(listings: seq<Listing>, recode: string -> string, i: nat, j: nat)
    requires i < j < |Ranked(listings)|
    ensures CleanRecord(Ranked(listings)[i], recode).priceNumber
            <= CleanRecord(Ranked(listings)[j], recode).priceNumber
  {
    RankedShape(listings);
    CleanRecordFields(Ranked(listings)[i], recode, Airline);
    CleanRecordFields(Ranked(listings)[j], recode, Airline);
  }

  /** Every result comes from one of the first twenty listings that was not
      skipped. */
  lemma RankedSource(listings: seq<Listing>, k: nat) returns (i: nat)
    requires k < |Ranked(listings)|
    ensures i < Min(MaxListings, |listings|) && BuildRecord(listings[i]) == Some(Ranked(listings)[k])
  {
    var first := listings[..Min(MaxListings, |listings|)];
    var built := Accepted(first);
    var d := FirstOccurrences(built);
    var r := Ranked(listings);
    var m := SortSource(d, k);
    var idx := DedupFirsts(built);
    var b := AcceptedSource(first, idx[m]);
    i := b;
  }

  /** Every listing among the first twenty that is not skipped is
      represented: a result carries its key. */
  lemma RankedComplete(listings: seq<Listing>, i: nat)
    requires i < Min(MaxListings, |listings|) && BuildRecord(listings[i]).Some?
    ensures KeyOf(BuildRecord(listings[i]).value) in KeySet(Ranked(listings))
  {
    var first := listings[..Min(MaxListings, |listings|)];
    var built := Accepted(first);
    var d := FirstOccurrences(built);
    var y := BuildRecord(listings[i]).value;
    assert first[i] == listings[i];
    AcceptedComplete(first, i);
    assert KeyOf(y) in KeySet(built);
    DedupKeepsKeys(built);
    SortedKeys(d);
  }

  lemma SortedKeys(d: seq<FlightRecord>)
    ensures KeySet(SortByPrice(d)) == KeySet(d)
  {
    SortSorted(d);
    forall x ensures x in d <==> x in SortByPrice(d) {
      assert x in d <==> x in multiset(d);
    }
  }
}
