/** The record builder of the scraper: one flight record per listing that
    shows a price and a usable airline name, from the first twenty listings
    on the page. */
module Records {
  import opened Text
  import opened Extract

  /** What the six selectors of one listing found. */
  datatype Listing = Listing(
    departure: Element, arrival: Element, airline: Element,
    duration: Element, stops: Element, price: Element)

  /** One entry of `flight_data`. */
  datatype FlightRecord = FlightRecord(
    airline: string, price: string, priceNumber: int,
    duration: string, stops: string, departure: string, arrival: string)

  /** At most this many listings are read. */
  const MaxListings := 20

  /** The airline names that mark a listing as unusable, besides an
      all-digit name. */
  predicate RejectedAirline(a: string)
  {
    a == "" || a == "N/A" || IsDigitString(a)
  }

  /** What every record the builder keeps looks like. */
  predicate WellFormed(r: FlightRecord)
  {
    && r.priceNumber >= 0
    && r.price != [] && IsCurrency(r.price[0]) && ' ' !in r.price
    && !RejectedAirline(r.airline) && Trimmed(r.airline) && NoLineBreak(r.airline)
    && Trimmed(r.duration) && NoLineBreak(r.duration)
    && Trimmed(r.stops) && NoLineBreak(r.stops)
    && (r.departure == "N/A" || Trimmed(r.departure))
    && (r.arrival == "N/A" || Trimmed(r.arrival))
  }

  lemma GetTextDefined(el: Element)
    ensures FirstLineDefined(GetText(el))
  {
    GetTextShape(el);
  }

  /** The body of the listing loop: the record for one listing, or `None`
      when the listing is skipped. */
  function BuildRecord(l: Listing): (r: Option<FlightRecord>)
    ensures r.Some? ==> !RejectedAirline(r.value.airline) && r.value.priceNumber >= 0
  {
    var airline := ExtractAirline(GetText(l.airline));
    var (disp, value) := ExtractPrice(GetText(l.price));
    var durationRaw := GetText(l.duration);
    var stopsRaw := GetText(l.stops);
    GetTextDefined(l.duration);
    GetTextDefined(l.stops);
    if value.None? || RejectedAirline(airline) then None
    else
      Some(FlightRecord(
        airline, disp, value.value,
        CleanDuration(durationRaw), CleanStops(stopsRaw),
        GetText(l.departure), GetText(l.arrival)))
  }

  /** Every record the builder keeps is well formed. */
  lemma BuildRecordWellFormed(l: Listing)
    ensures BuildRecord(l).Some? ==> WellFormed(BuildRecord(l).value)
  {
    var durationRaw := GetText(l.duration);
    var stopsRaw := GetText(l.stops);
    GetTextDefined(l.duration);
    GetTextDefined(l.stops);
    ExtractAirlineShape(GetText(l.airline));
    ExtractPriceSpec(GetText(l.price));
    CleanDurationShape(durationRaw);
  }

  /** A listing is skipped exactly when it shows no price or its airline
      text is empty, "N/A" or all digits; a kept listing's record carries the
      first price of the price text and the airline of the airline text. */
  lemma BuildRecordSkips(l: Listing)
    ensures BuildRecord(l).None? <==>
              || (forall j :: 0 <= j < |GetText(l.price)| ==> !PriceAt(GetText(l.price), j))
              || RejectedAirline(ExtractAirline(GetText(l.airline)))
    ensures BuildRecord(l).Some? ==>
              && BuildRecord(l).value.airline == ExtractAirline(GetText(l.airline))
              && (BuildRecord(l).value.price, Some(BuildRecord(l).value.priceNumber))
                 == ExtractPrice(GetText(l.price))
  {
    ExtractPriceSpec(GetText(l.price));
  }

  /** The present values of `os`, in order. */
  function Kept<T>(os: seq<Option<T>>): (vs: seq<T>)
    ensures |vs| <= |os|
  {
    if os == [] then []
    else
      var rest := Kept(os[..|os| - 1]);
      match os[|os| - 1]
      case None => rest
      case Some(v) => rest + [v]
  }

  lemma {:induction false} KeptSource<T>(os: seq<Option<T>>, k: nat) returns (i: nat)
    requires k < |Kept(os)|
    ensures i < |os| && os[i] == Some(Kept(os)[k])
  {
    var init := os[..|os| - 1];
    if k < |Kept(init)| {
      i := KeptSource(init, k);
      assert os[i] == init[i];
    } else {
      i := |os| - 1;
    }
  }

  lemma {:induction false} KeptComplete<T>(os: seq<Option<T>>, i: nat)
    requires i < |os| && os[i].Some?
    ensures os[i].value in Kept(os)
  {
    var init := os[..|os| - 1];
    if i < |init| {
      assert init[i] == os[i];
      KeptComplete(init, i);
    }
  }

  /** `Kept(os)` is a subsequence of `os`: `idx[k]` is where its k-th value
      stands, and the positions increase. */
  lemma {:induction false} KeptIndices<T>(os: seq<Option<T>>) returns (idx: seq<nat>)
    ensures |idx| == |Kept(os)|
    ensures forall k :: 0 <= k < |idx| ==> idx[k] < |os| && os[idx[k]] == Some(Kept(os)[k])
    ensures forall k, m :: 0 <= k < m < |idx| ==> idx[k] < idx[m]
  {
    if os == [] {
      idx := [];
    } else {
      var init := os[..|os| - 1];
      var prev := KeptIndices(init);
      forall k | 0 <= k < |prev| ensures os[prev[k]] == init[prev[k]] {
      }
      match os[|os| - 1]
      case None =>
        idx := prev;
      case Some(v) =>
        idx := prev + [|os| - 1];
        assert Kept(os) == Kept(init) + [v];
    }
  }

  /** The outcome of the loop body for each listing. */
  function Built(ls: seq<Listing>): (os: seq<Option<FlightRecord>>)
    ensures |os| == |ls|
  {
    seq(|ls|, i requires 0 <= i < |ls| => BuildRecord(ls[i]))
  }

  /** The records of the listings, in order, skipping the rejected ones. */
  function Accepted(ls: seq<Listing>): (rs: seq<FlightRecord>)
    ensures |rs| <= |ls|
  {
    Kept(Built(ls))
  }

  /** Reading one more listing appends its record, unless it is skipped. */
  lemma AcceptedSnoc(ls: seq<Listing>, l: Listing)
    ensures BuildRecord(l).None? ==> Accepted(ls + [l]) == Accepted(ls)
    ensures BuildRecord(l).Some? ==> Accepted(ls + [l]) == Accepted(ls) + [BuildRecord(l).value]
  {
    var os := Built(ls + [l]);
    assert os[..|os| - 1] == Built(ls);
    assert os[|os| - 1] == BuildRecord(l);
  }

  lemma AcceptedStep(ls: seq<Listing>, i: nat, r: Option<FlightRecord>)
    requires i < |ls| && r == BuildRecord(ls[i])
    ensures r.None? ==> Accepted(ls[..i + 1]) == Accepted(ls[..i])
    ensures r.Some? ==> Accepted(ls[..i + 1]) == Accepted(ls[..i]) + [r.value]
  {
    PrefixSnoc(ls, i);
    AcceptedSnoc(ls[..i], ls[i]);
  }

  lemma AcceptedWellFormed(ls: seq<Listing>)
    ensures forall k :: 0 <= k < |Accepted(ls)| ==> WellFormed(Accepted(ls)[k])
  {
    forall k | 0 <= k < |Accepted(ls)| ensures WellFormed(Accepted(ls)[k]) {
      var i := KeptSource(Built(ls), k);
      BuildRecordWellFormed(ls[i]);
    }
  }

  /** Every kept record is the record of a listing that was not skipped. */
  lemma AcceptedSource(ls: seq<Listing>, k: nat) returns (i: nat)
    requires k < |Accepted(ls)|
    ensures i < |ls| && BuildRecord(ls[i]) == Some(Accepted(ls)[k])
  {
    i := KeptSource(Built(ls), k);
  }

  /** The kept records appear in listing order. */
  lemma AcceptedInOrder(ls: seq<Listing>) returns (idx: seq<nat>)
    ensures |idx| == |Accepted(ls)|
    ensures forall k :: 0 <= k < |idx| ==> idx[k] < |ls| && BuildRecord(ls[idx[k]]) == Some(Accepted(ls)[k])
    ensures forall k, m :: 0 <= k < m < |idx| ==> idx[k] < idx[m]
  {
    idx := KeptIndices(Built(ls));
  }

  /** Every listing that is not skipped has its record kept. */
  lemma AcceptedComplete(ls: seq<Listing>, i: nat)
    requires i < |ls| && BuildRecord(ls[i]).Some?
    ensures BuildRecord(ls[i]).value in Accepted(ls)
  {
    KeptComplete(Built(ls), i);
  }

  /** The listing loop over the first twenty listings. */
  method BuildRecords(listings: seq<Listing>) returns (flights: seq<FlightRecord>)
    ensures flights == Accepted(listings[..Min(MaxListings, |listings|)])
  {
    var n := Min(MaxListings, |listings|);
    flights := [];
    var i := 0;
    while i < n
      invariant 0 <= i <= n
      invariant flights == Accepted(listings[..i])
    {
      flights := ReadListing(flights, listings, i);
      i := i + 1;
    }
  }

  /** One pass of the loop body: the record of listing `i` is appended
      unless the listing is skipped. */
  method ReadListing(flights: seq<FlightRecord>, listings: seq<Listing>, i: nat)
    returns (next: seq<FlightRecord>)
    requires i < |listings| && flights == Accepted(listings[..i])
    ensures next == Accepted(listings[..i + 1])
  {
    var r := BuildRecord(listings[i]);
    AcceptedStep(listings, i, r);
    next := flights;
    if r.Some? {
      next := next + [r.value];
    }
  }
}
