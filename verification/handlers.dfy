/** The HTTP handlers of handlers/handlers.go over the concurrent scraper.
    The landing page and every detail page are inputs (see `Scraper`); a
    handler's reply is a `Response`. */
module Handlers {
  import opened Common
  import Scraper
  import opened Aggregate

  /** `GetAllDinoList`: a listing that failed is a 500; otherwise the
      listing, with `results` its length. */
  method GetAllDinoList(landing: Result<seq<Option<string>>>) returns (resp: Response)
    ensures landing.Failure? ==> resp == InternalServerError
    ensures landing.Success? ==> resp == ListBody(|Scraper.DinoList(landing.value)|, Scraper.DinoList(landing.value))
    ensures resp.ListBody? ==> resp.results == |resp.entries| <= |landing.value|
  {
    var dinoList := Scraper.GetOnlyDinoListConcurrent(landing);
    if dinoList.Failure? {
      return InternalServerError;
    }
    Scraper.DinoListSpec(landing.value);
    resp := ListBody(|dinoList.value|, dinoList.value);
  }

  /** The outcome of scraping every listed dinosaur by its name. */
  function DetailOutcomes(list: seq<DinoRef>, fetch: string -> Result<Scraper.DetailPage>, fmt: Scraper.FloatFormat): (os: seq<Outcome>)
    ensures |os| == |list|
    ensures forall i :: 0 <= i < |list| ==> os[i].entry == list[i]
    ensures forall i :: 0 <= i < |list| ==>
      Scraper.Scraped(os[i].data, os[i].err) == Scraper.ScrapeDetail(list[i].name, fetch, fmt)
  {
    if list == [] then []
    else
      var d := list[|list| - 1];
      var s := Scraper.ScrapeDetail(d.name, fetch, fmt);
      DetailOutcomes(list[..|list| - 1], fetch, fmt) + [Outcome(d, s.data, s.err)]
  }

  /** The fan-out: one scrape per listed entry, by its name. */
  method ScrapeAll(list: seq<DinoRef>, fetch: string -> Result<Scraper.DetailPage>, fmt: Scraper.FloatFormat)
    returns (outcomes: seq<Outcome>)
    ensures outcomes == DetailOutcomes(list, fetch, fmt)
  {
    outcomes := [];
    for i := 0 to |list|
      invariant outcomes == DetailOutcomes(list[..i], fetch, fmt)
    {
      var dinoData, err := Scraper.GetDinoByName(list[i].name, fetch, fmt);
      outcomes := outcomes + [Outcome(list[i], dinoData, err)];
      assert list[..i + 1][..i] == list[..i];
    }
    assert list[..|list|] == list;
  }

  /** The body `GetAllDinoListWithDetails` sends for a listing. */
  function DetailsReply(list: seq<DinoRef>, fetch: string -> Result<Scraper.DetailPage>, fmt: Scraper.FloatFormat): Response {
    var os := DetailOutcomes(list, fetch, fmt);
    DetailsBody(|Survivors(os)|, Survivors(os), Wrap16(NoDataCount(os)))
  }

  /** `GetAllDinoListWithDetails`: a listing that failed is a 500; otherwise
      every listed name is scraped, and the reply holds the successful
      records, stamped, and the count of "N/A" meanings. */
  method GetAllDinoListWithDetails(landing: Result<seq<Option<string>>>, fetch: string -> Result<Scraper.DetailPage>, fmt: Scraper.FloatFormat)
    returns (resp: Response)
    ensures landing.Failure? ==> resp == InternalServerError
    ensures landing.Success? ==> resp == DetailsReply(Scraper.DinoList(landing.value), fetch, fmt)
  {
    var dinoList := Scraper.GetOnlyDinoListConcurrent(landing);
    if dinoList.Failure? {
      return InternalServerError;
    }
    var outcomes := ScrapeAll(dinoList.value, fetch, fmt);
    var processed, noData := Collect(outcomes);
    resp := DetailsBody(|processed|, processed, noData);
  }

  /** Every record of the details reply is a listed dinosaur's: it carries the
      listing's name and link and the detail keys; there are no more records
      than listed names, and, below the counter's limit, `noData` counts the
      records whose meaning is "N/A". */
  lemma DetailsReplySpec(list: seq<DinoRef>, fetch: string -> Result<Scraper.DetailPage>, fmt: Scraper.FloatFormat)
    ensures var r := DetailsReply(list, fetch, fmt);
      && r.results == |r.records| <= |list|
      && (forall rec :: rec in r.records ==>
            && CoreKeys + {"link"} <= rec.Keys
            && (exists e :: e in list && rec["name"] == e.name && rec["link"] == e.link))
      && r.noData <= r.results
      && (|list| <= Int16Max ==> r.noData == CountNoData(r.records))
  {
    var os := DetailOutcomes(list, fetch, fmt);
    forall o | o in os
      ensures o.err.Some? ==> o.data == map[]
      ensures o.err.None? ==> CoreKeys <= o.data.Keys
      ensures o.entry in list
    {
      var i :| 0 <= i < |os| && os[i] == o;
      assert list[i] in list;
    }
    NoDataCountsSurvivors(os);
    SurvivorRecords(os, CoreKeys);
    forall rec | rec in Survivors(os)
      ensures exists e :: e in list && rec["name"] == e.name && rec["link"] == e.link
    {
      var o :| o in os && rec["name"] == o.entry.name && rec["link"] == o.entry.link;
    }
  }

  /** `GetDinoDataByName`: the scraper's error is discarded, so the reply is
      always the record, empty when the scrape failed. */
  method GetDinoDataByName(name: string, fetch: string -> Result<Scraper.DetailPage>, fmt: Scraper.FloatFormat)
    returns (resp: Response)
    ensures resp == RecordBody(Scraper.ScrapeDetail(name, fetch, fmt).data)
    ensures Scraper.ScrapeDetail(name, fetch, fmt).err.Some? ==> resp == RecordBody(map[])
  {
    var dinoData, _ := Scraper.GetDinoByName(name, fetch, fmt);
    resp := RecordBody(dinoData);
  }
}
