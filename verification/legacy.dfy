/** The original single-file server of main.go, which scraped the old A-Z
    directory and the old detail pages by CSS class. The pages are inputs:
    the directory is its `.dinosaurfilter--dinosaur` nodes, and a detail page
    is the texts its selectors find plus its `dt`/`dd` pairs. Its `cleanText`
    and `camelCase` are the same code as utils/text.go and are modelled once,
    in `Text`. */
module Legacy {
  import opened Common
  import opened Strings
  import opened Text
  import Scraper
  import opened Aggregate

  // ---------------------------------------------------------------------------
  // The A-Z listing (main.go:25-47)

  /** One `.dinosaurfilter--dinosaur` node: the text of its unhyphenated name
      and its anchor's `href`, if it has one. */
  datatype ListingNode = ListingNode(nameText: string, href: Option<string>)

  function ListEntry(node: ListingNode): DinoRef {
    DinoRef(CleanText(node.nameText), node.href.GetOr(""))
  }

  /** One entry per node, in document order. */
  function ListEntries(nodes: seq<ListingNode>): (r: seq<DinoRef>)
    ensures |r| == |nodes|
  {
    if nodes == [] then [] else ListEntries(nodes[..|nodes| - 1]) + [ListEntry(nodes[|nodes| - 1])]
  }

  /** The entry at position `i` is built from the node at position `i`. */
  lemma {:induction false} ListEntryAt(nodes: seq<ListingNode>, i: nat)
    requires i < |nodes|
    ensures ListEntries(nodes)[i] == ListEntry(nodes[i])
  {
    var init := nodes[..|nodes| - 1];
    var last := nodes[|nodes| - 1];
    var r := ListEntries(nodes);
    assert r == ListEntries(init) + [ListEntry(last)];
    if i < |init| {
      ListEntryAt(init, i);
      assert init[i] == nodes[i];
      assert r[i] == ListEntries(init)[i];
    } else {
      assert r[i] == ListEntry(last);
    }
  }

  /** Nothing is filtered or merged: every node gives an entry, whose name is
      its cleaned text (whitespace-only text is kept as it is) and whose link
      is the `href`, or "" when the anchor has none. */
  lemma ListEntriesSpec(nodes: seq<ListingNode>, i: nat)
    requires i < |nodes|
    ensures |ListEntries(nodes)| == |nodes|
    ensures var e := ListEntries(nodes)[i];
      && (AllSpace(nodes[i].nameText) ==> e.name == nodes[i].nameText)
      && (!AllSpace(nodes[i].nameText) ==> Tidy(e.name) && NonSpace(e.name) == NonSpace(nodes[i].nameText))
      && (nodes[i].href.Some? ==> e.link == nodes[i].href.value)
      && (nodes[i].href.None? ==> e.link == "")
  {
    ListEntryAt(nodes, i);
    var t := nodes[i].nameText;
    if AllSpace(t) {
      CleanTextFallback(t);
    } else {
      CleanTextTidy(t);
      CleanTextKeepsText(t);
    }
  }

  /** One turn of the directory loop: the node's cleaned name and its link. */
  method ReadNode(node: ListingNode) returns (entry: DinoRef)
    ensures entry == ListEntry(node)
    ensures node.href.Some? ==> entry.link == node.href.value
    ensures node.href.None? ==> entry.link == ""
  {
    var name := CleanText(node.nameText);
    var link := node.href.GetOr("");
    entry := DinoRef(name, link);
  }

  /** `getOnlyDinoList`: a directory that could not be fetched or parsed is
      an empty list and the error. */
  method GetOnlyDinoList(index: Result<seq<ListingNode>>) returns (dinoList: seq<DinoRef>, err: Option<Error>)
    ensures index.Failure? ==> dinoList == [] && err == Some(index.error)
    ensures index.Success? ==> dinoList == ListEntries(index.value) && err == None
  {
    dinoList := [];
    if index.Failure? {
      return dinoList, Some(index.error);
    }
    dinoList := ReadNodes(index.value);
    err := None;
  }

  /** The `Each` callback over the directory's nodes: one entry appended per node. */
  method ReadNodes(nodes: seq<ListingNode>) returns (dinoList: seq<DinoRef>)
    ensures dinoList == ListEntries(nodes)
  {
    dinoList := [];
    for i := 0 to |nodes|
      invariant dinoList == ListEntries(nodes[..i])
    {
      var entry := ReadNode(nodes[i]);
      assert nodes[..i + 1][..i] == nodes[..i];
      dinoList := dinoList + [entry];
    }
    assert nodes[..|nodes|] == nodes;
  }

  // ---------------------------------------------------------------------------
  // The detail page (main.go:128-163)

  /** One `dt` of `.dinosaur--list` and the text of the element after it. */
  datatype Term = Term(dt: string, dd: string)

  /** What the detail page's selectors find. */
  datatype LegacyPage = LegacyPage(
    nameText: string,            // .dinosaur--name-unhyphenated
    pronunciationText: string,   // .dinosaur--pronunciation
    meaningText: string,         // .dinosaur--meaning
    imageSrc: Option<string>,    // .dinosaur--image's src
    contentText: string,         // .dinosaur--content-container p
    terms: seq<Term>)

  /** The meaning: the cleaned text without its first character (the page
      puts an opening quote there), or "N/A" when the text is empty. */
  function MeaningOf(text: string): string {
    var cleaned := CleanText(text);
    if |cleaned| > 0 then cleaned[1..] else "N/A"
  }

  /** "N/A" stands for an empty meaning text only: whitespace-only text keeps
      its whitespace less one character, and visible text loses its first
      character and is otherwise cleaned. */
  lemma MeaningOfSpec(text: string)
    ensures text == "" ==> MeaningOf(text) == "N/A"
    ensures text != "" && AllSpace(text) ==> MeaningOf(text) == text[1..]
    ensures !AllSpace(text) ==>
      (&& |MeaningOf(text)| + 1 == |CleanText(text)|
       && MeaningOf(text) == CleanText(text)[1..]
       && '\n' !in MeaningOf(text) && '\t' !in MeaningOf(text))
  {
    CleanTextEmpty(text);
    if AllSpace(text) {
      CleanTextFallback(text);
    } else {
      CleanTextTidy(text);
    }
  }

  /** The key a `dt` is stored under: its cleaned text without trailing
      colons, camel-cased. */
  function TermKey(dt: string): string {
    CamelCaseOf(TrimRightChar(CleanText(dt), ':'))
  }

  /** A key has no whitespace, and up to case it is the label's visible
      characters once the trailing colons are gone. */
  lemma TermKeySpec(dt: string)
    ensures NoSpace(TermKey(dt))
    ensures ToLower(TermKey(dt)) == ToLower(NonSpace(TrimRightChar(CleanText(dt), ':')))
  {
    CamelCaseNoSpace(TrimRightChar(CleanText(dt), ':'));
    CamelCaseLowered(TrimRightChar(CleanText(dt), ':'));
  }

  /** The record before the `dt`/`dd` pairs are merged in. */
  function BaseRecord(p: LegacyPage): (r: Record)
    ensures r.Keys == CoreKeys
    ensures r["name"] == CleanText(p.nameText) && r["pronunciation"] == CleanText(p.pronunciationText)
    ensures r["meaning"] == MeaningOf(p.meaningText) && r["picture"] == p.imageSrc.GetOr("")
    ensures r["content"] == CleanText(p.contentText)
  {
    CoreRecord(CleanText(p.nameText), CleanText(p.pronunciationText), MeaningOf(p.meaningText),
      p.imageSrc.GetOr(""), CleanText(p.contentText))
  }

  /** A pair as it is written into the record: its key and its cleaned `dd`. */
  datatype KeyValue = KeyValue(key: string, value: string)

  function PairOf(t: Term): KeyValue {
    KeyValue(TermKey(t.dt), CleanText(t.dd))
  }

  function TermPairs(terms: seq<Term>): seq<KeyValue> {
    seq(|terms|, i requires 0 <= i < |terms| => PairOf(terms[i]))
  }

  /** `data` with every pair written in, in document order. */
  function Merge(data: Record, ps: seq<KeyValue>): (r: Record)
    ensures data.Keys <= r.Keys
  {
    if ps == [] then data
    else Merge(data, ps[..|ps| - 1])[ps[|ps| - 1].key := ps[|ps| - 1].value]
  }

  lemma MergeStep(data: Record, ps: seq<KeyValue>, i: nat)
    requires i < |ps|
    ensures Merge(data, ps[..i + 1]) == Merge(data, ps[..i])[ps[i].key := ps[i].value]
  {
    assert ps[..i + 1][..i] == ps[..i];
  }

  /** The position of the last pair whose key is `k`. */
  function LastFor(ps: seq<KeyValue>, k: string): (i: Option<nat>)
    ensures i.Some? ==>
      (&& i.value < |ps| && ps[i.value].key == k
       && forall j :: i.value < j < |ps| ==> ps[j].key != k)
    ensures i.None? ==> forall j :: 0 <= j < |ps| ==> ps[j].key != k
  {
    if ps == [] then None
    else if ps[|ps| - 1].key == k then Some(|ps| - 1)
    else LastFor(ps[..|ps| - 1], k)
  }

  /** The last pair with a given key wins, over earlier pairs and over the
      base record (a `dt` reading "Name:" replaces the name); a key no pair
      produces keeps its base value. */
  lemma {:induction false} MergeLastWins(data: Record, ps: seq<KeyValue>, k: string)
    ensures k in Merge(data, ps) <==> k in data || LastFor(ps, k).Some?
    ensures LastFor(ps, k).Some? ==> Merge(data, ps)[k] == ps[LastFor(ps, k).value].value
    ensures LastFor(ps, k).None? && k in data ==> Merge(data, ps)[k] == data[k]
  {
    if ps != [] {
      var init := ps[..|ps| - 1];
      MergeLastWins(data, init, k);
      if ps[|ps| - 1].key != k {
        assert LastFor(ps, k) == LastFor(init, k);
      }
    }
  }

  /** One turn of the `dt` loop: the label is cleaned, its trailing colons
      dropped and the rest camel-cased by `CamelCase`; the `dd` is cleaned. */
  method ReadTerm(t: Term) returns (p: KeyValue)
    ensures p == PairOf(t)
    ensures NoSpace(p.key)
  {
    var key := TrimRightChar(CleanText(t.dt), ':');
    var val := CleanText(t.dd);
    var k := CamelCase(key);
    p := KeyValue(k, val);
  }

  /** The `dt` loop: each pair is written over the record in turn. */
  method ApplyTerms(data: Record, terms: seq<Term>) returns (r: Record)
    ensures r == Merge(data, TermPairs(terms))
  {
    ghost var ps := TermPairs(terms);
    r := data;
    for i := 0 to |terms|
      invariant r == Merge(data, ps[..i])
    {
      var p := ReadTerm(terms[i]);
      assert ps[i] == p;
      MergeStep(data, ps, i);
      r := r[p.key := p.value];
    }
    assert ps[..|terms|] == ps;
  }

  /** `getDinoByName` on the page fetched for `name`. */
  function LegacyDetail(name: string, fetch: string -> Result<LegacyPage>): (r: Scraper.Scraped)
    ensures r.err.Some? ==> r.data == map[]
    ensures r.err.None? ==> CoreKeys <= r.data.Keys
    ensures fetch(Scraper.DetailPath(name)).Failure? ==>
      r == Scraper.Scraped(map[], Some(fetch(Scraper.DetailPath(name)).error))
    ensures fetch(Scraper.DetailPath(name)).Success? ==>
      var p := fetch(Scraper.DetailPath(name)).value;
      r == Scraper.Scraped(Merge(BaseRecord(p), TermPairs(p.terms)), None)
  {
    match fetch(Scraper.DetailPath(name))
    case Failure(e) => Scraper.Scraped(map[], Some(e))
    case Success(p) => Scraper.Scraped(Merge(BaseRecord(p), TermPairs(p.terms)), None)
  }

  /** A fetched page gives no error and a record that holds the core keys
      and every key a pair produces, and nothing else: a key takes the
      value of its last pair, and a core key no pair produces keeps the
      value the page's selectors gave it. */
  lemma LegacyDetailFields(name: string, fetch: string -> Result<LegacyPage>, k: string)
    ensures fetch(Scraper.DetailPath(name)).Success? ==>
      var p := fetch(Scraper.DetailPath(name)).value;
      var ps := TermPairs(p.terms);
      var r := LegacyDetail(name, fetch);
      && r.err == None
      && (k in r.data <==> k in CoreKeys || LastFor(ps, k).Some?)
      && (LastFor(ps, k).Some? ==> r.data[k] == ps[LastFor(ps, k).value].value)
      && (LastFor(ps, k).None? && k in CoreKeys ==> r.data[k] == BaseRecord(p)[k])
  {
    if fetch(Scraper.DetailPath(name)).Success? {
      var p := fetch(Scraper.DetailPath(name)).value;
      MergeLastWins(BaseRecord(p), TermPairs(p.terms), k);
    }
  }

  /** Unless a pair is keyed "meaning", the record reads "N/A" exactly when the
      page's meaning text is empty or is one character followed by "N/A". */
  lemma LegacyNoData(name: string, fetch: string -> Result<LegacyPage>)
    requires fetch(Scraper.DetailPath(name)).Success?
    requires LastFor(TermPairs(fetch(Scraper.DetailPath(name)).value.terms), "meaning").None?
    ensures var text := fetch(Scraper.DetailPath(name)).value.meaningText;
      IsNoData(LegacyDetail(name, fetch).data) <==> text == "" || CleanText(text)[1..] == "N/A"
  {
    var p := fetch(Scraper.DetailPath(name)).value;
    MergeLastWins(BaseRecord(p), TermPairs(p.terms), "meaning");
    CleanTextEmpty(p.meaningText);
  }

  /** `getDinoByName`: fetch the page, read the fixed fields, then merge the
      `dt`/`dd` pairs. */
  method GetDinoByName(name: string, fetch: string -> Result<LegacyPage>) returns (data: Record, err: Option<Error>)
    ensures Scraper.Scraped(data, err) == LegacyDetail(name, fetch)
  {
    var fetched := fetch(Scraper.DetailPath(name));
    if fetched.Failure? {
      return map[], Some(fetched.error);
    }
    var p := fetched.value;
    var meaning := CleanText(p.meaningText);
    if |meaning| > 0 {
      meaning := meaning[1..];
    } else {
      meaning := "N/A";
    }
    data := CoreRecord(CleanText(p.nameText), CleanText(p.pronunciationText), meaning,
      p.imageSrc.GetOr(""), CleanText(p.contentText));
    data := ApplyTerms(data, p.terms);
    err := None;
  }

  // ---------------------------------------------------------------------------
  // The handlers (main.go:49-126, 165-180)

  /** `getAllDinoList`: a failed listing is a 500; otherwise every node's entry. */
  method GetAllDinoList(index: Result<seq<ListingNode>>) returns (resp: Response)
    ensures index.Failure? ==> resp == InternalServerError
    ensures index.Success? ==> resp == ListBody(|index.value|, ListEntries(index.value))
  {
    var dinoList, err := GetOnlyDinoList(index);
    if err.Some? {
      return InternalServerError;
    }
    resp := ListBody(|dinoList|, dinoList);
  }

  function LegacyOutcomes(list: seq<DinoRef>, fetch: string -> Result<LegacyPage>): (os: seq<Outcome>)
    ensures |os| == |list|
    ensures forall i :: 0 <= i < |list| ==> os[i].entry == list[i]
    ensures forall i :: 0 <= i < |list| ==>
      Scraper.Scraped(os[i].data, os[i].err) == LegacyDetail(list[i].name, fetch)
  {
    if list == [] then []
    else
      var d := list[|list| - 1];
      var s := LegacyDetail(d.name, fetch);
      LegacyOutcomes(list[..|list| - 1], fetch) + [Outcome(d, s.data, s.err)]
  }

  /** The fan-out: one scrape per listed entry, by its name. */
  method ScrapeAll(list: seq<DinoRef>, fetch: string -> Result<LegacyPage>) returns (outcomes: seq<Outcome>)
    ensures outcomes == LegacyOutcomes(list, fetch)
  {
    outcomes := [];
    for i := 0 to |list|
      invariant outcomes == LegacyOutcomes(list[..i], fetch)
    {
      var dinoData, e := GetDinoByName(list[i].name, fetch);
      outcomes := outcomes + [Outcome(list[i], dinoData, e)];
      assert list[..i + 1][..i] == list[..i];
    }
    assert list[..|list|] == list;
  }

  function LegacyDetailsReply(list: seq<DinoRef>, fetch: string -> Result<LegacyPage>): Response {
    var os := LegacyOutcomes(list, fetch);
    DetailsBody(|Survivors(os)|, Survivors(os), Wrap16(NoDataCount(os)))
  }

  /** `getAllDinoListWithDetails`: a failed listing is a 500; otherwise each
      entry's name is scraped and the fan-in of `Aggregate` builds the reply. */
  method GetAllDinoListWithDetails(index: Result<seq<ListingNode>>, fetch: string -> Result<LegacyPage>)
    returns (resp: Response)
    ensures index.Failure? ==> resp == InternalServerError
    ensures index.Success? ==> resp == LegacyDetailsReply(ListEntries(index.value), fetch)
  {
    var list, err := GetOnlyDinoList(index);
    if err.Some? {
      return InternalServerError;
    }
    var outcomes := ScrapeAll(list, fetch);
    var processed, noData := Collect(outcomes);
    resp := DetailsBody(|processed|, processed, noData);
  }

  /** The records of the reply carry the detail keys and the name and link of
      a listed entry; below the counter's limit `noData` counts the "N/A"
      records and so never exceeds `results`. */
  lemma LegacyDetailsReplySpec(list: seq<DinoRef>, fetch: string -> Result<LegacyPage>)
    ensures var r := LegacyDetailsReply(list, fetch);
      && r.results == |r.records| <= |list|
      && (forall rec :: rec in r.records ==>
            && CoreKeys + {"link"} <= rec.Keys
            && (exists e :: e in list && rec["name"] == e.name && rec["link"] == e.link))
      && r.noData <= r.results
      && (|list| <= Int16Max ==> r.noData == CountNoData(r.records))
  {
    var os := LegacyOutcomes(list, fetch);
    forall o | o in os
      ensures o.err.Some? ==> o.data == map[]
      ensures o.err.None? ==> CoreKeys <= o.data.Keys
      ensures o.entry in list
    {
      var i :| 0 <= i < |os| && os[i] == o;
      assert list[i] in list;
    }
    NoDataCountsSurvivors(os);
    SurvivorRecords(os, CoreKeys);
    forall rec | rec in Survivors(os)
      ensures exists e :: e in list && rec["name"] == e.name && rec["link"] == e.link
    {
      var o :| o in os && rec["name"] == o.entry.name && rec["link"] == o.entry.link;
    }
  }

  /** `getDinoDataByName`: the error is discarded; a failed scrape replies
      with an empty record. */
  method GetDinoDataByName(name: string, fetch: string -> Result<LegacyPage>) returns (resp: Response)
    ensures resp == RecordBody(LegacyDetail(name, fetch).data)
    ensures LegacyDetail(name, fetch).err.Some? ==> resp == RecordBody(map[])
  {
    var dinoData, _ := GetDinoByName(name, fetch);
    resp := RecordBody(dinoData);
  }
}
