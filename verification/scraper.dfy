/** The scraper of scraper/scraper.go: the landing-page link harvest that
    lists the dinosaurs, the slug-to-name humaniser, and the detail record
    built from the page's decoded `__NEXT_DATA__` payload. Fetching, HTML
    selection and JSON decoding are inputs: the landing page is the sequence
    of its anchors' `href` attributes, and a detail page is its
    `__NEXT_DATA__` script text together with what decoding it produced. */
module Scraper {
  import opened Common
  import opened Strings
  import opened Text

  const DirectoryPrefix := "/discover/dino-directory/"
  const HtmlSuffix := ".html"
  const EnDash := '\U{2013}'

  // ---------------------------------------------------------------------------
  // stripHTML (scraper/scraper.go:33-38)

  /** No `<` is followed, anywhere later, by a `>`: no tag is left to match. */
  predicate TagFree(s: string) {
    forall i, j :: 0 <= i < j < |s| && s[i] == '<' ==> s[j] != '>'
  }

  /** `htmlTagRe.ReplaceAllString(s, "")` for the pattern `<[^>]*>`, as a left
      to right scan: a `<` with a `>` somewhere after it starts a match that
      ends at the first such `>`; any other character is kept. */
  function StripTags(s: string): (r: string)
    ensures forall c :: c in r ==> c in s
    ensures TagFree(r)
    ensures TagFree(s) ==> r == s
    decreases |s|
  {
    if s == [] then []
    else if s[0] == '<' && '>' in s then
      StripTags(s[FirstIndex(s, '>') + 1..])
    else
      var rest := StripTags(s[1..]);
      assert s[0] == '<' ==> '>' !in rest;
      assert TagFree(s) ==> TagFree(s[1..]) by {
        if TagFree(s) {
          forall i, j | 0 <= i < j < |s[1..]| && s[1..][i] == '<' ensures s[1..][j] != '>' {
            assert s[i + 1] == '<';
          }
        }
      }
      [s[0]] + rest
  }

  lemma TagFreeSlice(s: string, a: nat, b: nat)
    requires TagFree(s) && a <= b <= |s|
    ensures TagFree(s[a..b])
  {
    forall i, j | 0 <= i < j < b - a && s[a..b][i] == '<' ensures s[a..b][j] != '>' {
      assert s[a + i] == '<';
    }
  }

  lemma TagFreeTrimmed(s: string)
    requires TagFree(s)
    ensures TagFree(TrimSpace(s))
  {
    var t := TrimLeft(s);
    TrimLeftDropsSpace(s);
    TrimRightDropsSpace(t);
    TagFreeSlice(s, |s| - |t|, |s|);
    TagFreeSlice(t, 0, |TrimRight(t)|);
  }

  function StripHTML(s: string): string {
    TrimSpace(StripTags(s))
  }

  /** Tags are gone from the result, and text without a tag is only trimmed. */
  lemma StripHTMLSpec(s: string)
    ensures TagFree(StripHTML(s))
    ensures TagFree(s) ==> StripHTML(s) == TrimSpace(s)
  {
    TagFreeTrimmed(StripTags(s));
  }

  /** Text before the first `<` is kept as it is. */
  lemma {:induction false} StripTagsKeepsText(a: string, b: string)
    requires '<' !in a
    ensures StripTags(a + b) == a + StripTags(b)
  {
    var s := a + b;
    if a == [] {
      assert s == b;
    } else {
      assert s[0] == a[0] && s[0] != '<';
      assert s[1..] == a[1..] + b;
      assert StripTags(s) == [s[0]] + StripTags(s[1..]);
      StripTagsKeepsText(a[1..], b);
    }
  }

  /** A span from a `<` to the next `>` is deleted, and the scan resumes
      after it. */
  lemma StripTagsDropsSpan(t: string, b: string)
    requires '>' !in t
    ensures StripTags("<" + t + ">" + b) == StripTags(b)
  {
    var s := "<" + t + ">" + b;
    assert s[|t| + 1] == '>';
    var k := FirstIndex(s, '>');
    assert k == |t| + 1;
    assert s[k + 1..] == b;
  }

  /** Stripping tags a second time changes nothing. */
  lemma StripTagsIdempotent(s: string)
    ensures StripTags(StripTags(s)) == StripTags(s)
  {
  }

  // ---------------------------------------------------------------------------
  // Link harvest (scraper/scraper.go:55-74)

  /** The filter applied to every anchor's `href`. */
  predicate IsDetailLink(href: string) {
    && href != ""
    && HasPrefix(href, DirectoryPrefix) && HasSuffix(href, HtmlSuffix)
    && var parts := Split(TrimPrefix(href, DirectoryPrefix), '/');
       |parts| == 1 && HasSuffix(parts[0], HtmlSuffix)
  }

  /** An href is kept exactly when it is `/discover/dino-directory/<segment>.html`
      with no further `/` in the segment. */
  lemma IsDetailLinkIff(href: string)
    ensures IsDetailLink(href) <==>
      && HasPrefix(href, DirectoryPrefix)
      && HasSuffix(href, HtmlSuffix)
      && '/' !in href[|DirectoryPrefix|..]
  {
    var n, m := |DirectoryPrefix|, |HtmlSuffix|;
    if HasPrefix(href, DirectoryPrefix) && HasSuffix(href, HtmlSuffix) {
      var rest := href[n..];
      assert TrimPrefix(href, DirectoryPrefix) == rest;
      // The prefix has no '.', and the suffix starts with one, so they cannot overlap.
      assert href[|href| - m] == '.' by { assert href[|href| - m..][0] == HtmlSuffix[0]; }
      assert '.' !in DirectoryPrefix;
      assert forall q :: 0 <= q < n ==> href[q] != '.' by {
        forall q | 0 <= q < n ensures href[q] != '.' { assert href[..n][q] == DirectoryPrefix[q]; }
      }
      assert rest[|rest| - m..] == href[|href| - m..];
      if '/' in rest {
        assert |Split(rest, '/')| >= 2;
      }
    }
  }

  /** The hrefs that pass the filter, in document order. */
  function Qualifying(hrefs: seq<Option<string>>): (r: seq<string>)
    ensures forall h :: h in r <==> Some(h) in hrefs && IsDetailLink(h)
    ensures |r| <= |hrefs|
  {
    if hrefs == [] then []
    else
      var init := hrefs[..|hrefs| - 1];
      var q := Qualifying(init);
      assert hrefs == init + [hrefs[|hrefs| - 1]];
      match hrefs[|hrefs| - 1]
      case Some(h) => if IsDetailLink(h) then q + [h] else q
      case None => q
  }

  predicate Distinct(xs: seq<string>) {
    forall i, j :: 0 <= i < j < |xs| ==> xs[i] != xs[j]
  }

  /** The elements of `xs` without repetitions, each kept where it first occurs. */
  function Dedup(xs: seq<string>): (r: seq<string>)
    ensures forall x :: x in r <==> x in xs
    ensures Distinct(r)
    ensures |r| <= |xs|
  {
    if xs == [] then []
    else
      var init := xs[..|xs| - 1];
      var x := xs[|xs| - 1];
      var d := Dedup(init);
      assert xs == init + [x];
      if x in d then d else d + [x]
  }

  lemma {:induction false} FirstIndexAppend(xs: seq<string>, x: string, y: string)
    requires y in xs
    ensures FirstIndex(xs + [x], y) == FirstIndex(xs, y)
  {
    if xs[0] != y {
      assert (xs + [x])[1..] == xs[1..] + [x];
      FirstIndexAppend(xs[1..], x, y);
    }
  }

  /** The harvested links keep the order in which they first occur. */
  lemma {:induction false} DedupKeepsFirstOrder(xs: seq<string>)
    ensures forall i, j :: 0 <= i < j < |Dedup(xs)| ==>
      FirstIndex(xs, Dedup(xs)[i]) < FirstIndex(xs, Dedup(xs)[j])
  {
    if xs != [] {
      var init := xs[..|xs| - 1];
      var x := xs[|xs| - 1];
      var d := Dedup(init);
      assert xs == init + [x];
      DedupKeepsFirstOrder(init);
      forall y | y in d ensures FirstIndex(xs, y) == FirstIndex(init, y) {
        FirstIndexAppend(init, x, y);
      }
      if x !in d {
        assert FirstIndex(xs, x) == |init| by {
          assert x !in init;
          assert x !in xs[..|init|];
        }
      }
    }
  }

  lemma QualifyingStep(hrefs: seq<Option<string>>, i: nat)
    requires i < |hrefs|
    ensures Qualifying(hrefs[..i + 1]) ==
      if hrefs[i].Some? && IsDetailLink(hrefs[i].value) then Qualifying(hrefs[..i]) + [hrefs[i].value]
      else Qualifying(hrefs[..i])
  {
    assert hrefs[..i + 1][..i] == hrefs[..i];
  }

  lemma DedupStep(xs: seq<string>, x: string)
    ensures Dedup(xs + [x]) == if x in Dedup(xs) then Dedup(xs) else Dedup(xs) + [x]
  {
    assert (xs + [x])[..|xs|] == xs;
  }

  /** The link harvest: every anchor's href is filtered, and a qualifying one
      is appended to `links` unless `linkSet` has already seen it. */
  method HarvestLinks(hrefs: seq<Option<string>>) returns (links: seq<string>)
    ensures links == Dedup(Qualifying(hrefs))
    ensures forall l :: l in links <==> Some(l) in hrefs && IsDetailLink(l)
    ensures Distinct(links)
  {
    var linkSet: set<string> := {};
    links := [];
    for i := 0 to |hrefs|
      invariant links == Dedup(Qualifying(hrefs[..i]))
      invariant forall l :: l in linkSet <==> l in links
    {
      QualifyingStep(hrefs, i);
      if hrefs[i].Some? {
        var href := hrefs[i].value;
        var keep := false;
        if href != "" && HasPrefix(href, DirectoryPrefix) && HasSuffix(href, HtmlSuffix) {
          var parts := Split(TrimPrefix(href, DirectoryPrefix), '/');
          keep := |parts| == 1 && HasSuffix(parts[0], HtmlSuffix);
        }
        assert keep == IsDetailLink(href);
        if keep {
          DedupStep(Qualifying(hrefs[..i]), href);
          if href !in linkSet {
            linkSet := linkSet + {href};
            links := links + [href];
          }
        }
      }
    }
    assert hrefs[..|hrefs|] == hrefs;
  }

  // ---------------------------------------------------------------------------
  // Display names (scraper/scraper.go:79-93)

  /** The page name inside a detail link. */
  function Slug(link: string): string {
    TrimSuffix(TrimPrefix(link, DirectoryPrefix), HtmlSuffix)
  }

  /** The display name of a link: its slug with every `-` read as a space and
      every word-initial letter upper-cased. */
  function HumanName(link: string): string {
    Title(ReplaceChar(Slug(link), '-', ' '))
  }

  function MapTitle(ws: seq<string>): (r: seq<string>)
    ensures |r| == |ws|
    ensures forall i :: 0 <= i < |ws| ==> r[i] == Title(ws[i])
  {
    if ws == [] then [] else [Title(ws[0])] + MapTitle(ws[1..])
  }

  /** A space separates two independent title-cased words. */
  lemma TitleAroundSpace(a: string, b: string)
    ensures Title(a + " " + b) == Title(a) + " " + Title(b)
  {
    var s := a + " " + b;
    var r := Title(a) + " " + Title(b);
    forall p | 0 <= p < |s| ensures Title(s)[p] == r[p] {
      TitleAt(s, p);
      if p < |a| {
        TitleAt(a, p);
      } else if p > |a| {
        TitleAt(b, p - |a| - 1);
      }
    }
  }

  lemma JoinCons(x: string, xs: seq<string>, sep: string)
    requires xs != []
    ensures Join([x] + xs, sep) == x + sep + Join(xs, sep)
  {
    assert ([x] + xs)[1..] == xs;
  }

  lemma MapTitleCons(x: string, xs: seq<string>)
    ensures MapTitle([x] + xs) == [Title(x)] + MapTitle(xs)
  {
  }

  /** Title-casing the space-separated pieces and joining them with spaces is
      title-casing the whole text. */
  lemma {:induction false} JoinTitledPieces(s: string)
    ensures Join(MapTitle(Split(s, ' ')), " ") == Title(s)
    decreases |s|
  {
    if ' ' in s {
      var k := FirstIndex(s, ' ');
      var a, rest := s[..k], s[k + 1..];
      var pieces := Split(rest, ' ');
      assert s == a + [' '] + rest;
      calc {
        Join(MapTitle(Split(s, ' ')), " ");
        { assert Split(s, ' ') == [a] + pieces; }
        Join(MapTitle([a] + pieces), " ");
        { MapTitleCons(a, pieces); }
        Join([Title(a)] + MapTitle(pieces), " ");
        { JoinCons(Title(a), MapTitle(pieces), " "); }
        Title(a) + " " + Join(MapTitle(pieces), " ");
        { JoinTitledPieces(rest); }
        Title(a) + " " + Title(rest);
        { TitleAroundSpace(a, rest); }
        Title(a + " " + rest);
      }
    } else {
      assert MapTitle([s]) == [Title(s)];
    }
  }

  /** The display name is as long as the slug, and has a space exactly where
      the slug has a `-` or a space. */
  lemma HumanNameSpaces(link: string)
    ensures |HumanName(link)| == |Slug(link)|
    ensures forall i :: 0 <= i < |HumanName(link)| ==>
      (HumanName(link)[i] == ' ' <==> Slug(link)[i] == '-' || Slug(link)[i] == ' ')
  {
    var slug := Slug(link);
    var spaced := ReplaceChar(slug, '-', ' ');
    forall i | 0 <= i < |spaced|
      ensures HumanName(link)[i] == ' ' <==> slug[i] == '-' || slug[i] == ' '
    {
      TitleAt(spaced, i);
    }
  }

  /** The loop over the pieces: each non-empty piece is title-cased in place. */
  method TitlePieces(parts: array<string>)
    modifies parts
    ensures parts[..] == MapTitle(old(parts[..]))
  {
    ghost var pieces := parts[..];
    for i := 0 to parts.Length
      invariant forall j :: 0 <= j < i ==> parts[j] == Title(pieces[j])
      invariant forall j :: i <= j < parts.Length ==> parts[j] == pieces[j]
    {
      if |parts[i]| > 0 {
        parts[i] := Title(parts[i]);
      }
    }
    assert parts[..] == MapTitle(pieces);
  }

  /** The goroutine body of the listing: the slug's `-` become spaces, the
      pieces between spaces are title-cased, and the pieces are joined. */
  method DisplayName(link: string) returns (name: string)
    ensures name == HumanName(link)
    ensures |name| == |Slug(link)|
    ensures forall i :: 0 <= i < |name| ==>
      (name[i] == ' ' <==> Slug(link)[i] == '-' || Slug(link)[i] == ' ')
  {
    var slug := Slug(link);
    var spaced := ReplaceChar(slug, '-', ' ');
    var pieces := Split(spaced, ' ');
    var nameParts := new string[|pieces|](i requires 0 <= i < |pieces| => pieces[i]);
    assert nameParts[..] == pieces;
    TitlePieces(nameParts);
    name := Join(nameParts[..], " ");
    JoinTitledPieces(spaced);
    HumanNameSpaces(link);
  }

  /** The listing built from the landing page's anchors: one entry per
      harvested link. */
  function DinoList(hrefs: seq<Option<string>>): (r: seq<DinoRef>) {
    EntriesFor(Dedup(Qualifying(hrefs)))
  }

  function EntriesFor(links: seq<string>): (r: seq<DinoRef>)
    ensures |r| == |links|
    ensures forall i :: 0 <= i < |links| ==> r[i] == DinoRef(HumanName(links[i]), links[i])
  {
    if links == [] then [] else EntriesFor(links[..|links| - 1]) + [DinoRef(HumanName(links[|links| - 1]), links[|links| - 1])]
  }

  /** The listing has one entry per qualifying href, no two with the same
      link, each named after its own link. */
  lemma DinoListSpec(hrefs: seq<Option<string>>)
    ensures forall e :: e in DinoList(hrefs) <==>
      Some(e.link) in hrefs && IsDetailLink(e.link) && e.name == HumanName(e.link)
    ensures forall i, j :: 0 <= i < j < |DinoList(hrefs)| ==> DinoList(hrefs)[i].link != DinoList(hrefs)[j].link
    ensures |DinoList(hrefs)| <= |hrefs|
  {
    var links := Dedup(Qualifying(hrefs));
    var r := DinoList(hrefs);
    forall e: DinoRef | Some(e.link) in hrefs && IsDetailLink(e.link) && e.name == HumanName(e.link)
      ensures e in r
    {
      var i :| 0 <= i < |links| && links[i] == e.link;
      assert r[i] == e;
    }
  }

  /** `GetOnlyDinoListConcurrent`: a landing page that could not be fetched or
      parsed is an error; otherwise the harvested links, each with its
      display name. The source collects the entries from concurrent workers,
      so their order is not fixed; the model emits them in link order. */
  method GetOnlyDinoListConcurrent(landing: Result<seq<Option<string>>>) returns (r: Result<seq<DinoRef>>)
    ensures landing.Failure? ==> r == Failure(landing.error)
    ensures landing.Success? ==> r == Success(DinoList(landing.value))
  {
    if landing.Failure? {
      return Failure(landing.error);
    }
    var links := HarvestLinks(landing.value);
    var dinoList: seq<DinoRef> := [];
    for i := 0 to |links|
      invariant dinoList == EntriesFor(links[..i])
    {
      var name := DisplayName(links[i]);
      dinoList := dinoList + [DinoRef(name, links[i])];
      assert links[..i + 1][..i] == links[..i];
    }
    assert links[..|links|] == links;
    r := Success(dinoList);
  }

  // ---------------------------------------------------------------------------
  // Detail record (scraper/scraper.go:106-234)

  /** The `dinosaur` object of the decoded payload; pointer fields are options. */
  datatype Dinosaur = Dinosaur(
    genus: string,
    namePronounciation: string,
    nameMeaning: string,
    dietTypeName: string,
    bodyShape: Option<string>,   // bodyShape.bodyShape, or nil
    period: Option<string>,      // period.period, or nil
    lengthFrom: Option<real>,
    lengthTo: Option<real>,
    massFrom: Option<real>,
    massTo: Option<real>,
    textBlocks: seq<string>)     // textBlockCollection[*].textBlock

  /** `props.pageProps` of the payload. */
  datatype PageProps = PageProps(dinosaur: Option<Dinosaur>)

  /** A fetched and parsed detail page: the text of `script#__NEXT_DATA__`,
      and the payload decoded from it, `None` when decoding failed. */
  datatype DetailPage = DetailPage(nextData: string, decoded: Option<PageProps>)

  /** Renders a number with the given count of decimals (`%.1f`, `%.0f`). */
  type FloatFormat = (real, nat) -> string

  /** Go returns the map and the error together. */
  datatype Scraped = Scraped(data: Record, err: Option<Error>)

  /** The page path requested for a name. */
  function DetailPath(name: string): string {
    "/" + ToLower(name) + HtmlSuffix
  }

  const OptionalKeys: set<string> := {"typeOfDinosaur", "period", "diet", "length", "weight"}

  /** The record returned when the page carries no payload text. */
  function Fallback(name: string): Record {
    CoreRecord(name, "", "N/A", "", "")
  }

  /** The stripped text of every non-empty text block, in order. */
  function ContentParts(blocks: seq<string>): (r: seq<string>)
    ensures |r| <= |blocks|
  {
    if blocks == [] then []
    else
      var init := ContentParts(blocks[..|blocks| - 1]);
      var tb := blocks[|blocks| - 1];
      if tb != "" then init + [StripHTML(tb)] else init
  }

  lemma ContentPartsStep(blocks: seq<string>)
    requires blocks != []
    requires forall p :: p in ContentParts(blocks[..|blocks| - 1]) ==> TagFree(p)
    ensures forall p :: p in ContentParts(blocks) ==> TagFree(p)
  {
    StripHTMLSpec(blocks[|blocks| - 1]);
  }

  /** No content part carries a tag. */
  lemma {:induction false} ContentPartsTagFree(blocks: seq<string>)
    ensures forall p :: p in ContentParts(blocks) ==> TagFree(p)
  {
    if blocks != [] {
      ContentPartsTagFree(blocks[..|blocks| - 1]);
      ContentPartsStep(blocks);
    }
  }

  /** The content loop: stripped non-empty blocks joined by " \n ", trimmed. */
  method ContentText(blocks: seq<string>) returns (content: string)
    ensures content == TrimSpace(Join(ContentParts(blocks), " \n "))
  {
    var contentParts: seq<string> := [];
    for i := 0 to |blocks|
      invariant contentParts == ContentParts(blocks[..i])
    {
      assert blocks[..i + 1][..i] == blocks[..i];
      if blocks[i] != "" {
        contentParts := contentParts + [StripHTML(blocks[i])];
      }
    }
    assert blocks[..|blocks|] == blocks;
    content := TrimSpace(Join(contentParts, " \n "));
  }

  /** A measurement range: `from–to unit`, or `from unit` without an upper bound. */
  function RangeText(from: real, to: Option<real>, decimals: nat, unit: string, fmt: FloatFormat): (r: string)
    ensures HasPrefix(r, fmt(from, decimals)) && HasSuffix(r, " " + unit)
    ensures to.Some? ==> r == fmt(from, decimals) + [EnDash] + fmt(to.value, decimals) + " " + unit
    ensures to.None? ==> r == fmt(from, decimals) + " " + unit
  {
    match to
    case Some(t) => fmt(from, decimals) + [EnDash] + fmt(t, decimals) + " " + unit
    case None => fmt(from, decimals) + " " + unit
  }

  /** The optional keys added to a core record, each one exactly when its
      source field is present (and, for text fields, non-empty). */
  function WithAttributes(core: Record, d: Dinosaur, fmt: FloatFormat): (r: Record)
    requires core.Keys == CoreKeys
    ensures CoreKeys <= r.Keys <= CoreKeys + OptionalKeys
    ensures forall k :: k in CoreKeys ==> r[k] == core[k]
  {
    assert CoreKeys !! OptionalKeys;
    var m1 := if d.bodyShape.Some? && d.bodyShape.value != "" then core["typeOfDinosaur" := d.bodyShape.value] else core;
    var m2 := if d.period.Some? && d.period.value != "" then m1["period" := d.period.value] else m1;
    var m3 := if d.dietTypeName != "" then m2["diet" := d.dietTypeName] else m2;
    var m4 := if d.lengthFrom.Some? then m3["length" := RangeText(d.lengthFrom.value, d.lengthTo, 1, "m", fmt)] else m3;
    if d.massFrom.Some? then m4["weight" := RangeText(d.massFrom.value, d.massTo, 0, "kg", fmt)] else m4
  }

  /** Each attribute whose source is present is recorded with its value. */
  lemma AttributesPresent(core: Record, d: Dinosaur, fmt: FloatFormat)
    requires core.Keys == CoreKeys
    ensures var r := WithAttributes(core, d, fmt);
      && (d.bodyShape.Some? && d.bodyShape.value != "" ==> "typeOfDinosaur" in r && r["typeOfDinosaur"] == d.bodyShape.value)
      && (d.period.Some? && d.period.value != "" ==> "period" in r && r["period"] == d.period.value)
      && (d.dietTypeName != "" ==> "diet" in r && r["diet"] == d.dietTypeName)
      && (d.lengthFrom.Some? ==> "length" in r && r["length"] == RangeText(d.lengthFrom.value, d.lengthTo, 1, "m", fmt))
      && (d.massFrom.Some? ==> "weight" in r && r["weight"] == RangeText(d.massFrom.value, d.massTo, 0, "kg", fmt))
  {
    assert CoreKeys !! OptionalKeys;
  }

  /** An attribute whose source is missing or empty is not recorded. */
  lemma AttributesAbsent(core: Record, d: Dinosaur, fmt: FloatFormat)
    requires core.Keys == CoreKeys
    ensures var r := WithAttributes(core, d, fmt);
      && (d.bodyShape.None? || d.bodyShape.value == "" ==> "typeOfDinosaur" !in r)
      && (d.period.None? || d.period.value == "" ==> "period" !in r)
      && (d.dietTypeName == "" ==> "diet" !in r)
      && (d.lengthFrom.None? ==> "length" !in r)
      && (d.massFrom.None? ==> "weight" !in r)
  {
    assert CoreKeys !! OptionalKeys;
  }

  /** The text of the payload's text blocks, as the record's `content` holds it. */
  function Content(blocks: seq<string>): string {
    CleanText(TrimSpace(Join(ContentParts(blocks), " \n ")))
  }

  /** The record of a decoded dinosaur: the cleaned core fields, then the
      optional attributes. */
  function DinosaurRecord(d: Dinosaur, fmt: FloatFormat): (r: Record)
    ensures CoreKeys <= r.Keys <= CoreKeys + OptionalKeys
    ensures r["name"] == CleanText(d.genus) && r["pronunciation"] == CleanText(d.namePronounciation)
    ensures r["meaning"] == CleanText(d.nameMeaning)
    ensures r["picture"] == "" && r["content"] == Content(d.textBlocks)
  {
    var core := CoreRecord(CleanText(d.genus), CleanText(d.namePronounciation), CleanText(d.nameMeaning), "", Content(d.textBlocks));
    WithAttributes(core, d, fmt)
  }

  /** `GetDinoByName` on the page fetched for `name`. */
  function ScrapeDetail(name: string, fetch: string -> Result<DetailPage>, fmt: FloatFormat): (r: Scraped)
    ensures r.err.Some? ==> r.data == map[]
    ensures r.err.None? ==> CoreKeys <= r.data.Keys <= CoreKeys + OptionalKeys && r.data["picture"] == ""
    ensures fetch(DetailPath(name)).Failure? ==> r == Scraped(map[], Some(fetch(DetailPath(name)).error))
    ensures fetch(DetailPath(name)).Success? && TrimSpace(fetch(DetailPath(name)).value.nextData) == "" ==>
      r == Scraped(Fallback(name), None)
    ensures (&& fetch(DetailPath(name)).Success?
             && TrimSpace(fetch(DetailPath(name)).value.nextData) != ""
             && fetch(DetailPath(name)).value.decoded.None?) ==>
      r == Scraped(map[], Some(DecodeError))
  {
    match fetch(DetailPath(name))
    case Failure(e) => Scraped(map[], Some(e))
    case Success(page) =>
      if TrimSpace(page.nextData) == "" then Scraped(Fallback(name), None)
      else
        match page.decoded
        case None => Scraped(map[], Some(DecodeError))
        case Some(props) =>
          match props.dinosaur
          case None => Scraped(map[], Some(DinosaurNotFound))
          case Some(d) => Scraped(DinosaurRecord(d, fmt), None)
  }

  /** A payload without a dinosaur is an error with an empty map; a decoded
      dinosaur gives a record whose meaning is its cleaned `nameMeaning`. */
  lemma ScrapeDetailDecoded(name: string, fetch: string -> Result<DetailPage>, fmt: FloatFormat)
    requires fetch(DetailPath(name)).Success?
    requires TrimSpace(fetch(DetailPath(name)).value.nextData) != ""
    requires fetch(DetailPath(name)).value.decoded.Some?
    ensures var props := fetch(DetailPath(name)).value.decoded.value;
      && (props.dinosaur.None? ==> ScrapeDetail(name, fetch, fmt) == Scraped(map[], Some(DinosaurNotFound)))
      && (props.dinosaur.Some? ==> ScrapeDetail(name, fetch, fmt) == Scraped(DinosaurRecord(props.dinosaur.value, fmt), None))
  {
  }

  /** `GetDinoByName`: fetch the page, fall back to a minimal record when it
      has no payload text, otherwise build the record key by key. */
  method GetDinoByName(name: string, fetch: string -> Result<DetailPage>, fmt: FloatFormat)
    returns (data: Record, err: Option<Error>)
    ensures Scraped(data, err) == ScrapeDetail(name, fetch, fmt)
  {
    var fetched := fetch(DetailPath(name));
    if fetched.Failure? {
      return map[], Some(fetched.error);
    }
    var page := fetched.value;
    var jsonText := TrimSpace(page.nextData);
    if jsonText == "" {
      return Fallback(name), None;
    }
    if page.decoded.None? {
      return map[], Some(DecodeError);
    }
    if page.decoded.value.dinosaur.None? {
      return map[], Some(DinosaurNotFound);
    }
    var d := page.decoded.value.dinosaur.value;
    var content := ContentText(d.textBlocks);
    data := CoreRecord(CleanText(d.genus), CleanText(d.namePronounciation), CleanText(d.nameMeaning), "", CleanText(content));
    if d.bodyShape.Some? && d.bodyShape.value != "" {
      data := data["typeOfDinosaur" := d.bodyShape.value];
    }
    if d.period.Some? && d.period.value != "" {
      data := data["period" := d.period.value];
    }
    if d.dietTypeName != "" {
      data := data["diet" := d.dietTypeName];
    }
    if d.lengthFrom.Some? {
      data := data["length" := RangeText(d.lengthFrom.value, d.lengthTo, 1, "m", fmt)];
    }
    if d.massFrom.Some? {
      data := data["weight" := RangeText(d.massFrom.value, d.massTo, 0, "kg", fmt)];
    }
    err := None;
  }
}
