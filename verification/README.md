# Dinosaur directory scraper — a Dafny model

The repository is a small Go web service. It scrapes the Natural History
Museum's dinosaur directory and serves three JSON endpoints:

- the list of dinosaurs;
- the list with every dinosaur's details;
- one dinosaur's details by name.

It exists twice. The current version is split into `utils/text.go`,
`scraper/scraper.go` and `handlers/handlers.go`. The original single-file
server is `main.go`. This project models the logic between the HTTP fetches
and the JSON replies:

- the text normaliser (`CleanText`, `CamelCase`);
- the HTML-tag stripper;
- the link harvester and its slug-to-name humaniser;
- both detail-record builders;
- the fan-in that turns the per-dinosaur scrapes into the details reply;
- the handlers' replies.

Fetching, HTML selection and JSON decoding become inputs:

- A fetch is a function from the requested path to a `Result`.
- A landing page is the sequence of its anchors' `href` attributes.
- A detail page is its `__NEXT_DATA__` text together with the decoded
  payload, a datatype with `Option` fields.
- An old-style page is the texts its CSS selectors find, plus its `dt`/`dd`
  pairs.

Modules:

- `Common` holds the values shared by all modules: `Option`, `Result`, the
  errors, directory entries, records (`map<string, string>`, with Go's
  missing key read as `""`) and HTTP replies.
- `Strings` models the parts of Go's `strings` package that the code calls.
- `Text` models `utils/text.go`. `main.go`'s `cleanText` and `camelCase` are
  the same code and are modelled by the same members.
- `Scraper` models `scraper/scraper.go`.
- `Aggregate` models the fan-in loop that `handlers/handlers.go` and
  `main.go` share. This includes the `int16` `noData` counter, written out
  with its wrap-around.
- `Handlers` models `handlers/handlers.go`.
- `Legacy` models the rest of `main.go`.

Where the source works in place, the model does too:

- The word loops of `CamelCase` and of the slug humaniser rewrite an
  `array` in place.
- The link harvest, the content loop, the `dt` loop and the drain loop are
  methods with loop invariants. Each is proved equal to a specification
  function, and the properties are proved about those functions.

## Model

| member | source | states |
|---|---|---|
| Strings.Remove | utils/text.go:7 | removing every occurrence of a character leaves none of it |
| Strings.RemoveAppend | utils/text.go:7-8 | removal works piece by piece: removing from a concatenation is concatenating the removals, so every other character is kept in order |
| Strings.RemoveChar | utils/text.go:7-8 | a single character is dropped exactly when it is the removed one |
| Strings.RemoveTrimmed | utils/text.go:7-8 | removing a whitespace character from trimmed visible text leaves it trimmed and visible |
| Strings.RemoveSpaceKeepsText | utils/text.go:7-8 | removing a whitespace character keeps every visible character, in order |
| Strings.TrimSpace | utils/text.go:7 | the trimmed text neither starts nor ends with whitespace |
| Strings.TrimSpaceKeepsText | utils/text.go:7-8 | trimming removes whitespace only: the visible characters are kept, in order |
| Strings.TrimSpaceKeepsAbsent | utils/text.go:7-8 | trimming adds no character: one absent before is absent after |
| Strings.TrimSpaceOfTrimmed | utils/text.go:7-8 | text that is already trimmed is unchanged |
| Strings.TrimSpaceSplit | utils/text.go:7 | every text is its trimmed form between a leading and a trailing whitespace run |
| Strings.TrimSpaceAround | utils/text.go:7 | trimming removes exactly the whitespace runs around a trimmed visible text |
| Strings.Fields | utils/text.go:17 | the words are non-empty and have no whitespace; there are none exactly when the text is all whitespace |
| Strings.FieldsWord | utils/text.go:17 | a run of non-whitespace followed by whitespace or the end of the text is one whole word |
| Strings.FieldsSpace | utils/text.go:17 | whitespace separates words and is never part of one |
| Strings.FieldsConcat | utils/text.go:17-25 | the words, concatenated, are the text with its whitespace removed |
| Strings.FieldsLower | utils/text.go:17-22 | the words of the lower-cased text are the lower-cased words |
| Strings.ToLower | utils/text.go:20 | each character is lower-cased in place; the length is kept |
| Strings.LowerIdempotent | utils/text.go:22 | lower-casing twice is lower-casing once |
| Strings.Title | utils/text.go:22 | a character is upper-cased exactly when it starts the text or follows a word separator; nothing else changes |
| Strings.ConcatNoSpace | utils/text.go:25 | concatenating words that have no whitespace gives text without whitespace |
| Strings.ConcatLower | utils/text.go:25 | words equal up to case concatenate to text equal up to case |
| Strings.TrimRightChar | main.go:157 | only trailing copies of the character are removed, and the result does not end with one |
| Strings.Split | scraper/scraper.go:84 | there is always at least one piece, none holds the separator, and there are at least two exactly when the separator occurs |
| Strings.JoinSplit | scraper/scraper.go:84-90 | joining the pieces of a split with the same separator restores the text |
| Strings.ReplaceChar | scraper/scraper.go:84 | each occurrence of one character becomes the other; nothing else changes |
| Text.CleanText | utils/text.go:6-13 | the normaliser itself; its contract is stated by CleanTextFallback, CleanTextTidy, CleanTextKeepsText, CleanTextOneTrim and CleanTextIdempotent below |
| Text.CleanTextFallback | utils/text.go:9-12 | empty or whitespace-only input comes back unchanged |
| Text.CleanTextTidy | utils/text.go:7-11 | input with a visible character gives a non-empty result with no newline or tab and no whitespace at either end |
| Text.CleanTextKeepsText | utils/text.go:7-8 | the visible characters of the input survive, in order, and no visible character is added |
| Text.CleanTextOneTrim | utils/text.go:7-11 | for input with a visible character, the result is the trimmed input with only its newlines and tabs removed, so all other characters between the ends are kept, in order |
| Text.CleanTextOfTidy | utils/text.go:6-13 | a tidy text is its own cleaned form |
| Text.CleanTextIdempotent | utils/text.go:6-13 | cleaning twice is cleaning once |
| Text.CleanTextEmpty | utils/text.go:9-12 | the result is empty exactly when the input is |
| Text.CamelWords | utils/text.go:18-24 | in place, the first word is lower-cased and every later word is lower-cased and then title-cased |
| Text.CamelCase | utils/text.go:16-26 | the key is the rewritten words joined; it is "" for whitespace-only input, has no whitespace, and equals the input without whitespace up to case |
| Text.CamelWordLower | utils/text.go:20-22 | a rewritten word equals the original up to case |
| Text.CamelWordNoSpace | utils/text.go:20-22 | rewriting a word adds no whitespace |
| Text.CamelCaseNoSpace | utils/text.go:17-25 | the key never contains whitespace |
| Text.CamelCaseLowered | utils/text.go:17-25 | up to case, the key is the label with its whitespace removed |
| Text.CamelPartsLower | utils/text.go:20-22 | lower-casing the words first does not change the rewritten words |
| Text.CamelCaseIgnoresCase | utils/text.go:20-23 | the key does not depend on the case of the label |
| Scraper.StripTags | scraper/scraper.go:34-37 | the result keeps only characters of the input, no `<` in it is followed by a `>`, and tag-free text is unchanged |
| Scraper.StripTagsKeepsText | scraper/scraper.go:34-37 | text before the first `<` is kept unchanged |
| Scraper.StripTagsDropsSpan | scraper/scraper.go:34-37 | a span from a `<` to the next `>` is deleted, and the scan resumes after it |
| Scraper.StripHTML | scraper/scraper.go:36-38 | the tag stripper itself; StripHTMLSpec and TagFreeTrimmed state its contract |
| Scraper.StripHTMLSpec | scraper/scraper.go:36-38 | the stripped text is tag-free, and tag-free text is only trimmed |
| Scraper.TagFreeTrimmed | scraper/scraper.go:37 | trimming tag-free text leaves it tag-free |
| Scraper.StripTagsIdempotent | scraper/scraper.go:34-37 | stripping tags twice is stripping them once |
| Scraper.IsDetailLink | scraper/scraper.go:59-67 | the link filter itself; IsDetailLinkIff characterises it independently |
| Scraper.IsDetailLinkIff | scraper/scraper.go:59-67 | an href is kept exactly when it starts with the directory prefix, ends with `.html` and has no `/` after the prefix |
| Scraper.Qualifying | scraper/scraper.go:58-67 | a link is kept exactly when it is a present href that passes the filter |
| Scraper.Dedup | scraper/scraper.go:68-71 | the de-duplicated links are the same set, without repetitions |
| Scraper.DedupKeepsFirstOrder | scraper/scraper.go:56-72 | the kept links are in the order of their first occurrence |
| Scraper.HarvestLinks | scraper/scraper.go:55-74 | the harvested links are exactly the qualifying hrefs, without duplicates, in first-seen order |
| Scraper.MapTitle | scraper/scraper.go:85-89 | every piece is title-cased, and the count is kept |
| Scraper.TitleAroundSpace | scraper/scraper.go:84-90 | title-casing two words around a space is title-casing each of them |
| Scraper.JoinTitledPieces | scraper/scraper.go:84-90 | title-casing the space-separated pieces and rejoining them is title-casing the whole text |
| Scraper.HumanName | scraper/scraper.go:83-90 | the slug humaniser itself; HumanNameSpaces, JoinTitledPieces and DisplayName state its contract |
| Scraper.HumanNameSpaces | scraper/scraper.go:83-90 | the display name is as long as the slug and has a space exactly where the slug has `-` or a space |
| Scraper.TitlePieces | scraper/scraper.go:85-89 | in place, each non-empty piece is title-cased |
| Scraper.DisplayName | scraper/scraper.go:83-90 | the display name is the slug with `-` read as a space and word-initial letters upper-cased; same length, spaces exactly at `-` and spaces |
| Scraper.EntriesFor | scraper/scraper.go:79-91 | there is one entry per link, named after its own link |
| Scraper.DinoListSpec | scraper/scraper.go:55-103 | the list holds exactly the qualifying links, each once, each named from its link, no more entries than hrefs |
| Scraper.GetOnlyDinoListConcurrent | scraper/scraper.go:41-104 | a failed landing page is returned as its error; otherwise the list is one entry per harvested link |
| Scraper.ContentPartsTagFree | scraper/scraper.go:184-189 | no content part carries a tag |
| Scraper.ContentText | scraper/scraper.go:183-190 | the content is the stripped non-empty text blocks, joined by " \n " and trimmed |
| Scraper.RangeText | scraper/scraper.go:214-230 | a range reads `from–to unit` when the upper bound is present, and `from unit` otherwise |
| Scraper.WithAttributes | scraper/scraper.go:204-231 | the optional keys only add to the core keys and never change their values |
| Scraper.AttributesPresent | scraper/scraper.go:205-231 | each optional key whose source is present and non-empty is recorded with its value or range |
| Scraper.AttributesAbsent | scraper/scraper.go:205-231 | an optional key whose source is nil or empty is absent |
| Scraper.DinosaurRecord | scraper/scraper.go:193-202 | the five core keys are present, with cleaned genus, pronunciation, meaning and content, and an empty picture |
| Scraper.ScrapeDetail | scraper/scraper.go:107-234 | a failure gives an empty map; a fetch error is passed on; no payload text gives the fallback record; a payload that does not decode gives an empty map and the decode error; success holds the core keys and an empty picture |
| Scraper.ScrapeDetailDecoded | scraper/scraper.go:178-202 | a payload without a dinosaur is an error with an empty map, and one with a dinosaur gives its record |
| Scraper.GetDinoByName | scraper/scraper.go:107-234 | building the record key by key gives the specified pair of map and error |
| Aggregate.Stamp | handlers/handlers.go:60-61 | the record gets the entry's name and link, and every other scraped key is kept |
| Aggregate.Wrap16 | handlers/handlers.go:37-55 | the counter stays in `int16` range, never exceeds the plain count, and below the maximum equals it |
| Aggregate.Inc16 | handlers/handlers.go:54 | `int16` increment: one more, except that the maximum wraps to the minimum |
| Aggregate.Inc16Wrap | handlers/handlers.go:53-55 | incrementing the wrapped count is wrapping the incremented count |
| Aggregate.Collect | handlers/handlers.go:53-71 | the drained records are the successful outcomes, stamped; the counter is the wrapped number of "N/A" meanings |
| Aggregate.SurvivorsFrom | handlers/handlers.go:56-62 | every record is a stamped successful outcome, and every successful outcome gives a record |
| Aggregate.SurvivorsCount | handlers/handlers.go:47-71 | the number of records is the number of successful scrapes |
| Aggregate.SurvivorRecords | handlers/handlers.go:56-62 | records keep the keys every successful scrape carries, plus the name and link of a listed entry |
| Aggregate.StampKeepsMeaning | handlers/handlers.go:53-61 | stamping leaves the meaning alone |
| Aggregate.NoDataCountsSurvivors | handlers/handlers.go:53-62 | when failed scrapes return empty maps, the counter counts exactly the "N/A" records, so it is at most their number |
| Aggregate.AppendOutcomes | handlers/handlers.go:47-71 | the fold over two batches of outcomes is the fold over each, combined |
| Aggregate.RemoveMiddle | handlers/handlers.go:47-71 | removing one outcome from anywhere removes only its own contribution |
| Aggregate.CollectOrderFree | handlers/handlers.go:47-71 | any arrival order gives the same records, as a multiset, and the same count |
| Handlers.GetAllDinoList | handlers/handlers.go:12-33 | a failed listing is a 500; otherwise `results` is the length of `data`, at most the number of hrefs |
| Handlers.DetailOutcomes | handlers/handlers.go:47-51 | every listed entry is scraped by its name, once, in list order |
| Handlers.ScrapeAll | handlers/handlers.go:47-51 | the fan-out scrapes every listed entry by its name, once, in list order |
| Handlers.GetAllDinoListWithDetails | handlers/handlers.go:36-87 | a failed listing is a 500; otherwise the reply is the fan-in of the scrapes of the listed names |
| Handlers.DetailsReplySpec | handlers/handlers.go:47-77 | `results` is the record count, at most the list length; each record has the core keys and the name and link of a listed entry; `noData` is at most `results`, and below the counter's limit it counts the "N/A" records |
| Handlers.GetDinoDataByName | handlers/handlers.go:89-94 | the error is discarded: the reply is the scraped map, empty when the scrape failed |
| Legacy.ListEntriesSpec | main.go:40-44 | one entry per node, in order; the name is cleaned (whitespace-only text kept as is) and the link is the href, or "" without one |
| Legacy.ListEntryAt | main.go:40-44 | the entry at position i of the directory list is the one built from the i-th node, so the list keeps document order |
| Legacy.ReadNode | main.go:41-43 | one node gives its cleaned name text and its href, or "" when the link has no href |
| Legacy.ReadNodes | main.go:40-44 | the callback loop appends exactly one entry per node, in document order, giving the directory list |
| Legacy.GetOnlyDinoList | main.go:25-47 | a failed directory gives an empty list and the error; otherwise one entry per node |
| Legacy.MeaningOf | main.go:141-146 | the meaning rule itself; MeaningOfSpec states its contract |
| Legacy.MeaningOfSpec | main.go:141-146 | the meaning is "N/A" exactly for empty text; otherwise the cleaned text without its first character |
| Legacy.TermKey | main.go:157-159 | the term-key rule itself; TermKeySpec states its contract |
| Legacy.TermKeySpec | main.go:157-159 | a term key has no whitespace and, up to case, is the label's visible characters without the trailing colons |
| Legacy.BaseRecord | main.go:148-154 | the record starts with the five core keys: cleaned name, pronunciation and content, the meaning rule, and the image's `src` or "" without one |
| Legacy.Merge | main.go:156-160 | merging pairs never removes a key |
| Legacy.MergeStep | main.go:156-160 | the pairs are applied one after another, in document order |
| Legacy.LastFor | main.go:156-160 | finds the last pair with a given key, or reports that no pair has that key |
| Legacy.MergeLastWins | main.go:156-160 | the last pair with a key wins, over earlier pairs and the core keys; keys no pair gives keep their earlier value |
| Legacy.ReadTerm | main.go:157-159 | the key is the camel-cased cleaned label without trailing colons, and the value is the cleaned `dd` |
| Legacy.ApplyTerms | main.go:156-160 | the `dt` loop writes the pairs over the record, in order |
| Legacy.LegacyDetail | main.go:128-163 | a fetch failure gives an empty map and that error; a fetched page gives no error and the base record with the pairs merged in |
| Legacy.LegacyDetailFields | main.go:148-162 | a fetched page's record holds the core keys and the keys of its pairs and nothing else; a key takes its last pair's value, and a core key without a pair keeps the selectors' value |
| Legacy.LegacyNoData | main.go:141-160 | unless a pair is keyed "meaning", a record reads "N/A" exactly when its meaning text is empty or cleans to one character then "N/A" |
| Legacy.GetDinoByName | main.go:128-163 | the record built step by step is the specified pair of map and error |
| Legacy.GetAllDinoList | main.go:49-70 | a failed directory is a 500; otherwise `results` is the length of `data` |
| Legacy.LegacyOutcomes | main.go:85-102 | every listed entry is scraped by its name, once, in list order |
| Legacy.ScrapeAll | main.go:85-102 | the fan-out scrapes every listed entry by its name, once, in list order |
| Legacy.GetAllDinoListWithDetails | main.go:74-126 | a failed directory is a 500; otherwise the reply is the fan-in of the scrapes of the listed names |
| Legacy.LegacyDetailsReplySpec | main.go:85-116 | `results` is the record count, at most the list length; records carry the core keys and a listed entry's name and link; `noData` is at most `results`, and below the counter's limit it counts the "N/A" records |
| Legacy.GetDinoDataByName | main.go:165-170 | the error is discarded: the reply is the scraped map, empty when the scrape failed |

## Left out

- HTTP transport (`httpGet`, `get`), route registration and `main` are I/O. A fetch is a function parameter from the requested path to a result. A parse failure of a fetched document is folded into that result as an error.
- goquery selection (`Find`, `Attr`, `Text`, `Next`) belongs to an outside library. The model takes what the selectors return as inputs.
- Decoding `__NEXT_DATA__` with `encoding/json` is an outside library. A decoded payload is an input, and `None` stands for a failed decode. `MediaCollection` and `DinosaurErrorMessage` are decoded but never read, so they are not modelled.
- Marshalling replies to JSON, and the 500 sent when marshalling fails, are not modelled. The reply is the value that would be marshalled.
- Float formatting (`%.1f`, `%.0f`) is floating point. The formatter is a parameter, and only the shape of a range string is proved.
- The goroutines, the `WaitGroup` and the channels are concurrency. The scrapes are taken in one order, and `Aggregate.CollectOrderFree` shows that any other order gives the same records and count. The unsynchronised `noData++` is a data race, and the model reads it as if every increment lands.
- Scraper.GetOnlyDinoListConcurrent: it emits the entries in link order. The source's order depends on goroutine scheduling and is not fixed.
- Handlers.GetAllDinoListWithDetails: a listing failure gives a 500. Fetches are a function, so the model cannot express that no detail fetch starts before the 500.
- Strings.ToLower: only ASCII letters change case, and the same holds for `Strings.Title` and `Text.CamelCase`. Go also maps non-ASCII letters.
- Legacy.MeaningOfSpec: it drops the first character of the cleaned text. Go's `meaning[1:]` drops the first byte, which differs when the text starts with a multi-byte character.
- Handlers.DetailsReplySpec: `noData` equals the "N/A" count for up to 32767 listed entries. Above that the `int16` counter wraps, which `Aggregate.Wrap16` models. The bound `noData <= results` holds for every list.
- Legacy.LegacyDetailsReplySpec: `noData` equals the "N/A" count for up to 32767 listed entries, for the same `int16` wrap. The bound `noData <= results` holds for every list.
- `main.go`'s `cleanText` and `camelCase` are the same code as `utils/text.go`'s. They are modelled once, in `Text`, so no lemma compares the two copies.
- The example key "typeOfDinosaur" for "Type Of Dinosaur" is not proved as a separate fact. The per-word rule (`Text.CamelWords`) and its consequences cover it.
- `ex/` holds testing-framework demos around code not in the repository. It is not part of this model.
