/** Values shared by every part of the scraper model: optional values, errors,
    directory entries and the HTTP responses the handlers produce. */
module Common {

  datatype Option<+T> = None | Some(value: T) {
    /** The value, or `default` when absent (goquery's `AttrOr`, a nil pointer). */
    function GetOr(default: T): T {
      match this
      case Some(v) => v
      case None => default
    }
  }

  /** The ways a fetch or a decode can fail. */
  datatype Error =
    | FetchError       // transport failure retrieving a document
    | ParseError       // the document could not be parsed into a tree
    | DecodeError      // the embedded JSON payload could not be decoded
    | DinosaurNotFound // the payload carries no dinosaur object

  datatype Result<+T> = Success(value: T) | Failure(error: Error)

  /** One directory entry: the `{name, link}` map of the source. */
  datatype DinoRef = DinoRef(name: string, link: string)

  /** A detail record: a flat map from field name to text (schema on read). */
  type Record = map<string, string>

  /** Reading a key of a Go map: a missing key reads as the empty string. */
  function Get(m: Record, k: string): (v: string)
    ensures k in m ==> v == m[k]
    ensures k !in m ==> v == ""
  {
    if k in m then m[k] else ""
  }

  /** The keys every detail record is built with. */
  const CoreKeys: set<string> := {"name", "pronunciation", "meaning", "picture", "content"}

  /** The five-key detail record both scrapers start from. */
  function CoreRecord(name: string, pronunciation: string, meaning: string, picture: string, content: string): (r: Record)
    ensures r.Keys == CoreKeys
    ensures r["name"] == name && r["pronunciation"] == pronunciation && r["meaning"] == meaning
    ensures r["picture"] == picture && r["content"] == content
  {
    map["name" := name, "pronunciation" := pronunciation, "meaning" := meaning, "picture" := picture, "content" := content]
  }

  /** What an HTTP handler writes back. Every body is sent with status 200;
      `InternalServerError` is the plain-text 500 reply. */
  datatype Response =
    | ListBody(results: int, entries: seq<DinoRef>)
    | DetailsBody(results: int, records: seq<Record>, noData: int)
    | RecordBody(record: Record)
    | InternalServerError
}
