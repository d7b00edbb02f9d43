/** `findComposeServiceByImage` (src/utils/findComposeServiceByImage.ts):
    the first service of a compose file whose image mentions a search
    string. The file system is a map from path to what is stored there, and
    the YAML parser's output is described by the shapes the code inspects. */
module ComposeFile {
  import opened JsStrings
  import opened Outcomes

  /** The value a service name maps to: `null` (reading `.image` of it
      throws), or a mapping with an optional string image. */
  datatype ServiceConfig = NullConfig | Config(image: Option<string>)

  /** The parsed document: `undefined`/`null` (an empty file; reading
      `.services` throws), or a value whose `services` entry is present and
      truthy (`Some`) or not (`None`). The entries come in the order
      `Object.entries` lists them: integer-like names first, ascending, then
      the others in document order. */
  datatype ComposeDoc = NullDoc | Doc(services: Option<seq<(string, ServiceConfig)>>)

  /** What a path holds: nothing; a file whose read throws (line 17); a
      file whose YAML the loader rejects, malformed or holding several
      documents (line 19), with the thrown message; or a loaded document. */
  datatype FileState = Missing | Unreadable(message: string) | Unparsable(message: string) | Parsed(doc: ComposeDoc)

  type Files = string -> FileState

  datatype Match = Match(serviceName: string, image: string)

  /** The three outcomes: a match, `null`, or a thrown error. */
  datatype FindResult = Found(m: Match) | NotFound | FindThrew(message: string)

  /** The entry's image qualifies: present, non-empty (truthy) and
      containing the search string. */
  predicate Qualifies(config: ServiceConfig, search: string) {
    config.Config? && config.image.Some? && config.image.value != "" && Contains(config.image.value, search)
  }

  /** Scans the entries in order; a `null` entry reached before any match
      throws. */
  function Scan(entries: seq<(string, ServiceConfig)>, search: string): (r: FindResult)
    ensures r.Found? ==>
      exists i :: (0 <= i < |entries| && entries[i].0 == r.m.serviceName &&
                   Qualifies(entries[i].1, search) && entries[i].1.image.value == r.m.image)
    ensures r.NotFound? <==> forall i :: 0 <= i < |entries| ==> entries[i].1.Config? && !Qualifies(entries[i].1, search)
    decreases |entries|
  {
    if |entries| == 0 then NotFound
    else
      var (name, config) := entries[0];
      match config
      case NullConfig => FindThrew("Cannot read properties of null (reading 'image')")
      case Config(image) =>
        if Qualifies(config, search) then Found(Match(name, image.value))
        else
          var rest := Scan(entries[1..], search);
          assert forall i :: 1 <= i < |entries| ==> entries[i] == entries[1..][i - 1];
          rest
  }

  /** The match is the first qualifying entry: every entry before it is a
      mapping whose image does not qualify. */
  lemma {:induction false} ScanFindsFirst(entries: seq<(string, ServiceConfig)>, search: string, k: nat)
    requires k < |entries| && Qualifies(entries[k].1, search)
    requires forall i :: 0 <= i < k ==> entries[i].1.Config? && !Qualifies(entries[i].1, search)
    ensures Scan(entries, search) == Found(Match(entries[k].0, entries[k].1.image.value))
    decreases k
  {
    if k > 0 {
      assert forall i :: 0 <= i < k - 1 ==> entries[1..][i] == entries[i + 1];
      ScanFindsFirst(entries[1..], search, k - 1);
    }
  }

  /** `findComposeServiceByImage(path, search)`. */
  function FindComposeServiceByImage(files: Files, path: string, search: string): (r: FindResult)
    ensures files(path).Missing? ==> r == FindThrew("❌ docker-compose.yml not found at: " + path)
    ensures files(path).Unreadable? || files(path).Unparsable? ==> r == FindThrew(files(path).message)
    ensures r.Found? || r.NotFound? ==> files(path).Parsed?
    ensures files(path).Parsed? && files(path).doc.Doc? && files(path).doc.services.None? ==>
      r == FindThrew("❌ No services found in coms compose file.")
    ensures files(path).Parsed? && files(path).doc.Doc? && files(path).doc.services.Some? ==>
      r == Scan(files(path).doc.services.value, search)
    ensures files(path).Parsed? && files(path).doc.NullDoc? ==> r.FindThrew?
  {
    match files(path)
    case Missing => FindThrew("❌ docker-compose.yml not found at: " + path)
    case Unreadable(m) => FindThrew(m)
    case Unparsable(m) => FindThrew(m)
    case Parsed(NullDoc) => FindThrew("Cannot read properties of undefined (reading 'services')")
    case Parsed(Doc(None)) => FindThrew("❌ No services found in coms compose file.")
    case Parsed(Doc(Some(entries))) => Scan(entries, search)
  }
}
