/**
 * The configurable extractor: the code is looked for first in the redirect URL's `returnPath`
 * query parameter and then in the whole URL.
 */
module App {
  import opened Wrappers
  import opened Text
  import opened Files
  import opened CodeExtraction
  import opened Config

  /** `parse_qs(urlparse(url).query)`: each parameter's decoded values; `None` when the parse raised. */
  type Query = Option<map<string, seq<string>>>

  const ReturnPath: string := "returnPath"

  /** The `returnPath` branch of `extract_code_from_url`: the code in the first `returnPath` value, if the guard and the search let one through. */
  function ReturnPathCode(q: map<string, seq<string>>): (r: Option<string>)
    requires ReturnPath in q && |q[ReturnPath]| > 0
    ensures r == SearchCode(q[ReturnPath][0])
  {
    var rp := q[ReturnPath][0];
    assert SearchCode(rp).Some? ==> Contains(rp, Key) by {
      if SearchCode(rp).Some? {
        SearchCodeNeedsKey(rp);
      }
    }
    if Contains(rp, Key) then SearchCode(rp) else None
  }

  /**
   * `extract_code_from_url(url)`, given what the query parser made of it. Indexing an empty
   * `returnPath` list raises, and like a failed parse that is caught and turned into `None`.
   */
  function ExtractCodeFromUrl(url: string, query: Query): (r: Option<string>)
    ensures r.Some? ==> IsCode(r.value)
    ensures query.None? ==> r.None?
  {
    match query
      case None => None
      case Some(q) =>
        if ReturnPath in q && |q[ReturnPath]| == 0 then None
        else if ReturnPath in q && ReturnPathCode(q).Some? then ReturnPathCode(q)
        else SearchCode(url)
  }

  /** A code in the first `returnPath` value wins over anything else in the URL. */
  lemma ReturnPathTakesPrecedence(url: string, q: map<string, seq<string>>, code: string)
    requires ReturnPath in q && |q[ReturnPath]| > 0
    requires SearchCode(q[ReturnPath][0]) == Some(code)
    ensures ExtractCodeFromUrl(url, Some(q)) == Some(code)
  {
    SearchCodeNeedsKey(q[ReturnPath][0]);
  }

  /** Only the first `returnPath` value is looked at: the others can be anything. */
  lemma OnlyFirstReturnPath(url: string, q: map<string, seq<string>>, first: string, rest1: seq<string>, rest2: seq<string>)
    requires ReturnPath in q
    ensures ExtractCodeFromUrl(url, Some(q[ReturnPath := [first] + rest1]))
         == ExtractCodeFromUrl(url, Some(q[ReturnPath := [first] + rest2]))
  {
    var q1 := q[ReturnPath := [first] + rest1];
    var q2 := q[ReturnPath := [first] + rest2];
    assert q1[ReturnPath][0] == first == q2[ReturnPath][0];
  }

  /**
   * Without a usable `returnPath` code the answer is the leftmost-maximal match on the whole URL,
   * the same as the other extractors'; in particular `None` when neither search matches.
   */
  lemma FallsBackToWholeUrl(url: string, q: map<string, seq<string>>)
    requires ReturnPath !in q || (|q[ReturnPath]| > 0 && SearchCode(q[ReturnPath][0]).None?)
    ensures ExtractCodeFromUrl(url, Some(q)) == SearchCode(url)
  {
  }

  /** `None` exactly when parsing failed, `returnPath` was empty, or neither search matched. */
  lemma ExtractCodeFromUrlNone(url: string, query: Query)
    ensures ExtractCodeFromUrl(url, query).None? <==>
      || query.None?
      || (ReturnPath in query.value && |query.value[ReturnPath]| == 0)
      || ((ReturnPath !in query.value || SearchCode(query.value[ReturnPath][0]).None?) && SearchCode(url).None?)
  {
    if query.Some? && ReturnPath in query.value && |query.value[ReturnPath]| > 0 && SearchCode(query.value[ReturnPath][0]).Some? {
      SearchCodeNeedsKey(query.value[ReturnPath][0]);
    }
  }

  /** `save_code(code, service_key)`: an unknown key or a failed open is caught and reported as `False`. */
  method SaveCode(fs: FileSystem, code: string, serviceKey: string) returns (ok: bool)
    modifies fs
    ensures fs.faults == old(fs.faults)
    ensures ok == (serviceKey in ServiceOutputFiles && Writable(fs.faults, OutputPath(serviceKey)))
    ensures fs.files == if ok then old(fs.files)[OutputPath(serviceKey) := Contents(old(fs.files), OutputPath(serviceKey)) + (code + "\n")]
                        else old(fs.files)
  {
    if serviceKey !in ServiceOutputFiles {
      return false;
    }
    ok := fs.Append(OutputPath(serviceKey), code + "\n");
  }
}
