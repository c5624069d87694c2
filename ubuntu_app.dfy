/** The one-shot extractor for Ubuntu: find the code in the redirect URL and append it to the service's file. */
module UbuntuApp {
  import opened Wrappers
  import opened Text
  import opened Files
  import opened CodeExtraction

  /** `SERVICES[key]["output_file"]`, under the fixed directory `codes`. */
  const ServiceOutputFiles: map<string, string> := map[
    "tv" := "tv_plus_codes.txt",
    "music" := "music_codes.txt",
    "arcade" := "arcade_codes.txt",
    "fitness" := "fitness_codes.txt",
    "news" := "news_codes.txt"
  ]

  function OutputPath(key: string): string
    requires key in ServiceOutputFiles
  {
    "codes/" + ServiceOutputFiles[key]
  }

  /** `extract_code_from_url`: the `"code="` guard, then `re.search(r'code=([A-Z0-9]+)', url).group(1)`. */
  function ExtractCodeFromUrl(url: string): (r: Option<string>)
    ensures r.Some? ==> Contains(url, Key) && IsCode(r.value)
  {
    if Contains(url, Key) then SearchCode(url) else None
  }

  /**
   * The guard changes nothing: the result is exactly the leftmost-maximal search, so a returned
   * code directly follows the first `code=` that has one, runs as far as A–Z/0–9 go, and is
   * `None` when no `code=` is followed by such a character.
   */
  lemma ExtractCodeFromUrlIsSearch(url: string)
    ensures ExtractCodeFromUrl(url) == SearchCode(url)
  {
    if SearchCode(url).Some? {
      SearchCodeNeedsKey(url);
    }
  }

  /** A URL without `code=` yields nothing, and `code=` followed by no code character yields nothing either. */
  lemma ExtractCodeFromUrlNone(url: string)
    ensures !Contains(url, Key) ==> ExtractCodeFromUrl(url).None?
    ensures (forall i: nat :: !MatchAt(url, i)) ==> ExtractCodeFromUrl(url).None?
  {
    ExtractCodeFromUrlIsSearch(url);
  }

  /** `save_code(code, service_key)`: an unknown key or a failed open is caught and reported as `False`. */
  method SaveCode(fs: FileSystem, code: string, serviceKey: string) returns (ok: bool)
    modifies fs
    ensures fs.faults == old(fs.faults)
    ensures ok == (serviceKey in ServiceOutputFiles && Writable(fs.faults, OutputPath(serviceKey)))
    ensures fs.files == if ok then old(fs.files)[OutputPath(serviceKey) := Contents(old(fs.files), OutputPath(serviceKey)) + (code + "\n")]
                        else old(fs.files)
  {
    if serviceKey !in ServiceOutputFiles {
      return false;
    }
    ok := fs.Append(OutputPath(serviceKey), code + "\n");
  }
}
