/**
 * The stand-alone Telegram bot: every request drives the browser afresh, appends each code it
 * obtains to the service's file and sends it back.
 */
module SimpleAppTelegram {
  import opened Wrappers
  import opened Text
  import opened TextLines
  import opened Files
  import opened CodeExtraction
  import opened BotCommon
  import KeyGeneratorService

  const ServiceButtons: set<string> := {"tv", "music", "arcade", "fitness", "news"}

  const ServiceFiles: map<string, string> := map[
    "tv" := "tv_plus_codes.txt",
    "music" := "music_codes.txt",
    "arcade" := "arcade_codes.txt",
    "fitness" := "fitness_codes.txt",
    "news" := "news_codes.txt"
  ]

  const OutputDir: string := "codes"

  /** The bounds of `random.randint(3, 7)`, the pause between two attempts. */
  const MinWait: nat := 3
  const MaxWait: nat := 7

  /** `os.path.join("codes", SERVICE_FILES[service])`. */
  function OutputPath(service: string): string
    requires service in ServiceFiles
  {
    OutputDir + "/" + ServiceFiles[service]
  }

  /** Every service this bot offers has a file, and the four it shares with the generator use the generator's files. */
  lemma OutputPathsAreTheGenerators()
    ensures ServiceButtons == ServiceFiles.Keys
    ensures KeyGeneratorService.ServiceButtons < ServiceButtons
    ensures forall s :: s in KeyGeneratorService.ServiceFiles ==> OutputPath(s) == KeyGeneratorService.ServiceFiles[s]
  {
    KeyGeneratorService.ServiceFilesCoverButtons();
    forall s | s in KeyGeneratorService.ServiceFiles
      ensures OutputPath(s) == KeyGeneratorService.ServiceFiles[s]
    {
      KeyGeneratorService.ReservoirUnderCodes(s);
      assert ServiceFiles[s] == KeyGeneratorService.ReservoirName(s);
      assert OutputDir + "/" == "codes/";
    }
  }

  /**
   * What `get_code` does once the browser has been redirected: `url` is `driver.current_url`, or
   * `None` when the driver could not be created or an exception left the `try` before it was read.
   * A `code=` with no code character after it makes `re.search` return `None`, and the
   * `.group(1)` on it raises; the handler turns that, like a failed open, into `None`.
   */
  function Fetched(files: map<string, string>, faults: Faults, path: string, url: Option<string>): (Option<string>, map<string, string>) {
    match Extracted(url)
      case None => (None, files)
      case Some(code) =>
        if !Writable(faults, path) then (None, files)
        else (Some(code), files[path := Contents(files, path) + (code + "\n")])
  }

  /** The step of `get_code` that reads the redirect URL: its code, if the `code=` guard and the search both let one through. */
  function Extracted(url: Option<string>): Option<string> {
    if url.None? || !Contains(url.value, Key) then None else SearchCode(url.value)
  }

  /** `get_code(service)`, given the redirect URL the browser reached. */
  method GetCode(fs: FileSystem, service: string, url: Option<string>) returns (code: Option<string>)
    requires service in ServiceFiles
    modifies fs
    ensures fs.faults == old(fs.faults)
    ensures (code, fs.files) == Fetched(old(fs.files), fs.faults, OutputPath(service), url)
  {
    if url.None? || !Contains(url.value, Key) {
      return None;
    }
    var found := SearchCode(url.value);
    if found.None? {
      return None;
    }
    var ok := fs.Append(OutputPath(service), found.value + "\n");
    code := if ok then found else None;
  }

  /**
   * The `"code="` guard decides nothing the search does not: the result is the URL's
   * leftmost-maximal code, unless the browser step or the file failed. A returned code is a
   * non-empty run of A–Z/0–9 and it has been appended to the file followed by a newline; when
   * nothing is returned nothing is written.
   */
  lemma FetchedIsSearch(files: map<string, string>, faults: Faults, path: string, url: Option<string>)
    ensures var (code, after) := Fetched(files, faults, path, url);
      && code == (if url.None? || !Writable(faults, path) then None else SearchCode(url.value))
      && (code.Some? ==> IsCode(code.value) && after == files[path := Contents(files, path) + (code.value + "\n")])
      && (code.None? ==> after == files)
  {
    if url.Some? && SearchCode(url.value).Some? {
      SearchCodeNeedsKey(url.value);
    }
  }

  /** `get_code` returns `None` whenever the redirect URL has no `"code="` in it. */
  lemma NoKeyNoCode(files: map<string, string>, faults: Faults, path: string, url: string)
    requires !Contains(url, Key)
    ensures Fetched(files, faults, path, Some(url)) == (None, files)
  {
  }

  /** `n` calls of `get_code` in a row, the i-th seeing the redirect URL `urls(i)`. */
  function FetchMany(files: map<string, string>, faults: Faults, path: string, urls: nat -> Option<string>, n: nat)
    : (r: (seq<Option<string>>, map<string, string>))
    ensures |r.0| == n
  {
    if n == 0 then ([], files)
    else
      var prev := FetchMany(files, faults, path, urls, n - 1);
      var step := Fetched(prev.1, faults, path, urls(n - 1));
      (prev.0 + [step.0], step.1)
  }

  /** The first `m` durations `wait` chooses. */
  function Pauses(wait: nat -> nat, m: nat): (r: seq<nat>)
    ensures |r| == m && forall k :: 0 <= k < m ==> r[k] == wait(k)
  {
    seq(m, k requires 0 <= k => wait(k))
  }

  /** The waits `get_multiple_codes` makes: one after each attempt but the last. */
  function Waits(wait: nat -> nat, count: int): (r: seq<nat>)
    ensures |r| == if count > 1 then count - 1 else 0
    ensures forall k :: 0 <= k < |r| ==> r[k] == wait(k)
  {
    Pauses(wait, if count > 1 then count - 1 else 0)
  }

  /** One pass of the `get_multiple_codes` loop: the `i`-th call of `get_code` extends the record of the previous ones, and a truthy result is kept. */
  method AttemptOnce(fs: FileSystem, service: string, urls: nat -> Option<string>, i: nat, codes: seq<string>,
                     ghost files0: map<string, string>, ghost fetched: seq<Option<string>>)
    returns (code: Option<string>, codes': seq<string>)
    requires service in ServiceFiles
    requires (fetched, fs.files) == FetchMany(files0, fs.faults, OutputPath(service), urls, i)
    requires codes == TruthyValues(fetched)
    modifies fs
    ensures fs.faults == old(fs.faults)
    ensures (fetched + [code], fs.files) == FetchMany(files0, fs.faults, OutputPath(service), urls, i + 1)
    ensures codes' == TruthyValues(fetched + [code])
  {
    code := GetCode(fs, service, urls(i));
    TruthyValuesSnoc(fetched, code);
    codes' := if Truthy(code) then codes + [code.value] else codes;
  }

  /**
   * `get_multiple_codes(service, count)`: `count` attempts (none when `count` is negative), the
   * non-`None` results in call order, and a wait of `wait(i)` seconds after every attempt but the last.
   */
  method GetMultipleCodes(fs: FileSystem, service: string, count: int, urls: nat -> Option<string>, wait: nat -> nat)
    returns (codes: seq<string>, waits: seq<nat>)
    requires service in ServiceFiles
    requires forall i :: MinWait <= wait(i) <= MaxWait
    modifies fs
    ensures fs.faults == old(fs.faults)
    ensures var fetched := FetchMany(old(fs.files), fs.faults, OutputPath(service), urls, if count > 0 then count else 0);
      codes == TruthyValues(fetched.0) && fs.files == fetched.1
    ensures waits == Waits(wait, count)
    ensures forall k :: 0 <= k < |waits| ==> MinWait <= waits[k] <= MaxWait
  {
    codes, waits := [], [];
    ghost var fetched: seq<Option<string>> := [];
    ghost var files0, path := fs.files, OutputPath(service);
    var n: nat := if count > 0 then count else 0;
    var i: nat := 0;
    while i < n
      invariant i <= n
      invariant fs.faults == old(fs.faults)
      invariant (fetched, fs.files) == FetchMany(files0, fs.faults, path, urls, i)
      invariant codes == TruthyValues(fetched)
      invariant i < n ==> waits == Pauses(wait, i)
      invariant i == n ==> waits == Pauses(wait, if n > 0 then n - 1 else 0)
    {
      var code;
      code, codes := AttemptOnce(fs, service, urls, i, codes, files0, fetched);
      fetched := fetched + [code];
      if i < n - 1 {
        assert Pauses(wait, i + 1)[..i] == Pauses(wait, i);
        waits := waits + [wait(i)];
      }
      i := i + 1;
    }
  }

  /** `get_multiple_codes` returns at most `count` codes, each of them a non-empty run of A–Z/0–9. */
  lemma {:induction false} FetchManyCodes(files: map<string, string>, faults: Faults, path: string, urls: nat -> Option<string>, n: nat)
    ensures var codes := TruthyValues(FetchMany(files, faults, path, urls, n).0);
      |codes| <= n && forall k :: 0 <= k < |codes| ==> IsCode(codes[k])
  {
    var popped := FetchMany(files, faults, path, urls, n).0;
    forall k | 0 <= k < n && popped[k].Some?
      ensures IsCode(popped[k].value)
    {
      FetchedAreCodes(files, faults, path, urls, n, k);
    }
    TruthyCodes(popped);
  }

  /** Every outcome of the `n` calls that is a code is a non-empty run of A–Z/0–9. */
  lemma FetchedAreCodes(files: map<string, string>, faults: Faults, path: string, urls: nat -> Option<string>, n: nat, k: nat)
    requires k < n
    ensures FetchMany(files, faults, path, urls, n).0[k].Some? ==> IsCode(FetchMany(files, faults, path, urls, n).0[k].value)
  {
    FetchManyEntry(files, faults, path, urls, n, k);
    FetchedIsCode(FetchMany(files, faults, path, urls, k).1, faults, path, urls(k));
  }

  /** The `k`-th outcome of `n` calls is what call `k` returned on the directory the first `k` calls left. */
  lemma {:induction false} FetchManyEntry(files: map<string, string>, faults: Faults, path: string, urls: nat -> Option<string>, n: nat, k: nat)
    requires k < n
    ensures FetchMany(files, faults, path, urls, n).0[k] == Fetched(FetchMany(files, faults, path, urls, k).1, faults, path, urls(k)).0
  {
    var prev := FetchMany(files, faults, path, urls, n - 1);
    assert FetchMany(files, faults, path, urls, n).0 == prev.0 + [Fetched(prev.1, faults, path, urls(n - 1)).0];
    if k < n - 1 {
      FetchManyEntry(files, faults, path, urls, n - 1, k);
    }
  }

  /** A code that `get_code` returns is a non-empty run of A–Z/0–9. */
  lemma FetchedIsCode(files: map<string, string>, faults: Faults, path: string, url: Option<string>)
    ensures var code := Fetched(files, faults, path, url).0;
      code.Some? ==> IsCode(code.value)
  {
    FetchedIsSearch(files, faults, path, url);
  }

  /** The truthy values of outcomes that are all codes when present. */
  lemma {:induction false} TruthyCodes(os: seq<Option<string>>)
    requires forall k :: 0 <= k < |os| && os[k].Some? ==> IsCode(os[k].value)
    ensures forall k :: 0 <= k < |TruthyValues(os)| ==> IsCode(TruthyValues(os)[k])
  {
    if os != [] {
      TruthyCodes(os[..|os| - 1]);
    }
  }

  /** One `get_code` on a grown file grows it by the code it returns, if any; a returned code is never empty. */
  lemma FetchedGrows(files: map<string, string>, faults: Faults, path: string, codes: seq<string>, url: Option<string>)
    ensures var r := Fetched(KeyGeneratorService.Grown(files, path, codes), faults, path, url);
      && (r.0.Some? ==> r.0.value != "")
      && r.1 == KeyGeneratorService.Grown(files, path, codes + (if r.0.Some? then [r.0.value] else []))
  {
    var mid := KeyGeneratorService.Grown(files, path, codes);
    var r := Fetched(mid, faults, path, url);
    if r.0.Some? {
      KeyGeneratorService.GrownByOne(files, path, codes, r.0.value);
    } else {
      assert codes + [] == codes;
    }
  }

  /**
   * The service's file grows by exactly the codes `get_multiple_codes` returns, each followed by
   * a newline, in the order they were returned; nothing else in the directory changes.
   */
  lemma {:induction false} FetchManyAppendsCodes(files: map<string, string>, faults: Faults, path: string, urls: nat -> Option<string>, n: nat)
    ensures var fetched := FetchMany(files, faults, path, urls, n);
      fetched.1 == KeyGeneratorService.Grown(files, path, TruthyValues(fetched.0))
  {
    if n == 0 {
      assert FetchMany(files, faults, path, urls, 0) == ([], files);
      assert TruthyValues([]) == [];
    } else {
      FetchManyAppendsCodes(files, faults, path, urls, n - 1);
      FetchManyStep(files, faults, path, urls, n);
    }
  }

  /** The inductive step of `FetchManyAppendsCodes`: call `n` keeps the file grown by the codes so far. */
  lemma FetchManyStep(files: map<string, string>, faults: Faults, path: string, urls: nat -> Option<string>, n: nat)
    requires n > 0
    requires var prev := FetchMany(files, faults, path, urls, n - 1);
      prev.1 == KeyGeneratorService.Grown(files, path, TruthyValues(prev.0))
    ensures var fetched := FetchMany(files, faults, path, urls, n);
      fetched.1 == KeyGeneratorService.Grown(files, path, TruthyValues(fetched.0))
  {
    var prev := FetchMany(files, faults, path, urls, n - 1);
    var step := Fetched(prev.1, faults, path, urls(n - 1));
    assert FetchMany(files, faults, path, urls, n) == (prev.0 + [step.0], step.1);
    StepGrows(files, faults, path, prev.0, prev.1, urls(n - 1));
  }

  /** One more `get_code` on a file grown by the truthy outcomes `os` grows it by those of `os` and its outcome. */
  lemma StepGrows(files: map<string, string>, faults: Faults, path: string, os: seq<Option<string>>,
                  cur: map<string, string>, url: Option<string>)
    requires cur == KeyGeneratorService.Grown(files, path, TruthyValues(os))
    ensures var step := Fetched(cur, faults, path, url);
      step.1 == KeyGeneratorService.Grown(files, path, TruthyValues(os + [step.0]))
  {
    FetchedGrows(files, faults, path, TruthyValues(os), url);
    TruthyValuesSnoc(os, Fetched(cur, faults, path, url).0);
  }

  /** `generate_command`: the count is clamped and an unknown service is turned away before any attempt. */
  method GenerateCommand(fs: FileSystem, allowed: seq<int>, userId: int, args: seq<string>, urls: nat -> Option<string>, wait: nat -> nat)
    returns (reply: GenerateReply, attempts: nat, waits: seq<nat>)
    requires forall i :: MinWait <= wait(i) <= MaxWait
    modifies fs
    ensures fs.faults == old(fs.faults)
    ensures !IsAuthorized(allowed, userId) || |args| < 1 || Lower(args[0]) !in ServiceButtons ==>
      attempts == 0 && waits == [] && fs.files == old(fs.files)
    ensures !IsAuthorized(allowed, userId) ==> reply == NotAuthorized
    ensures IsAuthorized(allowed, userId) && |args| < 1 ==> reply == Usage
    ensures IsAuthorized(allowed, userId) && |args| >= 1 && Lower(args[0]) !in ServiceButtons ==>
      reply == UnknownService(Lower(args[0]))
    ensures IsAuthorized(allowed, userId) && |args| >= 1 && Lower(args[0]) in ServiceButtons ==>
      var fetched := FetchMany(old(fs.files), fs.faults, OutputPath(Lower(args[0])), urls, RequestedCount(args));
      && attempts == RequestedCount(args)
      && fs.files == fetched.1
      && waits == Waits(wait, attempts)
      && reply == if TruthyValues(fetched.0) != [] then Codes(TruthyValues(fetched.0)) else Failed
  {
    if !IsAuthorized(allowed, userId) {
      return NotAuthorized, 0, [];
    }
    if |args| < 1 {
      return Usage, 0, [];
    }
    var service := Lower(args[0]);
    if service !in ServiceButtons {
      return UnknownService(service), 0, [];
    }
    attempts := RequestedCount(args);
    var codes;
    codes, waits := GetMultipleCodes(fs, service, attempts, urls, wait);
    reply := if codes != [] then Codes(codes) else Failed;
  }
}
