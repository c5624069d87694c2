/**
 * The background generator: one code reservoir per service, kept as a text file with one code per
 * line (oldest first), filled by a worker per service and reported on by a status monitor.
 */
module KeyGeneratorService {
  import opened Wrappers
  import opened Text
  import opened TextLines
  import opened Files
  import CodeExtraction

  /** Declared by the service but never read, so it has no effect on any operation. */
  const MinCodes: nat := 5
  /** A worker stops acquiring once its reservoir holds this many codes. */
  const MaxCodes: nat := 20

  /** Seconds a worker sleeps when its reservoir is full. */
  const FullSleep: nat := 60
  /** Seconds a worker sleeps after an exception in its loop body. */
  const ErrorSleep: nat := 30
  /** Bounds of `random.randint(5, 15)`, the pause after each acquisition attempt. */
  const MinDelay: nat := 5
  const MaxDelay: nat := 15

  /** The keys of `SERVICE_BUTTONS`: the services that get a worker and a reservoir. */
  const ServiceButtons: set<string> := {"tv", "music", "arcade", "fitness"}

  /** `SERVICE_FILES`: the reservoir file of each service. */
  const ServiceFiles: map<string, string> := map[
    "tv" := "codes/tv_plus_codes.txt",
    "music" := "codes/music_codes.txt",
    "arcade" := "codes/arcade_codes.txt",
    "fitness" := "codes/fitness_codes.txt"]

  /** Each reservoir is the service's file name under the `codes` directory. */
  lemma TvFile() ensures ServiceFiles["tv"] == "codes/" + "tv_plus_codes.txt" {}
  lemma MusicFile() ensures ServiceFiles["music"] == "codes/" + "music_codes.txt" {}
  lemma ArcadeFile() ensures ServiceFiles["arcade"] == "codes/" + "arcade_codes.txt" {}
  lemma FitnessFile() ensures ServiceFiles["fitness"] == "codes/" + "fitness_codes.txt" {}

  /** The name of a service's reservoir inside the `codes` directory, which the other front ends also use. */
  function ReservoirName(service: string): string {
    if service == "tv" then "tv_plus_codes.txt"
    else if service == "music" then "music_codes.txt"
    else if service == "arcade" then "arcade_codes.txt"
    else "fitness_codes.txt"
  }

  lemma ReservoirUnderCodes(service: string)
    requires service in ServiceFiles
    ensures ServiceFiles[service] == "codes/" + ReservoirName(service)
  {
    if service == "tv" {
      TvFile();
    } else if service == "music" {
      MusicFile();
    } else if service == "arcade" {
      ArcadeFile();
    } else {
      FitnessFile();
    }
  }

  lemma ServiceFilesCoverButtons()
    ensures ServiceFiles.Keys == ServiceButtons
  {
  }

  /** `count_codes(service)`: `None` stands for the `OSError` that escapes from it. */
  function CountCodes(files: map<string, string>, faults: Faults, service: string): (r: Option<nat>)
    requires service in ServiceFiles
    ensures r.Some? ==> (r.value == 0 <==> Contents(files, ServiceFiles[service]) == "")
  {
    var path := ServiceFiles[service];
    if path !in files then Some(0)
    else if !Readable(faults, path) then None
    else Some(|Lines(files[path])|)
  }

  /**
   * What `get_stored_code` reads from a reservoir file and what it leaves in the directory: the
   * stripped first line and the file rewritten with the remaining lines, or `None` and no change.
   * A failing `open(path, 'w')` raises before truncating, so the file keeps every line.
   */
  function PopStored(files: map<string, string>, faults: Faults, path: string): (r: (Option<string>, map<string, string>))
    ensures r.0.None? ==> r.1 == files
  {
    if path !in files || !Readable(faults, path) then (None, files)
    else
      var ls := Lines(files[path]);
      if ls == [] || !Writable(faults, path) then (None, files)
      else (Some(Strip(ls[0])), files[path := Concat(ls[1..])])
  }

  /** The directory after `save_code` has appended `code` to `path`. */
  function Saved(files: map<string, string>, path: string, code: string): map<string, string> {
    files[path := Contents(files, path) + (code + "\n")]
  }

  /** The directory after `codes` have been saved to `path` one after the other, one per line. */
  function Grown(files: map<string, string>, path: string, codes: seq<string>): map<string, string> {
    if codes == [] then files else files[path := Contents(files, path) + Concat(AsLines(codes))]
  }

  /** Saving one more code to a grown file is growing it by one more code. */
  lemma GrownByOne(files: map<string, string>, path: string, codes: seq<string>, code: string)
    ensures Saved(Grown(files, path, codes), path, code) == Grown(files, path, codes + [code])
  {
    ConcatAsLinesSnoc(codes, code);
    var all := codes + [code];
    if codes == [] {
      assert Concat(AsLines(all)) == code + "\n";
    } else {
      var mid := Grown(files, path, codes);
      assert Contents(mid, path) == Contents(files, path) + Concat(AsLines(codes));
      assert Contents(files, path) + Concat(AsLines(all)) == Contents(mid, path) + (code + "\n");
    }
  }

  /** `save_code(service, code)`; `ok` is false when the open raised (the exception leaves the function). */
  method SaveCode(fs: FileSystem, service: string, code: string) returns (ok: bool)
    requires service in ServiceFiles
    modifies fs
    ensures fs.faults == old(fs.faults)
    ensures ok == Writable(fs.faults, ServiceFiles[service])
    ensures fs.files == if ok then Saved(old(fs.files), ServiceFiles[service], code) else old(fs.files)
  {
    ok := fs.Append(ServiceFiles[service], code + "\n");
  }

  /** `get_stored_code(service)`: pop the oldest code of the reservoir. */
  method GetStoredCode(fs: FileSystem, service: string) returns (code: Option<string>)
    requires service in ServiceFiles
    modifies fs
    ensures fs.faults == old(fs.faults)
    ensures (code, fs.files) == PopStored(old(fs.files), fs.faults, ServiceFiles[service])
  {
    var path := ServiceFiles[service];
    if path !in fs.files || !Readable(fs.faults, path) {
      return None;
    }
    var codes := Lines(fs.files[path]);
    if codes == [] {
      return None;
    }
    var ok := fs.Overwrite(path, Concat(codes[1..]));
    code := if ok then Some(Strip(codes[0])) else None;
  }

  /** A reservoir written as the lines `ls` counts every one of them, blank lines included. */
  lemma CountCodesIsLineCount(files: map<string, string>, faults: Faults, service: string, ls: seq<string>)
    requires service in ServiceFiles && Readable(faults, ServiceFiles[service])
    requires WellFormed(ls)
    ensures CountCodes(files[ServiceFiles[service] := Concat(ls)], faults, service) == Some(|ls|)
  {
    LinesOfConcat(ls);
  }

  /**
   * Saving a code without a newline to a terminated reservoir raises its count by exactly one,
   * adds that code as the last line and keeps the file terminated.
   */
  lemma {:induction false} CountAfterSave(files: map<string, string>, faults: Faults, service: string, code: string)
    requires service in ServiceFiles && Readable(faults, ServiceFiles[service])
    requires Terminated(Contents(files, ServiceFiles[service]))
    requires '\n' !in code
    ensures var path := ServiceFiles[service];
      var after := Saved(files, path, code);
      && CountCodes(after, faults, service) == Some(CountCodes(files, faults, service).value + 1)
      && Lines(after[path]) == Lines(Contents(files, path)) + [code + "\n"]
      && Terminated(after[path])
  {
    var path := ServiceFiles[service];
    LinesOfAppendedLine(Contents(files, path), code);
  }

  /** `get_stored_code` yields nothing, and changes nothing, exactly when the file is missing, unreadable or empty. */
  lemma PopStoredNothing(files: map<string, string>, faults: Faults, path: string)
    ensures PopStored(files, faults, path).0.None?
      <==> (path !in files || !Usable(faults, path) || files[path] == "")
    ensures PopStored(files, faults, path).0.None? ==> PopStored(files, faults, path).1 == files
  {
  }

  /**
   * Otherwise it yields the first line, stripped (a blank first line yields `""` and is consumed
   * all the same), and what remains reads back as the other lines in their order: one line fewer.
   */
  lemma PopStoredTakesHead(files: map<string, string>, faults: Faults, path: string)
    requires path in files && Usable(faults, path) && files[path] != ""
    ensures var (code, after) := PopStored(files, faults, path);
      && code == Some(Strip(Lines(files[path])[0]))
      && after.Keys == files.Keys && (forall p :: p in files && p != path ==> after[p] == files[p])
      && Lines(after[path]) == Lines(files[path])[1..]
      && |Lines(after[path])| == |Lines(files[path])| - 1
      && (Terminated(files[path]) ==> Terminated(after[path]))
  {
    LinesOfTail(files[path]);
    if Terminated(files[path]) {
      TailTerminated(files[path]);
    }
  }

  /** What remains after the first line of a terminated text is terminated too. */
  lemma TailTerminated(s: string)
    requires s != [] && Terminated(s)
    ensures Terminated(Concat(Lines(s)[1..]))
  {
    var k := LineLength(s);
    FirstLine(s);
    assert Lines(s) == [s[..k]] + Lines(s[k..]);
    assert Lines(s)[1..] == Lines(s[k..]);
  }

  /** Popping right after saving to an empty reservoir returns the saved code and empties it again. */
  lemma {:induction false} PopAfterSaveToEmpty(files: map<string, string>, faults: Faults, path: string, code: string)
    requires Usable(faults, path)
    requires Contents(files, path) == ""
    requires '\n' !in code
    ensures PopStored(Saved(files, path, code), faults, path) == (Some(Strip(code)), files[path := ""])
  {
    var after := Saved(files, path, code);
    LinesOfAppendedLine("", code);
    assert after[path] == "" + (code + "\n");
    assert Lines(after[path]) == [code + "\n"];
    StripDropsNewline(code);
    assert after[path := Concat([])] == files[path := ""];
  }

  /** Appending a closed line to a non-empty terminated file leaves its first line and extends its tail. */
  lemma {:induction false} AppendKeepsHead(c: string, code: string)
    requires c != "" && Terminated(c)
    requires '\n' !in code
    ensures Lines(c + (code + "\n")) != []
    ensures Lines(c + (code + "\n"))[0] == Lines(c)[0]
    ensures Concat(Lines(c + (code + "\n"))[1..]) == Concat(Lines(c)[1..]) + (code + "\n")
  {
    LinesOfAppendedLine(c, code);
    SnocKeepsHead(Lines(c), code + "\n");
  }

  lemma SnocKeepsHead(ls: seq<string>, x: string)
    requires ls != []
    ensures (ls + [x])[0] == ls[0]
    ensures Concat((ls + [x])[1..]) == Concat(ls[1..]) + x
  {
    assert (ls + [x])[1..] == ls[1..] + [x];
    ConcatSnoc(ls[1..], x);
  }

  /** On a non-empty reservoir, saving commutes with popping: the pop still takes the old head. */
  lemma {:induction false} PopAfterSaveToNonEmpty(files: map<string, string>, faults: Faults, path: string, code: string)
    requires path in files && Usable(faults, path)
    requires files[path] != "" && Terminated(files[path])
    requires '\n' !in code
    ensures PopStored(Saved(files, path, code), faults, path)
      == (PopStored(files, faults, path).0, Saved(PopStored(files, faults, path).1, path, code))
  {
    var c := files[path];
    AppendKeepsHead(c, code);
    var after := Saved(files, path, code);
    assert after[path] == c + (code + "\n");
    var rest := files[path := Concat(Lines(c)[1..])];
    assert PopStored(files, faults, path) == (Some(Strip(Lines(c)[0])), rest);
    assert Saved(rest, path, code) == files[path := Concat(Lines(c)[1..]) + (code + "\n")];
    var ls' := Lines(after[path]);
    assert ls' != [] && ls'[0] == Lines(c)[0];
    assert PopStored(after, faults, path) == (Some(Strip(ls'[0])), after[path := Concat(ls'[1..])]);
    assert after[path := Concat(ls'[1..])] == files[path := Concat(Lines(c)[1..]) + (code + "\n")];
  }
  /** Why the law above needs a terminated file: saving `B` after an unterminated `A` glues the two into one line. */
  lemma SaveToUnterminatedGlues()
    ensures var files := map["codes/tv_codes.txt" := "A"];
      var none := Faults({}, {});
      && PopStored(files, none, "codes/tv_codes.txt").0 == Some("A")
      && PopStored(Saved(files, "codes/tv_codes.txt", "B"), none, "codes/tv_codes.txt").0 == Some("AB")
  {
    var path := "codes/tv_codes.txt";
    var none := Faults({}, {});
    assert "A" + ("B" + "\n") == "AB\n";
    assert Saved(map[path := "A"], path, "B") == map[path := "AB\n"];
    GluedLines();
    PopStoredTakesHead(map[path := "A"], none, path);
    PopStoredTakesHead(map[path := "AB\n"], none, path);
  }

  /** The texts of `SaveToUnterminatedGlues` are one line each, and what `strip` makes of them. */
  lemma GluedLines()
    ensures Lines("A") == ["A"] && Strip("A") == "A"
    ensures Lines("AB\n") == ["AB\n"] && Strip("AB\n") == "AB"
  {
    assert Lines("A") == ["A"] by {
      assert ["A"][1..] == [];
      assert Concat(["A"]) == "A" + Concat([]) == "A";
      LinesOfConcat(["A"]);
    }
    assert Lines("AB\n") == ["AB\n"] by {
      assert "AB\n"[0] == 'A' && "AB\n"[1] == 'B';
      assert ["AB\n"][1..] == [];
      assert Concat(["AB\n"]) == "AB\n" + Concat([]) == "AB\n";
      LinesOfConcat(["AB\n"]);
    }
    StripDropsNewline("AB");
    StripOfTrimmed("AB");
    StripOfTrimmed("A");
  }

  /** A redemption code survives the trip into the file and back unchanged. */
  lemma StripOfCode(code: string)
    requires CodeExtraction.IsCode(code)
    ensures '\n' !in code && Strip(code + "\n") == code
  {
    assert !IsSpace(code[0]) && !IsSpace(code[|code| - 1]);
    StripOfTrimmed(code);
    StripDropsNewline(code);
    assert '\n' !in code by {
      assert forall k :: 0 <= k < |code| ==> code[k] != '\n';
    }
  }

  /** FIFO law: save A, save B, pop, pop returns A, then B, and leaves the reservoir empty. */
  lemma FifoLaw(files: map<string, string>, faults: Faults, service: string, a: string, b: string)
    requires service in ServiceFiles && Usable(faults, ServiceFiles[service])
    requires Contents(files, ServiceFiles[service]) == ""
    requires CodeExtraction.IsCode(a) && CodeExtraction.IsCode(b)
    ensures var path := ServiceFiles[service];
      var (first, f1) := PopStored(Saved(Saved(files, path, a), path, b), faults, path);
      var (second, f2) := PopStored(f1, faults, path);
      first == Some(a) && second == Some(b) && f2[path] == "" && CountCodes(f2, faults, service) == Some(0)
  {
    var path := ServiceFiles[service];
    StripOfCode(a);
    StripOfCode(b);
    var fa := Saved(files, path, a);
    CountAfterSave(files, faults, service, a);
    PopAfterSaveToNonEmpty(fa, faults, path, b);
    PopAfterSaveToEmpty(files, faults, path, a);
    var rest := PopStored(fa, faults, path).1;
    assert rest == files[path := ""];
    PopAfterSaveToEmpty(rest, faults, path, b);
  }

  /** The `(service, count)` pair a worker puts on the status queue. */
  datatype Report = Report(service: string, count: nat)

  /** What one pass of the worker loop did: the report it published, whether it called the acquirer, and how long it then slept. */
  datatype Iteration = Iteration(report: Option<Report>, acquired: bool, sleep: nat)

  /** The reservoir is in the steady state the worker keeps: terminated and not over capacity. */
  predicate ValidReservoir(files: map<string, string>, faults: Faults, service: string)
    requires service in ServiceFiles
  {
    && Terminated(Contents(files, ServiceFiles[service]))
    && (CountCodes(files, faults, service).Some? ==> CountCodes(files, faults, service).value <= MaxCodes)
  }

  /**
   * The pass the loop body of `service_worker` makes on a reservoir whose `count_codes` gave
   * `count`: it publishes `(service, count)` whenever the count succeeded, calls the acquirer
   * exactly when the count is below `MaxCodes`, and sleeps 30 seconds after an exception, 60 at
   * capacity and the drawn `delay` otherwise. `acquired` is what the acquirer returns and
   * `writable` whether the save's open succeeds.
   */
  predicate PassAgrees(it: Iteration, service: string, count: Option<nat>, acquired: Option<string>, writable: bool, delay: nat) {
    && (it.report.Some? <==> count.Some?)
    && (it.report.Some? ==> it.report.value == Report(service, count.value))
    && (it.acquired <==> count.Some? && count.value < MaxCodes)
    && it.sleep == if it.report.None? then ErrorSleep
      else if !it.acquired then FullSleep
      else if Truthy(acquired) && !writable then ErrorSleep
      else delay
  }

  /** There is only one pass a given count, acquisition, open and delay allow. */
  lemma PassAgreesUnique(it: Iteration, it': Iteration, service: string, count: Option<nat>, acquired: Option<string>, writable: bool, delay: nat)
    requires PassAgrees(it, service, count, acquired, writable, delay)
    requires PassAgrees(it', service, count, acquired, writable, delay)
    ensures it == it'
  {
  }

  /**
   * One pass of the loop body of `service_worker`: count, publish the count, and call the acquirer
   * (whose result is `acquired`) only below `MaxCodes`, saving what it returned; `delay` is the
   * value `random.randint(5, 15)` draws.
   */
  method WorkerStep(fs: FileSystem, service: string, acquired: Option<string>, delay: nat) returns (it: Iteration)
    requires service in ServiceFiles
    requires MinDelay <= delay <= MaxDelay
    modifies fs
    ensures fs.faults == old(fs.faults)
    ensures PassAgrees(it, service, CountCodes(old(fs.files), fs.faults, service), acquired, Writable(fs.faults, ServiceFiles[service]), delay)
    ensures var path := ServiceFiles[service];
      fs.files == if it.acquired && Truthy(acquired) && Writable(fs.faults, path) then Saved(old(fs.files), path, acquired.value) else old(fs.files)
  {
    var count := CountCodes(fs.files, fs.faults, service);
    if count.None? {
      return Iteration(None, false, ErrorSleep);
    }
    var report := Report(service, count.value);
    if count.value >= MaxCodes {
      return Iteration(Some(report), false, FullSleep);
    }
    if Truthy(acquired) {
      var ok := SaveCode(fs, service, acquired.value);
      if !ok {
        return Iteration(Some(report), true, ErrorSleep);
      }
    }
    return Iteration(Some(report), true, delay);
  }

  /**
   * The codes the passes in `log` saved, in order: pass `i` saves `acquire(i)` when it called the
   * acquirer, the acquirer returned a truthy code and the reservoir opens for appending.
   */
  function SavedCodes(log: seq<Iteration>, acquire: nat -> Option<string>, writable: bool): (r: seq<string>)
    ensures |r| <= |log|
  {
    if log == [] then []
    else
      var i := |log| - 1;
      SavedCodes(log[..i], acquire, writable) + (if log[i].acquired && Truthy(acquire(i)) && writable then [acquire(i).value] else [])
  }

  /** The text the passes in `log` appended, one code per line. */
  function SavedText(log: seq<Iteration>, acquire: nat -> Option<string>, writable: bool): string {
    Concat(AsLines(SavedCodes(log, acquire, writable)))
  }

  /** One more pass appends its code, if it saved one, after the text of the earlier passes. */
  lemma SavedTextSnoc(log: seq<Iteration>, acquire: nat -> Option<string>, writable: bool, it: Iteration)
    ensures var i := |log|;
      SavedCodes(log + [it], acquire, writable)
        == SavedCodes(log, acquire, writable) + (if it.acquired && Truthy(acquire(i)) && writable then [acquire(i).value] else [])
    ensures var i := |log|;
      SavedText(log + [it], acquire, writable)
        == SavedText(log, acquire, writable) + (if it.acquired && Truthy(acquire(i)) && writable then acquire(i).value + "\n" else "")
  {
    var i := |log|;
    var prev := SavedCodes(log, acquire, writable);
    assert (log + [it])[..i] == log;
    if it.acquired && Truthy(acquire(i)) && writable {
      assert SavedCodes(log + [it], acquire, writable) == prev + [acquire(i).value];
      ConcatAsLinesSnoc(prev, acquire(i).value);
    } else {
      assert SavedCodes(log + [it], acquire, writable) == prev + [];
      assert prev + [] == prev;
    }
  }

  /** The acquirer never returns a code with a line break in it. */
  ghost predicate NoNewlines(acquire: nat -> Option<string>) {
    forall i :: acquire(i).Some? ==> '\n' !in acquire(i).value
  }

  /**
   * What the passes in `log` have done when they started from `files0`: the directory is `files0`
   * grown by the saved codes, each pass is the one `service_worker` makes on the reservoir as the
   * earlier passes left it, and every pass acquired only below `MaxCodes` and slept at least
   * `MinDelay`. When `steady` (the start was a valid reservoir and the acquirer gives single
   * lines), the reservoir is still valid and every report is at most `MaxCodes`.
   */
  ghost predicate WorkerProgress(files0: map<string, string>, files: map<string, string>, faults: Faults, service: string,
                                 log: seq<Iteration>, acquire: nat -> Option<string>, delay: nat -> nat, steady: bool)
    requires service in ServiceFiles
  {
    && files == Grown(files0, ServiceFiles[service], SavedCodes(log, acquire, Writable(faults, ServiceFiles[service])))
    && PassesFaithful(files0, faults, service, log, acquire, delay)
    && PassesBounded(log)
    && (steady ==> ValidReservoir(files, faults, service) && ReportsCapped(log))
  }

  /**
   * Pass `i` of `log` is the pass `service_worker` makes on the directory the passes before it
   * left, with the acquirer giving `acquire(i)` and the pause drawn as `delay(i)`.
   */
  ghost predicate PassesFaithful(files0: map<string, string>, faults: Faults, service: string, log: seq<Iteration>,
                                 acquire: nat -> Option<string>, delay: nat -> nat)
    requires service in ServiceFiles
  {
    forall i :: 0 <= i < |log| ==> PassAfter(files0, faults, service, log[..i], log[i], acquire, delay)
  }

  /** `it` is the pass the worker makes after the passes `earlier`, on the directory they left. */
  ghost predicate PassAfter(files0: map<string, string>, faults: Faults, service: string, earlier: seq<Iteration>, it: Iteration,
                            acquire: nat -> Option<string>, delay: nat -> nat)
    requires service in ServiceFiles
  {
    var path := ServiceFiles[service];
    var w := Writable(faults, path);
    PassAgrees(it, service, CountCodes(Grown(files0, path, SavedCodes(earlier, acquire, w)), faults, service), acquire(|earlier|), w, delay(|earlier|))
  }

  /** Every pass acquired only below `MaxCodes` and slept at least `MinDelay`. */
  predicate PassesBounded(log: seq<Iteration>) {
    && (forall i :: 0 <= i < |log| && log[i].acquired ==> log[i].report.Some? && log[i].report.value.count < MaxCodes)
    && (forall i :: 0 <= i < |log| ==> log[i].sleep >= MinDelay)
  }

  /** Every pass reported at most `MaxCodes`. */
  predicate ReportsCapped(log: seq<Iteration>) {
    forall i :: 0 <= i < |log| && log[i].report.Some? ==> log[i].report.value.count <= MaxCodes
  }

  /**
   * `rounds` passes of `service_worker` with nothing else touching the reservoir. The acquirer
   * would return `acquire(i)` if called in pass `i`, and `delay(i)` is that pass's random pause.
   * On any reservoir, each pass is the one the loop body makes on the reservoir as the earlier
   * passes left it, and the file ends as it began followed by the saved codes, one per line, in
   * the order they were acquired; the acquirer is only called below `MaxCodes`; every pass sleeps
   * at least `MinDelay` seconds; no other file changes. From a valid reservoir and an acquirer of
   * single lines, the reservoir stays valid and no report exceeds `MaxCodes`.
   */
  method RunWorker(fs: FileSystem, service: string, rounds: nat, acquire: nat -> Option<string>, delay: nat -> nat)
    returns (log: seq<Iteration>)
    requires service in ServiceFiles
    requires forall i :: MinDelay <= delay(i) <= MaxDelay
    modifies fs
    ensures fs.faults == old(fs.faults)
    ensures |log| == rounds
    ensures WorkerProgress(old(fs.files), fs.files, fs.faults, service, log, acquire, delay,
                           old(ValidReservoir(fs.files, fs.faults, service)) && NoNewlines(acquire))
    ensures PassesFaithful(old(fs.files), fs.faults, service, log, acquire, delay)
    ensures var path := ServiceFiles[service];
      fs.files == Grown(old(fs.files), path, SavedCodes(log, acquire, Writable(fs.faults, path)))
    ensures var path := ServiceFiles[service];
      Contents(fs.files, path) == Contents(old(fs.files), path) + SavedText(log, acquire, Writable(fs.faults, path))
    ensures forall p :: p in fs.files && p != ServiceFiles[service] ==> fs.files[p] == old(fs.files)[p]
    ensures forall i :: 0 <= i < rounds && log[i].acquired ==> log[i].report.Some? && log[i].report.value.count < MaxCodes
    ensures forall i :: 0 <= i < rounds ==> log[i].sleep >= MinDelay
    ensures old(ValidReservoir(fs.files, fs.faults, service)) && NoNewlines(acquire) ==>
      && ValidReservoir(fs.files, fs.faults, service)
      && (forall i :: 0 <= i < rounds && log[i].report.Some? ==> log[i].report.value.count <= MaxCodes)
  {
    ghost var steady := ValidReservoir(fs.files, fs.faults, service) && NoNewlines(acquire);
    log := [];
    while |log| < rounds
      invariant |log| <= rounds
      invariant fs.faults == old(fs.faults)
      invariant WorkerProgress(old(fs.files), fs.files, fs.faults, service, log, acquire, delay, steady)
    {
      var it := WorkerRound(fs, service, acquire(|log|), delay(|log|), old(fs.files), log, acquire, delay, steady);
      log := log + [it];
    }
    GrownContents(old(fs.files), ServiceFiles[service], SavedCodes(log, acquire, Writable(fs.faults, ServiceFiles[service])));
  }

  /** A grown directory holds the old text followed by the code lines, and no other file changed. */
  lemma GrownContents(files: map<string, string>, path: string, codes: seq<string>)
    ensures Contents(Grown(files, path, codes), path) == Contents(files, path) + Concat(AsLines(codes))
    ensures forall p :: p != path ==> (p in Grown(files, path, codes) <==> p in files)
    ensures forall p :: p in files && p != path ==> Grown(files, path, codes)[p] == files[p]
  {
    if codes == [] {
      assert Concat(AsLines(codes)) == "";
    }
  }

  /** One more pass extends the progress of the earlier ones. */
  method WorkerRound(fs: FileSystem, service: string, acquired: Option<string>, pause: nat,
                     ghost files0: map<string, string>, ghost log: seq<Iteration>, ghost acquire: nat -> Option<string>,
                     ghost delay: nat -> nat, ghost steady: bool)
    returns (it: Iteration)
    requires service in ServiceFiles
    requires MinDelay <= pause <= MaxDelay
    requires acquired == acquire(|log|) && pause == delay(|log|)
    requires steady ==> NoNewlines(acquire)
    requires WorkerProgress(files0, fs.files, fs.faults, service, log, acquire, delay, steady)
    modifies fs
    ensures fs.faults == old(fs.faults)
    ensures WorkerProgress(files0, fs.files, fs.faults, service, log + [it], acquire, delay, steady)
  {
    ghost var before := fs.files;
    it := WorkerPass(fs, service, acquired, pause);
    ProgressStep(files0, before, fs.files, fs.faults, service, log, acquire, delay, it, steady);
  }

  /** The bookkeeping of `WorkerRound`: a pass that did what `WorkerPass` promises extends the progress. */
  lemma ProgressStep(files0: map<string, string>, before: map<string, string>, after: map<string, string>, faults: Faults,
                     service: string, log: seq<Iteration>, acquire: nat -> Option<string>, delay: nat -> nat, it: Iteration, steady: bool)
    requires service in ServiceFiles
    requires WorkerProgress(files0, before, faults, service, log, acquire, delay, steady)
    requires var path := ServiceFiles[service];
      PassAgrees(it, service, CountCodes(before, faults, service), acquire(|log|), Writable(faults, path), delay(|log|))
    requires var path := ServiceFiles[service];
      var acquired := acquire(|log|);
      after == if it.acquired && Truthy(acquired) && Writable(faults, path) then Saved(before, path, acquired.value) else before
    requires PassesBounded([it])
    requires steady ==> ValidReservoir(after, faults, service) && ReportsCapped([it])
    ensures WorkerProgress(files0, after, faults, service, log + [it], acquire, delay, steady)
  {
    var path := ServiceFiles[service];
    var w := Writable(faults, path);
    var acquired := acquire(|log|);
    var codes := SavedCodes(log, acquire, w);
    SavedTextSnoc(log, acquire, w, it);
    if it.acquired && Truthy(acquired) && w {
      assert SavedCodes(log + [it], acquire, w) == codes + [acquired.value];
      GrownByOne(files0, path, codes, acquired.value);
      assert after == Saved(Grown(files0, path, codes), path, acquired.value);
    } else {
      assert SavedCodes(log + [it], acquire, w) == codes + [];
      assert codes + [] == codes;
      assert after == before;
    }
    PassAfterOfGrown(files0, before, faults, service, log, it, acquire, delay);
    PassesFaithfulSnoc(files0, faults, service, log, acquire, delay, it);
    PassesBoundedSnoc(log, it);
  }

  /** A pass made on the directory the earlier passes left extends their record. */
  lemma PassesFaithfulSnoc(files0: map<string, string>, faults: Faults, service: string, log: seq<Iteration>,
                           acquire: nat -> Option<string>, delay: nat -> nat, it: Iteration)
    requires service in ServiceFiles
    requires PassesFaithful(files0, faults, service, log, acquire, delay)
    requires PassAfter(files0, faults, service, log, it, acquire, delay)
    ensures PassesFaithful(files0, faults, service, log + [it], acquire, delay)
  {
    var log' := log + [it];
    assert log'[..|log|] == log;
    forall i | 0 <= i < |log|
      ensures log'[..i] == log[..i] && log'[i] == log[i]
    {
    }
  }

  lemma PassesBoundedSnoc(log: seq<Iteration>, it: Iteration)
    ensures PassesBounded(log) && PassesBounded([it]) ==> PassesBounded(log + [it])
    ensures ReportsCapped(log) && ReportsCapped([it]) ==> ReportsCapped(log + [it])
  {
    var log' := log + [it];
    assert forall i :: 0 <= i < |log| ==> log'[i] == log[i];
    assert log'[|log|] == it;
  }

  /**
   * Two runs of the worker from the same directory, faults, acquirer and pauses make the same
   * passes: the record `RunWorker` promises leaves no freedom in what the worker does.
   */
  lemma {:induction false} WorkerDeterministic(files0: map<string, string>, faults: Faults, service: string,
                                               log: seq<Iteration>, log': seq<Iteration>,
                                               acquire: nat -> Option<string>, delay: nat -> nat)
    requires service in ServiceFiles && |log| == |log'|
    requires PassesFaithful(files0, faults, service, log, acquire, delay)
    requires PassesFaithful(files0, faults, service, log', acquire, delay)
    ensures log == log'
  {
    if log != [] {
      var n := |log| - 1;
      PassesFaithfulInit(files0, faults, service, log, acquire, delay);
      PassesFaithfulInit(files0, faults, service, log', acquire, delay);
      WorkerDeterministic(files0, faults, service, log[..n], log'[..n], acquire, delay);
      LastPassAgrees(files0, faults, service, log, log', acquire, delay);
      SameInitAndLast(log, log');
    }
  }

  /** Two records with the same passes before the last and the same last pass are the same record. */
  lemma SameInitAndLast(log: seq<Iteration>, log': seq<Iteration>)
    requires |log| == |log'| > 0
    requires log[..|log| - 1] == log'[..|log| - 1] && log[|log| - 1] == log'[|log| - 1]
    ensures log == log'
  {
    var n := |log| - 1;
    assert log == log[..n] + [log[n]];
    assert log' == log'[..n] + [log'[n]];
  }

  /** Two records that agree up to their last pass agree on the last pass too. */
  lemma LastPassAgrees(files0: map<string, string>, faults: Faults, service: string, log: seq<Iteration>, log': seq<Iteration>,
                       acquire: nat -> Option<string>, delay: nat -> nat)
    requires service in ServiceFiles && |log| == |log'| > 0
    requires log[..|log| - 1] == log'[..|log| - 1]
    requires PassesFaithful(files0, faults, service, log, acquire, delay)
    requires PassesFaithful(files0, faults, service, log', acquire, delay)
    ensures log[|log| - 1] == log'[|log| - 1]
  {
    var n := |log| - 1;
    assert PassAfter(files0, faults, service, log[..n], log[n], acquire, delay);
    assert PassAfter(files0, faults, service, log'[..n], log'[n], acquire, delay);
    PassAfterUnique(files0, faults, service, log[..n], log[n], log'[n], acquire, delay);
  }

  /** After the same earlier passes, only one next pass is possible. */
  lemma PassAfterUnique(files0: map<string, string>, faults: Faults, service: string, earlier: seq<Iteration>,
                        it: Iteration, it': Iteration, acquire: nat -> Option<string>, delay: nat -> nat)
    requires service in ServiceFiles
    requires PassAfter(files0, faults, service, earlier, it, acquire, delay)
    requires PassAfter(files0, faults, service, earlier, it', acquire, delay)
    ensures it == it'
  {
    var path := ServiceFiles[service];
    var w := Writable(faults, path);
    var count := CountCodes(Grown(files0, path, SavedCodes(earlier, acquire, w)), faults, service);
    PassAgreesUnique(it, it', service, count, acquire(|earlier|), w, delay(|earlier|));
  }

  /** A pass made on the directory the passes `log` left is the pass after them. */
  lemma PassAfterOfGrown(files0: map<string, string>, before: map<string, string>, faults: Faults, service: string,
                         log: seq<Iteration>, it: Iteration, acquire: nat -> Option<string>, delay: nat -> nat)
    requires service in ServiceFiles
    requires before == Grown(files0, ServiceFiles[service], SavedCodes(log, acquire, Writable(faults, ServiceFiles[service])))
    requires PassAgrees(it, service, CountCodes(before, faults, service), acquire(|log|), Writable(faults, ServiceFiles[service]), delay(|log|))
    ensures PassAfter(files0, faults, service, log, it, acquire, delay)
  {
  }

  /** The record of all passes but the last is a record of its own. */
  lemma PassesFaithfulInit(files0: map<string, string>, faults: Faults, service: string, log: seq<Iteration>,
                           acquire: nat -> Option<string>, delay: nat -> nat)
    requires service in ServiceFiles && log != []
    requires PassesFaithful(files0, faults, service, log, acquire, delay)
    ensures PassesFaithful(files0, faults, service, log[..|log| - 1], acquire, delay)
  {
    var init := log[..|log| - 1];
    forall i | 0 <= i < |init|
      ensures init[..i] == log[..i] && init[i] == log[i]
    {
    }
  }

  /**
   * One pass of `RunWorker`: the report, acquisition, sleep and save of `WorkerStep` on any
   * reservoir. From a valid reservoir the report is at most `MaxCodes`, and a single-line code
   * keeps the reservoir valid.
   */
  method WorkerPass(fs: FileSystem, service: string, acquired: Option<string>, delay: nat) returns (it: Iteration)
    requires service in ServiceFiles
    requires MinDelay <= delay <= MaxDelay
    modifies fs
    ensures fs.faults == old(fs.faults)
    ensures PassAgrees(it, service, CountCodes(old(fs.files), fs.faults, service), acquired, Writable(fs.faults, ServiceFiles[service]), delay)
    ensures var path := ServiceFiles[service];
      fs.files == if it.acquired && Truthy(acquired) && Writable(fs.faults, path) then Saved(old(fs.files), path, acquired.value) else old(fs.files)
    ensures it.acquired ==> it.report.Some? && it.report.value.count < MaxCodes
    ensures it.sleep >= MinDelay
    ensures old(ValidReservoir(fs.files, fs.faults, service)) ==> it.report.Some? ==> it.report.value.count <= MaxCodes
    ensures old(ValidReservoir(fs.files, fs.faults, service)) && (acquired.Some? ==> '\n' !in acquired.value) ==>
      ValidReservoir(fs.files, fs.faults, service)
  {
    ghost var before := fs.files;
    it := WorkerStep(fs, service, acquired, delay);
    if ValidReservoir(before, fs.faults, service) && it.acquired && Truthy(acquired) && Writable(fs.faults, ServiceFiles[service])
       && '\n' !in acquired.value {
      SaveKeepsValid(before, fs.faults, service, acquired.value);
    }
  }

  /** A save below `MaxCodes` keeps the reservoir terminated and within `MaxCodes`. */
  lemma SaveKeepsValid(files: map<string, string>, faults: Faults, service: string, code: string)
    requires service in ServiceFiles && ValidReservoir(files, faults, service)
    requires CountCodes(files, faults, service).Some? && CountCodes(files, faults, service).value < MaxCodes
    requires '\n' !in code
    ensures ValidReservoir(Saved(files, ServiceFiles[service], code), faults, service)
  {
    var path := ServiceFiles[service];
    if Readable(faults, path) {
      CountAfterSave(files, faults, service, code);
    } else {
      LinesOfAppendedLine(Contents(files, path), code);
    }
  }

  /** `{service: 0 for service in SERVICE_BUTTONS}`: the monitor's view before any report. */
  function InitialStatus(): (status: map<string, nat>)
    ensures status.Keys == ServiceButtons
    ensures forall s :: s in status ==> status[s] == 0
  {
    map s | s in ServiceButtons :: 0
  }

  /** The count in the last report for `service` in `queue`, if there is one. */
  function LastReport(queue: seq<Report>, service: string): Option<nat> {
    if queue == [] then None
    else if queue[|queue| - 1].service == service then Some(queue[|queue| - 1].count)
    else LastReport(queue[..|queue| - 1], service)
  }

  /** The services that have a report in `queue`. */
  function Reported(queue: seq<Report>): set<string> {
    set i | 0 <= i < |queue| :: queue[i].service
  }

  /** A service has a last report exactly when it was reported at all. */
  lemma {:induction false} LastReportOfReported(queue: seq<Report>, service: string)
    ensures LastReport(queue, service).Some? <==> service in Reported(queue)
  {
    if queue != [] {
      var init := queue[..|queue| - 1];
      LastReportOfReported(init, service);
      assert Reported(queue) == Reported(init) + {queue[|queue| - 1].service} by {
        assert forall j :: 0 <= j < |init| ==> init[j] == queue[j];
      }
    }
  }

  /**
   * The inner loop of `status_monitor`: drain the status queue into the status map. Each reported
   * service ends with the count of its last report; every other entry is left as it was.
   */
  method DrainStatus(status: map<string, nat>, queue: seq<Report>) returns (updated: map<string, nat>)
    ensures updated.Keys == status.Keys + Reported(queue)
    ensures forall s :: LastReport(queue, s).Some? ==> s in updated && updated[s] == LastReport(queue, s).value
    ensures forall s :: s in status && LastReport(queue, s).None? ==> updated[s] == status[s]
  {
    updated := status;
    var i := 0;
    assert queue[..0] == [];
    while i < |queue|
      invariant i <= |queue|
      invariant updated.Keys == status.Keys + Reported(queue[..i])
      invariant forall s :: LastReport(queue[..i], s).Some? ==> s in updated && updated[s] == LastReport(queue[..i], s).value
      invariant forall s :: s in status && LastReport(queue[..i], s).None? ==> updated[s] == status[s]
    {
      ReportStep(queue, i);
      updated := updated[queue[i].service := queue[i].count];
      i := i + 1;
    }
    assert queue[..i] == queue;
  }

  /** The effect of one more report on `LastReport` and `Reported`. */
  lemma ReportStep(queue: seq<Report>, i: nat)
    requires i < |queue|
    ensures Reported(queue[..i + 1]) == Reported(queue[..i]) + {queue[i].service}
    ensures forall s :: LastReport(queue[..i + 1], s) == if s == queue[i].service then Some(queue[i].count) else LastReport(queue[..i], s)
  {
    var a, b := queue[..i + 1], queue[..i];
    assert a[..i] == b;
    forall x | x in Reported(a)
      ensures x in Reported(b) + {queue[i].service}
    {
      var j :| 0 <= j < |a| && a[j].service == x;
      if j < i {
        assert b[j] == a[j];
      }
    }
    forall x | x in Reported(b)
      ensures x in Reported(a)
    {
      var j :| 0 <= j < |b| && b[j].service == x;
      assert a[j] == b[j];
    }
    assert a[i].service in Reported(a);
    assert a[|a| - 1] == queue[i];
    forall s
      ensures LastReport(a, s) == if s == queue[i].service then Some(queue[i].count) else LastReport(b, s)
    {
      assert a[..|a| - 1] == b;
    }
  }

  /** From the initial status, reports from the workers keep exactly one entry per service. */
  lemma DrainedStatusKeys(queue: seq<Report>)
    requires forall i :: 0 <= i < |queue| ==> queue[i].service in ServiceButtons
    ensures InitialStatus().Keys + Reported(queue) == ServiceButtons
  {
  }
}
