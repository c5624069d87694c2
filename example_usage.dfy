/** The reader that lists the codes saved for a service, one per non-blank line of its file. */
module ExampleUsage {
  import opened Text
  import opened TextLines
  import opened Files
  import opened CodeExtraction
  import KeyGeneratorService

  /** `file_mapping`: the file each service's codes are saved in, under `codes`. */
  const FileMapping: map<string, string> := map[
    "tv" := "tv_plus_codes.txt",
    "music" := "music_codes.txt",
    "arcade" := "arcade_codes.txt",
    "fitness" := "fitness_codes.txt",
    "news" := "news_codes.txt"
  ]

  /** `os.path.join('codes', file_mapping[service_name])`. */
  function CodePath(name: string): string
    requires name in FileMapping
  {
    "codes/" + FileMapping[name]
  }

  /** Each line stripped, in order. */
  function StripAll(lines: seq<string>): seq<string> {
    seq(|lines|, i requires 0 <= i < |lines| => Strip(lines[i]))
  }

  /** `[line.strip() for line in lines if line.strip()]`. */
  function CleanLines(lines: seq<string>): (r: seq<string>)
    ensures |r| <= |lines|
  {
    NonEmpty(StripAll(lines))
  }

  /**
   * `read_codes(service_name)`: the cleaned lines of the service's file; `[]` for an unknown
   * service, a missing file, or a file whose reading raised.
   */
  function ReadCodes(files: map<string, string>, faults: Faults, name: string): (r: seq<string>)
    ensures name !in FileMapping || CodePath(name) !in files || !Readable(faults, CodePath(name)) ==> r == []
    ensures name in FileMapping && CodePath(name) in files ==> |r| <= |Lines(files[CodePath(name)])|
    ensures forall k :: 0 <= k < |r| ==> r[k] != [] && Strip(r[k]) == r[k]
  {
    if name !in FileMapping then []
    else
      var path := CodePath(name);
      if path !in files || !Readable(faults, path) then []
      else
        var r := CleanLines(Lines(files[path]));
        CleanLinesAreStripped(Lines(files[path]));
        r
  }

  /** No cleaned line is empty or has whitespace at either end, so stripping it again changes nothing. */
  lemma CleanLinesAreStripped(lines: seq<string>)
    ensures forall k :: 0 <= k < |CleanLines(lines)| ==>
      CleanLines(lines)[k] != [] && Strip(CleanLines(lines)[k]) == CleanLines(lines)[k]
  {
    var r := CleanLines(lines);
    NonEmptyKept(StripAll(lines));
    forall k | 0 <= k < |r| ensures Strip(r[k]) == r[k] {
      assert r[k] in StripAll(lines);
      StripOfTrimmed(r[k]);
    }
  }

  /** Cleaning works line by line: the cleaned lines of two parts are the two parts' cleaned lines. */
  lemma CleanLinesOfAppend(a: seq<string>, b: seq<string>)
    ensures CleanLines(a + b) == CleanLines(a) + CleanLines(b)
  {
    var sa, sb := StripAll(a), StripAll(b);
    forall i | 0 <= i < |a + b|
      ensures StripAll(a + b)[i] == (sa + sb)[i]
    {
      if i < |a| {
        assert (a + b)[i] == a[i];
      } else {
        assert (a + b)[i] == b[i - |a|];
      }
    }
    assert StripAll(a + b) == sa + sb;
    NonEmptyOfAppend(StripAll(a), StripAll(b));
  }

  /** A single line is kept, stripped, exactly when it is not blank. */
  lemma CleanLinesOfOne(l: string)
    ensures CleanLines([l]) == if Strip(l) != [] then [Strip(l)] else []
  {
    assert StripAll([l]) == [Strip(l)];
    assert [Strip(l)][..0] == [];
  }

  /** Every module that handles the four generator services reads and writes the same files. */
  lemma SameFilesAsGenerator()
    ensures forall s :: s in KeyGeneratorService.ServiceFiles ==> s in FileMapping && CodePath(s) == KeyGeneratorService.ServiceFiles[s]
  {
    forall s | s in KeyGeneratorService.ServiceFiles
      ensures s in FileMapping && CodePath(s) == KeyGeneratorService.ServiceFiles[s]
    {
      KeyGeneratorService.ReservoirUnderCodes(s);
      assert FileMapping[s] == KeyGeneratorService.ReservoirName(s);
    }
  }

  /**
   * `read_codes` after the generator's `save_code` of a code lists that code last, after the
   * codes listed before, when the file was empty or newline-terminated.
   */
  lemma ReadCodesAfterSave(files: map<string, string>, faults: Faults, service: string, code: string)
    requires service in KeyGeneratorService.ServiceFiles
    requires Readable(faults, KeyGeneratorService.ServiceFiles[service])
    requires Terminated(Contents(files, KeyGeneratorService.ServiceFiles[service]))
    requires IsCode(code)
    ensures var path := KeyGeneratorService.ServiceFiles[service];
      ReadCodes(KeyGeneratorService.Saved(files, path, code), faults, service) == ReadCodes(files, faults, service) + [code]
  {
    SameFilesAsGenerator();
    var path := KeyGeneratorService.ServiceFiles[service];
    var before := Contents(files, path);
    KeyGeneratorService.StripOfCode(code);
    LinesOfAppendedLine(before, code);
    CleanLinesOfAppend(Lines(before), [code + "\n"]);
    CleanLinesOfOne(code + "\n");
    assert KeyGeneratorService.Saved(files, path, code)[path] == before + (code + "\n");
    if path !in files {
      assert before == [];
      assert Lines(before) == [];
    }
  }

  /**
   * The generator's `get_stored_code` and `read_codes` agree on the order of the queue: a
   * non-blank head line comes back as the first listed code and leaves the rest of the list;
   * a blank head line is consumed without changing the list.
   */
  lemma ReadCodesAfterPop(files: map<string, string>, faults: Faults, service: string)
    requires service in KeyGeneratorService.ServiceFiles
    requires var path := KeyGeneratorService.ServiceFiles[service]; path in files && Usable(faults, path) && files[path] != ""
    ensures var popped := KeyGeneratorService.PopStored(files, faults, KeyGeneratorService.ServiceFiles[service]);
      var listed := ReadCodes(files, faults, service);
      && popped.0.Some?
      && (popped.0.value != "" ==> listed != [] && listed[0] == popped.0.value && ReadCodes(popped.1, faults, service) == listed[1..])
      && (popped.0.value == "" ==> ReadCodes(popped.1, faults, service) == listed)
  {
    SameFilesAsGenerator();
    var path := KeyGeneratorService.ServiceFiles[service];
    var ls := Lines(files[path]);
    KeyGeneratorService.PopStoredTakesHead(files, faults, path);
    assert ls == [ls[0]] + ls[1..];
    CleanLinesOfAppend([ls[0]], ls[1..]);
    CleanLinesOfOne(ls[0]);
  }
}
