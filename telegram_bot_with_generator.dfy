/**
 * The Telegram front end that serves codes from the generator's reservoirs, falling back to
 * acquiring a code on the spot when a reservoir has none.
 */
module TelegramBotWithGenerator {
  import opened Wrappers
  import opened Text
  import opened TextLines
  import opened Files
  import opened BotCommon
  import opened KeyGeneratorService

  /** What a press of a service button ends in. */
  datatype ButtonReply =
    | NotAuthorized
    | Ignored                                  // the button's data names no service
    | Delivered(code: string, fromStorage: bool)
    | Failed                                   // nothing stored and the on-demand acquisition failed

  /**
   * `button`: a press on the button whose data is `data`. A stored code is served first; only when
   * the reservoir yields nothing truthy is the acquirer called, once, and `acquired` is its result.
   */
  method Button(fs: FileSystem, allowed: seq<int>, userId: int, data: string, acquired: Option<string>)
    returns (reply: ButtonReply, acquirerCalls: nat)
    modifies fs
    ensures fs.faults == old(fs.faults)
    ensures !IsAuthorized(allowed, userId) ==>
      reply == ButtonReply.NotAuthorized && acquirerCalls == 0 && fs.files == old(fs.files)
    ensures IsAuthorized(allowed, userId) && data !in ServiceButtons ==>
      reply == Ignored && acquirerCalls == 0 && fs.files == old(fs.files)
    ensures IsAuthorized(allowed, userId) && data in ServiceButtons ==>
      var popped := PopStored(old(fs.files), fs.faults, ServiceFiles[data]);
      && fs.files == popped.1
      && (Truthy(popped.0) ==> reply == Delivered(popped.0.value, true) && acquirerCalls == 0)
      && (!Truthy(popped.0) ==>
            acquirerCalls == 1 &&
            reply == if Truthy(acquired) then Delivered(acquired.value, false) else ButtonReply.Failed)
  {
    if !IsAuthorized(allowed, userId) {
      return ButtonReply.NotAuthorized, 0;
    }
    if data !in ServiceButtons {
      return Ignored, 0;
    }
    var code := GetStoredCode(fs, data);
    if Truthy(code) {
      return Delivered(code.value, true), 0;
    }
    acquirerCalls := 1;
    reply := if Truthy(acquired) then Delivered(acquired.value, false) else ButtonReply.Failed;
  }

  /** `get_stored_code` called `n` times in a row: what each call returned, and the directory afterwards. */
  function PopMany(files: map<string, string>, faults: Faults, path: string, n: nat): (r: (seq<Option<string>>, map<string, string>))
    ensures |r.0| == n
  {
    if n == 0 then ([], files)
    else
      var prev := PopMany(files, faults, path, n - 1);
      var step := PopStored(prev.1, faults, path);
      (prev.0 + [step.0], step.1)
  }

  /** The results of the first `n` acquirer calls. */
  function Attempts(acquire: nat -> Option<string>, n: nat): (r: seq<Option<string>>)
    ensures |r| == n && forall i :: 0 <= i < n ==> r[i] == acquire(i)
  {
    seq(n, i requires 0 <= i => acquire(i))
  }

  /** The codes `generate_command` sends: the reservoir's truthy pops, then the truthy fallback results. */
  function GeneratedCodes(popped: seq<Option<string>>, acquire: nat -> Option<string>): seq<string> {
    var stored := TruthyValues(popped);
    stored + TruthyValues(Attempts(acquire, |popped| - |stored|))
  }

  /** The reservoir half of `generate_command`: `count` calls of `get_stored_code`, keeping the truthy ones. */
  method DrainReservoir(fs: FileSystem, service: string, count: nat) returns (codes: seq<string>, ghost popped: seq<Option<string>>)
    requires service in ServiceFiles
    modifies fs
    ensures fs.faults == old(fs.faults)
    ensures (popped, fs.files) == PopMany(old(fs.files), fs.faults, ServiceFiles[service], count)
    ensures codes == TruthyValues(popped)
  {
    codes, popped := [], [];
    var pops := 0;
    while pops < count
      invariant pops <= count
      invariant fs.faults == old(fs.faults)
      invariant (popped, fs.files) == PopMany(old(fs.files), fs.faults, ServiceFiles[service], pops)
      invariant codes == TruthyValues(popped)
    {
      var code := GetStoredCode(fs, service);
      assert (popped + [code])[..pops] == popped;
      popped := popped + [code];
      if Truthy(code) {
        codes := codes + [code.value];
      }
      pops := pops + 1;
    }
  }

  /** The fallback half of `generate_command`: `missing` acquirer calls, keeping the truthy results. */
  method Fallback(acquire: nat -> Option<string>, missing: nat) returns (codes: seq<string>)
    ensures codes == TruthyValues(Attempts(acquire, missing))
  {
    codes := [];
    var calls := 0;
    while calls < missing
      invariant calls <= missing
      invariant codes == TruthyValues(Attempts(acquire, calls))
    {
      var code := acquire(calls);
      assert Attempts(acquire, calls + 1)[..calls] == Attempts(acquire, calls);
      if Truthy(code) {
        codes := codes + [code.value];
      }
      calls := calls + 1;
    }
  }

  /**
   * `generate_command`. The reservoir is popped exactly `count` times; the fallback then makes
   * exactly `count - len(codes)` acquirer calls, the i-th returning `acquire(i)`.
   */
  method GenerateCommand(fs: FileSystem, allowed: seq<int>, userId: int, args: seq<string>, acquire: nat -> Option<string>)
    returns (reply: GenerateReply, pops: nat, acquirerCalls: nat)
    modifies fs
    ensures fs.faults == old(fs.faults)
    ensures !IsAuthorized(allowed, userId) || |args| < 1 || Lower(args[0]) !in ServiceButtons ==>
      pops == 0 && acquirerCalls == 0 && fs.files == old(fs.files)
    ensures !IsAuthorized(allowed, userId) ==> reply == GenerateReply.NotAuthorized
    ensures IsAuthorized(allowed, userId) && |args| < 1 ==> reply == Usage
    ensures IsAuthorized(allowed, userId) && |args| >= 1 && Lower(args[0]) !in ServiceButtons ==>
      reply == UnknownService(Lower(args[0]))
    ensures IsAuthorized(allowed, userId) && |args| >= 1 && Lower(args[0]) in ServiceButtons ==>
      var drained := PopMany(old(fs.files), fs.faults, ServiceFiles[Lower(args[0])], RequestedCount(args));
      var codes := GeneratedCodes(drained.0, acquire);
      && pops == RequestedCount(args)
      && fs.files == drained.1
      && acquirerCalls == pops - |TruthyValues(drained.0)|
      && reply == if codes != [] then Codes(codes) else GenerateReply.Failed
  {
    if !IsAuthorized(allowed, userId) {
      return GenerateReply.NotAuthorized, 0, 0;
    }
    if |args| < 1 {
      return Usage, 0, 0;
    }
    var service := Lower(args[0]);
    if service !in ServiceButtons {
      return UnknownService(service), 0, 0;
    }
    pops := RequestedCount(args);
    var stored, popped := DrainReservoir(fs, service, pops);
    acquirerCalls := pops - |stored|;
    var fetched := Fallback(acquire, acquirerCalls);
    var codes := stored + fetched;
    assert codes == GeneratedCodes(popped, acquire);
    reply := if codes != [] then Codes(codes) else GenerateReply.Failed;
  }

  /** The fallback tops up to at most `count` codes, and runs only when the reservoir supplied fewer. */
  lemma GeneratedCodesBounded(popped: seq<Option<string>>, acquire: nat -> Option<string>)
    ensures |GeneratedCodes(popped, acquire)| <= |popped|
    ensures |TruthyValues(popped)| == |popped| ==> GeneratedCodes(popped, acquire) == TruthyValues(popped)
  {
    var stored := TruthyValues(popped);
    assert |Attempts(acquire, |popped| - |stored|)| == |popped| - |stored|;
  }

  /** One more pop from a reservoir holding the suffix `ls[m..]` of its original lines. */
  lemma PopFromSuffix(files: map<string, string>, faults: Faults, path: string, ls: seq<string>, m: nat)
    requires Usable(faults, path) && WellFormed(ls) && m <= |ls|
    ensures PopStored(files[path := Concat(ls[m..])], faults, path)
      == (if m < |ls| then Some(Strip(ls[m])) else None,
          files[path := Concat(ls[if m < |ls| then m + 1 else m..])])
  {
    var mid := files[path := Concat(ls[m..])];
    assert WellFormed(ls[m..]);
    LinesOfConcat(ls[m..]);
    if m < |ls| {
      assert ls[m..][1..] == ls[m + 1..];
      assert mid[path := Concat(ls[m + 1..])] == files[path := Concat(ls[m + 1..])];
    } else {
      assert ls[m..] == [];
      assert mid == files[path := Concat(ls[m..])];
    }
  }

  /** What `n` pops of a reservoir with lines `ls` return: its stripped lines in order, then `None`. */
  function LinesTaken(ls: seq<string>, n: nat): (r: seq<Option<string>>)
    ensures |r| == n
  {
    if n == 0 then [] else LinesTaken(ls, n - 1) + [if n - 1 < |ls| then Some(Strip(ls[n - 1])) else None]
  }

  lemma {:induction false} LinesTakenAt(ls: seq<string>, n: nat)
    ensures forall i :: 0 <= i < n ==> LinesTaken(ls, n)[i] == if i < |ls| then Some(Strip(ls[i])) else None
  {
    if n > 0 {
      LinesTakenAt(ls, n - 1);
      var prev := LinesTaken(ls, n - 1);
      var last := if n - 1 < |ls| then Some(Strip(ls[n - 1])) else None;
      assert LinesTaken(ls, n) == prev + [last];
      forall i | 0 <= i < n
        ensures LinesTaken(ls, n)[i] == if i < |ls| then Some(Strip(ls[i])) else None
      {
        if i < n - 1 {
          assert (prev + [last])[i] == prev[i];
        }
      }
    }
  }

  /** `PopManyTakesFirstLines` for any well-formed lines `ls` the reservoir is the concatenation of. */
  lemma {:induction false} PopManyOfLines(files: map<string, string>, faults: Faults, path: string, ls: seq<string>, n: nat)
    requires path in files && Usable(faults, path)
    requires WellFormed(ls) && files[path] == Concat(ls)
    ensures PopMany(files, faults, path, n) == (LinesTaken(ls, n), files[path := Concat(ls[if n < |ls| then n else |ls|..])])
  {
    if n == 0 {
      assert ls[0..] == ls;
      assert files[path := Concat(ls)] == files;
    } else {
      PopManyOfLines(files, faults, path, ls, n - 1);
      var m := if n - 1 < |ls| then n - 1 else |ls|;
      var prev := PopMany(files, faults, path, n - 1);
      assert prev.1 == files[path := Concat(ls[m..])];
      PopFromSuffix(files, faults, path, ls, m);
      var step := PopStored(prev.1, faults, path);
      var m' := if m < |ls| then m + 1 else m;
      assert step == (if m < |ls| then Some(Strip(ls[m])) else None, files[path := Concat(ls[m'..])]);
      assert m' == if n < |ls| then n else |ls|;
      assert PopMany(files, faults, path, n) == (prev.0 + [step.0], step.1);
      assert LinesTaken(ls, n) == prev.0 + [step.0];
    }
  }

  /**
   * Draining `n` codes from a readable reservoir with lines `ls` returns the stripped first `n`
   * lines in file order (then `None` once it is empty) and leaves the remaining lines.
   */
  lemma PopManyTakesFirstLines(files: map<string, string>, faults: Faults, path: string, n: nat)
    requires path in files && Usable(faults, path)
    ensures var ls := Lines(files[path]);
      && (forall i :: 0 <= i < n ==> PopMany(files, faults, path, n).0[i] == if i < |ls| then Some(Strip(ls[i])) else None)
      && PopMany(files, faults, path, n).1 == files[path := Concat(ls[if n < |ls| then n else |ls|..])]
  {
    LinesWellFormed(files[path]);
    PopManyOfLines(files, faults, path, Lines(files[path]), n);
    LinesTakenAt(Lines(files[path]), n);
  }

  /**
   * `status_command` (and the counts shown by `help_command`): one entry per service, each the
   * reservoir's `count_codes`; `None` when one of those raises.
   */
  function StatusCounts(files: map<string, string>, faults: Faults): (counts: Option<map<string, nat>>)
    ensures counts.Some? <==> forall s :: s in ServiceButtons ==> CountCodes(files, faults, s).Some?
    ensures counts.Some? ==> counts.value.Keys == ServiceButtons
    ensures counts.Some? ==> forall s :: s in counts.value ==> CountCodes(files, faults, s) == Some(counts.value[s])
  {
    if forall s :: s in ServiceButtons ==> CountCodes(files, faults, s).Some? then
      Some(map s | s in ServiceButtons :: CountCodes(files, faults, s).value)
    else None
  }
}
