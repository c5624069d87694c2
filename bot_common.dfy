/**
 * The access check and the count argument, written identically in both Telegram front ends
 * (telegram_bot_with_generator.py and simple_app_telegram.py).
 */
module BotCommon {
  import opened Wrappers
  import opened Text
  import opened PyInt

  /** Codes handed out by one `/generate` command at most. */
  const MaxRequest: int := 5

  /** What `/generate <service> [count]` replies. */
  datatype GenerateReply =
    | NotAuthorized
    | Usage                                    // no arguments
    | UnknownService(service: string)
    | Codes(codes: seq<string>)
    | Failed                                   // no code at all

  /** `int(p)` of every piece, or `None` when one of them raises `ValueError`. */
  function ParseAll(pieces: seq<string>): (r: Option<seq<int>>)
    ensures r.Some? ==> |r.value| == |pieces|
  {
    if pieces == [] then Some([])
    else
      var init := ParseAll(pieces[..|pieces| - 1]);
      var last := ParseInt(pieces[|pieces| - 1]);
      if init.Some? && last.Some? then Some(init.value + [last.value]) else None
  }

  /** The list comprehension succeeds exactly when every piece parses, and then holds each piece's value in order. */
  lemma {:induction false} ParseAllIff(pieces: seq<string>)
    ensures ParseAll(pieces).Some? <==> forall i :: 0 <= i < |pieces| ==> ParseInt(pieces[i]).Some?
    ensures ParseAll(pieces).Some? ==> forall i :: 0 <= i < |pieces| ==> ParseInt(pieces[i]) == Some(ParseAll(pieces).value[i])
  {
    if pieces != [] {
      var init := pieces[..|pieces| - 1];
      ParseAllIff(init);
      assert forall i :: 0 <= i < |init| ==> pieces[i] == init[i];
    }
  }

  /**
   * `[int(user_id) for user_id in env.split(",") if user_id]` on the value of `ALLOWED_USERS`;
   * `None` is the `ValueError` that stops the program at start-up.
   */
  function ParseAllowedUsers(env: string): (r: Option<seq<int>>)
    ensures r.Some? ==> |r.value| <= |Split(env, ',')|
  {
    ParseAll(NonEmpty(Split(env, ',')))
  }

  /** An unset or empty variable gives the empty allow-list, which admits everyone. */
  lemma AllowedUsersOfEmpty()
    ensures ParseAllowedUsers("") == Some([])
  {
    assert Split("", ',') == [""];
  }

  /** A list written back as comma-separated decimals is read back as that list. */
  lemma AllowedUsersRoundTrip(ids: seq<int>)
    requires ids != []
    ensures ParseAllowedUsers(Join(ShowAll(ids), ',')) == Some(ids)
  {
    var pieces := ShowAll(ids);
    forall i | 0 <= i < |pieces| ensures ',' !in pieces[i] && pieces[i] != "" {
      NoCommaInIntToString(ids[i]);
    }
    SplitJoin(pieces, ',');
    NonEmptyKeepsAll(pieces);
    ParseAllOfShown(ids);
  }

  /** `str(n)` of each id, in order. */
  function ShowAll(ids: seq<int>): seq<string> {
    seq(|ids|, i requires 0 <= i < |ids| => IntToString(ids[i]))
  }

  lemma ParseAllOfShown(ids: seq<int>)
    ensures ParseAll(ShowAll(ids)) == Some(ids)
  {
    var pieces := ShowAll(ids);
    forall i | 0 <= i < |pieces|
      ensures ParseInt(pieces[i]) == Some(ids[i])
    {
      ParseIntOfIntToString(ids[i]);
    }
    ParseAllIff(pieces);
    var r := ParseAll(pieces).value;
    assert |r| == |ids|;
    assert forall i :: 0 <= i < |ids| ==> r[i] == ids[i];
    assert r == ids;
  }

  lemma NoCommaInIntToString(n: int)
    ensures ',' !in IntToString(n) && IntToString(n) != ""
  {
    var s := IntToString(n);
    var d := NatToString(if n < 0 then -n else n);
    assert forall k :: 0 <= k < |d| ==> d[k] != ',';
    assert forall k :: 0 <= k < |s| ==> s[k] != ',';
  }

  /** `not (ALLOWED_USERS and user_id not in ALLOWED_USERS)`: an empty list admits every user. */
  predicate IsAuthorized(allowed: seq<int>, userId: int) {
    !(|allowed| > 0 && userId !in allowed)
  }

  /** `ALLOWED_USERS` set to a comma-separated list of ids admits exactly those users. */
  lemma AllowListAdmitsExactly(ids: seq<int>, userId: int)
    requires ids != []
    ensures var allowed := ParseAllowedUsers(Join(ShowAll(ids), ','));
      allowed.Some? && (IsAuthorized(allowed.value, userId) <==> userId in ids)
  {
    AllowedUsersRoundTrip(ids);
  }

  /** A variable holding nothing but commas has only empty pieces, so it gives the empty list and admits everyone. */
  lemma SeparatorsAdmitEveryone(env: string, userId: int)
    requires forall k :: 0 <= k < |env| ==> env[k] == ','
    ensures ParseAllowedUsers(env) == Some([])
    ensures IsAuthorized(ParseAllowedUsers(env).value, userId)
  {
    SplitOfSeparators(env, ',');
    NonEmptyOfBlanks(Split(env, ','));
  }

  /** `count` in `/generate <service> [count]`: 1 by default, `int(args[1])` moved into `[1, 5]`, and 1 again when that raises. */
  function RequestedCount(args: seq<string>): (count: int)
    ensures 1 <= count <= MaxRequest
    ensures (|args| < 2 || ParseInt(args[1]).None?) ==> count == 1
    ensures |args| >= 2 && ParseInt(args[1]).Some? ==>
      forall m :: 1 <= m <= MaxRequest ==> Distance(count, ParseInt(args[1]).value) <= Distance(m, ParseInt(args[1]).value)
  {
    if |args| < 2 then 1
    else match ParseInt(args[1])
      case None => 1
      case Some(n) => if n < 1 then 1 else if n > MaxRequest then MaxRequest else n
  }

  function Distance(a: int, b: int): nat {
    if a < b then b - a else a - b
  }

  /** A count in range is taken as written. */
  lemma RequestedCountInRange(service: string, n: int)
    requires 1 <= n <= MaxRequest
    ensures RequestedCount([service, IntToString(n)]) == n
  {
    ParseIntOfIntToString(n);
  }
}
