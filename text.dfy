/** Python `str` operations used by the code store, on ASCII text. */
module Text {

  /** ASCII characters for which Python's `str.isspace()` holds (what `str.strip()` removes). */
  predicate IsSpace(c: char) {
    c == ' ' || 9 <= c as int <= 13 || 28 <= c as int <= 31
  }

  /** `s.lstrip()` */
  function StripLeft(s: string): (r: string)
    ensures |r| <= |s|
    ensures r == [] || !IsSpace(r[0])
  {
    if s != [] && IsSpace(s[0]) then StripLeft(s[1..]) else s
  }

  /** `lstrip` removes a prefix made of white space only. */
  lemma {:induction false} StripLeftDrops(s: string)
    ensures StripLeft(s) == s[|s| - |StripLeft(s)|..]
    ensures forall k :: 0 <= k < |s| - |StripLeft(s)| ==> IsSpace(s[k])
  {
    if s != [] && IsSpace(s[0]) {
      StripLeftDrops(s[1..]);
      assert s[1..][|s| - 1 - |StripLeft(s)|..] == s[|s| - |StripLeft(s)|..];
      forall k | 1 <= k < |s| - |StripLeft(s)|
        ensures IsSpace(s[k])
      {
        assert s[k] == s[1..][k - 1];
      }
    }
  }

  /** `s.rstrip()` */
  function StripRight(s: string): (r: string)
    ensures |r| <= |s|
    ensures r == [] || !IsSpace(r[|r| - 1])
  {
    if s != [] && IsSpace(s[|s| - 1]) then StripRight(s[..|s| - 1]) else s
  }

  /** `rstrip` removes a suffix made of white space only. */
  lemma {:induction false} StripRightDrops(s: string)
    ensures StripRight(s) == s[..|StripRight(s)|]
    ensures forall k :: |StripRight(s)| <= k < |s| ==> IsSpace(s[k])
  {
    if s != [] && IsSpace(s[|s| - 1]) {
      var t := s[..|s| - 1];
      StripRightDrops(t);
      assert t[..|StripRight(s)|] == s[..|StripRight(s)|];
      forall k | |StripRight(s)| <= k < |s| - 1
        ensures IsSpace(s[k])
      {
        assert s[k] == t[k];
      }
    }
  }

  /** `s.strip()`: what is left once leading and trailing white space is gone. */
  function Strip(s: string): (r: string)
    ensures |r| <= |s|
    ensures r == [] || (!IsSpace(r[0]) && !IsSpace(r[|r| - 1]))
  {
    StripRightDrops(StripLeft(s));
    StripRight(StripLeft(s))
  }

  /** `strip` keeps a contiguous piece of its input and removes only white space around it. */
  lemma StripDropsOnlySpace(s: string)
    ensures var i := |s| - |StripLeft(s)|;
      && i + |Strip(s)| <= |s|
      && Strip(s) == s[i..i + |Strip(s)|]
      && (forall k :: 0 <= k < i ==> IsSpace(s[k]))
      && (forall k :: i + |Strip(s)| <= k < |s| ==> IsSpace(s[k]))
  {
    var l := StripLeft(s);
    StripLeftDrops(s);
    StripRightDrops(l);
    TrimmedPiece(s, l, StripRight(l));
  }

  /** Cutting white space off the front of `s` (giving `l`) and then off the back of `l` (giving `r`) leaves a piece of `s` with white space around it. */
  lemma TrimmedPiece(s: string, l: string, r: string)
    requires |l| <= |s| && l == s[|s| - |l|..]
    requires forall k :: 0 <= k < |s| - |l| ==> IsSpace(s[k])
    requires |r| <= |l| && r == l[..|r|]
    requires forall k :: |r| <= k < |l| ==> IsSpace(l[k])
    ensures var i := |s| - |l|;
      && i + |r| <= |s|
      && r == s[i..i + |r|]
      && (forall k :: i + |r| <= k < |s| ==> IsSpace(s[k]))
  {
    var i := |s| - |l|;
    assert l[..|r|] == s[i..i + |r|];
    forall k | i + |r| <= k < |s|
      ensures IsSpace(s[k])
    {
      assert s[k] == l[k - i];
    }
  }

  /** A string without white space at either end is its own strip. */
  lemma StripOfTrimmed(s: string)
    requires s == [] || (!IsSpace(s[0]) && !IsSpace(s[|s| - 1]))
    ensures Strip(s) == s
  {
  }

  /** Stripping `x + "\n"` gives the strip of `x`: the line terminator never survives. */
  lemma {:induction false} StripDropsNewline(x: string)
    ensures Strip(x + "\n") == Strip(x)
  {
    var l := StripLeft(x + "\n");
    if forall k :: 0 <= k < |x| ==> IsSpace(x[k]) {
      AllSpaceStripsToEmpty(x + "\n");
      AllSpaceStripsToEmpty(x);
    } else {
      StripLeftOfAppend(x, "\n");
      assert l == StripLeft(x) + "\n";
      assert StripRight(l) == StripRight(StripLeft(x));
    }
  }

  lemma {:induction false} AllSpaceStripsToEmpty(s: string)
    requires forall k :: 0 <= k < |s| ==> IsSpace(s[k])
    ensures StripLeft(s) == [] && Strip(s) == []
  {
    if s != [] {
      AllSpaceStripsToEmpty(s[1..]);
    }
  }

  /** When `a` holds a non-space character, `lstrip` never reaches `b`. */
  lemma {:induction false} StripLeftOfAppend(a: string, b: string)
    requires exists k :: 0 <= k < |a| && !IsSpace(a[k])
    ensures StripLeft(a + b) == StripLeft(a) + b
  {
    if IsSpace(a[0]) {
      assert (a + b)[1..] == a[1..] + b;
      var k :| 0 <= k < |a| && !IsSpace(a[k]);
      assert !IsSpace(a[1..][k - 1]);
      StripLeftOfAppend(a[1..], b);
    }
  }

  /** Python's `str.lower()` on ASCII letters. */
  function Lower(s: string): (r: string)
    ensures |r| == |s|
    ensures forall i :: 0 <= i < |s| ==> r[i] == if 'A' <= s[i] <= 'Z' then (s[i] as int + 32) as char else s[i]
  {
    if s == [] then [] else Lower(s[..|s| - 1]) + [LowerChar(s[|s| - 1])]
  }

  function LowerChar(c: char): char {
    if 'A' <= c <= 'Z' then (c as int + 32) as char else c
  }

  /** `sub in s` for strings. */
  predicate Contains(s: string, sub: string) {
    exists i :: 0 <= i <= |s| - |sub| && OccursAt(s, sub, i)
  }

  /** `sub` occurs in `s` starting at index `i`. */
  predicate OccursAt(s: string, sub: string, i: nat) {
    i + |sub| <= |s| && s[i..i + |sub|] == sub
  }

  /** The non-empty strings of `ss`, in order: what `[x for x in ss if x]` keeps. */
  function NonEmpty(ss: seq<string>): (r: seq<string>)
    ensures |r| <= |ss|
  {
    if ss == [] then []
    else NonEmpty(ss[..|ss| - 1]) + (if ss[|ss| - 1] != "" then [ss[|ss| - 1]] else [])
  }

  /** The filter keeps only non-empty strings, and only strings of its input. */
  lemma {:induction false} NonEmptyKept(ss: seq<string>)
    ensures forall i :: 0 <= i < |NonEmpty(ss)| ==> NonEmpty(ss)[i] != "" && NonEmpty(ss)[i] in ss
  {
    if ss != [] {
      var init := ss[..|ss| - 1];
      NonEmptyKept(init);
      var r := NonEmpty(ss);
      var prev := NonEmpty(init);
      forall i | 0 <= i < |r|
        ensures r[i] != "" && r[i] in ss
      {
        if i < |prev| {
          assert r[i] == prev[i];
          assert prev[i] in init;
        } else {
          assert r[i] == ss[|ss| - 1];
        }
      }
    }
  }

  /** Nothing is dropped from strings that are all non-empty. */
  lemma {:induction false} NonEmptyKeepsAll(ss: seq<string>)
    requires forall i :: 0 <= i < |ss| ==> ss[i] != ""
    ensures NonEmpty(ss) == ss
  {
    if ss != [] {
      NonEmptyKeepsAll(ss[..|ss| - 1]);
      assert ss[..|ss| - 1] + [ss[|ss| - 1]] == ss;
    }
  }

  /** Nothing survives the filter when every string is empty. */
  lemma {:induction false} NonEmptyOfBlanks(ss: seq<string>)
    requires forall i :: 0 <= i < |ss| ==> ss[i] == ""
    ensures NonEmpty(ss) == []
  {
    if ss != [] {
      NonEmptyOfBlanks(ss[..|ss| - 1]);
    }
  }

  /** The filter works element by element: filtering two parts is filtering each. */
  lemma {:induction false} NonEmptyOfAppend(a: seq<string>, b: seq<string>)
    ensures NonEmpty(a + b) == NonEmpty(a) + NonEmpty(b)
  {
    if b == [] {
      assert a + b == a;
    } else {
      var init := b[..|b| - 1];
      NonEmptyOfAppend(a, init);
      assert (a + b)[..|a + b| - 1] == a + init;
      assert (a + b)[|a + b| - 1] == b[|b| - 1];
    }
  }

  /** `s.split(sep)` with an explicit one-character separator. */
  function Split(s: string, sep: char): (r: seq<string>)
    ensures |r| >= 1
    ensures forall i :: 0 <= i < |r| ==> sep !in r[i]
    ensures Join(r, sep) == s
  {
    if s == [] then [""]
    else
      var rest := Split(s[1..], sep);
      if s[0] == sep then [""] + rest
      else [[s[0]] + rest[0]] + rest[1..]
  }

  /** `sep.join(pieces)`, the inverse of `Split`. */
  function Join(pieces: seq<string>, sep: char): string
    requires |pieces| >= 1
  {
    if |pieces| == 1 then pieces[0] else pieces[0] + [sep] + Join(pieces[1..], sep)
  }

  /** `Split` undoes `Join` on pieces free of the separator. */
  lemma {:induction false} SplitJoin(pieces: seq<string>, sep: char)
    requires |pieces| >= 1
    requires forall i :: 0 <= i < |pieces| ==> sep !in pieces[i]
    ensures Split(Join(pieces, sep), sep) == pieces
  {
    if |pieces| == 1 {
      SplitPiece(pieces[0], [], sep);
    } else {
      assert forall i :: 0 <= i < |pieces| - 1 ==> sep !in pieces[1..][i];
      SplitJoin(pieces[1..], sep);
      SplitPiece(pieces[0], [sep] + Join(pieces[1..], sep), sep);
      assert ([sep] + Join(pieces[1..], sep))[1..] == Join(pieces[1..], sep);
    }
  }

  /** Splitting `p + t`, where `p` has no separator and `t` is empty or starts with one. */
  lemma {:induction false} SplitPiece(p: string, t: string, sep: char)
    requires sep !in p
    requires t == [] || t[0] == sep
    ensures Split(p + t, sep) == if t == [] then [p] else [p] + Split(t[1..], sep)
  {
    if p == [] {
      assert p + t == t;
    } else {
      assert (p + t)[1..] == p[1..] + t;
      SplitPiece(p[1..], t, sep);
      assert [p[0]] + p[1..] == p;
    }
  }

  /** A string of separators only splits into empty pieces, one more than there are separators. */
  lemma {:induction false} SplitOfSeparators(s: string, sep: char)
    requires forall k :: 0 <= k < |s| ==> s[k] == sep
    ensures |Split(s, sep)| == |s| + 1
    ensures forall i :: 0 <= i < |Split(s, sep)| ==> Split(s, sep)[i] == ""
  {
    if s != [] {
      assert forall k :: 0 <= k < |s| - 1 ==> s[1..][k] == sep;
      SplitOfSeparators(s[1..], sep);
      assert Split(s, sep) == [""] + Split(s[1..], sep);
    }
  }
}
