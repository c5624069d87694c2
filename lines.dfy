/**
 * The line structure of a text file as Python's `readlines()` sees it: the file is cut after
 * every '\n'; each piece keeps its terminator and only the last piece may lack one.
 * `writelines()` is plain concatenation.
 */
module TextLines {

  /** A piece of `readlines()` output: non-empty, and any '\n' is its last character. */
  predicate IsLine(l: string) {
    l != [] && forall k :: 0 <= k < |l| - 1 ==> l[k] != '\n'
  }

  /** A line that carries its terminator. */
  predicate IsClosedLine(l: string) {
    IsLine(l) && l[|l| - 1] == '\n'
  }

  /** A file that is empty or ends with '\n', which is how the code store always leaves it. */
  predicate Terminated(s: string) {
    s == [] || s[|s| - 1] == '\n'
  }

  /** The lines a well-formed `readlines()` result consists of: all closed but perhaps the last. */
  predicate WellFormed(ls: seq<string>) {
    (forall i :: 0 <= i < |ls| ==> IsLine(ls[i]))
    && (forall i :: 0 <= i < |ls| - 1 ==> IsClosedLine(ls[i]))
  }

  /** `f.writelines(ls)` */
  function Concat(ls: seq<string>): string {
    if ls == [] then [] else ls[0] + Concat(ls[1..])
  }

  /** The length of the first line of `s`, terminator included. */
  function LineLength(s: string): (k: nat)
    requires s != []
    ensures 1 <= k <= |s|
    ensures forall j :: 0 <= j < k - 1 ==> s[j] != '\n'
    ensures s[k - 1] == '\n' || k == |s|
  {
    if s[0] == '\n' || |s| == 1 then 1 else 1 + LineLength(s[1..])
  }

  /** `f.readlines()` on a file whose contents are `s`. */
  function Lines(s: string): (r: seq<string>)
    ensures Concat(r) == s
    ensures r == [] <==> s == []
    decreases |s|
  {
    if s == [] then []
    else
      var k := LineLength(s);
      assert s[..k] + s[k..] == s;
      [s[..k]] + Lines(s[k..])
  }

  /** Every piece of `readlines()` is a line, and all are closed but perhaps the last; all are closed in a terminated file. */
  lemma {:induction false} LinesWellFormed(s: string)
    ensures WellFormed(Lines(s))
    ensures Terminated(s) ==> forall i :: 0 <= i < |Lines(s)| ==> IsClosedLine(Lines(s)[i])
    decreases |s|
  {
    if s != [] {
      var k := LineLength(s);
      var head := s[..k];
      var tail := Lines(s[k..]);
      LinesWellFormed(s[k..]);
      assert Lines(s) == [head] + tail;
      FirstLine(s);
      assert k == |s| ==> tail == [];
      ConsWellFormed(head, tail, Terminated(s));
    }
  }

  /** The first piece of `readlines()` is a line; it is closed unless it is the whole file, and the rest of a terminated file is terminated. */
  lemma FirstLine(s: string)
    requires s != []
    ensures var k := LineLength(s);
      && IsLine(s[..k])
      && (k < |s| || Terminated(s) ==> IsClosedLine(s[..k]))
      && (Terminated(s) ==> Terminated(s[k..]))
  {
    PrefixLine(s, LineLength(s));
  }

  lemma PrefixLine(s: string, k: nat)
    requires 1 <= k <= |s|
    requires forall j :: 0 <= j < k - 1 ==> s[j] != '\n'
    requires s[k - 1] == '\n' || k == |s|
    ensures IsLine(s[..k])
    ensures k < |s| || Terminated(s) ==> IsClosedLine(s[..k])
    ensures Terminated(s) ==> Terminated(s[k..])
  {
    var head := s[..k];
    forall j | 0 <= j < |head| - 1
      ensures head[j] != '\n'
    {
      assert head[j] == s[j];
    }
    assert head[k - 1] == s[k - 1];
    if k < |s| {
      assert s[k..][|s| - k - 1] == s[|s| - 1];
    }
  }

  /** A line followed by well-formed lines is well-formed, when it is closed or nothing follows. */
  lemma ConsWellFormed(head: string, tail: seq<string>, closed: bool)
    requires IsLine(head) && WellFormed(tail)
    requires tail != [] ==> IsClosedLine(head)
    requires closed ==> IsClosedLine(head) && forall i :: 0 <= i < |tail| ==> IsClosedLine(tail[i])
    ensures WellFormed([head] + tail)
    ensures closed ==> forall i :: 0 <= i < |[head] + tail| ==> IsClosedLine(([head] + tail)[i])
  {
    var r := [head] + tail;
    assert forall i :: 1 <= i < |r| ==> r[i] == tail[i - 1];
  }

  lemma {:induction false} ConcatAppend(a: seq<string>, b: seq<string>)
    ensures Concat(a + b) == Concat(a) + Concat(b)
  {
    if a != [] {
      assert (a + b)[1..] == a[1..] + b;
      ConcatAppend(a[1..], b);
    } else {
      assert a + b == b;
    }
  }

  lemma ConcatSnoc(ls: seq<string>, l: string)
    ensures Concat(ls + [l]) == Concat(ls) + l
  {
    ConcatAppend(ls, [l]);
    assert [l][1..] == [];
    assert Concat([l]) == l + Concat([]);
  }

  /** The first line of `l + rest` is `l` when `l` is a line that is closed or last. */
  lemma {:induction false} LineLengthOfLine(l: string, rest: string)
    requires IsLine(l)
    requires IsClosedLine(l) || rest == []
    ensures LineLength(l + rest) == |l|
  {
    if |l| > 1 {
      assert (l + rest)[1..] == l[1..] + rest;
      LineLengthOfLine(l[1..], rest);
    }
  }

  /** `readlines()` recovers exactly the lines that were written: the round trip of `writelines()`. */
  lemma {:induction false} LinesOfConcat(ls: seq<string>)
    requires WellFormed(ls)
    ensures Lines(Concat(ls)) == ls
  {
    if ls != [] {
      var s := Concat(ls);
      var rest := Concat(ls[1..]);
      assert ls[1..] == [] ==> rest == [];
      LineLengthOfLine(ls[0], rest);
      assert s[..|ls[0]|] == ls[0] && s[|ls[0]|..] == rest;
      LinesOfConcat(ls[1..]);
    }
  }

  /** The tail of a `readlines()` result, written back, reads as that tail. */
  lemma LinesOfTail(s: string)
    requires s != []
    ensures Lines(Concat(Lines(s)[1..])) == Lines(s)[1..]
  {
    var ls := Lines(s);
    LinesWellFormed(s);
    assert WellFormed(ls[1..]);
    LinesOfConcat(ls[1..]);
  }

  /** Appending one closed line to a terminated file adds exactly that line. */
  lemma {:induction false} LinesOfAppendedLine(s: string, x: string)
    requires Terminated(s)
    requires '\n' !in x
    ensures Lines(s + (x + "\n")) == Lines(s) + [x + "\n"]
    ensures Terminated(s + (x + "\n"))
  {
    var ls := Lines(s) + [x + "\n"];
    LinesWellFormed(s);
    assert IsClosedLine(x + "\n") by {
      forall k | 0 <= k < |x + "\n"| - 1 ensures (x + "\n")[k] != '\n' {
        assert (x + "\n")[k] == x[k];
      }
    }
    assert WellFormed(ls);
    ConcatSnoc(Lines(s), x + "\n");
    LinesOfConcat(ls);
  }

  /** Each string followed by its newline: the text that writing them one `f.write(f"{x}\n")` after another adds. */
  function AsLines(xs: seq<string>): (r: seq<string>)
    ensures |r| == |xs|
  {
    if xs == [] then [] else AsLines(xs[..|xs| - 1]) + [xs[|xs| - 1] + "\n"]
  }

  /** One more write adds one more line of text. */
  lemma ConcatAsLinesSnoc(xs: seq<string>, x: string)
    ensures Concat(AsLines(xs + [x])) == Concat(AsLines(xs)) + (x + "\n")
  {
    assert (xs + [x])[..|xs|] == xs;
    ConcatSnoc(AsLines(xs), x + "\n");
  }
}
