/** The optional value that the Python code expresses with `None`. */
module Wrappers {

  datatype Option<+T> = None | Some(value: T)

  /** Python truthiness of an `Optional[str]`: `None` and `""` are both false. */
  predicate Truthy(o: Option<string>) {
    o.Some? && o.value != ""
  }

  /** The values of the truthy entries of `os`, in order (what `if code: codes.append(code)` keeps). */
  function TruthyValues(os: seq<Option<string>>): (r: seq<string>)
    ensures |r| <= |os|
  {
    if os == [] then []
    else TruthyValues(os[..|os| - 1]) + (if Truthy(os[|os| - 1]) then [os[|os| - 1].value] else [])
  }

  /** No kept value is empty, and nothing is dropped when every outcome is truthy. */
  lemma {:induction false} TruthyValuesKept(os: seq<Option<string>>)
    ensures forall i :: 0 <= i < |TruthyValues(os)| ==> TruthyValues(os)[i] != ""
    ensures (forall i :: 0 <= i < |os| ==> Truthy(os[i])) ==> TruthyValues(os) == seq(|os|, i requires 0 <= i < |os| => os[i].value)
  {
    if os != [] {
      TruthyValuesKept(os[..|os| - 1]);
    }
  }

  /** One more outcome adds its value exactly when it is truthy. */
  lemma TruthyValuesSnoc(os: seq<Option<string>>, o: Option<string>)
    ensures TruthyValues(os + [o]) == TruthyValues(os) + (if Truthy(o) then [o.value] else [])
  {
    assert (os + [o])[..|os|] == os;
  }

  /** Keeping the truthy values of two runs of attempts one after the other keeps those of each, in order. */
  lemma {:induction false} TruthyValuesAppend(a: seq<Option<string>>, b: seq<Option<string>>)
    ensures TruthyValues(a + b) == TruthyValues(a) + TruthyValues(b)
  {
    if b == [] {
      assert a + b == a;
    } else {
      var init := b[..|b| - 1];
      TruthyValuesAppend(a, init);
      assert (a + b)[..|a + b| - 1] == a + init;
      assert (a + b)[|a + b| - 1] == b[|b| - 1];
    }
  }
}
