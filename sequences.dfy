/** Element-wise operations on sequences shared by the line-by-line loops of
    the model. */
module Sequences {
  import opened Wrappers

  /** `f` applied to each element, in order. */
  function Each<A, B>(f: A -> B, s: seq<A>): (r: seq<B>)
    ensures |r| == |s|
    ensures forall i :: 0 <= i < |s| ==> r[i] == f(s[i])
  {
    seq(|s|, i requires 0 <= i < |s| => f(s[i]))
  }

  /** Mapping distributes over concatenation. */
  lemma EachAppend<A, B>(f: A -> B, a: seq<A>, b: seq<A>)
    ensures Each(f, a + b) == Each(f, a) + Each(f, b)
  {
    var l, r := Each(f, a + b), Each(f, a) + Each(f, b);
    forall k | 0 <= k < |l|
      ensures l[k] == r[k]
    {
      if k < |a| {
        assert (a + b)[k] == a[k];
      } else {
        assert (a + b)[k] == b[k - |a|];
      }
    }
  }

  /** One more element maps to one more result at the end. */
  lemma EachSnoc<A, B>(f: A -> B, s: seq<A>, i: nat)
    requires i < |s|
    ensures Each(f, s[..i + 1]) == Each(f, s[..i]) + [f(s[i])]
  {
    assert s[..i + 1] == s[..i] + [s[i]];
    EachAppend(f, s[..i], [s[i]]);
  }

  /** A prefix of the results is the result of the prefix. */
  lemma EachPrefix<A, B>(f: A -> B, s: seq<A>, k: nat)
    requires k <= |s|
    ensures Each(f, s)[..k] == Each(f, s[..k])
  {
  }

  /** `f` applied to each element in order, stopping at the first failure,
      which is reported with its position. */
  function ReadEach<A, T, F>(f: A -> Result<T, F>, s: seq<A>): (r: Result<seq<T>, (nat, F)>)
    ensures r.Ok? ==> (|r.value| == |s| && forall i :: 0 <= i < |s| ==> f(s[i]) == Ok(r.value[i]))
    ensures r.Err? ==> (r.error.0 < |s| && f(s[r.error.0]) == Err(r.error.1)
                        && forall i :: 0 <= i < r.error.0 ==> f(s[i]).Ok?)
  {
    if s == [] then Ok([])
    else
      var n := |s| - 1;
      assert forall i :: 0 <= i < n ==> s[..n][i] == s[i];
      match ReadEach(f, s[..n])
      case Err(e) => Err(e)
      case Ok(done) =>
        match f(s[n])
        case Err(fault) => Err((n, fault))
        case Ok(x) => Ok(done + [x])
  }

  /** One more element read successfully is appended. */
  lemma ReadEachSnoc<A, T, F>(f: A -> Result<T, F>, s: seq<A>, i: nat)
    requires i < |s| && ReadEach(f, s[..i]).Ok? && f(s[i]).Ok?
    ensures ReadEach(f, s[..i + 1]) == Ok(ReadEach(f, s[..i]).value + [f(s[i]).value])
  {
    assert s[..i + 1][..i] == s[..i];
    assert s[..i + 1][i] == s[i];
  }

  /** The first failure decides the outcome, whatever follows it. */
  lemma {:induction false} ReadEachStopsAt<A, T, F>(f: A -> Result<T, F>, s: seq<A>, i: nat)
    requires i < |s| && ReadEach(f, s[..i]).Ok? && f(s[i]).Err?
    ensures ReadEach(f, s) == Err((i, f(s[i]).error))
    decreases |s|
  {
    var n := |s| - 1;
    if i == n {
      assert s[..n] == s[..i];
    } else {
      assert s[..n][..i] == s[..i];
      assert s[..n][i] == s[i];
      ReadEachStopsAt(f, s[..n], i);
    }
  }
}
