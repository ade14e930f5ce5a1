/** Small shared vocabulary: optional values, results with an error message, a loop
    that stops at the first error, and an order-preserving filter on sequences
    (JavaScript's Array.prototype.filter). */
module Common {

  datatype Option<+T> = None | Some(value: T)

  /** A computation that either yields a value or throws (the message names the JavaScript error). */
  datatype Result<+T> = Ok(value: T) | Err(error: string)

  /** The results of a loop over a list, collected in order: the first failing
      step stops the loop with its error. */
  function Collect<T>(rs: seq<Result<T>>): (r: Result<seq<T>>)
    ensures r.Ok? ==> |r.value| == |rs|
  {
    if rs == [] then Ok([])
    else
      var init := Collect(rs[..|rs| - 1]);
      var last := rs[|rs| - 1];
      if init.Err? then init
      else if last.Err? then Err(last.error)
      else Ok(init.value + [last.value])
  }

  /** One more step of the loop. */
  lemma CollectStep<T>(rs: seq<Result<T>>, k: nat)
    requires k < |rs| && Collect(rs[..k]).Ok?
    ensures rs[k].Err? ==> Collect(rs[..k + 1]) == Err(rs[k].error)
    ensures rs[k].Ok? ==> Collect(rs[..k + 1]) == Ok(Collect(rs[..k]).value + [rs[k].value])
  {
    assert rs[..k + 1][..k] == rs[..k];
  }

  /** Once a step has failed, the later steps change nothing. */
  lemma {:induction false} CollectErrSticks<T>(rs: seq<Result<T>>, m: nat)
    requires m <= |rs| && Collect(rs[..m]).Err?
    ensures Collect(rs) == Collect(rs[..m])
    decreases |rs| - m
  {
    if m == |rs| {
      assert rs[..m] == rs;
    } else {
      assert rs[..m + 1][..m] == rs[..m];
      CollectErrSticks(rs, m + 1);
    }
  }

  /** The loop succeeds exactly when every step does, and then yields every step's
      value, in order. */
  lemma {:induction false} CollectOutcome<T>(rs: seq<Result<T>>)
    ensures Collect(rs).Ok? <==> forall i :: 0 <= i < |rs| ==> rs[i].Ok?
    ensures Collect(rs).Ok? ==> forall i :: 0 <= i < |rs| ==> Collect(rs).value[i] == rs[i].value
  {
    if rs != [] {
      var init := rs[..|rs| - 1];
      CollectOutcome(init);
      assert forall i :: 0 <= i < |init| ==> init[i] == rs[i];
    }
  }

  /** Keeps, in their original order, the elements for which `keep` holds. */
  function Filter<T(!new)>(s: seq<T>, keep: T -> bool): (r: seq<T>)
    ensures |r| <= |s|
    ensures forall x :: x in r <==> x in s && keep(x)
    ensures forall i :: 0 <= i < |r| ==> keep(r[i])
  {
    if s == [] then [] else (if keep(s[0]) then [s[0]] else []) + Filter(s[1..], keep)
  }

  /** Filtering distributes over concatenation: this, with the singleton case, pins
      down that the relative order of the kept elements is the original one. */
  lemma {:induction false} FilterAppend<T(!new)>(a: seq<T>, b: seq<T>, keep: T -> bool)
    ensures Filter(a + b, keep) == Filter(a, keep) + Filter(b, keep)
  {
    if a == [] {
      assert a + b == b;
    } else {
      assert (a + b)[1..] == a[1..] + b;
      FilterAppend(a[1..], b, keep);
    }
  }

  /** Filtering twice with the same predicate changes nothing. */
  lemma {:induction false} FilterIdempotent<T(!new)>(s: seq<T>, keep: T -> bool)
    ensures Filter(Filter(s, keep), keep) == Filter(s, keep)
  {
    if s != [] {
      FilterIdempotent(s[1..], keep);
      var head := if keep(s[0]) then [s[0]] else [];
      FilterAppend(head, Filter(s[1..], keep), keep);
      if keep(s[0]) {
        assert Filter(head, keep) == [s[0]] by {
          assert head[1..] == [];
        }
      }
    }
  }

  /** A filter whose predicate holds of every element is the identity. */
  lemma {:induction false} FilterAll<T(!new)>(s: seq<T>, keep: T -> bool)
    requires forall i :: 0 <= i < |s| ==> keep(s[i])
    ensures Filter(s, keep) == s
  {
    if s != [] {
      FilterAll(s[1..], keep);
    }
  }
}
