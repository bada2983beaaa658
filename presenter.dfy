/**
 * A presenter maps store state to a view model. Its memoized form remembers
 * the last "good" (non-empty) view model and shows it in place of an empty
 * one, so that short-lived invalid states do not blank the screen.
 */
module Presenter {
  import opened Wrappers

  /** The presenter's results on a sequence of states, in order. */
  function Applied<S, V>(presenter: S -> V, states: seq<S>): (r: seq<V>)
    ensures |r| == |states|
    ensures forall i :: 0 <= i < |states| ==> r[i] == presenter(states[i])
  {
    if states == [] then [] else Applied(presenter, states[..|states| - 1]) + [presenter(states[|states| - 1])]
  }

  /** The most recent result that is not `empty`, if there is one. */
  function LastGood<V(==)>(results: seq<V>, empty: V): (r: Option<V>)
    ensures r.Some? ==> r.value != empty && r.value in results
    ensures r.None? <==> forall i :: 0 <= i < |results| ==> results[i] == empty
  {
    if results == [] then None
    else if results[|results| - 1] != empty then Some(results[|results| - 1])
    else LastGood(results[..|results| - 1], empty)
  }

  /** What the memoized presenter shows after producing `results`: the last good one, or `empty`. */
  function Shown<V(==)>(results: seq<V>, empty: V): V {
    LastGood(results, empty).GetOr(empty)
  }

  /** One more result: a good one becomes the last good one; an empty one changes nothing. */
  lemma LastGoodAppend<V>(results: seq<V>, v: V, empty: V)
    ensures LastGood(results + [v], empty) == if v != empty then Some(v) else LastGood(results, empty)
  {
    assert (results + [v])[..|results|] == results;
  }

  /**
   * The reference characterisation: the last good value is `v` exactly when
   * some result equals `v`, is not empty, and every later result is empty.
   */
  lemma {:induction false} LastGoodIsMostRecent<V>(results: seq<V>, empty: V, v: V)
    ensures LastGood(results, empty) == Some(v) <==>
      exists i :: 0 <= i < |results| && results[i] == v && v != empty &&
        forall j :: i < j < |results| ==> results[j] == empty
  {
    if results != [] {
      var n := |results| - 1;
      var prefix := results[..n];
      LastGoodIsMostRecent(prefix, empty, v);
      if results[n] == empty {
        if LastGood(results, empty) == Some(v) {
          var i :| 0 <= i < |prefix| && prefix[i] == v && v != empty &&
            forall j :: i < j < |prefix| ==> prefix[j] == empty;
          assert results[i] == v;
          assert forall j :: i < j < |results| ==> results[j] == empty by {
            forall j | i < j < |results| ensures results[j] == empty {
              if j < n { assert results[j] == prefix[j]; }
            }
          }
        }
        if exists i :: 0 <= i < |results| && results[i] == v && v != empty &&
             forall j :: i < j < |results| ==> results[j] == empty {
          var i :| 0 <= i < |results| && results[i] == v && v != empty &&
            forall j :: i < j < |results| ==> results[j] == empty;
          assert i < n;
          assert prefix[i] == v;
          assert forall j :: i < j < |prefix| ==> prefix[j] == empty by {
            forall j | i < j < |prefix| ensures prefix[j] == empty {
              assert prefix[j] == results[j];
            }
          }
        }
      } else {
        if exists i :: 0 <= i < |results| && results[i] == v && v != empty &&
             forall j :: i < j < |results| ==> results[j] == empty {
          var i :| 0 <= i < |results| && results[i] == v && v != empty &&
            forall j :: i < j < |results| ==> results[j] == empty;
          assert i == n;
        }
      }
    }
  }

  /** Once a good value has been produced, there always is a last good value. */
  lemma {:induction false} LastGoodPersists<V>(results: seq<V>, more: seq<V>, empty: V)
    requires LastGood(results, empty).Some?
    ensures LastGood(results + more, empty).Some?
    decreases |more|
  {
    if more == [] {
      assert results + more == results;
    } else {
      var init := more[..|more| - 1];
      assert results + more == (results + init) + [more[|more| - 1]];
      LastGoodPersists(results, init, empty);
      LastGoodAppend(results + init, more[|more| - 1], empty);
    }
  }

  /** After the first good value, the memoized presenter never shows `empty` again. */
  lemma ShownNeverEmptyAfterGood<V>(results: seq<V>, more: seq<V>, empty: V)
    requires Shown(results, empty) != empty
    ensures Shown(results + more, empty) != empty
  {
    LastGoodPersists(results, more, empty);
  }

  /**
   * The closure returned by `memoizedHandleState()`: the presenter it wraps,
   * the view model type's `empty` value, and the captured `lastValue`.
   * `seen` records the states it has been called with.
   */
  class Memoized<S, V(==)> {
    const presenter: S -> V
    const empty: V
    var lastValue: Option<V>
    ghost var seen: seq<S>

    /** `lastValue` is always the last good result among the calls so far. */
    ghost predicate Valid()
      reads this
    {
      lastValue == LastGood(Applied(presenter, seen), empty)
    }

    /** A fresh closure over `handleState` whose `lastValue` is nil. */
    constructor (handleState: S -> V, empty: V)
      ensures Valid()
      ensures presenter == handleState && this.empty == empty
      ensures lastValue == None && seen == []
    {
      presenter := handleState;
      this.empty := empty;
      lastValue := None;
      seen := [];
    }

    /** One call of the closure. */
    method Call(state: S) returns (viewModel: V)
      requires Valid()
      modifies this
      ensures Valid() && seen == old(seen) + [state]
      ensures presenter(state) != empty ==> viewModel == presenter(state) && lastValue == Some(viewModel)
      ensures presenter(state) == empty ==> lastValue == old(lastValue) && viewModel == old(lastValue).GetOr(empty)
      ensures viewModel == Shown(Applied(presenter, seen), empty)
      ensures old(lastValue).Some? ==> viewModel != empty
    {
      ghost var results := Applied(presenter, seen);
      assert Applied(presenter, seen + [state]) == results + [presenter(state)] by {
        assert (seen + [state])[..|seen|] == seen;
      }
      LastGoodAppend(results, presenter(state), empty);
      seen := seen + [state];
      viewModel := presenter(state);
      if viewModel == empty {
        if lastValue.None? {
          return;
        }
        viewModel := lastValue.value;
      } else {
        lastValue := Some(viewModel);
      }
    }
  }

  /** `memoizedHandleState()`: every call builds a new closure with its own nil `lastValue`. */
  method MemoizedHandleState<S, V(==)>(handleState: S -> V, empty: V) returns (closure: Memoized<S, V>)
    ensures fresh(closure) && closure.Valid()
    ensures closure.presenter == handleState && closure.empty == empty
    ensures closure.lastValue == None && closure.seen == []
  {
    closure := new Memoized(handleState, empty);
  }

  /**
   * Two closures built from the same presenter do not share `lastValue`:
   * after the first has produced `s1`'s view model, the second, called for
   * the first time, returns exactly what the presenter returns for `s2`.
   */
  method ClosuresAreIndependent<S, V(==)>(handleState: S -> V, empty: V, s1: S, s2: S) returns (first: V, second: V)
    ensures first == handleState(s1)
    ensures second == handleState(s2)
  {
    var a := MemoizedHandleState(handleState, empty);
    var b := MemoizedHandleState(handleState, empty);
    first := a.Call(s1);
    second := b.Call(s2);
  }
}
