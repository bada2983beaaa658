/**
 * A presenter that needs an input before it can map state to a view model.
 * Its memoized form binds the input once and then behaves exactly like the
 * memoized plain presenter (the closure is the same, Presenter.Memoized).
 */
module PresenterWithInput {
  import opened Wrappers
  import Presenter

  /**
   * `memoizedHandleState(input:)`: applies `handleState` to `input` once, when
   * the closure is built, and wraps the resulting presenter in a new closure
   * with its own nil `lastValue`.
   */
  method MemoizedHandleState<I, S, V(==)>(handleState: I -> (S -> V), input: I, empty: V)
    returns (closure: Presenter.Memoized<S, V>)
    ensures fresh(closure) && closure.Valid()
    ensures closure.presenter == handleState(input) && closure.empty == empty
    ensures closure.lastValue == None && closure.seen == []
  {
    var presenter := handleState(input);
    closure := new Presenter.Memoized(presenter, empty);
  }

  /**
   * Two calls of one closure: both use the presenter bound to `input`; the
   * first returns its result unchanged, the second returns its own result
   * unless that is empty, in which case it returns the first call's output.
   */
  method CallTwice<I, S, V(==)>(handleState: I -> (S -> V), input: I, empty: V, s1: S, s2: S)
    returns (first: V, second: V)
    ensures first == handleState(input)(s1)
    ensures second == if handleState(input)(s2) != empty then handleState(input)(s2) else first
  {
    var closure := MemoizedHandleState(handleState, input, empty);
    first := closure.Call(s1);
    second := closure.Call(s2);
  }

  /**
   * Closures built by separate calls do not share `lastValue`, even for the
   * same input: the second closure's first call returns its presenter's
   * result unchanged, whatever the first closure has stored.
   */
  method ClosuresAreIndependent<I, S, V(==)>(handleState: I -> (S -> V), input: I, empty: V, s1: S, s2: S)
    returns (first: V, second: V)
    ensures first == handleState(input)(s1)
    ensures second == handleState(input)(s2)
  {
    var a := MemoizedHandleState(handleState, input, empty);
    var b := MemoizedHandleState(handleState, input, empty);
    first := a.Call(s1);
    second := b.Call(s2);
  }
}
