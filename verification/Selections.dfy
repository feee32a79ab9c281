/** Picking some elements of a sequence without changing their order. */
module Selections {

  ghost predicate Increasing(at: seq<nat>) {
    forall k, l :: 0 <= k < l < |at| ==> at[k] < at[l]
  }

  /** `out` holds the elements of `all` at these places, and they are kept. */
  ghost predicate From<T>(all: seq<T>, keep: seq<bool>, out: seq<T>, at: seq<nat>)
    requires |keep| == |all| && |at| == |out|
  {
    forall k :: 0 <= k < |at| ==> at[k] < |all| && keep[at[k]] && out[k] == all[at[k]]
  }

  ghost predicate Complete(keep: seq<bool>, at: seq<nat>) {
    forall i :: 0 <= i < |keep| && keep[i] ==> i in at
  }

  /** `out` holds the elements of `all` that are kept, each once and in order; `at` says where they were. */
  ghost predicate Selects<T>(all: seq<T>, keep: seq<bool>, out: seq<T>, at: seq<nat>) {
    |keep| == |all| && |at| == |out| && Increasing(at) && From(all, keep, out, at) && Complete(keep, at)
  }

  lemma FromMore<T>(all: seq<T>, keep: seq<bool>, before: seq<T>, at: seq<nat>)
    requires all != [] && |keep| == |all| && |at| == |before|
    requires From(all[..|all| - 1], keep[..|all| - 1], before, at)
    ensures From(all, keep, before, at)
    ensures keep[|all| - 1] ==> From(all, keep, before + [all[|all| - 1]], at + [|all| - 1])
  {
  }

  lemma CompleteMore(keep: seq<bool>, at: seq<nat>)
    requires keep != [] && Complete(keep[..|keep| - 1], at)
    ensures Complete(keep, if keep[|keep| - 1] then at + [|keep| - 1] else at)
  {
    forall i | 0 <= i < |keep| - 1 && keep[i]
      ensures i in at
    {
      assert keep[..|keep| - 1][i];
    }
  }

  /** A selection from all but the last element is extended by the last if it is kept. */
  lemma SelectMore<T>(all: seq<T>, keep: seq<bool>, out: seq<T>, before: seq<T>, at: seq<nat>) returns (more: seq<nat>)
    requires all != [] && |keep| == |all|
    requires Selects(all[..|all| - 1], keep[..|all| - 1], before, at)
    requires out == if keep[|all| - 1] then before + [all[|all| - 1]] else before
    ensures Selects(all, keep, out, more)
  {
    more := if keep[|all| - 1] then at + [|all| - 1] else at;
    FromMore(all, keep, before, at);
    CompleteMore(keep, at);
  }
}
