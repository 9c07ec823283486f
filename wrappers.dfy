/** Definitions shared by the modules of the model: Python's `None` becomes
    `Option.None`, a raised exception becomes `Result.Failure`. */
module Wrappers {

  datatype Option<+T> = None | Some(value: T)

  datatype Result<+R, +E> = Success(value: R) | Failure(error: E)

  function Min(a: int, b: int): int { if a <= b then a else b }

  function Max(a: int, b: int): int { if a >= b then a else b }

  /** The elements of a sequence of sequences, in order. */
  function Flatten<T>(groups: seq<seq<T>>): seq<T>
  {
    if groups == [] then [] else groups[0] + Flatten(groups[1..])
  }

  /** Flattening distributes over concatenation. */
  lemma {:induction false} FlattenAppend<T>(front: seq<seq<T>>, back: seq<seq<T>>)
    ensures Flatten(front + back) == Flatten(front) + Flatten(back)
  {
    if front == [] {
      assert front + back == back;
    } else {
      var all := front + back;
      assert all[0] == front[0];
      assert all[1..] == front[1..] + back;
      FlattenAppend(front[1..], back);
    }
  }

  /** Flattening one more group appends it. */
  lemma FlattenPrefix<T>(groups: seq<seq<T>>, k: nat)
    requires k < |groups|
    ensures Flatten(groups[..k + 1]) == Flatten(groups[..k]) + groups[k]
  {
    FlattenAppend(groups[..k], [groups[k]]);
    assert groups[..k] + [groups[k]] == groups[..k + 1];
    assert Flatten([groups[k]]) == groups[k] + Flatten<T>([]);
  }
}
