/** Bytes, results and the few sequence facts shared by the other modules. */
module Basics {

  type byte = x: int | 0 <= x < 256

  /** A Go byte slice or string, or the content of a Uint8Array. */
  type Bytes = seq<byte>

  datatype Option<+T> = None | Some(value: T)

  datatype Result<+T, +E> = Ok(value: T) | Err(error: E)

  /** The bytes of a string constant. */
  function Ascii(s: string): (b: Bytes)
    ensures |b| == |s|
  {
    seq(|s|, i requires 0 <= i < |s| => s[i] as int % 256)
  }

  /** The concatenation of all parts, in order. */
  function Flatten<T>(parts: seq<seq<T>>): seq<T> {
    if parts == [] then [] else parts[0] + Flatten(parts[1..])
  }

  lemma {:induction false} FlattenAppend<T>(a: seq<seq<T>>, b: seq<seq<T>>)
    ensures Flatten(a + b) == Flatten(a) + Flatten(b)
  {
    if a == [] {
      assert a + b == b;
    } else {
      assert (a + b)[1..] == a[1..] + b;
      FlattenAppend(a[1..], b);
    }
  }

  lemma Assoc<T>(a: seq<T>, b: seq<T>, c: seq<T>)
    ensures a + (b + c) == a + b + c
  {
  }

  lemma FlattenOne<T>(s: seq<T>)
    ensures Flatten([s]) == s
  {
    assert [s][1..] == [];
  }

  /** The left fold of `step` over `fs`. */
  function Fold<S, F>(step: (S, F) -> S, s: S, fs: seq<F>): S {
    if fs == [] then s else Fold(step, step(s, fs[0]), fs[1..])
  }

  lemma {:induction false} FoldAppend<S, F>(step: (S, F) -> S, s: S, a: seq<F>, b: seq<F>)
    ensures Fold(step, s, a + b) == Fold(step, Fold(step, s, a), b)
    decreases |a|
  {
    if a == [] {
      assert a + b == b;
    } else {
      assert (a + b)[1..] == a[1..] + b;
      FoldAppend(step, step(s, a[0]), a[1..], b);
    }
  }

  lemma FoldOne<S, F>(step: (S, F) -> S, s: S, f: F)
    ensures Fold(step, s, [f]) == step(s, f)
  {
    assert [f][1..] == [];
  }
}
