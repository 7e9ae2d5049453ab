/** Values shared by every part of the form serializer model: JavaScript's
    `undefined` as `None`, the TypeError that strict-mode code throws, and the
    `(accumulator, key, value) -> accumulator` contract every serializer obeys. */
module Base {

  datatype Option<+T> = None | Some(value: T)

  /** The outcome of an operation that may throw a TypeError. The source is an
      ES module, so it runs in strict mode, where writing a property of a
      primitive string throws instead of being ignored. */
  datatype Result<+T> = Ok(value: T) | TypeError {
    predicate IsFailure() {
      TypeError?
    }

    function PropagateFailure<U>(): Result<U>
      requires TypeError?
    {
      TypeError
    }

    function Extract(): T
      requires Ok?
    {
      value
    }
  }

  /** One `(key, value)` pair handed to a serializer */
  datatype Pair = Pair(key: string, value: string)

  /** The accumulator after feeding `pairs` to `ser` one by one, starting
      from `acc`: `result = serializer(result, key, value)` for each pair. */
  function Fold<A>(ser: (A, string, string) -> A, acc: A, pairs: seq<Pair>): A
    decreases |pairs|
  {
    if pairs == [] then acc
    else
      var last := pairs[|pairs| - 1];
      ser(Fold(ser, acc, pairs[..|pairs| - 1]), last.key, last.value)
  }

  /** Feeding two batches of pairs is feeding the first, then the second. */
  lemma {:induction false} FoldAppend<A>(ser: (A, string, string) -> A, acc: A, a: seq<Pair>, b: seq<Pair>)
    ensures Fold(ser, acc, a + b) == Fold(ser, Fold(ser, acc, a), b)
    decreases |b|
  {
    if b == [] {
      assert a + b == a;
    } else {
      var b' := b[..|b| - 1];
      assert (a + b)[..|a + b| - 1] == a + b';
      FoldAppend(ser, acc, a, b');
    }
  }

  /** Feeding one more pair is one more call of the serializer. */
  lemma FoldSnoc<A>(ser: (A, string, string) -> A, acc: A, pairs: seq<Pair>, p: Pair)
    ensures Fold(ser, acc, pairs + [p]) == ser(Fold(ser, acc, pairs), p.key, p.value)
  {
    assert (pairs + [p])[..|pairs + [p]| - 1] == pairs;
  }

  /** The concatenation of a sequence of strings */
  function Concat(ss: seq<string>): string
    decreases |ss|
  {
    if ss == [] then "" else ss[0] + Concat(ss[1..])
  }
}
