/**
 The small shared vocabulary of the model: optional values and results (the
 C# code's nullable references and thrown exceptions), the 32-bit range of
 C#'s `int`, and the `Skip(n).Take(m)` slice that LINQ applies to an ordered
 query.
 */
module Base {

  /** A C# nullable reference: `null` is `None`. */
  datatype Option<+T> = None | Some(value: T)

  /** The outcome of an operation that may throw: `Err` carries what was thrown. */
  datatype Result<+T, +E> = Ok(value: T) | Err(error: E)

  /** Bounds of C#'s 32-bit `int`. */
  const IntMin: int := -0x8000_0000
  const IntMax: int := 0x7fff_ffff

  /** A value of C#'s `int` type. */
  type Int32 = x: int | IntMin <= x <= IntMax

  /** Every key of a table whose key column is C#'s `int`. */
  predicate Int32Keys(ids: set<int>)
  {
    forall id | id in ids :: IntMin <= id <= IntMax
  }

  function Min(a: int, b: int): int
  {
    if a <= b then a else b
  }

  /**
   `xs.Skip(skip).Take(take)`: the elements at positions `skip` up to (not
   including) `skip + take`, cut off at the end of `xs`.
   */
  function Slice<T>(xs: seq<T>, skip: nat, take: nat): (r: seq<T>)
    ensures skip >= |xs| ==> r == []
    ensures skip < |xs| ==> |r| == Min(take, |xs| - skip)
    ensures forall i | 0 <= i < |r| :: r[i] == xs[skip + i]
  {
    if skip >= |xs| then [] else xs[skip..Min(skip + take, |xs|)]
  }

  /** Two adjacent slices read one after the other are the slice spanning both. */
  lemma SliceConcat<T>(xs: seq<T>, skip: nat, take: nat)
    requires skip <= |xs|
    ensures xs[..skip] + Slice(xs, skip, take) == xs[..Min(skip + take, |xs|)]
  {
    if skip == |xs| {
      assert xs[..skip] == xs;
    }
  }

  /** Position of the first `c` in `s`, or -1 (`IndexOf`). */
  function IndexOf<T(==)>(s: seq<T>, c: T): (k: int)
    ensures -1 <= k < |s|
    ensures k == -1 <==> c !in s
    ensures k >= 0 ==> s[k] == c && c !in s[..k]
    decreases |s|
  {
    if |s| == 0 then -1
    else if s[0] == c then 0
    else
      var k := IndexOf(s[1..], c);
      if k == -1 then -1
      else
        assert s[..k + 1] == [s[0]] + s[1..][..k];
        k + 1
  }
}
