/** Hash-code combinators: the 17/29 multiply-add fold over element hashes,
    computed in unchecked 32-bit signed arithmetic (overflow wraps). The
    element hashes themselves (EqualityComparer<T>.Default.GetHashCode,
    Object.GetHashCode) are inputs of the model. */
module HashCodeUtil {

  import opened Wrappers

  const Modulus: int := 0x1_0000_0000
  const Half: int := 0x8000_0000

  /** A .NET `int`. */
  newtype int32 = x: int | -0x8000_0000 <= x < 0x8000_0000

  /** Two's-complement truncation to 32 bits, as `unchecked` arithmetic does. */
  function Wrap(x: int): (r: int32)
    ensures (r as int - x) % Modulus == 0
    ensures -Half <= x < Half ==> r as int == x
  {
    ((x + Half) % Modulus - Half) as int32
  }

  /** One step of the fold: `hashcode = hashcode * 29 + h`. */
  function Step(hashcode: int32, h: int32): int32
  {
    Wrap(hashcode as int * 29 + h as int)
  }

  /** The hash of a sequence of element hashes: a left fold of Step from 17. */
  function Fold(hs: seq<int32>): int32
    decreases |hs|
  {
    if hs == [] then 17 else Step(Fold(hs[..|hs| - 1]), hs[|hs| - 1])
  }

  /** The same recurrence in unbounded integers: the value the fold would
      have without overflow. */
  function Exact(hs: seq<int32>): int
    decreases |hs|
  {
    if hs == [] then 17 else Exact(hs[..|hs| - 1]) * 29 + hs[|hs| - 1] as int
  }

  lemma WrapShift(x: int, m: int)
    ensures Wrap(x + Modulus * m) == Wrap(x)
  {
  }

  lemma WrapStep(x: int, h: int32)
    ensures Wrap(Wrap(x) as int * 29 + h as int) == Wrap(x * 29 + h as int)
  {
    var q := (x + Half) / Modulus;
    assert Wrap(x) as int == x - Modulus * q;
    WrapShift(x * 29 + h as int, -29 * q);
  }

  /** Wrapping at every step gives the exact value reduced modulo 2^32 once:
      overflow in the middle of the fold loses nothing but the high bits. */
  lemma {:induction false} FoldIsWrappedExact(hs: seq<int32>)
    ensures Fold(hs) == Wrap(Exact(hs))
    decreases |hs|
  {
    if hs != [] {
      var init := hs[..|hs| - 1];
      FoldIsWrappedExact(init);
      WrapStep(Exact(init), hs[|hs| - 1]);
    }
  }

  /** HashCode<T>(T obj1): a single expression, 493 + h with 493 = 17 * 29. */
  function HashCode1(h1: int32): (r: int32)
    ensures r == Fold([h1])
  {
    Wrap(493 + h1 as int)
  }

  /** HashCode<T, U>(T obj1, U obj2). */
  method HashCode2(h1: int32, h2: int32) returns (hashcode: int32)
    ensures hashcode == Fold([h1, h2])
  {
    hashcode := 17;
    hashcode := Wrap(hashcode as int * 29 + h1 as int);
    assert [h1][..0] == [] && hashcode == Fold([h1]);
    hashcode := Wrap(hashcode as int * 29 + h2 as int);
    assert [h1, h2][..1] == [h1];
  }

  /** HashCode<T, U, V>(T obj1, U obj2, V obj3). */
  method HashCode3(h1: int32, h2: int32, h3: int32) returns (hashcode: int32)
    ensures hashcode == Fold([h1, h2, h3])
  {
    hashcode := 17;
    hashcode := Wrap(hashcode as int * 29 + h1 as int);
    assert [h1][..0] == [] && hashcode == Fold([h1]);
    hashcode := Wrap(hashcode as int * 29 + h2 as int);
    assert [h1, h2][..1] == [h1] && hashcode == Fold([h1, h2]);
    hashcode := Wrap(hashcode as int * 29 + h3 as int);
    assert [h1, h2, h3][..2] == [h1, h2];
  }

  /** HashCode<T>(params T[] array): the fold over the element hashes. */
  method HashCodeParams(hashes: seq<int32>) returns (hashcode: int32)
    ensures hashcode == Fold(hashes)
    ensures hashes == [] ==> hashcode == 17
  {
    hashcode := 17;
    var i := 0;
    while i < |hashes|
      invariant 0 <= i <= |hashes|
      invariant hashcode == Fold(hashes[..i])
    {
      assert hashes[..i + 1][..i] == hashes[..i];
      hashcode := Wrap(hashcode as int * 29 + hashes[i] as int);
      i := i + 1;
    }
    assert hashes[..i] == hashes;
  }

  /** The element hashes of an untyped array: a null element hashes to 0. */
  function ElementHashes(arr: seq<Option<int32>>): (hs: seq<int32>)
    ensures |hs| == |arr|
    ensures forall j :: 0 <= j < |arr| ==> hs[j] == arr[j].GetOr(0)
  {
    seq(|arr|, j requires 0 <= j < |arr| => arr[j].GetOr(0))
  }

  /** HashCode(Array array): 0 for a null array; otherwise the fold, with a
      null element contributing 0. */
  method HashCodeArray(arr: Option<seq<Option<int32>>>) returns (hashcode: int32)
    ensures arr.None? ==> hashcode == 0
    ensures arr.Some? ==> hashcode == Fold(ElementHashes(arr.value))
  {
    if arr.None? {
      return 0;
    }
    var elements := arr.value;
    hashcode := 17;
    var i := 0;
    while i < |elements|
      invariant 0 <= i <= |elements|
      invariant hashcode == Fold(ElementHashes(elements[..i]))
    {
      var obj := elements[i];
      assert ElementHashes(elements[..i + 1])[..i] == ElementHashes(elements[..i]);
      hashcode := Wrap(hashcode as int * 29 + (if obj.None? then 0 else obj.value as int));
      i := i + 1;
    }
    assert elements[..i] == elements;
  }
}
