/** Machine integers, results and ordered collections shared by the whole model. */
module Basics {

  const U16_MAX: int := 0xFFFF
  const U64_MAX: int := 0xFFFF_FFFF_FFFF_FFFF

  type byte = b: int | 0 <= b < 256
  type u16 = n: int | 0 <= n <= U16_MAX
  type u64 = n: int | 0 <= n <= U64_MAX

  type Bytes = seq<byte>

  datatype Option<+T> = None | Some(value: T)

  /** The outcome of an operation that the source lets fail with an error value. */
  datatype Result<+T, +E> = Success(value: T) | Failure(error: E) {
    predicate IsFailure() {
      Failure?
    }

    function PropagateFailure<U>(): Result<U, E>
      requires Failure?
    {
      Failure(error)
    }

    function Extract(): T
      requires Success?
    {
      value
    }
  }

  function Min(a: int, b: int): int {
    if a <= b then a else b
  }

  function Max(a: int, b: int): int {
    if a <= b then b else a
  }

  /** `u16::saturating_add`. */
  function SatAdd(a: u16, b: u16): u16 {
    Min(a + b, U16_MAX)
  }

  /** `u16::saturating_sub`. */
  function SatSub(a: u16, b: u16): u16 {
    Max(a - b, 0)
  }

  ghost predicate Distinct<T>(s: seq<T>) {
    forall i, j | 0 <= i < j < |s| :: s[i] != s[j]
  }

  // ---- Iteration order of a BTreeMap or BTreeSet ----

  ghost predicate StrictOrder<T(!new)>(less: (T, T) -> bool) {
    && (forall x :: !less(x, x))
    && (forall x, y :: x != y ==> less(x, y) || less(y, x))
    && (forall x, y, z :: less(x, y) && less(y, z) ==> less(x, z))
  }

  ghost predicate IsAscending<T>(s: seq<T>, less: (T, T) -> bool) {
    forall i, j | 0 <= i < j < |s| :: less(s[i], s[j])
  }

  predicate IsLeast<T(==)>(s: set<T>, m: T, less: (T, T) -> bool) {
    m in s && forall x | x in s && x != m :: less(m, x)
  }

  lemma {:induction false} LeastExists<T(!new)>(s: set<T>, less: (T, T) -> bool)
    requires s != {} && StrictOrder(less)
    ensures exists m :: IsLeast(s, m, less)
  {
    var x :| x in s;
    if s == {x} {
      assert IsLeast(s, x, less);
    } else {
      LeastExists(s - {x}, less);
      var y :| IsLeast(s - {x}, y, less);
      var m := if less(x, y) then x else y;
      forall z | z in s && z != m
        ensures less(m, z)
      {
        assert z == x || z in s - {x};
        assert z != x && z != y ==> less(y, z);
      }
      assert IsLeast(s, m, less);
    }
  }

  lemma LeastUnique<T(!new)>(s: set<T>, m: T, n: T, less: (T, T) -> bool)
    requires StrictOrder(less) && IsLeast(s, m, less) && IsLeast(s, n, less)
    ensures m == n
  {
  }

  function Least<T(==, !new)>(s: set<T>, less: (T, T) -> bool): (m: T)
    requires s != {} && StrictOrder(less)
    ensures IsLeast(s, m, less)
  {
    LeastExists(s, less);
    assert forall a, b | IsLeast(s, a, less) && IsLeast(s, b, less) :: a == b by {
      forall a, b | IsLeast(s, a, less) && IsLeast(s, b, less) ensures a == b {
        LeastUnique(s, a, b, less);
      }
    }
    var m :| m in s && IsLeast(s, m, less);
    m
  }

  /** The elements of a set in ascending order: how a BTreeSet iterates. */
  function Ascending<T(==, !new)>(s: set<T>, less: (T, T) -> bool): seq<T>
    requires StrictOrder(less)
  {
    if s == {} then []
    else
      var m := Least(s, less);
      [m] + Ascending(s - {m}, less)
  }

  lemma {:induction false} AscendingSorts<T(!new)>(s: set<T>, less: (T, T) -> bool)
    requires StrictOrder(less)
    ensures IsAscending(Ascending(s, less), less)
    ensures forall x :: x in Ascending(s, less) <==> x in s
    ensures |Ascending(s, less)| == |s|
  {
    if s != {} {
      var m := Least(s, less);
      AscendingSorts(s - {m}, less);
      var rest := Ascending(s - {m}, less);
      forall j | 0 <= j < |rest|
        ensures less(m, rest[j])
      {
        assert rest[j] in s - {m};
      }
    }
  }
}
