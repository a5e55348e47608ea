/** Validated session names and the order in which a map keyed by them iterates. */
module Names {
  import opened Basics
  import Utf8

  const MAX_NAME: nat := 64

  datatype NameError = Empty | TooLong | InvalidCharacter

  predicate IsNameByte(b: byte) {
    || '0' as int <= b <= '9' as int
    || 'A' as int <= b <= 'Z' as int
    || 'a' as int <= b <= 'z' as int
    || b == '-' as int
    || b == '_' as int
  }

  predicate IsSessionName(s: Bytes) {
    0 < |s| <= MAX_NAME && forall i | 0 <= i < |s| :: IsNameByte(s[i])
  }

  type SessionName = s: Bytes | IsSessionName(s) witness ['a' as int]

  /** `SessionName::parse`. */
  function ParseName(value: Utf8.Text): (r: Result<SessionName, NameError>)
    ensures r.Success? <==> IsSessionName(value)
    ensures r.Success? ==> r.value == value
    ensures r == Failure(Empty) <==> value == []
    ensures r == Failure(TooLong) <==> |value| > MAX_NAME
    ensures r == Failure(InvalidCharacter) <==>
            0 < |value| <= MAX_NAME && exists i | 0 <= i < |value| :: !IsNameByte(value[i])
  {
    if value == [] then Failure(Empty)
    else if |value| > MAX_NAME then Failure(TooLong)
    else if exists i | 0 <= i < |value| :: !IsNameByte(value[i]) then Failure(InvalidCharacter)
    else Success(value)
  }

  /** Names are ASCII, so reading one back as text never fails. */
  lemma NameIsText(name: SessionName)
    ensures Utf8.Valid(name)
  {
    Utf8.AsciiIsValid(name);
  }

  /** Byte-wise lexicographic order, `Ord for String`. */
  predicate Before(a: Bytes, b: Bytes) {
    b != [] && (a == [] || a[0] < b[0] || (a[0] == b[0] && Before(a[1..], b[1..])))
  }

  lemma {:induction false} BeforeTotal(a: Bytes, b: Bytes)
    ensures !Before(a, a)
    ensures a != b ==> Before(a, b) || Before(b, a)
  {
    if a != [] {
      if b != [] {
        BeforeTotal(a[1..], b[1..]);
        if a[0] == b[0] && a[1..] == b[1..] {
          assert a == [a[0]] + a[1..] == b;
        }
      } else {
        BeforeTotal(a[1..], []);
      }
    }
  }

  lemma {:induction false} BeforeTransitive(a: Bytes, b: Bytes, c: Bytes)
    requires Before(a, b) && Before(b, c)
    ensures Before(a, c)
  {
    if a != [] && a[0] == b[0] == c[0] {
      BeforeTransitive(a[1..], b[1..], c[1..]);
    }
  }

  /** `a` comes before `b`: it is a strict prefix, or smaller at the first byte in which they differ. */
  predicate BeforeAt(a: Bytes, b: Bytes, k: nat) {
    k <= |a| && k < |b| && a[..k] == b[..k] && (k == |a| || a[k] < b[k])
  }

  lemma {:induction false} BeforeIf(a: Bytes, b: Bytes, k: nat)
    requires BeforeAt(a, b, k)
    ensures Before(a, b)
  {
    if k > 0 {
      assert a[0] == a[..k][0] == b[..k][0] == b[0];
      assert a[1..][..k - 1] == a[..k][1..] == b[..k][1..] == b[1..][..k - 1];
      BeforeIf(a[1..], b[1..], k - 1);
    }
  }

  lemma {:induction false} BeforeOnlyIf(a: Bytes, b: Bytes) returns (k: nat)
    requires Before(a, b)
    ensures BeforeAt(a, b, k)
  {
    if a == [] || a[0] < b[0] {
      k := 0;
    } else {
      var j := BeforeOnlyIf(a[1..], b[1..]);
      k := j + 1;
      assert a[..k] == [a[0]] + a[1..][..j] && b[..k] == [b[0]] + b[1..][..j];
    }
  }

  /** The order of names is that of their bytes, as dictionaries have it. */
  lemma BeforeIff(a: Bytes, b: Bytes)
    ensures Before(a, b) <==> exists k :: BeforeAt(a, b, k)
  {
    if Before(a, b) {
      var k := BeforeOnlyIf(a, b);
    }
    if k :| BeforeAt(a, b, k) {
      BeforeIf(a, b, k);
    }
  }

  lemma BeforeIsStrictOrder()
    ensures StrictOrder((a: SessionName, b: SessionName) => Before(a, b))
  {
    forall a: SessionName, b: SessionName
      ensures !Before(a, a) && (a != b ==> Before(a, b) || Before(b, a))
    {
      BeforeTotal(a, b);
    }
    forall a: SessionName, b: SessionName, c: SessionName | Before(a, b) && Before(b, c)
      ensures Before(a, c)
    {
      BeforeTransitive(a, b, c);
    }
  }

  /** The keys of a map in iteration order. */
  function Sorted(names: set<SessionName>): (r: seq<SessionName>)
    ensures forall i, j | 0 <= i < j < |r| :: Before(r[i], r[j])
    ensures (forall n :: n in r <==> n in names) && |r| == |names|
  {
    BeforeIsStrictOrder();
    var less := (a: SessionName, b: SessionName) => Before(a, b);
    AscendingSorts(names, less);
    var r := Ascending(names, less);
    assert forall i, j | 0 <= i < j < |r| :: less(r[i], r[j]);
    r
  }
}
