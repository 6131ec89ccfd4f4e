/** The lexicographic order on texts, by the codes of their elements: UTF-16 units, or characters. */
module Lex {

  function Sign(x: int): int {
    if x < 0 then -1 else if x > 0 then 1 else 0
  }

  function Compare<T>(code: T -> int, a: seq<T>, b: seq<T>): (r: int)
    ensures -1 <= r <= 1
    decreases |a|
  {
    if a == [] && b == [] then 0
    else if a == [] then -1
    else if b == [] then 1
    else if code(a[0]) < code(b[0]) then -1
    else if code(b[0]) < code(a[0]) then 1
    else Compare(code, a[1..], b[1..])
  }

  lemma {:induction false} Antisymmetric<T>(code: T -> int, a: seq<T>, b: seq<T>)
    ensures Compare(code, a, b) == -Compare(code, b, a)
    decreases |a|
  {
    if a != [] && b != [] {
      Antisymmetric(code, a[1..], b[1..]);
    }
  }

  lemma {:induction false} ZeroIffEqual<T(!new)>(code: T -> int, a: seq<T>, b: seq<T>)
    requires forall x, y :: code(x) == code(y) ==> x == y
    ensures Compare(code, a, b) == 0 <==> a == b
    decreases |a|
  {
    if a != [] && b != [] {
      ZeroIffEqual(code, a[1..], b[1..]);
      if a[0] == b[0] && a[1..] == b[1..] {
        assert a == [a[0]] + a[1..] && b == [b[0]] + b[1..];
      }
    }
  }

  lemma {:induction false} Transitive<T>(code: T -> int, a: seq<T>, b: seq<T>, c: seq<T>)
    requires Compare(code, a, b) <= 0 && Compare(code, b, c) <= 0
    ensures Compare(code, a, c) <= 0
    ensures Compare(code, a, b) < 0 || Compare(code, b, c) < 0 ==> Compare(code, a, c) < 0
    decreases |a|
  {
    if a != [] && b != [] && c != [] && code(a[0]) == code(b[0]) == code(c[0]) {
      Transitive(code, a[1..], b[1..], c[1..]);
    }
  }

  /** The place where two texts first differ, or the shorter one ends. */
  predicate FirstDifference<T(==)>(a: seq<T>, b: seq<T>, k: nat) {
    k <= |a| && k <= |b| && a[..k] == b[..k] && (k == |a| || k == |b| || a[k] != b[k])
  }

  /** What the order is: there, the element with the lower code goes first, and a text before those that it begins. */
  lemma {:induction false} ComparedThere<T(!new)>(code: T -> int, a: seq<T>, b: seq<T>, k: nat)
    requires forall x, y :: code(x) == code(y) ==> x == y
    requires FirstDifference(a, b, k)
    ensures Compare(code, a, b) ==
            if k == |a| && k == |b| then 0 else if k == |a| then -1 else if k == |b| then 1
            else if code(a[k]) < code(b[k]) then -1 else 1
    decreases k
  {
    if k > 0 {
      assert a[0] == a[..k][0] == b[..k][0] == b[0];
      assert a[1..][..k - 1] == a[..k][1..] == b[..k][1..] == b[1..][..k - 1];
      ComparedThere(code, a[1..], b[1..], k - 1);
    }
  }

  lemma {:induction false} SomeDifference<T>(a: seq<T>, b: seq<T>) returns (k: nat)
    ensures FirstDifference(a, b, k)
    decreases |a|
  {
    if a == [] || b == [] || a[0] != b[0] {
      k := 0;
    } else {
      var j := SomeDifference(a[1..], b[1..]);
      k := j + 1;
      assert a[..k] == [a[0]] + a[1..][..j] && b[..k] == [b[0]] + b[1..][..j];
    }
  }
}
