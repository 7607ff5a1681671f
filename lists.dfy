/**
 * The array operations the route applies to its in-memory tables:
 * `find`/`findIndex` (first element equal to a key) and `splice(i, 1)`.
 */
module Lists {

  /** No element occurs twice. */
  predicate Unique<T(==)>(s: seq<T>)
  {
    forall i, j :: 0 <= i < j < |s| ==> s[i] != s[j]
  }

  /** The index of the first occurrence of `x` in `s`, or -1 when there is none. */
  function IndexOf<T(==)>(s: seq<T>, x: T): (i: int)
    ensures -1 <= i < |s|
    ensures i == -1 <==> x !in s
    ensures 0 <= i ==> s[i] == x && x !in s[..i]
  {
    if s == [] then -1
    else if s[0] == x then 0
    else
      var j := IndexOf(s[1..], x);
      assert s == [s[0]] + s[1..];
      if j == -1 then -1
      else
        assert s[..j + 1] == [s[0]] + s[1..][..j];
        j + 1
  }

  /** `findIndex` with an equality test: a left-to-right scan that stops at the first match. */
  method Find<T(==)>(s: seq<T>, x: T) returns (i: int)
    ensures i == IndexOf(s, x)
  {
    i := 0;
    while i < |s|
      invariant 0 <= i <= |s|
      invariant x !in s[..i]
    {
      if s[i] == x {
        return;
      }
      assert s[..i + 1] == s[..i] + [s[i]];
      i := i + 1;
    }
    assert s[..i] == s;
    i := -1;
  }

  /** `splice(i, 1)`: the sequence without its element at `i`, the others in their order. */
  function RemoveAt<T>(s: seq<T>, i: nat): (r: seq<T>)
    requires i < |s|
    ensures |r| == |s| - 1
    ensures forall k :: 0 <= k < i ==> r[k] == s[k]
    ensures forall k :: i <= k < |r| ==> r[k] == s[k + 1]
  {
    s[..i] + s[i + 1..]
  }

  /** Removing one element takes away exactly that element. */
  lemma RemoveAtMultiset<T>(s: seq<T>, i: nat)
    requires i < |s|
    ensures multiset(RemoveAt(s, i)) + multiset{s[i]} == multiset(s)
  {
    assert s == s[..i] + [s[i]] + s[i + 1..];
  }

  /** Appending an element that is not yet present keeps the elements distinct. */
  lemma AppendFreshUnique<T>(s: seq<T>, x: T)
    requires Unique(s)
    requires x !in s
    ensures Unique(s + [x])
  {
  }

  /** Removing an element keeps the elements distinct. */
  lemma RemoveAtUnique<T>(s: seq<T>, i: nat)
    requires Unique(s)
    requires i < |s|
    ensures Unique(RemoveAt(s, i))
  {
  }

  /** In a sequence without duplicates, removing the first occurrence removes every occurrence. */
  lemma RemoveFirstLeavesNone<T>(s: seq<T>, x: T)
    requires Unique(s)
    requires x in s
    ensures x !in RemoveAt(s, IndexOf(s, x))
  {
  }

  /** Appending a fresh element and then removing its first occurrence restores the sequence. */
  lemma AppendThenRemove<T>(s: seq<T>, x: T)
    requires x !in s
    ensures IndexOf(s + [x], x) == |s|
    ensures RemoveAt(s + [x], IndexOf(s + [x], x)) == s
  {
  }
}
