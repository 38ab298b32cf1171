/** Shared vocabulary: an Option type, JUCE's `jlimit`, and the behaviour of the
    JUCE array operations (`addIfNotAlreadyThere`, `removeFirstMatchingValue`,
    `removeAllInstancesOf`, `indexOf`, `insert`) that the modelled code relies on. */
module Common {

  datatype Option<T> = None | Some(value: T)

  /** jlimit(lo, hi, x): x forced into [lo, hi]. */
  function Clamp(lo: int, hi: int, x: int): (r: int)
    requires lo <= hi
    ensures lo <= r <= hi
    ensures lo <= x <= hi ==> r == x
    ensures x < lo ==> r == lo
    ensures hi < x ==> r == hi
  {
    if x < lo then lo else if hi < x then hi else x
  }

  function Min(a: int, b: int): (r: int)
    ensures r <= a && r <= b && (r == a || r == b)
  {
    if a <= b then a else b
  }

  function Max(a: int, b: int): (r: int)
    ensures r >= a && r >= b && (r == a || r == b)
  {
    if a >= b then a else b
  }

  /** Array::indexOf: the first position of x, or -1. */
  function IndexOf<T(==)>(s: seq<T>, x: T): (r: int)
    ensures -1 <= r < |s|
    ensures r == -1 <==> x !in s
    ensures 0 <= r ==> s[r] == x && x !in s[..r]
  {
    if |s| == 0 then -1
    else if s[0] == x then 0
    else
      var k := IndexOf(s[1..], x);
      if k == -1 then -1 else k + 1
  }

  /** Array::addIfNotAlreadyThere. */
  function AddIfAbsent<T(==)>(s: seq<T>, x: T): (r: seq<T>)
    ensures x in s ==> r == s
    ensures x !in s ==> r == s + [x]
    ensures x in r
  {
    if x in s then s else s + [x]
  }

  /** Array::removeFirstMatchingValue (and ReferenceCountedArray::removeObject). */
  function RemoveFirst<T(==)>(s: seq<T>, x: T): (r: seq<T>)
    ensures x !in s ==> r == s
    ensures x in s ==> |r| == |s| - 1
    ensures x in s ==> r == s[..IndexOf(s, x)] + s[IndexOf(s, x) + 1..]
    ensures forall i :: 0 <= i < |s| && s[i] != x ==> s[i] in r
    ensures forall i :: 0 <= i < |r| ==> r[i] in s
  {
    if x in s then s[..IndexOf(s, x)] + s[IndexOf(s, x) + 1..] else s
  }

  /** Array::removeAllInstancesOf: the elements different from x, in order. */
  function RemoveAll<T(==)>(s: seq<T>, x: T): (r: seq<T>)
    ensures |r| <= |s|
    ensures x !in r
    ensures forall i :: 0 <= i < |s| && s[i] != x ==> s[i] in r
    ensures forall i :: 0 <= i < |r| ==> r[i] in s
  {
    if |s| == 0 then []
    else if s[0] == x then RemoveAll(s[1..], x)
    else [s[0]] + RemoveAll(s[1..], x)
  }

  /** The number of occurrences of x in s. */
  function Count<T(==)>(s: seq<T>, x: T): (n: nat)
    ensures n <= |s|
    ensures n == 0 <==> x !in s
  {
    if |s| == 0 then 0 else (if s[0] == x then 1 else 0) + Count(s[1..], x)
  }

  lemma {:induction false} RemoveAllCount<T>(s: seq<T>, x: T)
    ensures |RemoveAll(s, x)| == |s| - Count(s, x)
  {
    if |s| > 0 {
      RemoveAllCount(s[1..], x);
    }
  }

  /** In a list without repetitions an element occurs at most once. */
  lemma {:induction false} NoDupCount<T>(s: seq<T>, x: T)
    requires NoDup(s)
    ensures Count(s, x) == if x in s then 1 else 0
  {
    if |s| > 0 {
      assert NoDup(s[1..]);
      NoDupCount(s[1..], x);
      if s[0] == x {
        assert forall i :: 0 <= i < |s[1..]| ==> s[1..][i] == s[i + 1] && s[i + 1] != s[0];
      } else {
        assert x in s ==> x in s[1..];
      }
    }
  }

  /** addIfNotAlreadyThere never creates a repetition. */
  lemma AddIfAbsentKeepsNoDup<T>(s: seq<T>, x: T)
    requires NoDup(s)
    ensures NoDup(AddIfAbsent(s, x))
  {
    if x !in s {
      var r := s + [x];
      forall i, j | 0 <= i < j < |r|
        ensures r[i] != r[j]
      {
        if j == |s| {
          assert r[i] == s[i] && r[j] == x;
        }
      }
    }
  }

  /** Removing every occurrence keeps a list free of repetitions. */
  lemma {:induction false} RemoveAllNoDup<T>(s: seq<T>, x: T)
    requires NoDup(s)
    ensures NoDup(RemoveAll(s, x))
  {
    if |s| > 0 {
      assert NoDup(s[1..]);
      RemoveAllNoDup(s[1..], x);
      if s[0] != x {
        var rest := RemoveAll(s[1..], x);
        assert s[0] !in s[1..];
        assert s[0] !in rest;
        var r := [s[0]] + rest;
        forall i, j | 0 <= i < j < |r|
          ensures r[i] != r[j]
        {
          if i == 0 {
            assert r[j] == rest[j - 1] && r[j] in rest;
          } else {
            assert r[i] == rest[i - 1] && r[j] == rest[j - 1];
          }
        }
      }
    }
  }

  /** Array::insert: an index outside [0, |s|] appends. */
  function InsertAt<T>(s: seq<T>, index: int, x: T): (r: seq<T>)
    ensures |r| == |s| + 1
    ensures 0 <= index <= |s| ==> r[index] == x && r[..index] == s[..index] && r[index + 1..] == s[index..]
    ensures !(0 <= index <= |s|) ==> r == s + [x]
  {
    if 0 <= index <= |s| then s[..index] + [x] + s[index..] else s + [x]
  }

  /** The elements after an insertion are the old ones and the new one. */
  lemma InsertAtMembers<T>(s: seq<T>, index: int, x: T, y: T)
    ensures y in InsertAt(s, index, x) <==> y == x || y in s
  {
    if 0 <= index <= |s| {
      assert s == s[..index] + s[index..];
    }
  }

  /** No element occurs twice. */
  predicate NoDup<T(==)>(s: seq<T>)
  {
    forall i, j :: 0 <= i < j < |s| ==> s[i] != s[j]
  }

  /** The slices an index loop moves between when it erases s[i] in place or
      steps past it. */
  lemma EraseSlices<T>(s: seq<T>, i: nat)
    requires i < |s|
    ensures s[i..][0] == s[i] && s[i..][1..] == s[i + 1..]
    ensures s[..i + 1] == s[..i] + [s[i]]
    ensures (s[..i] + s[i + 1..])[i..] == s[i + 1..] && (s[..i] + s[i + 1..])[..i] == s[..i]
  {
  }

  /** Putting an erased element back at its position restores the sequence. */
  lemma SpliceBack<T>(s: seq<T>, k: nat)
    requires k < |s|
    ensures InsertAt(s[..k] + s[k + 1..], k, s[k]) == s
  {
    var r := s[..k] + s[k + 1..];
    assert r[..k] == s[..k] && r[k..] == s[k + 1..];
    assert s == s[..k] + [s[k]] + s[k + 1..];
  }
}
