/**
 * Small sequence operations that the store, the checklist and the demo-data
 * merge share: the array methods `includes`, `indexOf`, `filter` and
 * `splice(index, 1)` as the source uses them on lists of strings.
 */
module SeqUtil {

  /** A value that may be missing, as `find` returns an element or `undefined`. */
  datatype Option<T> = None | Some(value: T)

  /** No element occurs twice. */
  predicate NoDuplicates<T(==)>(s: seq<T>)
  {
    forall i, j :: 0 <= i < j < |s| ==> s[i] != s[j]
  }

  /** `s.indexOf(x)`: the first position of `x`, or -1 when it is absent. */
  function IndexOf<T(==)>(s: seq<T>, x: T): (k: int)
    ensures -1 <= k < |s|
    ensures k == -1 <==> x !in s
    ensures 0 <= k ==> s[k] == x && x !in s[..k]
  {
    if s == [] then -1
    else if s[0] == x then 0
    else
      var k := IndexOf(s[1..], x);
      assert s[1..] == s[1..][..] && (k >= 0 ==> s[..k + 1] == [s[0]] + s[1..][..k]);
      if k == -1 then -1 else k + 1
  }

  /** `s.splice(k, 1)` on a copy: the element at `k` is taken out. */
  function RemoveAt<T>(s: seq<T>, k: nat): (r: seq<T>)
    requires k < |s|
    ensures |r| == |s| - 1
    ensures forall i :: 0 <= i < k ==> r[i] == s[i]
    ensures forall i :: k <= i < |r| ==> r[i] == s[i + 1]
    ensures multiset(r) == multiset(s) - multiset{s[k]}
  {
    assert s == s[..k] + [s[k]] + s[k + 1..];
    s[..k] + s[k + 1..]
  }

  /** `s.filter(e => e !== x)`: every occurrence of `x` is dropped, order kept. */
  function Without<T(==,!new)>(s: seq<T>, x: T): (r: seq<T>)
    ensures |r| <= |s|
    ensures forall y :: y in r <==> y in s && y != x
    ensures multiset(r) == multiset(s)[x := 0]
  {
    if s == [] then []
    else
      assert s == [s[0]] + s[1..];
      if s[0] == x then Without(s[1..], x)
      else [s[0]] + Without(s[1..], x)
  }

  /** The filter distributes over concatenation, so it keeps the order of what it keeps. */
  lemma {:induction false} WithoutAppend<T(!new)>(a: seq<T>, b: seq<T>, x: T)
    ensures Without(a + b, x) == Without(a, x) + Without(b, x)
  {
    if a == [] {
      assert a + b == b;
    } else {
      assert (a + b)[1..] == a[1..] + b;
      WithoutAppend(a[1..], b, x);
    }
  }

  /** Taking one element out keeps a duplicate-free sequence duplicate-free. */
  lemma RemoveAtKeepsNoDuplicates<T>(s: seq<T>, k: nat)
    requires k < |s| && NoDuplicates(s)
    ensures NoDuplicates(RemoveAt(s, k))
  {
    var r := RemoveAt(s, k);
    forall i, j | 0 <= i < j < |r| ensures r[i] != r[j] {
      var i' := if i < k then i else i + 1;
      var j' := if j < k then j else j + 1;
      assert r[i] == s[i'] && r[j] == s[j'];
    }
  }

  /** In a duplicate-free sequence, taking out position `k` removes its element and nothing else. */
  lemma RemoveAtMembers<T>(s: seq<T>, k: nat)
    requires k < |s| && NoDuplicates(s)
    ensures forall x :: x in RemoveAt(s, k) <==> x in s && x != s[k]
  {
    var left, right := s[..k], s[k + 1..];
    assert RemoveAt(s, k) == left + right;
    assert s == left + [s[k]] + right;
    assert s[k] !in left by {
      forall m | 0 <= m < k ensures left[m] != s[k] {
        assert left[m] == s[m];
      }
    }
    assert s[k] !in right by {
      forall m | 0 <= m < |right| ensures right[m] != s[k] {
        assert right[m] == s[k + 1 + m];
      }
    }
  }

  /** The first position of an element of `s` does not change when something is appended. */
  lemma IndexOfAppend<T>(s: seq<T>, t: seq<T>, x: T)
    requires x in s
    ensures IndexOf(s + t, x) == IndexOf(s, x)
  {
    var j := IndexOf(s, x);
    assert (s + t)[j] == x;
    assert (s + t)[..j] == s[..j];
  }
}
