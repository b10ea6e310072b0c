/** The JavaScript array primitives the field editor is built from, as
    functions on sequences: the destructuring swap, `splice(i, 1)`,
    `splice(i, 0, x)` (with its clamping of `i`), `push` and `unshift`.
    Every one of them keeps the elements it does not touch, in order. */
module Lists {

  /** The index `splice` actually uses when asked for `i` on an array of length `n`. */
  function Clamp(i: nat, n: nat): nat
  {
    if i < n then i else n
  }

  /** `[a[i], a[j]] = [a[j], a[i]]` on a copy of the array. */
  function Swap<T>(s: seq<T>, i: nat, j: nat): (r: seq<T>)
    requires i < |s| && j < |s|
    ensures |r| == |s|
    ensures r[i] == s[j] && r[j] == s[i]
    ensures forall k :: 0 <= k < |s| && k != i && k != j ==> r[k] == s[k]
    ensures multiset(r) == multiset(s)
  {
    s[i := s[j]][j := s[i]]
  }

  /** `a.splice(i, 1)`: the array without its element at `i`. */
  function RemoveAt<T>(s: seq<T>, i: nat): (r: seq<T>)
    requires i < |s|
    ensures |r| == |s| - 1
    ensures forall k :: 0 <= k < i ==> r[k] == s[k]
    ensures forall k :: i <= k < |r| ==> r[k] == s[k + 1]
    ensures multiset(r) + multiset{s[i]} == multiset(s)
  {
    assert s == s[..i] + [s[i]] + s[i + 1..];
    s[..i] + s[i + 1..]
  }

  /** `a.splice(i, 0, x)`: `x` inserted before position `i`, or appended when
      `i` is past the end. */
  function InsertAt<T>(s: seq<T>, i: nat, x: T): (r: seq<T>)
    ensures |r| == |s| + 1
    ensures r[Clamp(i, |s|)] == x
    ensures RemoveAt(r, Clamp(i, |s|)) == s
    ensures multiset(r) == multiset(s) + multiset{x}
  {
    var k := Clamp(i, |s|);
    assert s == s[..k] + s[k..];
    var r := s[..k] + [x] + s[k..];
    assert r[..k] == s[..k] && r[k + 1..] == s[k..];
    r
  }

  /** Where the old elements sit after an insertion: unmoved before the
      insertion point, one place later after it. */
  lemma InsertAtPositions<T>(s: seq<T>, i: nat, x: T)
    ensures forall k :: 0 <= k < Clamp(i, |s|) ==> InsertAt(s, i, x)[k] == s[k]
    ensures forall k :: Clamp(i, |s|) < k <= |s| ==> InsertAt(s, i, x)[k] == s[k - 1]
  {
    var r := InsertAt(s, i, x);
    var p := Clamp(i, |s|);
    forall k | 0 <= k < p ensures r[k] == s[k] {
      assert RemoveAt(r, p)[k] == r[k];
    }
    forall k | p < k <= |s| ensures r[k] == s[k - 1] {
      assert RemoveAt(r, p)[k - 1] == r[k];
    }
  }

  /** Inserting at the end is `push`. */
  lemma InsertAtEndIsPush<T>(s: seq<T>, x: T)
    ensures InsertAt(s, |s|, x) == s + [x]
  {
  }

  /** Taking an element out and putting it back where it was restores the sequence. */
  lemma {:induction false} InsertRemoved<T>(s: seq<T>, i: nat)
    requires i < |s|
    ensures InsertAt(RemoveAt(s, i), i, s[i]) == s
  {
    var t := RemoveAt(s, i);
    var r := InsertAt(t, i, s[i]);
    assert Clamp(i, |t|) == i;
    forall k | 0 <= k < |s|
      ensures r[k] == s[k]
    {
      if k > i {
        assert RemoveAt(r, i)[k - 1] == t[k - 1];
      } else if k < i {
        assert RemoveAt(r, i)[k] == t[k];
      }
    }
  }

  /** Removing behind the head leaves the head in front of the shorter removal. */
  lemma RemoveAtBehindHead<T>(s: seq<T>, k: nat)
    requires 0 < k < |s|
    ensures RemoveAt(s, k) == [s[0]] + RemoveAt(s[1..], k - 1)
  {
    assert s[..k] == [s[0]] + s[1..][..k - 1];
    assert s[k + 1..] == s[1..][k..];
  }
}
