/** The Python list operations the game relies on, over Dafny sequences,
    and index witnesses used to state that an order is preserved. */
module Lists {
  /** The sequence without its element at position i. */
  function RemoveAt<T>(s: seq<T>, i: nat): (r: seq<T>)
    requires i < |s|
    ensures |r| == |s| - 1
    ensures forall k :: 0 <= k < i ==> r[k] == s[k]
    ensures forall k :: i <= k < |r| ==> r[k] == s[k + 1]
  {
    s[..i] + s[i + 1..]
  }

  /** Position of the first element of s equal to v. */
  function IndexOf<T(==)>(s: seq<T>, v: T): (i: nat)
    requires v in s
    ensures i < |s| && s[i] == v
    ensures forall k :: 0 <= k < i ==> s[k] != v
  {
    if s[0] == v then 0 else 1 + IndexOf(s[1..], v)
  }

  /** Python's `list.remove(v)`: deletes the first element equal to v.
      Python raises ValueError when v is absent; the game never does that,
      which the loops that call this prove. */
  function RemoveFirst<T(==)>(s: seq<T>, v: T): (r: seq<T>)
    requires v in s
    ensures |r| == |s| - 1
  {
    RemoveAt(s, IndexOf(s, v))
  }

  /** Removing by value takes out position k when k holds the first
      occurrence of the value. */
  lemma RemoveFirstAt<T>(s: seq<T>, v: T, k: nat)
    requires k < |s| && s[k] == v
    requires forall j :: 0 <= j < k ==> s[j] != v
    ensures v in s && RemoveFirst(s, v) == RemoveAt(s, k)
  {
    var i := IndexOf(s, v);
    assert i == k;
  }

  /** A strictly increasing sequence of positions. */
  ghost predicate Increasing(idx: seq<nat>) {
    forall p, q :: 0 <= p < q < |idx| ==> idx[p] < idx[q]
  }

  /** r is the subsequence of s at the increasing positions idx. */
  ghost predicate Picks<T>(r: seq<T>, s: seq<T>, idx: seq<nat>) {
    |idx| == |r| && Increasing(idx) &&
    forall k :: 0 <= k < |idx| ==> idx[k] < |s| && r[k] == s[idx[k]]
  }

  /** Dropping one element of a subsequence, and its position, leaves a
      subsequence. */
  lemma PicksRemoveAt<T>(r: seq<T>, s: seq<T>, idx: seq<nat>, j: nat)
    requires Picks(r, s, idx) && j < |r|
    ensures Picks(RemoveAt(r, j), s, RemoveAt(idx, j))
  {
    var idx' := RemoveAt(idx, j);
    forall p, q | 0 <= p < q < |idx'|
      ensures idx'[p] < idx'[q]
    {
      var p' := if p < j then p else p + 1;
      var q' := if q < j then q else q + 1;
      assert idx'[p] == idx[p'] && idx'[q] == idx[q'];
    }
  }

  /** Overwriting the entry just after `done`. */
  lemma ReplaceAfter<T>(done: seq<T>, rest: seq<T>, v: T)
    requires rest != []
    ensures (done + rest)[|done| := v] == done + [v] + rest[1..]
  {
  }

  /** Removing by value an entry that no earlier entry equals. */
  lemma RemoveFirstAfter<T>(done: seq<T>, v: T, rest: seq<T>)
    requires forall k :: 0 <= k < |done| ==> done[k] != v
    ensures v in done + [v] + rest && RemoveFirst(done + [v] + rest, v) == done + rest
  {
    var s := done + [v] + rest;
    RemoveFirstAt(s, v, |done|);
    assert RemoveAt(s, |done|) == done + rest;
  }
}
