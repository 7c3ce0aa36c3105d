/**
 * A model of `bicyclelist` from `dumb.util`: an ordered list of items with a
 * cursor that pages through them cyclically. Only what the segmentation tool
 * relies on is modelled: appending, removing (first occurrence), stepping
 * forward and backward, and reading the current item.
 */
module CyclicLists {
  import opened Options

  /** The position after `c` in a ring of `n` places. */
  function Succ(c: nat, n: nat): (r: nat)
    requires c < n
    ensures r < n
    ensures r == (c + 1) % n
  {
    if c + 1 < n then c + 1 else 0
  }

  /** The position before `c` in a ring of `n` places; it undoes `Succ`. */
  function Pred(c: nat, n: nat): (r: nat)
    requires c < n
    ensures r < n
    ensures Succ(r, n) == c
  {
    if c == 0 then n - 1 else c - 1
  }

  lemma PredUndoesSucc(c: nat, n: nat)
    requires c < n
    ensures Pred(Succ(c, n), n) == c
  {
  }

  /** The position reached from `c` after `k` forward steps. */
  function Advance(c: nat, n: nat, k: nat): (r: nat)
    requires c < n
    ensures r < n
  {
    if k == 0 then c else Succ(Advance(c, n, k - 1), n)
  }

  /** Up to one full turn, `k` forward steps add `k` modulo `n`. */
  lemma {:induction false} AdvanceOffset(c: nat, n: nat, k: nat)
    requires c < n && k <= n
    ensures Advance(c, n, k) == if c + k < n then c + k else c + k - n
  {
    if k > 0 {
      AdvanceOffset(c, n, k - 1);
    }
  }

  /** Stepping forward as many times as there are items returns to the start. */
  lemma FullTurn(c: nat, n: nat)
    requires c < n
    ensures Advance(c, n, n) == c
  {
    AdvanceOffset(c, n, n);
  }

  /** The index of the first occurrence of `x`, as Python's `list.index`. */
  function IndexOf<T(==)>(s: seq<T>, x: T): (k: nat)
    requires x in s
    ensures k < |s| && s[k] == x
    ensures forall j :: 0 <= j < k ==> s[j] != x
  {
    if s[0] == x then 0 else 1 + IndexOf(s[1..], x)
  }

  /** `s` with the element at `k` taken out. */
  function Without<T>(s: seq<T>, k: nat): (r: seq<T>)
    requires k < |s|
    ensures |r| == |s| - 1
    ensures forall j :: 0 <= j < k ==> r[j] == s[j]
    ensures forall j :: k <= j < |r| ==> r[j] == s[j + 1]
    ensures forall x :: x in r ==> x in s
  {
    var r := s[..k] + s[k + 1..];
    assert forall x :: x in r ==> x in s by {
      forall x | x in r ensures x in s {
        var j :| 0 <= j < |r| && r[j] == x;
        if j < k { assert s[j] == x; } else { assert s[j + 1] == x; }
      }
    }
    r
  }

  /** No item occurs twice in `s`. */
  predicate Distinct<T(==)>(s: seq<T>)
  {
    forall i, j :: 0 <= i < j < |s| ==> s[i] != s[j]
  }

  /** Taking an item out of a duplicate-free sequence leaves it duplicate-free and without that item. */
  lemma WithoutDistinct<T>(s: seq<T>, k: nat)
    requires k < |s| && Distinct(s)
    ensures Distinct(Without(s, k))
    ensures s[k] !in Without(s, k)
  {
    var r := Without(s, k);
    forall i, j | 0 <= i < j < |r| ensures r[i] != r[j] {
      var i' := if i < k then i else i + 1;
      var j' := if j < k then j else j + 1;
      assert r[i] == s[i'] && r[j] == s[j'];
    }
    forall j | 0 <= j < |r| ensures r[j] != s[k] {
      if j < k { assert r[j] == s[j]; } else { assert r[j] == s[j + 1]; }
    }
  }

  /** Appending an item not yet present keeps a sequence duplicate-free. */
  lemma AppendDistinct<T>(s: seq<T>, x: T)
    requires Distinct(s) && x !in s
    ensures Distinct(s + [x])
  {
    var r := s + [x];
    forall i, j | 0 <= i < j < |r| ensures r[i] != r[j] {
      assert r[i] == s[i];
      if j == |s| { assert r[j] == x; } else { assert r[j] == s[j]; }
    }
  }

  /** Where the cursor `c` goes when the element at `k` of `n` is removed. */
  function CursorAfterRemoval(c: nat, k: nat, n: nat): (r: nat)
    requires c < n && k < n
    ensures n > 1 ==> r < n - 1
    ensures n == 1 ==> r == 0
  {
    if k < c then c - 1 else if c < n - 1 then c else 0
  }

  /** Removing another element leaves the cursor on the same element. */
  lemma RemovalKeepsCurrent<T>(s: seq<T>, c: nat, k: nat)
    requires c < |s| && k < |s| && k != c
    ensures Without(s, k)[CursorAfterRemoval(c, k, |s|)] == s[c]
  {
  }

  /** Removing the current element moves the cursor to its former successor. */
  lemma RemovalAdvances<T>(s: seq<T>, c: nat)
    requires c < |s| && |s| > 1
    ensures Without(s, c)[CursorAfterRemoval(c, c, |s|)] == s[Succ(c, |s|)]
  {
  }

  class CyclicList<T(==)> {
    var items: seq<T>
    var cursor: nat

    /** The cursor is on an item, or at 0 when there is none. */
    ghost predicate Valid()
      reads this
    {
      if items == [] then cursor == 0 else cursor < |items|
    }

    constructor ()
      ensures Valid() && items == [] && cursor == 0
    {
      items := [];
      cursor := 0;
    }

    /** The current item; `None` stands for the empty list's sentinel. */
    function Cur(): (r: Option<T>)
      reads this
      requires Valid()
      ensures r.None? <==> items == []
      ensures r.Some? ==> cursor < |items| && r.value == items[cursor]
    {
      if items == [] then None else Some(items[cursor])
    }

    method Append(x: T)
      requires Valid()
      modifies this`items
      ensures Valid()
      ensures items == old(items) + [x]
    {
      items := items + [x];
    }

    method Remove(x: T) returns (found: bool)
      requires Valid()
      modifies this
      ensures Valid()
      ensures found <==> x in old(items)
      ensures found ==>
        var k := IndexOf(old(items), x);
        items == Without(old(items), k) && cursor == CursorAfterRemoval(old(cursor), k, |old(items)|)
      ensures !found ==> unchanged(this)
      ensures forall y :: y in items ==> y in old(items)
      ensures Distinct(old(items)) ==> Distinct(items) && x !in items
    {
      found := x in items;
      if found {
        var k := IndexOf(items, x);
        if Distinct(items) {
          WithoutDistinct(items, k);
        }
        cursor := CursorAfterRemoval(cursor, k, |items|);
        items := Without(items, k);
      }
    }

    method Next() returns (x: T)
      requires Valid() && items != []
      modifies this`cursor
      ensures Valid()
      ensures cursor == Succ(old(cursor), |items|) && x == items[cursor]
    {
      cursor := Succ(cursor, |items|);
      x := items[cursor];
    }

    method Prev() returns (x: T)
      requires Valid() && items != []
      modifies this`cursor
      ensures Valid()
      ensures cursor == Pred(old(cursor), |items|) && x == items[cursor]
    {
      cursor := Pred(cursor, |items|);
      x := items[cursor];
    }
  }
}
