/**
  The binary search tree that the set delegates to, seen through its in-order
  traversal. The tree's ordering invariant (left subtree smaller, right subtree
  greater, no duplicates) is exactly the statement that this sequence is
  strictly ascending; the tree's insert, find, erase and iterator steps are the
  functions below. The node layout itself is not modelled.
*/
module InOrder {
  import opened Wrappers

  /**
    The in-order sequence of a well-formed tree: strictly ascending, stated
    one neighbouring pair at a time.
  */
  ghost predicate Ascending(s: seq<int>) {
    AscendingFrom(s, 0)
  }

  /** The neighbouring pairs from position `i` on are in order. */
  ghost predicate AscendingFrom(s: seq<int>, i: nat)
    decreases |s| - i
  {
    i + 1 >= |s| || (s[i] < s[i + 1] && AscendingFrom(s, i + 1))
  }

  lemma {:induction false} AscendingFromAll(s: seq<int>, i: nat)
    requires AscendingFrom(s, i)
    ensures forall j, k :: i <= j < k < |s| ==> s[j] < s[k]
    decreases |s| - i
  {
    if i + 1 < |s| {
      AscendingFromAll(s, i + 1);
    }
  }

  lemma {:induction false} AscendingFromIntro(s: seq<int>, i: nat)
    requires forall j, k :: i <= j < k < |s| ==> s[j] < s[k]
    ensures AscendingFrom(s, i)
    decreases |s| - i
  {
    if i + 1 < |s| {
      AscendingFromIntro(s, i + 1);
    }
  }

  /** Ascending by neighbours orders every pair of positions. */
  lemma AscendingAll(s: seq<int>)
    requires Ascending(s)
    ensures forall i, j :: 0 <= i < j < |s| ==> s[i] < s[j]
  {
    AscendingFromAll(s, 0);
  }

  /** Two positions of an ascending sequence hold values in order. */
  lemma AscendingLess(s: seq<int>, i: nat, j: nat)
    requires Ascending(s) && i < j < |s|
    ensures s[i] < s[j]
  {
    AscendingAll(s);
  }

  /** Conversely, a sequence whose every pair is ordered is ascending. */
  lemma AscendingIntro(s: seq<int>)
    requires forall i, j :: 0 <= i < j < |s| ==> s[i] < s[j]
    ensures Ascending(s)
  {
    AscendingFromIntro(s, 0);
  }

  /** The distinct values held in a traversal. */
  function Elements(s: seq<int>): set<int> {
    set x | x in s
  }

  /** The tree position `i`: the node holding `s[i]`, or the end sentinel. */
  function KeyAt(s: seq<int>, i: nat): Option<int> {
    if i < |s| then Some(s[i]) else None
  }

  /** Index of the first occurrence of `x`. */
  function IndexOf(s: seq<int>, x: int): (i: nat)
    requires x in s
    ensures i < |s| && s[i] == x
    ensures forall j :: 0 <= j < i ==> s[j] != x
  {
    IndexFrom(s, x, 0)
  }

  function IndexFrom(s: seq<int>, x: int, k: nat): (i: nat)
    requires k <= |s| && x in s[k..]
    ensures k <= i < |s| && s[i] == x
    ensures forall j :: k <= j < i ==> s[j] != x
    decreases |s| - k
  {
    if s[k] == x then k else
      assert x in s[k + 1..] by {
        var j :| k <= j < |s| && s[j] == x;
        assert s[j] == s[k + 1..][j - k - 1];
      }
      IndexFrom(s, x, k + 1)
  }

  /** In an ascending traversal every value sits at exactly one index. */
  lemma IndexOfAt(s: seq<int>, i: nat)
    requires Ascending(s) && i < |s|
    ensures IndexOf(s, s[i]) == i
  {
    AscendingAll(s);
  }

  /** Position of a tree iterator in the traversal; end() sits at `|s|`. */
  function Position(s: seq<int>, k: Option<int>): (p: nat)
    requires k.Some? ==> k.value in s
    ensures p <= |s| && KeyAt(s, p) == k
  {
    match k
    case None => |s|
    case Some(x) => IndexOf(s, x)
  }

  /** Positions and iterators are in one-to-one correspondence. */
  lemma PositionOfKeyAt(s: seq<int>, i: nat)
    requires Ascending(s) && i <= |s|
    ensures KeyAt(s, i).Some? ==> KeyAt(s, i).value in s
    ensures Position(s, KeyAt(s, i)) == i
  {
    if i < |s| {
      IndexOfAt(s, i);
    }
  }

  lemma SuccessorIsLeastAbove(s: seq<int>, x: int)
    requires Ascending(s) && x in s
    ensures forall y :: y in s && x < y ==> IndexOf(s, x) + 1 < |s| && s[IndexOf(s, x) + 1] <= y
  {
    var i := IndexOf(s, x);
    AscendingAll(s);
    forall y | y in s && x < y
      ensures i + 1 < |s| && s[i + 1] <= y
    {
      var j :| 0 <= j < |s| && s[j] == y;
      assert i < j;
    }
  }

  /** The tree iterator's `++`: the in-order successor of `x`, or end. */
  function Successor(s: seq<int>, x: int): (k: Option<int>)
    requires Ascending(s) && x in s
    ensures k.Some? ==> k.value in s && x < k.value
    ensures forall y :: y in s && x < y ==> k.Some? && k.value <= y
  {
    SuccessorIsLeastAbove(s, x);
    AscendingAll(s);
    KeyAt(s, IndexOf(s, x) + 1)
  }

  lemma PredecessorIsGreatestBelow(s: seq<int>, x: int)
    requires Ascending(s) && x in s && x != s[0]
    ensures IndexOf(s, x) > 0
    ensures forall y :: y in s && y < x ==> y <= s[IndexOf(s, x) - 1]
  {
    var i := IndexOf(s, x);
    AscendingAll(s);
    forall y | y in s && y < x
      ensures y <= s[i - 1]
    {
      var j :| 0 <= j < |s| && s[j] == y;
      assert j < i;
    }
  }

  /** The tree iterator's `--` from a node that is not the first. */
  function Predecessor(s: seq<int>, x: int): (y: int)
    requires Ascending(s) && x in s && x != s[0]
    ensures y in s && y < x
    ensures forall z :: z in s && z < x ==> z <= y
  {
    PredecessorIsGreatestBelow(s, x);
    AscendingAll(s);
    s[IndexOf(s, x) - 1]
  }

  /** Tree insert: adds `x` unless an equal value is already present. */
  function Insert(s: seq<int>, x: int): (r: seq<int>)
    requires Ascending(s)
    ensures Ascending(r)
    ensures forall y :: y in r <==> y in s || y == x
    ensures x in s ==> r == s
    ensures |r| == if x in s then |s| else |s| + 1
  {
    if s == [] then [x]
    else if x < s[0] then
      assert x !in s by {
        if x in s {
          AscendingHead(s, x);
        }
      }
      AscendingPrepend(x, s);
      [x] + s
    else if x == s[0] then s
    else
      AscendingTail(s);
      var t := Insert(s[1..], x);
      AscendingCons(s[0], t);
      [s[0]] + t
  }

  /** Tree erase by value: removes `x` if present, else changes nothing. */
  function Remove(s: seq<int>, x: int): (r: seq<int>)
    requires Ascending(s)
    ensures Ascending(r)
    ensures forall y :: y in r <==> y in s && y != x
    ensures x !in s ==> r == s
    ensures |r| == if x in s then |s| - 1 else |s|
  {
    if s == [] then []
    else if s[0] == x then
      AscendingTail(s);
      s[1..]
    else
      AscendingTail(s);
      var t := Remove(s[1..], x);
      AscendingCons(s[0], t);
      [s[0]] + t
  }

  lemma AscendingTail(s: seq<int>)
    requires Ascending(s) && s != []
    ensures Ascending(s[1..])
    ensures forall y :: y in s[1..] ==> s[0] < y
  {
    AscendingAll(s);
    var t := s[1..];
    forall i, j | 0 <= i < j < |t|
      ensures t[i] < t[j]
    {
      assert t[i] == s[i + 1] && t[j] == s[j + 1];
    }
    AscendingIntro(t);
    forall y | y in s[1..]
      ensures s[0] < y
    {
      var j :| 0 <= j < |s[1..]| && s[1..][j] == y;
      assert s[j + 1] == y;
    }
  }

  lemma AscendingCons(h: int, t: seq<int>)
    requires Ascending(t)
    requires forall y :: y in t ==> h < y
    ensures Ascending([h] + t)
  {
    assert t != [] ==> t[0] in t;
    AscendingPrepend(h, t);
  }

  lemma AscendingPrepend(h: int, t: seq<int>)
    requires Ascending(t) && (t != [] ==> h < t[0])
    ensures Ascending([h] + t)
  {
    var r := [h] + t;
    AscendingAll(t);
    forall i, j | 0 <= i < j < |r|
      ensures r[i] < r[j]
    {
      assert r[j] == t[j - 1];
      if 0 < i {
        assert r[i] == t[i - 1];
      } else if 1 < j {
        assert t[0] < t[j - 1];
      }
    }
    AscendingIntro(r);
  }

  lemma AscendingHead(s: seq<int>, y: int)
    requires Ascending(s) && y in s
    ensures s[0] <= y
    ensures y in s[1..] <==> y != s[0]
  {
    AscendingAll(s);
  }

  /** A tree's traversal is determined by the values it holds. */
  lemma {:induction false} AscendingUnique(a: seq<int>, b: seq<int>)
    requires Ascending(a) && Ascending(b)
    requires forall y :: y in a <==> y in b
    ensures a == b
  {
    if a != [] {
      var x := a[0];
      assert x in a;
      assert x in b;
    }
    if b != [] {
      var x := b[0];
      assert x in b;
      assert x in a;
    }
    if a != [] && b != [] {
      AscendingTail(a);
      AscendingTail(b);
      AscendingHead(a, b[0]);
      AscendingHead(b, a[0]);
      forall y
        ensures y in a[1..] <==> y in b[1..]
      {
        if y in a {
          AscendingHead(a, y);
          AscendingHead(b, y);
        } else if y in b {
          AscendingHead(b, y);
        }
      }
      AscendingUnique(a[1..], b[1..]);
      assert a == [a[0]] + a[1..];
      assert b == [b[0]] + b[1..];
    }
  }

  /** Traversals holding the same values have the same element set. */
  lemma SameElements(a: seq<int>, b: seq<int>)
    requires forall y :: y in a <==> y in b
    ensures Elements(a) == Elements(b)
  {
    forall y
      ensures y in Elements(a) <==> y in Elements(b)
    {
    }
  }

  /** An ascending traversal holds as many distinct values as it has nodes. */
  lemma {:induction false} DistinctCount(s: seq<int>)
    requires Ascending(s)
    ensures |Elements(s)| == |s|
  {
    if s != [] {
      AscendingTail(s);
      DistinctCount(s[1..]);
      assert Elements(s) == {s[0]} + Elements(s[1..]) by {
        forall y ensures y in Elements(s) <==> y == s[0] || y in Elements(s[1..]) {
          if y in s {
            AscendingHead(s, y);
          }
        }
      }
      assert s[0] !in Elements(s[1..]);
    }
  }

  /**
    Cutting the positions `[b, e)` out of an ascending traversal keeps it
    ascending and removes exactly the values at those positions.
  */
  lemma CutRange(s: seq<int>, b: nat, e: nat)
    requires Ascending(s) && b <= e <= |s|
    ensures Ascending(s[..b] + s[e..])
    ensures forall i :: 0 <= i < |s| ==> (s[i] in s[..b] + s[e..] <==> i < b || e <= i)
    ensures |s[..b] + s[e..]| == |s| - (e - b)
  {
    var r := s[..b] + s[e..];
    var d := e - b;
    assert forall k :: 0 <= k < |r| ==> r[k] == if k < b then s[k] else s[k + d];
    forall i, j | 0 <= i < j < |r|
      ensures r[i] < r[j]
    {
      var i', j' := if i < b then i else i + d, if j < b then j else j + d;
      assert r[i] == s[i'];
      assert r[j] == s[j'];
      AscendingLess(s, i', j');
    }
    AscendingIntro(r);
    forall i | 0 <= i < |s|
      ensures s[i] in r <==> i < b || e <= i
    {
      if i < b {
        assert r[i] == s[i];
      } else if e <= i {
        assert r[i - d] == s[i];
      } else {
        forall k | 0 <= k < |r|
          ensures r[k] != s[i]
        {
          if k < b {
            AscendingLess(s, k, i);
          } else {
            AscendingLess(s, i, k + d);
          }
        }
      }
    }
  }

  /** Erasing the value at position `p` splices it out of the traversal. */
  lemma RemoveAt(s: seq<int>, p: nat)
    requires Ascending(s) && p < |s|
    ensures Remove(s, s[p]) == s[..p] + s[p + 1..]
  {
    var r := s[..p] + s[p + 1..];
    CutRange(s, p, p + 1);
    AscendingAll(s);
    forall y
      ensures y in Remove(s, s[p]) <==> y in r
    {
      if y in s {
        var i :| 0 <= i < |s| && s[i] == y;
        assert y == s[p] <==> i == p;
      }
    }
    AscendingUnique(Remove(s, s[p]), r);
  }

  /** Erasing a present value and re-inserting it restores the tree. */
  lemma InsertAfterRemove(s: seq<int>, x: int)
    requires Ascending(s) && x in s
    ensures Insert(Remove(s, x), x) == s
  {
    AscendingUnique(Insert(Remove(s, x), x), s);
  }

  /** Inserting an absent value and erasing it again restores the tree. */
  lemma RemoveAfterInsert(s: seq<int>, x: int)
    requires Ascending(s) && x !in s
    ensures Remove(Insert(s, x), x) == s
  {
    AscendingUnique(Remove(Insert(s, x), x), s);
  }

  /**
    One step of range erasure: once positions `[b, k)` are gone, the value at
    position `b` is the old `s[k]`, and splicing it out leaves `[b, k + 1)` gone.
  */
  lemma SpliceNext(s: seq<int>, b: nat, k: nat)
    requires b <= k < |s|
    ensures var t := s[..b] + s[k..];
      b < |t| && t[b] == s[k] && t[..b] + t[b + 1..] == s[..b] + s[k + 1..] &&
      KeyAt(t, b + 1) == KeyAt(s, k + 1)
  {
  }
}
