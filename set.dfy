/**
  `custom::set<int>`: an ordered set that owns one binary search tree and
  forwards to it, its iterator wrapper, and the free comparison operators.

  The tree is held as its in-order traversal `bst`, a strictly ascending
  sequence (module InOrder). A set iterator wraps a tree iterator, which
  designates one node or the end sentinel; here it records the set it walks
  and the value of the node it designates (`None` for `end()`). Values are
  unique in a tree, so this identifies the node. The model takes the tree's
  erase to unlink only the erased element's node, so an iterator to any other
  element keeps designating it.
*/
module CustomSet {
  import opened Wrappers
  import InOrder
  import Lexical

  class Set {
    /** The owned tree, as its in-order traversal. */
    var bst: seq<int>

    /** The tree's ordering invariant. */
    ghost predicate Valid()
      reads this
    {
      InOrder.Ascending(bst)
    }

    /** `set()`: an empty set. */
    constructor ()
      ensures Valid() && bst == []
    {
      bst := [];
    }

    /** `set(const set &)`: a copy of `rhs`'s elements. */
    constructor Copy(rhs: Set)
      requires rhs.Valid()
      ensures Valid() && bst == rhs.bst
    {
      bst := rhs.bst;
    }

    /** `set(initializer_list)`: the distinct values of `il`, ascending. */
    constructor FromList(il: seq<int>)
      ensures Valid()
      ensures forall x :: x in bst <==> x in il
      ensures |bst| == |InOrder.Elements(il)|
    {
      bst := [];
      new;
      InsertList(il);
      InOrder.DistinctCount(bst);
      InOrder.SameElements(bst, il);
    }

    /** `operator = (const set &)`: becomes a copy of `rhs`. */
    method Assign(rhs: Set)
      requires rhs.Valid()
      modifies this
      ensures Valid() && bst == old(rhs.bst)
    {
      bst := rhs.bst;
    }

    /** `operator = (initializer_list)`: clears, then inserts every value of `il`. */
    method AssignList(il: seq<int>)
      modifies this
      ensures Valid()
      ensures forall x :: x in bst <==> x in il
      ensures |bst| == |InOrder.Elements(il)|
    {
      bst := [];
      InsertList(il);
      InOrder.DistinctCount(bst);
      InOrder.SameElements(bst, il);
    }

    /** `swap`: the two sets exchange their trees. */
    method Swap(rhs: Set)
      requires Valid() && rhs.Valid()
      modifies this, rhs
      ensures Valid() && rhs.Valid()
      ensures bst == old(rhs.bst) && rhs.bst == old(bst)
    {
      var tmp := bst;
      bst := rhs.bst;
      rhs.bst := tmp;
    }

    /** `begin()`: the iterator at the smallest element, or end() when empty. */
    method Begin() returns (it: Iterator)
      requires Valid()
      ensures fresh(it) && it.owner == this && it.Valid() && it.Pos() == 0
    {
      it := new Iterator(this, InOrder.KeyAt(bst, 0));
      InOrder.PositionOfKeyAt(bst, 0);
    }

    /** `end()`: the iterator one past the largest element. */
    method End() returns (it: Iterator)
      requires Valid()
      ensures fresh(it) && it.owner == this && it.Valid() && it.Pos() == |bst|
      ensures it.key == None
    {
      it := new Iterator(this, None);
    }

    /** `find`: the iterator at `t`, or end() when `t` is absent. */
    method Find(t: int) returns (it: Iterator)
      requires Valid()
      ensures fresh(it) && it.owner == this && it.Valid()
      ensures t in bst ==> it.Pos() < |bst| && it.Deref() == t
      ensures t !in bst ==> it.Pos() == |bst|
    {
      it := new Iterator(this, if t in bst then Some(t) else None);
    }

    /** `empty()`. */
    function Empty(): (r: bool)
      reads this
      requires Valid()
      ensures r <==> InOrder.Elements(bst) == {}
    {
      assert bst != [] ==> bst[0] in InOrder.Elements(bst);
      |bst| == 0
    }

    /** `size()`: the number of distinct values held. */
    function Size(): (n: nat)
      reads this
      requires Valid()
      ensures n == |InOrder.Elements(bst)|
    {
      InOrder.DistinctCount(bst);
      |bst|
    }

    /**
      `insert(t)`: adds `t` unless it is present; `inserted` tells which, and
      the iterator designates `t` either way.
    */
    method Insert(t: int) returns (it: Iterator, inserted: bool)
      requires Valid()
      modifies this
      ensures Valid() && bst == InOrder.Insert(old(bst), t)
      ensures inserted <==> t !in old(bst)
      ensures t in bst && forall y :: y in bst <==> y in old(bst) || y == t
      ensures |bst| == if inserted then |old(bst)| + 1 else |old(bst)|
      ensures fresh(it) && it.owner == this && it.Valid() && it.key.Some? && it.Deref() == t
    {
      inserted := t !in bst;
      bst := InOrder.Insert(bst, t);
      it := new Iterator(this, Some(t));
    }

    /** `insert(initializer_list)`: inserts every value of `il` in turn. */
    method InsertList(il: seq<int>)
      requires Valid()
      modifies this
      ensures Valid()
      ensures forall x :: x in bst <==> x in old(bst) || x in il
    {
      for i := 0 to |il|
        invariant Valid()
        invariant forall x :: x in bst <==> x in old(bst) || x in il[..i]
      {
        assert il[..i + 1] == il[..i] + [il[i]];
        bst := InOrder.Insert(bst, il[i]);
      }
      assert il[..|il|] == il;
    }

    /** `clear()`: removes every element. */
    method Clear()
      modifies this
      ensures Valid() && bst == []
    {
      bst := [];
    }

    /**
      `erase(iterator)`: removes the element `it` designates and returns an
      iterator to its in-order successor (end() if it was the largest), which
      now sits at the removed element's position.
    */
    method Erase(it: Iterator) returns (next: Iterator)
      requires Valid() && it.owner == this && it.Valid() && it.key.Some?
      modifies this
      ensures Valid()
      ensures bst == old(bst)[..old(it.Pos())] + old(bst)[old(it.Pos()) + 1..]
      ensures fresh(next) && next.owner == this && next.Valid()
      ensures next.key == InOrder.KeyAt(old(bst), old(it.Pos()) + 1)
      ensures next.Pos() == old(it.Pos())
    {
      ghost var p := it.Pos();
      ghost var before := bst;
      var returnIt := new Iterator.Copy(it);
      returnIt.Increment();
      InOrder.RemoveAt(bst, p);
      bst := InOrder.Remove(bst, it.Deref());
      InOrder.CutRange(before, p, p + 1);
      assert InOrder.KeyAt(bst, p) == InOrder.KeyAt(before, p + 1);
      InOrder.PositionOfKeyAt(bst, p);
      next := returnIt;
    }

    /**
      The range erase's loop step `itBegin = erase(itBegin)`: the element at
      `it`'s position is spliced out and `it` moves to its old successor,
      which now sits at that same position.
    */
    method EraseAndAdvance(it: Iterator)
      requires Valid() && it.owner == this && it.Valid() && it.key.Some?
      modifies this, it
      ensures Valid()
      ensures bst == old(bst)[..old(it.Pos())] + old(bst)[old(it.Pos()) + 1..]
      ensures it.key == InOrder.KeyAt(old(bst), old(it.Pos()) + 1)
      ensures it.Valid() && it.Pos() == old(it.Pos())
    {
      var following := Erase(it);
      it.Assign(following);
    }

    /**
      `erase(const T &)` as written: a stub that removes nothing and returns
      the current size.
    */
    method EraseValue(t: int) returns (n: nat)
      requires Valid()
      ensures n == Size()
    {
      n := |bst|;
    }

    /**
      The intended `erase(const T &)`: removes `t` if present and returns the
      number of elements removed.
    */
    method EraseKey(t: int) returns (n: nat)
      requires Valid()
      modifies this
      ensures Valid() && bst == InOrder.Remove(old(bst), t)
      ensures forall y :: y in bst <==> y in old(bst) && y != t
      ensures n == if t in old(bst) then 1 else 0
      ensures |bst| == |old(bst)| - n
    {
      n := if t in bst then 1 else 0;
      bst := InOrder.Remove(bst, t);
    }

    /**
      `erase(itBegin, itEnd)`: erases one element at a time until `itBegin`
      reaches `itEnd`, leaving `itBegin` equal to `itEnd`; the elements at the
      positions `[itBegin, itEnd)` are gone and nothing else changes.
    */
    method EraseRange(itBegin: Iterator, itEnd: Iterator) returns (r: Iterator)
      requires Valid()
      requires itBegin.owner == this && itBegin.Valid()
      requires itEnd.owner == this && itEnd.Valid()
      requires itBegin.Pos() <= itEnd.Pos()
      modifies this, itBegin
      ensures Valid()
      ensures bst == old(bst)[..old(itBegin.Pos())] + old(bst)[old(itEnd.Pos())..]
      ensures itBegin.owner == this && itBegin.key == itEnd.key == old(itEnd.key)
      ensures fresh(r) && r.owner == this && r.key == old(itEnd.key)
      ensures r.Valid() && r.Pos() == old(itBegin.Pos())
    {
      ghost var s0 := bst;
      ghost var b0 := itBegin.Pos();
      ghost var e0 := itEnd.Pos();
      ghost var k := b0;
      assert bst == s0[..b0] + s0[b0..];
      while itBegin.NotEquals(itEnd)
        invariant itBegin.owner == this && itEnd.owner == this
        invariant b0 <= k <= e0
        invariant bst == s0[..b0] + s0[k..]
        invariant itBegin.key == InOrder.KeyAt(s0, k)
        invariant itEnd.key == InOrder.KeyAt(s0, e0)
        decreases e0 - k
      {
        assert k < e0 by {
          InOrder.PositionOfKeyAt(s0, k);
          InOrder.PositionOfKeyAt(s0, e0);
        }
        assert itBegin != itEnd;
        assert Valid() by {
          InOrder.CutRange(s0, b0, k);
        }
        ghost var t := bst;
        ghost var k1 := k + 1;
        assert b0 < |t| && t[b0] == s0[k] && t[..b0] + t[b0 + 1..] == s0[..b0] + s0[k1..] &&
          InOrder.KeyAt(t, b0 + 1) == InOrder.KeyAt(s0, k1) by {
          InOrder.SpliceNext(s0, b0, k);
        }
        assert itBegin.Valid() && itBegin.Pos() == b0 by {
          InOrder.PositionOfKeyAt(t, b0);
        }
        EraseAndAdvance(itBegin);
        k := k1;
      }
      InOrder.PositionOfKeyAt(s0, k);
      InOrder.PositionOfKeyAt(s0, e0);
      InOrder.CutRange(s0, b0, k);
      r := new Iterator.Copy(itEnd);
      assert r.key == InOrder.KeyAt(bst, b0) by {
        assert k == e0;
        assert bst[b0..] == s0[e0..];
      }
      InOrder.PositionOfKeyAt(bst, b0);
    }
  }

  /**
    `s.erase(s.begin(), s.end())`: erasing the whole range empties the set,
    and the iterator returned is end().
  */
  method EraseAll(s: Set) returns (r: Iterator)
    requires s.Valid()
    modifies s
    ensures s.Valid() && s.Empty() && s.Size() == 0
    ensures r.owner == s && r.Valid() && r.key == None
  {
    var first := s.Begin();
    var last := s.End();
    r := s.EraseRange(first, last);
  }

  /**
    `erase(const T &)` as written, on the set `{5}`: erasing 5 reports one
    element, yet 5 is still found afterwards.
  */
  method EraseValueKeepsValue() returns (n: nat, found: bool)
    ensures n == 1 && found
  {
    var s := new Set.FromList([5]);
    InOrder.SameElements(s.bst, [5]);
    assert InOrder.Elements([5]) == {5};
    n := s.EraseValue(5);
    var it := s.Find(5);
    var last := s.End();
    found := it.NotEquals(last);
  }

  /**
    Erasing a present value with the corrected `erase(const T &)` and
    inserting it again gives back the same tree.
  */
  method EraseThenInsert(s: Set, v: int)
    requires s.Valid() && v in s.bst
    modifies s
    ensures s.Valid() && s.bst == old(s.bst)
  {
    ghost var before := s.bst;
    var n := s.EraseKey(v);
    var it, inserted := s.Insert(v);
    InOrder.InsertAfterRemove(before, v);
  }

  /** `set<T>::iterator`: a wrapped tree iterator. */
  class Iterator {
    /** The set whose tree this iterator walks, fixed when it is made. */
    const owner: Set
    /** The value of the designated node; `None` is the end sentinel. */
    var key: Option<int>

    /** `iterator(const BST<T>::iterator &)`. */
    constructor (owner: Set, key: Option<int>)
      ensures this.owner == owner && this.key == key
    {
      this.owner := owner;
      this.key := key;
    }

    /** `iterator(const iterator &)`. */
    constructor Copy(rhs: Iterator)
      ensures owner == rhs.owner && key == rhs.key
    {
      owner := rhs.owner;
      key := rhs.key;
    }

    /** `operator = (const iterator &)`, between two iterators of one set. */
    method Assign(rhs: Iterator)
      requires rhs.owner == owner
      modifies this
      ensures key == old(rhs.key)
    {
      key := rhs.key;
    }

    /** The iterator designates a node of its set's tree, or end(). */
    ghost predicate Valid()
      reads this, owner
    {
      owner.Valid() && (key.Some? ==> key.value in owner.bst)
    }

    /** Index in the in-order traversal; end() is at `|bst|`. */
    function Pos(): (p: nat)
      reads this, owner
      requires Valid()
      ensures p <= |owner.bst| && InOrder.KeyAt(owner.bst, p) == key
    {
      InOrder.Position(owner.bst, key)
    }

    /**
      `operator ==`: two iterators of one set agree exactly when they sit at
      one position; iterators of different trees agree only when both are end().
    */
    function Equals(rhs: Iterator): (r: bool)
      reads this, rhs, owner, rhs.owner
      ensures owner == rhs.owner && Valid() && rhs.Valid() ==> (r <==> Pos() == rhs.Pos())
      ensures owner != rhs.owner ==> (r <==> key == None && rhs.key == None)
    {
      key == rhs.key && (key.None? || owner == rhs.owner)
    }

    /** `operator !=`: the negation of `==`. */
    function NotEquals(rhs: Iterator): (r: bool)
      reads this, rhs, owner, rhs.owner
      ensures owner == rhs.owner && Valid() && rhs.Valid() ==> (r <==> Pos() != rhs.Pos())
      ensures owner != rhs.owner ==> (r <==> key != None || rhs.key != None)
    {
      if owner == rhs.owner then key != rhs.key else key.Some? || rhs.key.Some?
    }

    /** `operator *`: the element at the iterator's position. */
    function Deref(): (v: int)
      reads this, owner
      requires Valid() && key.Some?
      ensures Pos() < |owner.bst| && v == owner.bst[Pos()]
    {
      key.value
    }

    /** Prefix `++`: moves one position forward; end() is not advanced. */
    method Increment()
      requires Valid() && key.Some?
      modifies this
      ensures Valid()
      ensures Pos() == old(Pos()) + 1
    {
      ghost var p := Pos();
      key := InOrder.Successor(owner.bst, key.value);
      InOrder.PositionOfKeyAt(owner.bst, p + 1);
    }

    /** Postfix `++`: moves forward and returns a copy of the old position. */
    method PostIncrement() returns (tmp: Iterator)
      requires Valid() && key.Some?
      modifies this
      ensures Valid()
      ensures Pos() == old(Pos()) + 1
      ensures fresh(tmp) && tmp.owner == owner && tmp.key == old(key)
    {
      tmp := new Iterator.Copy(this);
      Increment();
    }

    /** Prefix `--`: moves one position back from a node that is not the first. */
    method Decrement()
      requires Valid() && key.Some? && Pos() > 0
      modifies this
      ensures Valid()
      ensures Pos() == old(Pos()) - 1
    {
      ghost var p := Pos();
      key := Some(InOrder.Predecessor(owner.bst, key.value));
      InOrder.PositionOfKeyAt(owner.bst, p - 1);
    }

    /** Postfix `--`: moves back and returns a copy of the old position. */
    method PostDecrement() returns (tmp: Iterator)
      requires Valid() && key.Some? && Pos() > 0
      modifies this
      ensures Valid()
      ensures Pos() == old(Pos()) - 1
      ensures fresh(tmp) && tmp.owner == owner && tmp.key == old(key)
    {
      tmp := new Iterator.Copy(this);
      Decrement();
    }
  }

  /** Free `operator ==`: equal sizes and equal elements, position by position. */
  method Equal(lhs: Set, rhs: Set) returns (r: bool)
    requires lhs.Valid() && rhs.Valid()
    ensures r <==> lhs.bst == rhs.bst
  {
    if lhs.Size() != rhs.Size() {
      return false;
    }
    var itLhs := lhs.Begin();
    var itRhs := rhs.Begin();
    var endLhs := lhs.End();
    var endRhs := rhs.End();
    ghost var i := 0;
    ghost var a, b := lhs.bst, rhs.bst;
    while itLhs.NotEquals(endLhs) && itRhs.NotEquals(endRhs)
      invariant lhs.bst == a && rhs.bst == b
      invariant itLhs.owner == lhs && itLhs.Valid() && itRhs.owner == rhs && itRhs.Valid()
      invariant endLhs.owner == lhs && endLhs.key == None && endRhs.owner == rhs && endRhs.key == None
      invariant itLhs != itRhs && itLhs != endLhs && itLhs != endRhs && itRhs != endLhs && itRhs != endRhs
      invariant itLhs.Pos() == i && itRhs.Pos() == i
      invariant a[..i] == b[..i]
      decreases |a| - i
    {
      if itLhs.Deref() != itRhs.Deref() {
        return false;
      }
      assert a[..i + 1] == a[..i] + [a[i]];
      assert b[..i + 1] == b[..i] + [b[i]];
      itLhs.Increment();
      itRhs.Increment();
      i := i + 1;
    }
    assert a == a[..i] && b == b[..i];
    return true;
  }

  /** Free `operator !=`: the negation of `==`. */
  method NotEqual(lhs: Set, rhs: Set) returns (r: bool)
    requires lhs.Valid() && rhs.Valid()
    ensures r <==> lhs.bst != rhs.bst
  {
    var same := Equal(lhs, rhs);
    r := !same;
  }

  /** Free `operator <`: lexicographic order, a proper prefix being smaller. */
  method Less(lhs: Set, rhs: Set) returns (r: bool)
    requires lhs.Valid() && rhs.Valid()
    ensures r == Lexical.Less(lhs.bst, rhs.bst)
  {
    var itLhs := lhs.Begin();
    var itRhs := rhs.Begin();
    var endLhs := lhs.End();
    var endRhs := rhs.End();
    ghost var i := 0;
    ghost var a, b := lhs.bst, rhs.bst;
    while itLhs.NotEquals(endLhs) && itRhs.NotEquals(endRhs)
      invariant lhs.bst == a && rhs.bst == b
      invariant itLhs.owner == lhs && itLhs.Valid() && itRhs.owner == rhs && itRhs.Valid()
      invariant endLhs.owner == lhs && endLhs.key == None && endRhs.owner == rhs && endRhs.key == None
      invariant itLhs != itRhs && itLhs != endLhs && itLhs != endRhs && itRhs != endLhs && itRhs != endRhs
      invariant itLhs.Pos() == i && itRhs.Pos() == i
      invariant Lexical.Less(a[i..], b[i..]) == Lexical.Less(a, b)
      decreases |a| - i
    {
      if itLhs.Deref() < itRhs.Deref() {
        return true;
      }
      if itRhs.Deref() < itLhs.Deref() {
        return false;
      }
      Lexical.SkipEqualHead(a, b, i);
      itLhs.Increment();
      itRhs.Increment();
      i := i + 1;
    }
    Lexical.RanOut(a, b, i);
    r := lhs.Size() < rhs.Size();
  }

  /**
    Free `operator >`, as written: decides at the first differing pair like
    `<` with the comparison flipped, but breaks a prefix tie with the same
    `lhs.size() < rhs.size()` as `<`.
  */
  method Greater(lhs: Set, rhs: Set) returns (r: bool)
    requires lhs.Valid() && rhs.Valid()
    ensures r == Lexical.Greater(lhs.bst, rhs.bst)
  {
    var itLhs := lhs.Begin();
    var itRhs := rhs.Begin();
    var endLhs := lhs.End();
    var endRhs := rhs.End();
    ghost var i := 0;
    ghost var a, b := lhs.bst, rhs.bst;
    while itLhs.NotEquals(endLhs) && itRhs.NotEquals(endRhs)
      invariant lhs.bst == a && rhs.bst == b
      invariant itLhs.owner == lhs && itLhs.Valid() && itRhs.owner == rhs && itRhs.Valid()
      invariant endLhs.owner == lhs && endLhs.key == None && endRhs.owner == rhs && endRhs.key == None
      invariant itLhs != itRhs && itLhs != endLhs && itLhs != endRhs && itRhs != endLhs && itRhs != endRhs
      invariant itLhs.Pos() == i && itRhs.Pos() == i
      invariant Lexical.Greater(a[i..], b[i..]) == Lexical.Greater(a, b)
      decreases |a| - i
    {
      if itLhs.Deref() > itRhs.Deref() {
        return true;
      }
      if itRhs.Deref() > itLhs.Deref() {
        return false;
      }
      Lexical.SkipEqualHead(a, b, i);
      itLhs.Increment();
      itRhs.Increment();
      i := i + 1;
    }
    Lexical.RanOut(a, b, i);
    r := lhs.Size() < rhs.Size();
  }
}
