/**
  Specifications of the set comparison operators over in-order traversals.
  `Less` and `Greater` follow the operators' loops step by step; `LexBefore`
  is the textbook lexicographic order, stated independently of any loop.
*/
module Lexical {

  /** `a` is a proper prefix of `b`. */
  ghost predicate StrictPrefix(a: seq<int>, b: seq<int>) {
    |a| < |b| && a == b[..|a|]
  }

  /**
    Lexicographic order: at the first position where the two differ `a` holds
    the smaller value, or `a` is a proper prefix of `b`.
  */
  ghost predicate LexBefore(a: seq<int>, b: seq<int>) {
    exists k :: 0 <= k <= |a| && k <= |b| && a[..k] == b[..k] &&
      ((k == |a| && |a| < |b|) || (k < |a| && k < |b| && a[k] < b[k]))
  }

  /**
    What `operator <` computes: walk both traversals, decide at the first
    differing pair, and when one runs out compare the sizes.
  */
  function Less(a: seq<int>, b: seq<int>): bool {
    if a == [] || b == [] then |a| < |b|
    else if a[0] < b[0] then true
    else if b[0] < a[0] then false
    else Less(a[1..], b[1..])
  }

  /**
    What `operator >` computes: the same walk with the element comparison
    flipped, but the same `lhs.size() < rhs.size()` tie-break as `<`.
  */
  function Greater(a: seq<int>, b: seq<int>): bool {
    if a == [] || b == [] then |a| < |b|
    else if a[0] > b[0] then true
    else if b[0] > a[0] then false
    else Greater(a[1..], b[1..])
  }

  lemma {:induction false} LessImpliesLexBefore(a: seq<int>, b: seq<int>)
    requires Less(a, b)
    ensures LexBefore(a, b)
  {
    if a == [] || b == [] || a[0] < b[0] {
      assert a[..0] == b[..0];
    } else {
      LessImpliesLexBefore(a[1..], b[1..]);
      var k :| 0 <= k <= |a[1..]| && k <= |b[1..]| && a[1..][..k] == b[1..][..k] &&
        ((k == |a[1..]| && |a[1..]| < |b[1..]|) || (k < |a[1..]| && k < |b[1..]| && a[1..][k] < b[1..][k]));
      assert a[..k + 1] == [a[0]] + a[1..][..k];
      assert b[..k + 1] == [b[0]] + b[1..][..k];
    }
  }

  lemma {:induction false} LexBeforeImpliesLess(a: seq<int>, b: seq<int>)
    requires LexBefore(a, b)
    ensures Less(a, b)
  {
    var k :| 0 <= k <= |a| && k <= |b| && a[..k] == b[..k] &&
      ((k == |a| && |a| < |b|) || (k < |a| && k < |b| && a[k] < b[k]));
    if k > 0 {
      assert a[0] == a[..k][0] && b[0] == b[..k][0];
      assert a[1..][..k - 1] == a[..k][1..] && b[1..][..k - 1] == b[..k][1..];
      assert k < |a| ==> a[1..][k - 1] == a[k];
      assert k < |b| ==> b[1..][k - 1] == b[k];
      LexBeforeImpliesLess(a[1..], b[1..]);
    }
  }

  /** `operator <` is exactly the lexicographic order on the traversals. */
  lemma LessIsLexicographic(a: seq<int>, b: seq<int>)
    ensures Less(a, b) <==> LexBefore(a, b)
  {
    if Less(a, b) {
      LessImpliesLexBefore(a, b);
    }
    if LexBefore(a, b) {
      LexBeforeImpliesLess(a, b);
    }
  }

  /** No set is less than itself. */
  lemma {:induction false} LessIrreflexive(a: seq<int>)
    ensures !Less(a, a)
  {
    if a != [] {
      LessIrreflexive(a[1..]);
    }
  }

  /** Exactly one of `a < b`, `a == b`, `b < a` holds. */
  lemma {:induction false} LessTrichotomy(a: seq<int>, b: seq<int>)
    ensures Less(a, b) || a == b || Less(b, a)
    ensures !(Less(a, b) && Less(b, a))
    ensures !(Less(a, b) && a == b)
  {
    if a != [] && b != [] && a[0] == b[0] {
      LessTrichotomy(a[1..], b[1..]);
      assert a == [a[0]] + a[1..] && b == [b[0]] + b[1..];
    }
    if a == b {
      LessIrreflexive(a);
    }
  }

  /** `<` is transitive. */
  lemma {:induction false} LessTransitive(a: seq<int>, b: seq<int>, c: seq<int>)
    requires Less(a, b) && Less(b, c)
    ensures Less(a, c)
  {
    if a != [] && b != [] && c != [] && a[0] == b[0] && b[0] == c[0] {
      LessTransitive(a[1..], b[1..], c[1..]);
    }
  }

  /**
    `operator >` as written: when neither traversal is a prefix of the other it
    is the mirror of `<`; when `a` is a proper prefix of `b` it holds as well,
    and when `b` is a proper prefix of `a` it fails.
  */
  lemma {:induction false} GreaterCharacterized(a: seq<int>, b: seq<int>)
    ensures Greater(a, b) <==> StrictPrefix(a, b) || (Less(b, a) && !StrictPrefix(b, a))
  {
    if a != [] && b != [] && a[0] == b[0] {
      GreaterCharacterized(a[1..], b[1..]);
      assert StrictPrefix(a, b) <==> StrictPrefix(a[1..], b[1..]) by {
        if |a| < |b| {
          assert b[..|a|] == [b[0]] + b[1..][..|a| - 1];
          assert a == [a[0]] + a[1..];
        }
      }
      assert StrictPrefix(b, a) <==> StrictPrefix(b[1..], a[1..]) by {
        if |b| < |a| {
          assert a[..|b|] == [a[0]] + a[1..][..|b| - 1];
          assert b == [b[0]] + b[1..];
        }
      }
    } else if a != [] && b != [] {
      assert !StrictPrefix(a, b) && !StrictPrefix(b, a) by {
        assert |a| < |b| ==> b[..|a|][0] == b[0];
        assert |b| < |a| ==> a[..|b|][0] == a[0];
      }
    }
  }

  /**
    A proper prefix is below its extension under BOTH operators: for instance
    `{1, 2} < {1, 2, 3}` and `{1, 2} > {1, 2, 3}` are both true.
  */
  lemma {:induction false} PrefixIsLessAndGreater(a: seq<int>, b: seq<int>)
    requires StrictPrefix(a, b)
    ensures Less(a, b) && Greater(a, b) && !Less(b, a) && !Greater(b, a)
  {
    if a != [] {
      assert a[0] == b[..|a|][0] == b[0];
      assert StrictPrefix(a[1..], b[1..]) by {
        assert b[1..][..|a| - 1] == b[..|a|][1..];
      }
      PrefixIsLessAndGreater(a[1..], b[1..]);
    }
  }

  /** No set is greater than itself. */
  lemma {:induction false} GreaterIrreflexive(a: seq<int>)
    ensures !Greater(a, a)
  {
    if a != [] {
      GreaterIrreflexive(a[1..]);
    }
  }

  /** One step of the operators' loops: equal heads are skipped. */
  lemma SkipEqualHead(a: seq<int>, b: seq<int>, p: nat)
    requires p < |a| && p < |b| && a[p] == b[p]
    ensures Less(a[p..], b[p..]) == Less(a[p + 1..], b[p + 1..])
    ensures Greater(a[p..], b[p..]) == Greater(a[p + 1..], b[p + 1..])
  {
  }

  /** Where the operators' loops stop for lack of elements, the sizes decide. */
  lemma RanOut(a: seq<int>, b: seq<int>, p: nat)
    requires p <= |a| && p <= |b| && (p == |a| || p == |b|)
    ensures Less(a[p..], b[p..]) == (|a| < |b|)
    ensures Greater(a[p..], b[p..]) == (|a| < |b|)
  {
  }
}
