# custom::set, modelled in Dafny

This project models `custom::set<T>` from `set.h`, instantiated with `int`. The class is an ordered set of unique values that owns one binary search tree (`custom::BST<T>`) and forwards to it. The model covers:
- the set's constructors, assignments, `swap`, `begin`/`end`, `find`, `empty`/`size`, `insert`, `clear` and the three `erase` overloads;
- the nested `set::iterator`: construction, copy, assignment, `==`, `!=`, `*`, and prefix and postfix `++`/`--`;
- the free operators `==`, `!=`, `<` and `>`.

The tree's own source (`bst.h`) is not part of this model. The tree appears through its in-order traversal: a strictly ascending `seq<int>` held in the field `bst` of class `CustomSet.Set`. The tree's ordering invariant, "left smaller, right greater, no duplicates", is exactly the statement that this sequence is ascending (`InOrder.Ascending`). Three tree operations are pure functions on that sequence:
- insert is `InOrder.Insert`;
- erase by value is `InOrder.Remove`;
- the iterator's `++` and `--` are `InOrder.Successor` and `InOrder.Predecessor`.

A set iterator (`CustomSet.Iterator`) records two things:
- the set it walks;
- the value of the node it designates, with `None` for `end()`.

Values are unique in the tree, so this identifies the node. The model takes the tree's erase to unlink only the erased element's node, so an iterator to any other element keeps designating it. That matters in the range `erase`, where `itEnd` must keep designating the same node while the elements before it are removed. `Pos()` gives the iterator's index in the traversal, with `end()` at `|bst|`.

The free operators `<` and `>` are specified by recursive functions (`Lexical.Less`, `Lexical.Greater`), which follow the loops step by step. Lemmas relate `Lexical.Less` to the textbook lexicographic order and characterise `>` as written. The loops keep one asymmetry from the source exactly: `>` breaks a prefix tie with the same `lhs.size() < rhs.size()` as `<`, so a proper prefix is below its extension under both operators.

The documented contract of `erase(const T &)` is to remove the value and return 1 or 0. The code at `set.h:171-174` is instead a stub marked `//fix` that returns the size and removes nothing. The model follows the code (`CustomSet.Set.EraseValue`) and reports the discrepancy under Findings, with the intended behaviour as `CustomSet.Set.EraseKey`.

## Model

| member | source | states |
|---|---|---|
| InOrder.Insert | set.h:130-136 | tree insert keeps the traversal ascending; afterwards exactly the old values plus `t` are present; nothing changes when `t` was present, and the size grows by one when it was absent |
| InOrder.Remove | set.h:164-170 | tree erase by value keeps the traversal ascending; afterwards exactly the old values other than `t` are present; nothing changes when `t` was absent, and the size drops by one when it was present |
| InOrder.Successor | set.h:231-235 | the tree iterator's `++` moves to the least held value above the current one, and yields end exactly when there is none |
| InOrder.Predecessor | set.h:246-250 | the tree iterator's `--` from a node that is not the first moves to the greatest held value below the current one |
| InOrder.PositionOfKeyAt | set.h:204 | an iterator built from the node at index `i` sits at index `i`, so positions and iterators correspond one to one |
| InOrder.DistinctCount | set.h:122-125 | an ascending traversal holds as many distinct values as it has nodes, so `size()` counts the distinct elements |
| InOrder.AscendingUnique | set.h:186 | two ascending traversals that hold the same values are equal, so the tree's contents determine its traversal |
| InOrder.RemoveAt | set.h:164-170 | erasing `*it` removes exactly the element at `it`'s position and leaves every other element in order |
| InOrder.CutRange | set.h:175-182 | cutting the positions `[b, e)` out of an ascending traversal keeps it ascending and removes exactly the values at those positions |
| InOrder.SpliceNext | set.h:177-180 | one step of the range-erase loop: once `[b, k)` is gone, the element at `b` is the old `s[k]`, and erasing it leaves `[b, k + 1)` gone |
| InOrder.InsertAfterRemove | set.h:164-170 | erasing a present value and inserting it again restores the original tree |
| InOrder.RemoveAfterInsert | set.h:130-136 | inserting an absent value and erasing it again restores the original tree |
| Lexical.LessIsLexicographic | set.h:301-320 | the `<` loop computes exactly the lexicographic order: the first differing pair decides, and a proper prefix is smaller |
| Lexical.LessIrreflexive | set.h:301-320 | `s < s` is false |
| Lexical.LessTrichotomy | set.h:301-320 | exactly one of `a < b`, `a == b`, `b < a` holds |
| Lexical.LessTransitive | set.h:301-320 | `<` is transitive |
| Lexical.GreaterCharacterized | set.h:323-342 | `a > b` holds exactly when `a` is a proper prefix of `b`, or when `b < a` and `b` is not a proper prefix of `a` |
| Lexical.PrefixIsLessAndGreater | set.h:340-341 | a proper prefix is below its extension under both `<` and `>`; for example `{1, 2} > {1, 2, 3}` holds |
| Lexical.GreaterIrreflexive | set.h:323-342 | `s > s` is false |
| Lexical.SkipEqualHead | set.h:306-316 | a loop step over equal elements changes neither comparison's outcome |
| Lexical.RanOut | set.h:318-319 | when either traversal is exhausted, both comparisons are decided by `lhs.size() < rhs.size()` |
| CustomSet.Set.constructor | set.h:45-47 | the default set is empty and valid |
| CustomSet.Set.Copy | set.h:48-50 | the copy holds the same tree as `rhs` |
| CustomSet.Set.FromList | set.h:54-58 | the set holds exactly the distinct values of the list, ascending, and its size is the number of distinct values |
| CustomSet.Set.Assign | set.h:71-75 | after assignment the set holds `rhs`'s tree |
| CustomSet.Set.AssignList | set.h:81-87 | after assignment the set holds exactly the distinct values of the list; earlier contents do not survive |
| CustomSet.Set.Swap | set.h:88-91 | the two sets exchange their trees, and both stay valid |
| CustomSet.Set.Begin | set.h:98-101 | `begin()` sits at position 0, which is end() when the set is empty |
| CustomSet.Set.End | set.h:102-105 | `end()` sits one past the last element |
| CustomSet.Set.Find | set.h:110-113 | `find(t)` designates `t` when it is present and is end() otherwise |
| CustomSet.Set.Empty | set.h:118-121 | `empty()` holds exactly when the set holds no values |
| CustomSet.Set.Size | set.h:122-125 | `size()` is the number of distinct values held |
| CustomSet.Set.Insert | set.h:130-136 | `inserted` is true exactly when `t` was absent; afterwards `t` is present and the set is the old set plus `t`, still ascending; the size grows by one exactly when `t` was inserted; the returned iterator dereferences to `t` |
| CustomSet.Set.InsertList | set.h:144-148 | after the loop the set holds exactly its old values plus those of the list, still ascending |
| CustomSet.Set.Clear | set.h:160-163 | the set becomes empty |
| CustomSet.Set.Erase | set.h:164-170 | the element at `it`'s position is spliced out and nothing else changes; the returned iterator designates the old in-order successor, or end(), and now sits at the removed element's position |
| CustomSet.Set.EraseValue | set.h:171-174 | the stub as written: returns `size()` and changes nothing |
| CustomSet.Set.EraseKey | set.h:171-174 | the intended erase by value: removes `t` if present, keeps every other element, and returns 1 or 0 accordingly |
| CustomSet.Set.EraseAndAdvance | set.h:179 | one loop step `itBegin = erase(itBegin)`: the element at `itBegin` is spliced out, and `itBegin` moves to its old successor, at the same position |
| CustomSet.Set.EraseRange | set.h:175-182 | exactly the elements at positions `[itBegin, itEnd)` are removed and the rest stay in order; afterwards `itBegin` equals `itEnd`, and the returned iterator is `itEnd`, now at `itBegin`'s old position |
| CustomSet.EraseAll | set.h:175-182 | `erase(begin(), end())` leaves the set empty with `size() == 0`, and returns end() |
| CustomSet.EraseValueKeepsValue | set.h:171-174 | on `{5}`, the stub's `erase(5)` returns 1 and 5 is still found |
| CustomSet.EraseThenInsert | set.h:130-136 | erasing a present value with the intended erase and inserting it again leaves the set as it was |
| CustomSet.Iterator.constructor | set.h:204 | wraps the tree iterator that designates the given node, or end |
| CustomSet.Iterator.Copy | set.h:206 | the copy designates the same node of the same set |
| CustomSet.Iterator.Assign | set.h:208-212 | after assignment the iterator designates `rhs`'s node |
| CustomSet.Iterator.Pos | set.h:262 | the wrapped tree iterator's index in the traversal; it designates the node at that index, or end() at `|bst|` |
| CustomSet.Iterator.Equals | set.h:219-222 | two iterators of one set are equal exactly when they sit at the same position; iterators of different sets are equal only when both are end() |
| CustomSet.Iterator.NotEquals | set.h:215-218 | two iterators of one set differ exactly when they sit at different positions; iterators of different sets differ unless both are end() |
| CustomSet.Iterator.Deref | set.h:225-228 | `*it` is the element at the iterator's position |
| CustomSet.Iterator.Increment | set.h:231-235 | prefix `++` moves one position forward |
| CustomSet.Iterator.PostIncrement | set.h:238-243 | postfix `++` moves one position forward and returns a copy of the old iterator |
| CustomSet.Iterator.Decrement | set.h:246-250 | prefix `--` moves one position back |
| CustomSet.Iterator.PostDecrement | set.h:253-258 | postfix `--` moves one position back and returns a copy of the old iterator |
| CustomSet.Equal | set.h:270-288 | `lhs == rhs` holds exactly when the two in-order sequences are equal, which means equal sizes and the same element at every position |
| CustomSet.NotEqual | set.h:291-294 | `lhs != rhs` is the exact negation of `==` |
| CustomSet.Less | set.h:301-320 | `lhs < rhs` is `Lexical.Less` of the two traversals, the lexicographic order |
| CustomSet.Greater | set.h:323-342 | `lhs > rhs` is `Lexical.Greater` of the two traversals: the flipped element comparison with `<`'s size tie-break |

## Left out

- The tree itself (`bst.h`) is not part of this model. Node layout, parent links, rebalancing and the deletion cases are not modelled. The tree is its in-order traversal, and its operations are functions on it.
- The move constructor and move assignment (`set.h:51-53`, `set.h:76-80`) are left out: they transfer ownership of nodes, and the value model has none to transfer.
- The templated range constructor and range `insert` (`set.h:59-64`, `set.h:149-154`) are left out. They loop over foreign iterator types; `FromList` and `InsertList` model the same loop over a sequence.
- `insert(T &&)` (`set.h:137-143`) is not modelled separately: it is the same as `insert(const T &)` once values are integers.
- The destructor (`set.h:65`), the friend declarations for the test harness, the includes and the `noexcept` annotations carry no behaviour here.
- The default `iterator()` (`set.h:202`) is left out. It makes an iterator that belongs to no tree, while the model's iterators always belong to a set.
- CustomSet.Iterator.Assign: only iterators of one set are assigned to each other. The owning set is fixed when an iterator is made, so rebinding an iterator to another set's tree is not modelled.
- CustomSet.Iterator.Decrement: requires a position other than `begin()` and other than end(). What `--` does there depends on the tree iterator in `bst.h`, which is not part of this model.
- CustomSet.Iterator.PostDecrement: has the same requirement as `Decrement`, for the same reason.
- CustomSet.Iterator.Equals: two end() iterators of different sets are taken to be equal, and `NotEquals` likewise says they do not differ. The tree iterator compares node pointers, and how end() is represented is in `bst.h`, which is not part of this model.
- CustomSet.Set.Swap: iterators stay with their set across `swap`. They look their value up in that set's new tree. In C++, `std::swap` of the two trees exchanges node pointers, so an iterator keeps its node, and that node then belongs to the other set. After `a.swap(b)`, an iterator made by `a.find(5)` still dereferences to 5 and equals `b.find(5)`; the model does not capture this.
- CustomSet.Set.Erase: the model does not capture that the passed iterator is invalidated. It keeps designating the erased value, while in C++ it dangles.
- CustomSet.Set.Erase: assumes the tree's erase unlinks only the erased element's node, so iterators to every other element, the in-order successor included, stay valid. A tree erase that copies the successor's value into the erased node and frees the successor's node would break this; `bst.h` is not part of this model.
- CustomSet.Set.EraseRange: relies on the same assumption for `itEnd`, which must keep designating its node while the elements before it are erased.
- Returned references (`*this` from assignment and prefix `++`/`--`) are not modelled, so calls cannot be chained. The methods update the object in place.
- `size_t` is modelled as an unbounded `nat`; a set never holds enough elements for the width to matter.
- Genericity over `T` is left out: the model fixes `T = int`, whose `<` is a strict total order.

## Findings

| source | as written | input that shows it | evidently intended | confidence | as-written member | corrected member |
|---|---|---|---|---|---|---|
| set.h:171-174 | `erase(const T &)` returns `bst.size()` and removes nothing (marked `//fix`) | on `{5}`, `erase(5)` returns 1, and `find(5)` still designates 5 (`CustomSet.EraseValueKeepsValue`) | remove `t` if present and return the number removed, 1 or 0 | not executed | CustomSet.Set.EraseValue | CustomSet.Set.EraseKey |
