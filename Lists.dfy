/**
 * List helpers shared by the pages: JavaScript's `filter` and `includes`,
 * order-preserving subsequences, and the add-or-remove toggle that every
 * multi-select in the app uses.
 */
module Lists {

  /** `xs.filter(f)`: the elements satisfying `f`, in their original order. */
  function Filter<T>(xs: seq<T>, f: T -> bool): (r: seq<T>)
    ensures |r| <= |xs|
    ensures forall k :: 0 <= k < |r| ==> f(r[k])
  {
    if |xs| == 0 then [] else (if f(xs[0]) then [xs[0]] else []) + Filter(xs[1..], f)
  }

  /** `a` can be obtained from `b` by deleting elements, keeping the order of the rest. */
  predicate IsSubsequence<T(==)>(a: seq<T>, b: seq<T>)
    decreases |b|
  {
    if |a| == 0 then true
    else if |b| == 0 then false
    else if a[0] == b[0] then IsSubsequence(a[1..], b[1..])
    else IsSubsequence(a, b[1..])
  }

  lemma {:induction false} SubsequenceRefl<T>(a: seq<T>)
    ensures IsSubsequence(a, a)
    decreases |a|
  {
    if |a| > 0 {
      SubsequenceRefl(a[1..]);
    }
  }

  /** What a subsequence holds, its source holds. */
  lemma {:induction false} SubsequenceIn<T>(a: seq<T>, b: seq<T>, x: T)
    requires IsSubsequence(a, b) && x in a
    ensures x in b
    decreases |b|
  {
    if a[0] == b[0] {
      if x != a[0] {
        assert x in a[1..];
        SubsequenceIn(a[1..], b[1..], x);
      }
    } else {
      SubsequenceIn(a, b[1..], x);
    }
  }

  lemma {:induction false} SubsequenceTrans<T>(a: seq<T>, b: seq<T>, c: seq<T>)
    requires IsSubsequence(a, b) && IsSubsequence(b, c)
    ensures IsSubsequence(a, c)
    decreases |c|
  {
    if |a| > 0 {
      if b[0] == c[0] {
        if a[0] == b[0] {
          SubsequenceTrans(a[1..], b[1..], c[1..]);
        } else {
          SubsequenceTrans(a, b[1..], c[1..]);
          SubsequenceTail(a, c);
        }
      } else {
        SubsequenceTrans(a, b, c[1..]);
        SubsequenceTail(a, c);
      }
    }
  }

  /** Filtering keeps exactly the elements satisfying the predicate... */
  lemma {:induction false} FilterMembers<T>(xs: seq<T>, f: T -> bool, x: T)
    ensures x in Filter(xs, f) <==> x in xs && f(x)
  {
    if |xs| > 0 {
      FilterMembers(xs[1..], f, x);
      assert x in xs <==> x == xs[0] || x in xs[1..];
    }
  }

  /** ...and keeps them in their original order. */
  lemma {:induction false} FilterSubsequence<T>(xs: seq<T>, f: T -> bool)
    ensures IsSubsequence(Filter(xs, f), xs)
  {
    if |xs| > 0 {
      FilterSubsequence(xs[1..], f);
      var rest := Filter(xs[1..], f);
      if f(xs[0]) {
        assert Filter(xs, f) == [xs[0]] + rest;
        assert ([xs[0]] + rest)[1..] == rest;
      } else {
        assert Filter(xs, f) == rest;
        SubsequenceTail(rest, xs);
      }
    }
  }

  /** Dropping the head of a subsequence leaves a subsequence. */
  lemma {:induction false} SubsequenceDrop<T>(a: seq<T>, b: seq<T>)
    requires IsSubsequence(a, b) && |a| > 0
    ensures IsSubsequence(a[1..], b)
    decreases |b|, 1
  {
    if a[0] == b[0] {
      SubsequenceTail(a[1..], b);
    } else {
      SubsequenceDrop(a, b[1..]);
      SubsequenceTail(a[1..], b);
    }
  }

  /** A subsequence of the tail of `b` is a subsequence of `b`. */
  lemma {:induction false} SubsequenceTail<T>(a: seq<T>, b: seq<T>)
    requires |b| > 0 && IsSubsequence(a, b[1..])
    ensures IsSubsequence(a, b)
    decreases |b|, 0
  {
    if |a| > 0 && a[0] == b[0] {
      SubsequenceDrop(a, b[1..]);
    }
  }

  /** Filtering with an always-true predicate changes nothing. */
  lemma {:induction false} FilterAll<T>(xs: seq<T>, f: T -> bool)
    requires forall k :: 0 <= k < |xs| ==> f(xs[k])
    ensures Filter(xs, f) == xs
  {
    if |xs| > 0 {
      FilterAll(xs[1..], f);
      assert xs == [xs[0]] + xs[1..];
    }
  }

  predicate NoDuplicates<T(==)>(xs: seq<T>) {
    forall i, j :: 0 <= i < j < |xs| ==> xs[i] != xs[j]
  }

  /** `ids.filter(x => x !== id)`. */
  function Without(ids: seq<string>, id: string): seq<string> {
    Filter(ids, x => x != id)
  }

  lemma WithoutMembers(ids: seq<string>, id: string, x: string)
    ensures x in Without(ids, id) <==> x in ids && x != id
  {
    FilterMembers(ids, y => y != id, x);
  }

  lemma {:induction false} WithoutAbsent(ids: seq<string>, id: string)
    requires id !in ids
    ensures Without(ids, id) == ids
  {
    FilterAll(ids, x => x != id);
  }

  lemma {:induction false} WithoutNoDuplicates(ids: seq<string>, id: string)
    requires NoDuplicates(ids)
    ensures NoDuplicates(Without(ids, id))
  {
    if |ids| > 0 {
      WithoutNoDuplicates(ids[1..], id);
      var rest := Without(ids[1..], id);
      if ids[0] != id {
        assert ids[0] !in rest by { WithoutMembers(ids[1..], id, ids[0]); }
        assert Without(ids, id) == [ids[0]] + rest;
      } else {
        assert Without(ids, id) == rest;
      }
    }
  }

  /**
   * The multi-select toggle: a selected id is removed, any other id is
   * appended at the end.
   */
  function Toggle(selected: seq<string>, id: string): seq<string> {
    if id in selected then Without(selected, id) else selected + [id]
  }

  /**
   * After a toggle `id` is selected exactly when it was not before; every
   * other id keeps its state; an id not yet selected goes at the end.
   */
  lemma ToggleMembers(selected: seq<string>, id: string)
    ensures id in Toggle(selected, id) <==> id !in selected
    ensures forall x :: x != id ==> (x in Toggle(selected, id) <==> x in selected)
    ensures id !in selected ==> Toggle(selected, id) == selected + [id]
  {
    WithoutMembers(selected, id, id);
    forall x | x != id ensures x in Toggle(selected, id) <==> x in selected {
      WithoutMembers(selected, id, x);
    }
  }

  /** A duplicate-free selection stays duplicate-free. */
  lemma ToggleNoDuplicates(selected: seq<string>, id: string)
    requires NoDuplicates(selected)
    ensures NoDuplicates(Toggle(selected, id))
  {
    if id in selected {
      WithoutNoDuplicates(selected, id);
    }
  }

  /**
   * Toggling twice restores the set of selected ids; it restores the very
   * list when the id was not selected.
   */
  lemma ToggleTwice(selected: seq<string>, id: string)
    ensures forall x :: x in Toggle(Toggle(selected, id), id) <==> x in selected
    ensures id !in selected ==> Toggle(Toggle(selected, id), id) == selected
  {
    ToggleMembers(selected, id);
    ToggleMembers(Toggle(selected, id), id);
    if id !in selected {
      WithoutMembers(selected + [id], id, id);
      assert Without(selected + [id], id) == Without(selected, id) + Without([id], id) by {
        FilterAppend(selected, [id], x => x != id);
      }
      WithoutAbsent(selected, id);
      assert Without([id], id) == [];
    }
  }

  lemma {:induction false} FilterAppend<T>(a: seq<T>, b: seq<T>, f: T -> bool)
    ensures Filter(a + b, f) == Filter(a, f) + Filter(b, f)
  {
    if |a| == 0 {
      assert a + b == b;
    } else {
      assert (a + b)[0] == a[0] && (a + b)[1..] == a[1..] + b;
      FilterAppend(a[1..], b, f);
    }
  }

  /** Two predicates that agree on every element filter alike. */
  lemma {:induction false} FilterAgree<T>(xs: seq<T>, f: T -> bool, g: T -> bool)
    requires forall k :: 0 <= k < |xs| ==> f(xs[k]) == g(xs[k])
    ensures Filter(xs, f) == Filter(xs, g)
  {
    if |xs| > 0 {
      FilterAgree(xs[1..], f, g);
    }
  }
}
