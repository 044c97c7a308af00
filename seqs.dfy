/**
 * `Array.prototype.map` and `Array.prototype.filter` as the program uses
 * them, with the facts about order the pipeline relies on.
 */
module Seqs {

  /** `xs.map(f)`: one result per element, in the same positions. */
  function Map<T, U>(f: T --> U, xs: seq<T>): (r: seq<U>)
    requires forall i :: 0 <= i < |xs| ==> f.requires(xs[i])
    ensures |r| == |xs|
    ensures forall i :: 0 <= i < |xs| ==> r[i] == f(xs[i])
  {
    if xs == [] then [] else [f(xs[0])] + Map(f, xs[1..])
  }

  /** Concatenation is associative. */
  lemma AppendAssoc<T>(a: seq<T>, b: seq<T>, c: seq<T>)
    ensures a + (b + c) == a + b + c
  {
  }

  /** A common prefix cancels. */
  lemma AppendCancel<T>(a: seq<T>, x: seq<T>, y: seq<T>)
    requires a + x == a + y
    ensures x == y
  {
    assert x == (a + x)[|a|..];
    assert y == (a + y)[|a|..];
  }

  /** Mapping a concatenation maps each part. */
  lemma MapAppend<T, U>(f: T --> U, a: seq<T>, b: seq<T>)
    requires forall i :: 0 <= i < |a| ==> f.requires(a[i])
    requires forall i :: 0 <= i < |b| ==> f.requires(b[i])
    ensures forall i :: 0 <= i < |a + b| ==> f.requires((a + b)[i])
    ensures Map(f, a + b) == Map(f, a) + Map(f, b)
  {
    assert forall i :: 0 <= i < |a + b| ==> f.requires((a + b)[i]) by {
      forall i | 0 <= i < |a + b| ensures f.requires((a + b)[i]) {
        if i >= |a| { assert (a + b)[i] == b[i - |a|]; }
      }
    }
  }

  /** `xs.filter(p)`: exactly the elements satisfying `p`, none added. */
  function Filter<T>(p: T -> bool, xs: seq<T>): (r: seq<T>)
    ensures |r| <= |xs|
    ensures forall i :: 0 <= i < |r| ==> r[i] in xs && p(r[i])
    ensures forall i :: 0 <= i < |xs| && p(xs[i]) ==> xs[i] in r
  {
    if xs == [] then [] else (if p(xs[0]) then [xs[0]] else []) + Filter(p, xs[1..])
  }

  /** `a` is `b` with some elements left out and the rest in their original order. */
  ghost predicate IsSubsequence<T>(a: seq<T>, b: seq<T>)
    decreases |b|
  {
    a == [] || (b != [] && ((a[0] == b[0] && IsSubsequence(a[1..], b[1..])) || IsSubsequence(a, b[1..])))
  }

  /** What `filter` keeps stays in input order. */
  lemma {:induction false} FilterIsSubsequence<T>(p: T -> bool, xs: seq<T>)
    ensures IsSubsequence(Filter(p, xs), xs)
  {
    if xs != [] {
      FilterIsSubsequence(p, xs[1..]);
      var rest := Filter(p, xs[1..]);
      if p(xs[0]) {
        assert Filter(p, xs) == [xs[0]] + rest;
        assert ([xs[0]] + rest)[1..] == rest;
      } else {
        assert Filter(p, xs) == rest;
      }
    }
  }

  /** When every element passes, `filter` returns its input unchanged. */
  lemma {:induction false} FilterKeepsAll<T>(p: T -> bool, xs: seq<T>)
    requires forall i :: 0 <= i < |xs| ==> p(xs[i])
    ensures Filter(p, xs) == xs
  {
    if xs != [] {
      FilterKeepsAll(p, xs[1..]);
      assert xs == [xs[0]] + xs[1..];
    }
  }

  /** Of two elements where the first passes, `filter` keeps the first, and the second exactly when it passes. */
  lemma FilterPair<T>(p: T -> bool, x: T, y: T)
    requires p(x)
    ensures Filter(p, [x, y]) == if p(y) then [x, y] else [x]
  {
    assert [x, y][1..] == [y];
    assert [y][1..] == [];
  }

  /** `filter` returns nothing exactly when no element passes. */
  lemma FilterEmpty<T>(p: T -> bool, xs: seq<T>)
    ensures Filter(p, xs) == [] <==> forall i :: 0 <= i < |xs| ==> !p(xs[i])
  {
  }

  /** Filtering by `q` what passed `p` leaves nothing exactly when nothing passing `p` passes `q`. */
  lemma FilterFilterEmpty<T>(p: T -> bool, q: T -> bool, xs: seq<T>)
    ensures Filter(q, Filter(p, xs)) == [] <==> forall i :: 0 <= i < |xs| && p(xs[i]) ==> !q(xs[i])
  {
    FilterEmpty(q, Filter(p, xs));
    FilterForall(p, (x: T) => !q(x), xs);
  }

  /** Everything `filter` keeps has a property exactly when every element passing the filter has it. */
  lemma FilterForall<T>(p: T -> bool, q: T -> bool, xs: seq<T>)
    ensures (forall i :: 0 <= i < |Filter(p, xs)| ==> q(Filter(p, xs)[i]))
            <==> (forall i :: 0 <= i < |xs| && p(xs[i]) ==> q(xs[i]))
  {
    var r := Filter(p, xs);
    if forall i :: 0 <= i < |r| ==> q(r[i]) {
      forall i | 0 <= i < |xs| && p(xs[i]) ensures q(xs[i]) {
        var j :| 0 <= j < |r| && r[j] == xs[i];
      }
    }
    if forall i :: 0 <= i < |xs| && p(xs[i]) ==> q(xs[i]) {
      forall i | 0 <= i < |r| ensures q(r[i]) {
        var j :| 0 <= j < |xs| && xs[j] == r[i];
      }
    }
  }

  lemma {:induction false} SubsequenceTransitive<T>(a: seq<T>, b: seq<T>, c: seq<T>)
    requires IsSubsequence(a, b) && IsSubsequence(b, c)
    ensures IsSubsequence(a, c)
    decreases |c|
  {
    if a != [] {
      assert b != [] && c != [];
      if b[0] == c[0] && IsSubsequence(b[1..], c[1..]) {
        if a[0] == b[0] && IsSubsequence(a[1..], b[1..]) {
          SubsequenceTransitive(a[1..], b[1..], c[1..]);
        } else {
          SubsequenceTransitive(a, b[1..], c[1..]);
        }
      } else {
        SubsequenceTransitive(a, b, c[1..]);
      }
    }
  }

  /** Filtering a sequence with one more element at the end extends the result by that element exactly when it passes. */
  lemma {:induction false} FilterSnoc<T>(p: T -> bool, xs: seq<T>, x: T)
    ensures Filter(p, xs + [x]) == Filter(p, xs) + (if p(x) then [x] else [])
  {
    if xs == [] {
      assert xs + [x] == [x];
    } else {
      assert (xs + [x])[1..] == xs[1..] + [x];
      FilterSnoc(p, xs[1..], x);
      assert xs + [x] == [xs[0]] + (xs[1..] + [x]);
    }
  }
}
