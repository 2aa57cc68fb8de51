/**
  Specification of the generated list methods: pure reference definitions
  (filtering, the first index where a predicate fails, left and right folds)
  and the algebraic facts the generated methods rely on or promise.
  The methods themselves live in module ListMethods and are proved against
  the functions defined here.
 */
module ListSpec {

  function Min(a: int, b: int): int
  {
    if a <= b then a else b
  }

  // ---------------------------------------------------------------------------
  // Filtering
  // ---------------------------------------------------------------------------

  /** The elements of `s` for which `f` holds, in their original order. */
  function Filtered<T>(f: T -> bool, s: seq<T>): seq<T>
  {
    if s == [] then []
    else (if f(s[0]) then [s[0]] else []) + Filtered(f, s[1..])
  }

  /** `r` can be obtained from `s` by deleting elements (order is kept). */
  ghost predicate IsSubsequence<T>(r: seq<T>, s: seq<T>)
  {
    if r == [] then true
    else if s == [] then false
    else (r[0] == s[0] && IsSubsequence(r[1..], s[1..])) || IsSubsequence(r, s[1..])
  }

  /** Filtering distributes over concatenation. */
  lemma {:induction false} FilteredAppend<T>(f: T -> bool, s: seq<T>, t: seq<T>)
    ensures Filtered(f, s + t) == Filtered(f, s) + Filtered(f, t)
  {
    if s == [] {
      assert s + t == t;
    } else {
      assert (s + t)[0] == s[0];
      assert (s + t)[1..] == s[1..] + t;
      FilteredAppend(f, s[1..], t);
    }
  }

  /** Filtering a list extended by one element: that element is kept iff `f` holds of it. */
  lemma FilteredSnoc<T>(f: T -> bool, s: seq<T>, x: T)
    ensures Filtered(f, s + [x]) == Filtered(f, s) + (if f(x) then [x] else [])
  {
    FilteredAppend(f, s, [x]);
    assert [x][1..] == [];
  }

  /** Every element of the result satisfies `f`, and the result is never longer than the input. */
  lemma {:induction false} FilteredSound<T>(f: T -> bool, s: seq<T>)
    ensures forall i :: 0 <= i < |Filtered(f, s)| ==> f(Filtered(f, s)[i])
    ensures |Filtered(f, s)| <= |s|
  {
    if s != [] {
      FilteredSound(f, s[1..]);
    }
  }

  /**
    The result holds exactly the elements of `s` that satisfy `f`, each as often
    as it occurs in `s`, and no element that fails `f`.
   */
  lemma {:induction false} FilteredCounts<T>(f: T -> bool, s: seq<T>)
    ensures forall x :: multiset(Filtered(f, s))[x] == if f(x) then multiset(s)[x] else 0
  {
    if s != [] {
      FilteredCounts(f, s[1..]);
      assert s == [s[0]] + s[1..];
      assert multiset(s) == multiset([s[0]]) + multiset(s[1..]);
      var head := if f(s[0]) then [s[0]] else [];
      assert multiset(Filtered(f, s)) == multiset(head) + multiset(Filtered(f, s[1..]));
    }
  }

  /** The kept elements appear in the order they have in `s`. */
  lemma {:induction false} FilteredIsSubsequence<T>(f: T -> bool, s: seq<T>)
    ensures IsSubsequence(Filtered(f, s), s)
  {
    if s != [] {
      FilteredIsSubsequence(f, s[1..]);
      if f(s[0]) {
        var r := Filtered(f, s);
        assert r[0] == s[0] && r[1..] == Filtered(f, s[1..]);
      } else {
        assert Filtered(f, s) == Filtered(f, s[1..]);
      }
    }
  }

  /** Filtering changes nothing exactly when every element satisfies `f`. */
  lemma {:induction false} FilteredIdentity<T>(f: T -> bool, s: seq<T>)
    ensures Filtered(f, s) == s <==> forall i :: 0 <= i < |s| ==> f(s[i])
  {
    if s != [] {
      FilteredIdentity(f, s[1..]);
      FilteredSound(f, s[1..]);
      if !f(s[0]) {
        assert |Filtered(f, s)| < |s|;
      } else {
        assert Filtered(f, s) == [s[0]] + Filtered(f, s[1..]);
        assert s == [s[0]] + s[1..];
        assert (forall i :: 0 <= i < |s| ==> f(s[i])) <==> (forall i :: 0 <= i < |s[1..]| ==> f(s[1..][i]));
      }
    }
  }

  /** Filtering twice with the same predicate is filtering once. */
  lemma FilteredIdempotent<T>(f: T -> bool, s: seq<T>)
    ensures Filtered(f, Filtered(f, s)) == Filtered(f, s)
  {
    FilteredSound(f, s);
    FilteredIdentity(f, Filtered(f, s));
  }

  // ---------------------------------------------------------------------------
  // The first element for which a predicate fails (TakeWhile / DropWhile)
  // ---------------------------------------------------------------------------

  /**
    The index of the first element of `s` for which `f` is false,
    or `|s|` when `f` holds of every element.
   */
  function FirstFalse<T>(f: T -> bool, s: seq<T>): (r: nat)
    ensures r <= |s|
    ensures forall j :: 0 <= j < r ==> f(s[j])
    ensures r < |s| ==> !f(s[r])
  {
    if s == [] || !f(s[0]) then 0 else 1 + FirstFalse(f, s[1..])
  }

  /** The prefix before FirstFalse followed by the rest is the whole list. */
  lemma WhileSplit<T>(f: T -> bool, s: seq<T>)
    ensures s[..FirstFalse(f, s)] + s[FirstFalse(f, s)..] == s
  {
  }

  /**
    The split of `s` at FirstFalse is the only split into a prefix whose elements
    all satisfy `f` and a suffix that is empty or starts with an element failing `f`.
   */
  lemma WhileSplitUnique<T>(f: T -> bool, s: seq<T>, p: seq<T>, q: seq<T>)
    requires s == p + q
    requires forall j :: 0 <= j < |p| ==> f(p[j])
    requires q == [] || !f(q[0])
    ensures p == s[..FirstFalse(f, s)] && q == s[FirstFalse(f, s)..]
  {
    var k := FirstFalse(f, s);
    assert forall j :: 0 <= j < |p| ==> f(s[j]);
    assert |p| < |s| ==> !f(s[|p|]);
  }

  /** The prefix before the first failing element is unchanged by filtering. */
  lemma TakeWhileIsFiltered<T>(f: T -> bool, s: seq<T>)
    ensures Filtered(f, s[..FirstFalse(f, s)]) == s[..FirstFalse(f, s)]
  {
    FilteredIdentity(f, s[..FirstFalse(f, s)]);
  }

  // ---------------------------------------------------------------------------
  // Folds (Reduce / ReduceRight, and the calls made by Each / EachI)
  // ---------------------------------------------------------------------------

  /** Left fold: f(...f(f(a, s[0]), s[1])..., s[|s|-1]). */
  function FoldLeft<A, T>(f: (A, T) -> A, a: A, s: seq<T>): A
  {
    if s == [] then a else FoldLeft(f, f(a, s[0]), s[1..])
  }

  /** Right fold: f(s[0], f(s[1], ... f(s[|s|-1], a)...)). */
  function FoldRight<T, A>(f: (T, A) -> A, a: A, s: seq<T>): A
  {
    if s == [] then a else f(s[0], FoldRight(f, a, s[1..]))
  }

  function Reverse<T>(s: seq<T>): (r: seq<T>)
    ensures |r| == |s|
  {
    if s == [] then [] else Reverse(s[1..]) + [s[0]]
  }

  /** `f` with its two arguments swapped. */
  function Flip<T, A>(f: (T, A) -> A): (A, T) -> A
  {
    (acc: A, x: T) => f(x, acc)
  }

  /** A left fold over `s + t` continues from where the fold over `s` stopped. */
  lemma {:induction false} FoldLeftAppend<A, T>(f: (A, T) -> A, a: A, s: seq<T>, t: seq<T>)
    ensures FoldLeft(f, a, s + t) == FoldLeft(f, FoldLeft(f, a, s), t)
  {
    if s == [] {
      assert s + t == t;
    } else {
      assert (s + t)[0] == s[0];
      assert (s + t)[1..] == s[1..] + t;
      FoldLeftAppend(f, f(a, s[0]), s[1..], t);
    }
  }

  /** One more element at the end of a left fold is one more application of `f`. */
  lemma FoldLeftSnoc<A, T>(f: (A, T) -> A, a: A, s: seq<T>, x: T)
    ensures FoldLeft(f, a, s + [x]) == f(FoldLeft(f, a, s), x)
  {
    FoldLeftAppend(f, a, s, [x]);
    assert [x][1..] == [];
  }

  /** A right fold over `s + t` folds `s` onto the result of folding `t`. */
  lemma {:induction false} FoldRightAppend<T, A>(f: (T, A) -> A, a: A, s: seq<T>, t: seq<T>)
    ensures FoldRight(f, a, s + t) == FoldRight(f, FoldRight(f, a, t), s)
  {
    if s == [] {
      assert s + t == t;
    } else {
      assert (s + t)[0] == s[0];
      assert (s + t)[1..] == s[1..] + t;
      FoldRightAppend(f, a, s[1..], t);
    }
  }

  /**
    A right fold is the left fold of the reversed list with the
    combining function's arguments swapped.
   */
  lemma {:induction false} FoldRightIsFoldLeftOfReverse<T, A>(f: (T, A) -> A, a: A, s: seq<T>)
    ensures FoldRight(f, a, s) == FoldLeft(Flip(f), a, Reverse(s))
  {
    if s != [] {
      FoldRightIsFoldLeftOfReverse(f, a, s[1..]);
      FoldLeftSnoc(Flip(f), a, Reverse(s[1..]), s[0]);
    }
  }

  /**
    Left fold from `a`, expressed with a right fold from the identity `e`,
    when `f` is associative.
   */
  lemma {:induction false} FoldLeftAssociative<T>(f: (T, T) -> T, e: T, a: T, s: seq<T>)
    requires forall x, y, z :: f(f(x, y), z) == f(x, f(y, z))
    requires forall x :: f(x, e) == x
    ensures FoldLeft(f, a, s) == f(a, FoldRight(f, e, s))
  {
    if s != [] {
      FoldLeftAssociative(f, e, f(a, s[0]), s[1..]);
    }
  }

  /**
    For an associative function with a two-sided identity as seed, the
    left and the right fold agree.
   */
  lemma FoldsAgreeOnMonoid<T>(f: (T, T) -> T, e: T, s: seq<T>)
    requires forall x, y, z :: f(f(x, y), z) == f(x, f(y, z))
    requires forall x :: f(x, e) == x && f(e, x) == x
    ensures FoldLeft(f, e, s) == FoldRight(f, e, s)
  {
    FoldLeftAssociative(f, e, e, s);
  }

  // ---------------------------------------------------------------------------
  // Observing the calls made to a callback (Each / EachI)
  // ---------------------------------------------------------------------------

  /** Each element paired with its zero-based index. */
  function Enumerate<T>(s: seq<T>): (r: seq<(int, T)>)
    ensures |r| == |s|
  {
    seq(|s|, i requires 0 <= i < |s| => (i, s[i]))
  }

  /** A three-argument callback seen as a two-argument one on (index, element) pairs. */
  function Uncurried<S, T>(f: (S, int, T) -> S): (S, (int, T)) -> S
  {
    (st: S, p: (int, T)) => f(st, p.0, p.1)
  }

  /** A callback whose only effect is to append its argument to a log. */
  function Record<T>(log: seq<T>, x: T): seq<T>
  {
    log + [x]
  }

  /** An indexed callback whose only effect is to append (index, element) to a log. */
  function RecordIndexed<T>(log: seq<(int, T)>, i: int, x: T): seq<(int, T)>
  {
    log + [(i, x)]
  }

  /** Left-folding a logging callback over `s` appends `s` to the log. */
  lemma {:induction false} FoldLeftLogs<T>(f: (seq<T>, T) -> seq<T>, log: seq<T>, s: seq<T>)
    requires forall l, x :: f(l, x) == l + [x]
    ensures FoldLeft(f, log, s) == log + s
    decreases |s|
  {
    if s != [] {
      FoldLeftLogs(f, log + [s[0]], s[1..]);
      assert log + [s[0]] + s[1..] == log + s;
    }
  }
}
