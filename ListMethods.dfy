/**
  The list methods that the generator emits for a list type `L` of elements `T`,
  written generically over `seq<T>`. The receiver `l` comes first, then the
  Go method's own parameters in their order. Callbacks are Dafny function values.

  Each and EachI call a callback that returns nothing; its effect is modelled as
  a transformation of an external state `world` of some type `S`, threaded
  through the calls in the order they are made.
 */
module ListMethods {
  import opened ListSpec

  /**
    Each: calls `f` on every member of `l` in index order and returns `l` unchanged.
    `world'` is the state after all the calls.
   */
  method Each<S, T>(l: seq<T>, f: (S, T) -> S, world: S) returns (r: seq<T>, world': S)
    ensures r == l
    ensures world' == FoldLeft(f, world, l)
  {
    world' := world;
    for i := 0 to |l|
      invariant world' == FoldLeft(f, world, l[..i])
    {
      FoldLeftSnoc(f, world, l[..i], l[i]);
      assert l[..i + 1] == l[..i] + [l[i]];
      world' := f(world', l[i]);
    }
    assert l[..|l|] == l;
    r := l;
  }

  /**
    EachI: calls `f` with each member's zero-based index and the member, in index
    order, and returns `l` unchanged.
   */
  method EachI<S, T>(l: seq<T>, f: (S, int, T) -> S, world: S) returns (r: seq<T>, world': S)
    ensures r == l
    ensures world' == FoldLeft(Uncurried(f), world, Enumerate(l))
  {
    world' := world;
    ghost var calls := Enumerate(l);
    for i := 0 to |l|
      invariant world' == FoldLeft(Uncurried(f), world, calls[..i])
    {
      FoldLeftSnoc(Uncurried(f), world, calls[..i], calls[i]);
      assert calls[..i + 1] == calls[..i] + [calls[i]];
      world' := f(world', i, l[i]);
    }
    assert calls[..|l|] == calls;
    r := l;
  }

  /** Filter: the members of `l` for which `f` returned true, in their original order. */
  method Filter<T>(l: seq<T>, f: T -> bool) returns (kept: seq<T>)
    ensures kept == Filtered(f, l)
    ensures forall i :: 0 <= i < |kept| ==> f(kept[i])
  {
    kept := [];
    for i := 0 to |l|
      invariant kept == Filtered(f, l[..i])
    {
      FilteredSnoc(f, l[..i], l[i]);
      assert l[..i + 1] == l[..i] + [l[i]];
      if f(l[i]) {
        kept := kept + [l[i]];
      }
    }
    assert l[..|l|] == l;
    FilteredSound(f, l);
  }

  /**
    DropWhile: `l` without its longest prefix of members satisfying `f`; the
    result starts at the first member for which `f` is false, and is empty when
    there is none.
   */
  method DropWhile<T>(l: seq<T>, f: T -> bool) returns (r: seq<T>)
    ensures r == l[FirstFalse(f, l)..]
    ensures |r| <= |l| && r == l[|l| - |r|..]
    ensures forall j :: 0 <= j < |l| - |r| ==> f(l[j])
    ensures |r| == 0 || !f(r[0])
  {
    for i := 0 to |l|
      invariant forall j :: 0 <= j < i ==> f(l[j])
    {
      if !f(l[i]) {
        return l[i..];
      }
    }
    return [];
  }

  /**
    TakeWhile: the longest prefix of `l` whose members all satisfy `f`; the whole
    list when `f` holds of every member.
   */
  method TakeWhile<T>(l: seq<T>, f: T -> bool) returns (r: seq<T>)
    ensures r == l[..FirstFalse(f, l)]
    ensures |r| <= |l| && r == l[..|r|]
    ensures forall j :: 0 <= j < |r| ==> f(r[j])
    ensures |r| == |l| || !f(l[|r|])
  {
    for i := 0 to |l|
      invariant forall j :: 0 <= j < i ==> f(l[j])
    {
      if !f(l[i]) {
        return l[..i];
      }
    }
    return l;
  }

  /**
    Take: the first `n` members of `l`, or all of `l` when it has fewer than `n`.
    A negative `n` makes the Go slice expression panic, hence the precondition.
   */
  function Take<T>(l: seq<T>, n: int): (r: seq<T>)
    requires 0 <= n
    ensures |r| == Min(n, |l|)
    ensures r == l[..|r|]
  {
    if |l| >= n then l[..n] else l
  }

  /**
    Drop: `l` without its first `n` members, or empty when it has fewer than `n`.
    A negative `n` makes the Go slice expression panic, hence the precondition.
   */
  function Drop<T>(l: seq<T>, n: int): (r: seq<T>)
    requires 0 <= n
    ensures |r| == |l| - Min(n, |l|)
    ensures r == l[|l| - |r|..]
  {
    if |l| >= n then l[n..] else []
  }

  /** Take and Drop split the list at the same point. */
  lemma TakeDropSplit<T>(l: seq<T>, n: int)
    requires 0 <= n
    ensures Take(l, n) + Drop(l, n) == l
  {
  }

  /** Reduce: the left fold of `f` over `l`, starting from the seed `t1`. */
  method Reduce<T>(l: seq<T>, t1: T, f: (T, T) -> T) returns (r: T)
    ensures r == FoldLeft(f, t1, l)
  {
    r := t1;
    for i := 0 to |l|
      invariant r == FoldLeft(f, t1, l[..i])
    {
      FoldLeftSnoc(f, t1, l[..i], l[i]);
      assert l[..i + 1] == l[..i] + [l[i]];
      r := f(r, l[i]);
    }
    assert l[..|l|] == l;
  }

  /**
    ReduceRight: walks `l` from the last member to the first, combining each
    member (first argument) with the accumulator (second argument), starting
    from the seed `t1`; that is the right fold of `f` over `l`.
   */
  method ReduceRight<T>(l: seq<T>, t1: T, f: (T, T) -> T) returns (r: T)
    ensures r == FoldRight(f, t1, l)
  {
    r := t1;
    var i := |l| - 1;
    while i >= 0
      invariant -1 <= i < |l|
      invariant r == FoldRight(f, t1, l[i + 1..])
    {
      assert l[i..][1..] == l[i + 1..];
      r := f(l[i], r);
      i := i - 1;
    }
  }

  // ---------------------------------------------------------------------------
  // What the callers of Each and EachI observe
  // ---------------------------------------------------------------------------

  /**
    With a callback that logs its argument, the log Each leaves behind is `l`
    itself: `f` is called once per member, in index order.
   */
  lemma EachCallsInOrder<T>(l: seq<T>)
    ensures FoldLeft(Record, [], l) == l
  {
    FoldLeftLogs(Record, [], l);
  }

  /**
    With a callback that logs its arguments, the log EachI leaves behind has one
    entry per member, in index order, and each entry carries the member's own
    zero-based index.
   */
  lemma EachIPassesIndices<T>(l: seq<T>)
    ensures var log := FoldLeft(Uncurried(RecordIndexed), [], Enumerate(l));
            |log| == |l| && forall i :: 0 <= i < |l| ==> log[i] == (i, l[i])
  {
    var g := Uncurried(RecordIndexed);
    forall log: seq<(int, T)>, p: (int, T)
      ensures g(log, p) == log + [p]
    {
      assert g(log, p) == RecordIndexed(log, p.0, p.1);
    }
    FoldLeftLogs(g, [], Enumerate(l));
  }
}
