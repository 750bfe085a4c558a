/** Shared vocabulary of the model: optional values, results of steps that may
    throw, and the list operations the adapters rely on. */
module Base {

  /** A value that may be absent (`null` or `undefined` in the system). */
  datatype Option<+T> = None | Some(value: T) {
    function GetOr(default: T): T {
      if Some? then value else default
    }
  }

  /** The outcome of a step that may throw: a value, or the exception as
      `String(err)` renders it. */
  datatype Result<+T> = Success(value: T) | Failure(error: string) {
    predicate IsFailure() {
      Failure?
    }

    function PropagateFailure<U>(): Result<U>
      requires Failure?
    {
      Failure(error)
    }

    function Extract(): T
      requires Success?
    {
      value
    }
  }

  /** `xs[0]`, which is `undefined` on an empty array. */
  function Head<T>(xs: seq<T>): Option<T> {
    if xs == [] then None else Some(xs[0])
  }

  /** Every element of `xs` satisfies `p`. */
  predicate Every<T>(xs: seq<T>, p: T -> bool) {
    forall i :: 0 <= i < |xs| ==> p(xs[i])
  }

  lemma EveryDrop<T>(xs: seq<T>, k: nat, p: T -> bool)
    requires Every(xs, p) && k <= |xs|
    ensures Every(xs[k..], p)
  {
    forall i | 0 <= i < |xs| - k
      ensures p(xs[k..][i])
    {
      assert xs[k..][i] == xs[k + i];
    }
  }

  lemma EveryAppend<T>(xs: seq<T>, ys: seq<T>, p: T -> bool)
    ensures Every(xs + ys, p) <==> Every(xs, p) && Every(ys, p)
  {
    if Every(xs, p) && Every(ys, p) {
      forall i | 0 <= i < |xs + ys|
        ensures p((xs + ys)[i])
      {
        if i >= |xs| {
          assert (xs + ys)[i] == ys[i - |xs|];
        }
      }
    }
    if Every(xs + ys, p) {
      forall i | 0 <= i < |xs|
        ensures p(xs[i])
      {
        assert (xs + ys)[i] == xs[i];
      }
      forall i | 0 <= i < |ys|
        ensures p(ys[i])
      {
        assert (xs + ys)[|xs| + i] == ys[i];
      }
    }
  }

  /** A value that fails `p` does not occur where every element passes it. */
  lemma Excluded<T>(xs: seq<T>, p: T -> bool, x: T)
    requires Every(xs, p) && !p(x)
    ensures x !in xs
  {
  }

  predicate NoDup<T(==)>(xs: seq<T>) {
    forall i, j :: 0 <= i < j < |xs| ==> xs[i] != xs[j]
  }

  /** `[...new Set(xs)]`: the elements are inserted one after the other into an
      insertion-ordered set, so each value is kept at its first occurrence. */
  function Dedup<T(==,!new)>(xs: seq<T>): (r: seq<T>)
    ensures NoDup(r)
    ensures forall x :: x in r <==> x in xs
    decreases |xs|
  {
    if xs == [] then []
    else
      var init := xs[..|xs| - 1];
      assert xs == init + [xs[|xs| - 1]];
      var d := Dedup(init);
      if xs[|xs| - 1] in d then d else d + [xs[|xs| - 1]]
  }

  /** Inserting more elements never reorders or drops what was already in the
      set: the de-duplication of a prefix is a prefix of the de-duplication. */
  lemma {:induction false} DedupPrefix<T(!new)>(xs: seq<T>, ys: seq<T>)
    ensures Dedup(xs) <= Dedup(xs + ys)
    decreases |ys|
  {
    if ys != [] {
      var ys' := ys[..|ys| - 1];
      assert (xs + ys)[..|xs + ys| - 1] == xs + ys';
      DedupPrefix(xs, ys');
    } else {
      assert xs + ys == xs;
    }
  }

  /** Inserting one more element: it is appended unless already present. */
  lemma DedupSnoc<T(!new)>(xs: seq<T>, x: T)
    ensures Dedup(xs + [x]) == if x in Dedup(xs) then Dedup(xs) else Dedup(xs) + [x]
  {
    assert (xs + [x])[..|xs|] == xs;
  }

  /** A list that is already duplicate-free comes back unchanged. */
  lemma {:induction false} DedupOfDistinct<T(!new)>(xs: seq<T>)
    requires NoDup(xs)
    ensures Dedup(xs) == xs
    decreases |xs|
  {
    if xs != [] {
      var init := xs[..|xs| - 1];
      DedupOfDistinct(init);
      assert xs[|xs| - 1] !in init;
      assert init + [xs[|xs| - 1]] == xs;
    }
  }

  /** `x` occurs in `xs`, and does so for the first time before `y` does. */
  predicate Before<T(==)>(xs: seq<T>, x: T, y: T) {
    IndexOf(xs, x).Some? && IndexOf(xs, y).Some? && IndexOf(xs, x).value < IndexOf(xs, y).value
  }

  /** Each value of `r` first occurs in `xs` before every value after it. */
  predicate Ordered<T(==)>(r: seq<T>, xs: seq<T>) {
    forall i, j :: 0 <= i < j < |r| ==> Before(xs, r[i], r[j])
  }

  /** `r` lists the distinct values of `xs` once each, ordered by where each
      first occurs in `xs`: an independent description of `Dedup`. */
  ghost predicate FirstSeen<T(!new)>(r: seq<T>, xs: seq<T>) {
    NoDup(r) && (forall x :: x in r <==> x in xs) && Ordered(r, xs)
  }

  /** `Dedup` keeps the values in the order of their first occurrences. */
  lemma {:induction false} DedupOrder<T(!new)>(xs: seq<T>)
    ensures FirstSeen(Dedup(xs), xs)
    decreases |xs|
  {
    if xs != [] {
      var init := xs[..|xs| - 1];
      var x := xs[|xs| - 1];
      assert xs == init + [x];
      DedupOrder(init);
      var d := Dedup(init);
      var r := Dedup(xs);
      forall y | y in init
        ensures IndexOf(xs, y) == IndexOf(init, y)
      {
        IndexOfAppend(init, [x], y);
      }
      if x !in d {
        IndexOfAppend(init, [x], x);
        assert IndexOf(xs, x) == Some(|init|);
        forall i, j | 0 <= i < j < |r|
          ensures Before(xs, r[i], r[j])
        {
          assert r[i] == d[i] && r[i] in init;
          if j < |d| {
            assert r[j] == d[j] && r[j] in init;
          }
        }
      }
    }
  }

  /** Two orderings of the same values by first occurrence in `xs` are the
      same list, so `FirstSeen` pins its list down completely. */
  lemma {:induction false} OrderedUnique<T(!new)>(r: seq<T>, s: seq<T>, xs: seq<T>)
    requires Ordered(r, xs) && Ordered(s, xs)
    requires forall x :: x in r <==> x in s
    ensures r == s
    decreases |r|
  {
    if r != [] {
      assert r[0] in s;
    }
    if s != [] {
      assert s[0] in r;
    }
    if r != [] {
      if r[0] != s[0] {
        assert false;
      }
      forall x
        ensures x in r[1..] <==> x in s[1..]
      {
        if x in r[1..] {
          var k :| 1 <= k < |r| && r[k] == x;
          assert Before(xs, r[0], r[k]);
          assert x in r;
          var m :| 0 <= m < |s| && s[m] == x;
          assert s[1..][m - 1] == x;
        }
        if x in s[1..] {
          var k :| 1 <= k < |s| && s[k] == x;
          assert Before(xs, s[0], s[k]);
          assert x in s;
          var m :| 0 <= m < |r| && r[m] == x;
          assert r[1..][m - 1] == x;
        }
      }
      assert Ordered(r[1..], xs) by {
        forall i, j | 0 <= i < j < |r[1..]|
          ensures Before(xs, r[1..][i], r[1..][j])
        {
          assert r[1..][i] == r[i + 1] && r[1..][j] == r[j + 1];
        }
      }
      assert Ordered(s[1..], xs) by {
        forall i, j | 0 <= i < j < |s[1..]|
          ensures Before(xs, s[1..][i], s[1..][j])
        {
          assert s[1..][i] == s[i + 1] && s[1..][j] == s[j + 1];
        }
      }
      OrderedUnique(r[1..], s[1..], xs);
      assert r == [r[0]] + r[1..] && s == [s[0]] + s[1..];
    }
  }

  /** `Dedup` is the one list in first-seen order of the values of `xs`. */
  lemma DedupIsFirstSeen<T(!new)>(r: seq<T>, xs: seq<T>)
    requires FirstSeen(r, xs)
    ensures r == Dedup(xs)
  {
    DedupOrder(xs);
    OrderedUnique(r, Dedup(xs), xs);
  }

  /** A list in the order of `xs` keeps any two of its elements in that order. */
  lemma OrderedBefore<T>(r: seq<T>, xs: seq<T>, x: T, y: T)
    requires Ordered(r, xs) && x in r && y in r && Before(xs, x, y)
    ensures Before(r, x, y)
  {
    var i := IndexOf(r, x).value;
    var j := IndexOf(r, y).value;
    assert r[i] == x && r[j] == y && x != y;
    if j < i {
      assert false;
    }
  }

  /** `xs.map(f)`. */
  function Map<T, U>(xs: seq<T>, f: T -> U): (r: seq<U>)
    ensures |r| == |xs|
    ensures forall i :: 0 <= i < |xs| ==> r[i] == f(xs[i])
    decreases |xs|
  {
    if xs == [] then [] else [f(xs[0])] + Map(xs[1..], f)
  }

  lemma {:induction false} MapAppend<T, U>(xs: seq<T>, ys: seq<T>, f: T -> U)
    ensures Map(xs + ys, f) == Map(xs, f) + Map(ys, f)
    decreases |xs|
  {
    if xs == [] {
      assert xs + ys == ys;
    } else {
      assert (xs + ys)[0] == xs[0] && (xs + ys)[1..] == xs[1..] + ys;
      MapAppend(xs[1..], ys, f);
    }
  }

  /** Replacing an element by one with the same image leaves the map alone. */
  lemma MapUpdate<T, U>(xs: seq<T>, i: nat, v: T, f: T -> U)
    requires i < |xs| && f(v) == f(xs[i])
    ensures Map(xs[i := v], f) == Map(xs, f)
  {
    var a := Map(xs[i := v], f);
    var b := Map(xs, f);
    assert forall k :: 0 <= k < |a| ==> a[k] == b[k];
  }

  /** `f(x)` then `g(x)` for each `x` of `xs`, in order. */
  function Pairs<T, U>(xs: seq<T>, f: T -> U, g: T -> U): (r: seq<U>)
    ensures |r| == 2 * |xs|
    ensures forall k :: 0 <= k < |xs| ==> r[2 * k] == f(xs[k]) && r[2 * k + 1] == g(xs[k])
    decreases |xs|
  {
    if xs == [] then []
    else
      var rest := Pairs(xs[1..], f, g);
      var r := [f(xs[0]), g(xs[0])] + rest;
      assert forall k :: 0 <= k < |xs| ==> r[2 * k] == f(xs[k]) && r[2 * k + 1] == g(xs[k]) by {
        forall k | 1 <= k < |xs|
          ensures r[2 * k] == f(xs[k]) && r[2 * k + 1] == g(xs[k])
        {
          assert xs[k] == xs[1..][k - 1];
          assert r[2 * k] == rest[2 * (k - 1)];
          assert r[2 * k + 1] == rest[2 * (k - 1) + 1];
        }
      }
      r
  }

  /** Some element of `xs` is mapped to `y` by `f`. */
  ghost predicate MapsTo<T, U>(xs: seq<T>, f: T -> U, y: U) {
    exists x :: x in xs && f(x) == y
  }

  lemma MapMember<T, U>(xs: seq<T>, f: T -> U, y: U)
    ensures y in Map(xs, f) <==> MapsTo(xs, f, y)
  {
    var r := Map(xs, f);
    if y in r {
      var i :| 0 <= i < |r| && r[i] == y;
      assert xs[i] in xs;
    }
    if MapsTo(xs, f, y) {
      var x :| x in xs && f(x) == y;
      var i :| 0 <= i < |xs| && xs[i] == x;
      assert r[i] == y;
    }
  }

  lemma MapsToAppend<T, U>(xs: seq<T>, ys: seq<T>, f: T -> U, y: U)
    ensures MapsTo(xs + ys, f, y) <==> MapsTo(xs, f, y) || MapsTo(ys, f, y)
  {
    if MapsTo(xs + ys, f, y) {
      var x :| x in xs + ys && f(x) == y;
      assert x in xs || x in ys;
    }
    if MapsTo(xs, f, y) {
      var x :| x in xs && f(x) == y;
      assert x in xs + ys;
    }
    if MapsTo(ys, f, y) {
      var x :| x in ys && f(x) == y;
      assert x in xs + ys;
    }
  }

  /** `xs.indexOf(x)`: the first position holding `x`. */
  function IndexOf<T(==)>(xs: seq<T>, x: T): (r: Option<nat>)
    ensures r.Some? ==> r.value < |xs| && xs[r.value] == x && x !in xs[..r.value]
    ensures r.None? <==> x !in xs
    decreases |xs|
  {
    if xs == [] then None
    else if xs[0] == x then Some(0)
    else
      match IndexOf(xs[1..], x)
      case None => None
      case Some(i) =>
        assert xs[..i + 1] == [xs[0]] + xs[1..][..i];
        Some(i + 1)
  }

  /** Looking past a prefix: the first position is found in the prefix when
      the value occurs there, and shifted by the prefix's length otherwise. */
  lemma {:induction false} IndexOfAppend<T>(xs: seq<T>, ys: seq<T>, x: T)
    ensures x in xs ==> IndexOf(xs + ys, x) == IndexOf(xs, x)
    ensures x !in xs && x in ys ==> IndexOf(xs + ys, x) == Some(|xs| + IndexOf(ys, x).value)
    decreases |xs|
  {
    if xs == [] {
      assert xs + ys == ys;
    } else if xs[0] != x {
      assert (xs + ys)[0] == xs[0] && (xs + ys)[1..] == xs[1..] + ys;
      assert x in xs <==> x in xs[1..];
      IndexOfAppend(xs[1..], ys, x);
    }
  }

  /** In a list without duplicates each element is found at its own position. */
  lemma IndexOfDistinct<T>(xs: seq<T>, i: nat)
    requires NoDup(xs) && i < |xs|
    ensures IndexOf(xs, xs[i]) == Some(i)
  {
    var j := IndexOf(xs, xs[i]).value;
    assert xs[j] == xs[i];
  }

  /** `Promise.all(xs.map(f))` where every call may fail: all the results in
      order, or a failure when any call fails. The failure reported is that of
      the first failing element in list order. */
  function Gather<T, U>(xs: seq<T>, f: T -> Result<U>): (r: Result<seq<U>>)
    ensures r.Success? ==> |r.value| == |xs| && forall i :: 0 <= i < |xs| ==> f(xs[i]) == Success(r.value[i])
    ensures r.Failure? <==> exists i :: 0 <= i < |xs| && f(xs[i]).Failure?
    decreases |xs|
  {
    if xs == [] then Success([])
    else
      match f(xs[0])
      case Failure(e) => Failure(e)
      case Success(y) =>
        match Gather(xs[1..], f)
        case Failure(e) =>
          assert exists i :: 0 <= i < |xs| && f(xs[i]).Failure? by {
            var i :| 0 <= i < |xs[1..]| && f(xs[1..][i]).Failure?;
            assert xs[1..][i] == xs[i + 1];
          }
          Failure(e)
        case Success(ys) =>
          var r := [y] + ys;
          assert forall i :: 0 <= i < |xs| ==> f(xs[i]) == Success(r[i]) by {
            forall i | 1 <= i < |xs|
              ensures f(xs[i]) == Success(r[i])
            {
              assert xs[i] == xs[1..][i - 1];
            }
          }
          Success(r)
  }

  /** When every call finds nothing, all the results are `None`. */
  lemma GatherNothing<T, U>(xs: seq<T>, f: T -> Result<Option<U>>)
    requires forall x :: x in xs ==> f(x) == Success(None)
    ensures Gather(xs, f).Success?
    ensures forall i :: 0 <= i < |Gather(xs, f).value| ==> Gather(xs, f).value[i].None?
  {
    var r := Gather(xs, f);
    assert forall i :: 0 <= i < |xs| ==> xs[i] in xs;
  }

  lemma Associative<T>(xs: seq<T>, ys: seq<T>, zs: seq<T>)
    ensures (xs + ys) + zs == xs + (ys + zs)
  {
  }

  /** The present results of `f` over `xs`, in order: a loop that pushes at
      most one value per element. */
  function Collect<T, U>(xs: seq<T>, f: T -> Option<U>): (r: seq<U>)
    ensures |r| <= |xs|
    decreases |xs|
  {
    if xs == [] then []
    else (match f(xs[0]) case None => [] case Some(y) => [y]) + Collect(xs[1..], f)
  }

  /** Whatever holds of every value `f` produces holds of the whole result. */
  lemma {:induction false} CollectEvery<T, U>(xs: seq<T>, f: T -> Option<U>, p: U -> bool)
    requires forall x :: f(x).Some? ==> p(f(x).value)
    ensures Every(Collect(xs, f), p)
    decreases |xs|
  {
    if xs != [] {
      CollectEvery(xs[1..], f, p);
      EveryAppend(match f(xs[0]) case None => [] case Some(y) => [y], Collect(xs[1..], f), p);
    }
  }

  /** Each element is handled on its own: collecting over a concatenation
      concatenates the results. */
  lemma {:induction false} CollectAppend<T, U>(xs: seq<T>, ys: seq<T>, f: T -> Option<U>)
    ensures Collect(xs + ys, f) == Collect(xs, f) + Collect(ys, f)
    decreases |xs|
  {
    if xs == [] {
      assert xs + ys == ys;
    } else {
      assert (xs + ys)[0] == xs[0] && (xs + ys)[1..] == xs[1..] + ys;
      CollectAppend(xs[1..], ys, f);
      Associative(match f(xs[0]) case None => [] case Some(y) => [y], Collect(xs[1..], f), Collect(ys, f));
    }
  }

  lemma CollectSingle<T, U>(x: T, f: T -> Option<U>)
    ensures Collect([x], f) == match f(x) case None => [] case Some(y) => [y]
  {
    assert [x][1..] == [];
  }

  /** Concatenation of a list of lists, in order. */
  function Flatten<T>(xss: seq<seq<T>>): seq<T>
    decreases |xss|
  {
    if xss == [] then [] else xss[0] + Flatten(xss[1..])
  }
}
