/**
 * The two list shapes the catalog builder is made of, stated once for any
 * element type: concatenating what each element expands to, and mapping a list
 * in order while threading the set of keys taken so far.
 */
module Lists {
  import opened Wrappers

  // --------------------------------------------------------------------- map

  /** `f(x, c)` for every `x` of `xs`, in order. */
  function Map<T, C, U>(xs: seq<T>, c: C, f: (T, C) -> U): (r: seq<U>)
    ensures |r| == |xs|
    decreases |xs|
  {
    if xs == [] then [] else Map(xs[..|xs| - 1], c, f) + [f(xs[|xs| - 1], c)]
  }

  /** Element `i` of the mapped list is `f` of element `i`. */
  lemma {:induction false} MapAt<T, C, U>(xs: seq<T>, c: C, f: (T, C) -> U)
    ensures forall i :: 0 <= i < |xs| ==> Map(xs, c, f)[i] == f(xs[i], c)
    decreases |xs|
  {
    if xs != [] {
      var n := |xs| - 1;
      MapAt(xs[..n], c, f);
      forall i | 0 <= i < n ensures Map(xs, c, f)[i] == f(xs[i], c) {
        assert xs[..n][i] == xs[i];
      }
    }
  }

  // ----------------------------------------------------------------- flatten

  /** `f(x, c)` for every `x` of `xs`, concatenated in order. */
  function Flatten<T, C, U>(xs: seq<T>, c: C, f: (T, C) -> seq<U>): seq<U>
    decreases |xs|
  {
    if xs == [] then [] else Flatten(xs[..|xs| - 1], c, f) + f(xs[|xs| - 1], c)
  }

  /** Flattening distributes over concatenation. */
  lemma {:induction false} FlattenAppend<T, C, U>(a: seq<T>, b: seq<T>, c: C, f: (T, C) -> seq<U>)
    ensures Flatten(a + b, c, f) == Flatten(a, c, f) + Flatten(b, c, f)
    decreases |b|
  {
    if b == [] {
      assert a + b == a;
    } else {
      var n := |b| - 1;
      calc {
        Flatten(a + b, c, f);
        { assert (a + b)[..|a + b| - 1] == a + b[..n]; assert (a + b)[|a + b| - 1] == b[n]; }
        Flatten(a + b[..n], c, f) + f(b[n], c);
        { FlattenAppend(a, b[..n], c, f); }
        (Flatten(a, c, f) + Flatten(b[..n], c, f)) + f(b[n], c);
        Flatten(a, c, f) + (Flatten(b[..n], c, f) + f(b[n], c));
      }
    }
  }

  /** A one-element list flattens to that element's expansion. */
  lemma FlattenSingle<T, C, U>(x: T, c: C, f: (T, C) -> seq<U>)
    ensures Flatten([x], c, f) == f(x, c)
  {
    assert [x][..0] == [];
  }

  /** Where every element expands to itself alone, flattening changes nothing. */
  lemma {:induction false} FlattenIdentity<T, C>(xs: seq<T>, c: C, f: (T, C) -> seq<T>)
    requires forall i :: 0 <= i < |xs| ==> f(xs[i], c) == [xs[i]]
    ensures Flatten(xs, c, f) == xs
    decreases |xs|
  {
    if xs != [] {
      var n := |xs| - 1;
      FlattenIdentity(xs[..n], c, f);
      assert xs[..n] + [xs[n]] == xs;
    }
  }

  /** Taking one more element appends it. */
  lemma TakeOneMore<T>(xs: seq<T>, i: nat)
    requires i < |xs|
    ensures xs[..i + 1] == xs[..i] + [xs[i]]
  {
  }

  // ------------------------------------------------------------------ thread

  /** The keys of the elements of `xs`. */
  function KeysOf<T, K>(xs: seq<T>, key: T -> K): set<K> {
    set i | 0 <= i < |xs| :: key(xs[i])
  }

  lemma KeysOfAppend<T, K>(a: seq<T>, b: seq<T>, key: T -> K)
    ensures KeysOf(a + b, key) == KeysOf(a, key) + KeysOf(b, key)
  {
    var ab := a + b;
    forall k | k in KeysOf(ab, key) ensures k in KeysOf(a, key) + KeysOf(b, key) {
      var i :| 0 <= i < |ab| && key(ab[i]) == k;
      if i >= |a| { assert b[i - |a|] == ab[i]; } else { assert a[i] == ab[i]; }
    }
    forall k | k in KeysOf(a, key) + KeysOf(b, key) ensures k in KeysOf(ab, key) {
      if k in KeysOf(a, key) {
        var i :| 0 <= i < |a| && key(a[i]) == k;
        assert ab[i] == a[i];
      } else {
        var i :| 0 <= i < |b| && key(b[i]) == k;
        assert ab[i + |a|] == b[i];
      }
    }
  }

  lemma KeysOfSingle<T, K>(x: T, key: T -> K)
    ensures KeysOf([x], key) == {key(x)}
  {
    assert [x][0] == x;
  }

  /**
   * Each element replaced by `step(x, taken)`, in order, where `taken` holds
   * `used` and the keys of the results before it.
   */
  function Thread<T, K>(xs: seq<T>, used: set<K>, step: (T, set<K>) -> T, key: T -> K): (r: seq<T>)
    ensures |r| == |xs|
    decreases |xs|
  {
    if xs == [] then []
    else
      var init := Thread(xs[..|xs| - 1], used, step, key);
      init + [step(xs[|xs| - 1], used + KeysOf(init, key))]
  }

  /** Result `i` is element `i` stepped against `used` and the keys of results `0..i`. */
  lemma {:induction false} ThreadAt<T, K>(xs: seq<T>, used: set<K>, step: (T, set<K>) -> T, key: T -> K)
    ensures var r := Thread(xs, used, step, key);
      forall i :: 0 <= i < |xs| ==> r[i] == step(xs[i], used + KeysOf(r[..i], key))
    decreases |xs|
  {
    if xs != [] {
      var n := |xs| - 1;
      var r := Thread(xs, used, step, key);
      var init := Thread(xs[..n], used, step, key);
      ThreadAt(xs[..n], used, step, key);
      assert r[..n] == init;
      forall i | 0 <= i < |xs| ensures r[i] == step(xs[i], used + KeysOf(r[..i], key)) {
        if i < n {
          assert r[i] == init[i] && r[..i] == init[..i] && xs[i] == xs[..n][i];
        }
      }
    }
  }

  /** Threading `a + b` is threading `a`, then `b` against the keys `a` took. */
  lemma {:induction false} ThreadAppend<T, K>(a: seq<T>, b: seq<T>, used: set<K>, step: (T, set<K>) -> T, key: T -> K)
    ensures Thread(a + b, used, step, key)
         == Thread(a, used, step, key) + Thread(b, used + KeysOf(Thread(a, used, step, key), key), step, key)
    decreases |b|
  {
    var ta := Thread(a, used, step, key);
    var used2 := used + KeysOf(ta, key);
    if b == [] {
      assert a + b == a;
    } else {
      var n := |b| - 1;
      var tb := Thread(b[..n], used2, step, key);
      var last := step(b[n], used2 + KeysOf(tb, key));
      calc {
        Thread(a + b, used, step, key);
        { assert (a + b)[..|a + b| - 1] == a + b[..n]; assert (a + b)[|a + b| - 1] == b[n]; }
        Thread(a + b[..n], used, step, key)
          + [step(b[n], used + KeysOf(Thread(a + b[..n], used, step, key), key))];
        { ThreadAppend(a, b[..n], used, step, key); }
        (ta + tb) + [step(b[n], used + KeysOf(ta + tb, key))];
        { KeysOfAppend(ta, tb, key); assert used + KeysOf(ta + tb, key) == used2 + KeysOf(tb, key); }
        (ta + tb) + [last];
        ta + (tb + [last]);
      }
    }
  }

  /** A one-element list is stepped once. */
  lemma ThreadSingle<T, K>(x: T, used: set<K>, step: (T, set<K>) -> T, key: T -> K)
    ensures Thread([x], used, step, key) == [step(x, used)]
  {
    assert [x][..0] == [];
    var none := Thread([], used, step, key);
    assert none == [];
    assert KeysOf(none, key) == {};
    assert used + KeysOf(none, key) == used;
  }

  lemma StepFresh<T, K>(x0: T, u0: set<K>, step: (T, set<K>) -> T, key: T -> K)
    requires forall x: T, u: set<K> {:trigger step(x, u)} :: key(step(x, u)) !in u
    ensures key(step(x0, u0)) !in u0
  {
  }

  /**
   * When a step never yields a key it was told is taken, no result key was in
   * `used` and no two results share a key.
   */
  lemma ThreadFresh<T, K>(xs: seq<T>, used: set<K>, step: (T, set<K>) -> T, key: T -> K)
    requires forall x: T, u: set<K> {:trigger step(x, u)} :: key(step(x, u)) !in u
    ensures var r := Thread(xs, used, step, key);
      && (forall i :: 0 <= i < |r| ==> key(r[i]) !in used)
      && (forall i, j :: 0 <= i < j < |r| ==> key(r[i]) != key(r[j]))
  {
    var r := Thread(xs, used, step, key);
    ThreadAt(xs, used, step, key);
    forall i | 0 <= i < |r| ensures key(r[i]) !in used + KeysOf(r[..i], key) {
      var taken := used + KeysOf(r[..i], key);
      assert r[i] == step(xs[i], taken);
      StepFresh(xs[i], taken, step, key);
    }
    forall i, j | 0 <= i < j < |r| ensures key(r[i]) != key(r[j]) {
      assert r[..j][i] == r[i];
      assert key(r[i]) in KeysOf(r[..j], key);
    }
  }

  // ------------------------------------------------------------------ latest

  /**
   * What `f` answers for the last element it answers for at all, or `default`
   * when it answers for none: a scan in order where every answer overwrites the
   * previous one.
   */
  function Latest<T, C, R>(xs: seq<T>, c: C, f: (T, C) -> Option<R>, default: R): R
    decreases |xs|
  {
    if xs == [] then default
    else
      match f(xs[|xs| - 1], c)
      case Some(r) => r
      case None => Latest(xs[..|xs| - 1], c, f, default)
  }

  /** Scanning one more element: its answer, if any, replaces the one so far. */
  lemma LatestStep<T, C, R>(xs: seq<T>, i: nat, c: C, f: (T, C) -> Option<R>, default: R)
    requires i < |xs|
    ensures Latest(xs[..i + 1], c, f, default)
         == match f(xs[i], c) case Some(r) => r case None => Latest(xs[..i], c, f, default)
  {
    assert xs[..i + 1][..i] == xs[..i];
    assert xs[..i + 1][i] == xs[i];
  }

  /** When element `j` has an answer and no later one does, the answer of `j` is the result. */
  lemma {:induction false} LatestAt<T, C, R>(xs: seq<T>, c: C, f: (T, C) -> Option<R>, default: R, j: nat)
    requires j < |xs| && f(xs[j], c).Some?
    requires forall k :: j < k < |xs| ==> f(xs[k], c).None?
    ensures Latest(xs, c, f, default) == f(xs[j], c).value
    decreases |xs|
  {
    var n := |xs| - 1;
    if j < n {
      var init := xs[..n];
      assert f(xs[n], c).None?;
      forall k | j < k < |init| ensures f(init[k], c).None? {
        assert init[k] == xs[k];
      }
      assert init[j] == xs[j];
      LatestAt(init, c, f, default, j);
    }
  }

  /** With no answer anywhere, the result is the default. */
  lemma {:induction false} LatestNone<T, C, R>(xs: seq<T>, c: C, f: (T, C) -> Option<R>, default: R)
    requires forall k :: 0 <= k < |xs| ==> f(xs[k], c).None?
    ensures Latest(xs, c, f, default) == default
    decreases |xs|
  {
    if xs != [] {
      var init := xs[..|xs| - 1];
      forall k | 0 <= k < |init| ensures f(init[k], c).None? {
        assert init[k] == xs[k];
      }
      LatestNone(init, c, f, default);
    }
  }

  /** Where some element has an answer, there is a last one. */
  lemma {:induction false} LastAnswered<T, C, R>(xs: seq<T>, c: C, f: (T, C) -> Option<R>) returns (j: nat)
    requires exists k :: 0 <= k < |xs| && f(xs[k], c).Some?
    ensures j < |xs| && f(xs[j], c).Some?
    ensures forall k :: j < k < |xs| ==> f(xs[k], c).None?
    decreases |xs|
  {
    var n := |xs| - 1;
    if f(xs[n], c).Some? {
      j := n;
    } else {
      var init := xs[..n];
      var k :| 0 <= k < |xs| && f(xs[k], c).Some?;
      assert init[k] == xs[k];
      j := LastAnswered(init, c, f);
      assert init[j] == xs[j];
      forall k' | j < k' < |xs| ensures f(xs[k'], c).None? {
        if k' < n {
          assert init[k'] == xs[k'];
        }
      }
    }
  }
}
