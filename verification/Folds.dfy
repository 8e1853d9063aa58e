/** Left folds over sequences: the shape of every loop that feeds a register. */
module Folds {

  function Fold<S, T>(step: (S, T) -> S, s: S, input: seq<T>): S {
    if input == [] then s else Fold(step, step(s, input[0]), input[1..])
  }

  lemma {:induction false} FoldConcat<S, T>(step: (S, T) -> S, s: S, a: seq<T>, b: seq<T>)
    ensures Fold(step, s, a + b) == Fold(step, Fold(step, s, a), b)
  {
    if a == [] {
      assert a + b == b;
    } else {
      assert (a + b)[0] == a[0] && (a + b)[1..] == a[1..] + b;
      FoldConcat(step, step(s, a[0]), a[1..], b);
    }
  }

  lemma FoldOne<S, T>(step: (S, T) -> S, s: S, x: T)
    ensures Fold(step, s, [x]) == step(s, x)
  {
    assert [x][1..] == [];
  }

  lemma FoldLast<S, T>(step: (S, T) -> S, s: S, input: seq<T>, i: nat)
    requires i < |input|
    ensures Fold(step, s, input[..i + 1]) == step(Fold(step, s, input[..i]), input[i])
  {
    assert input[..i + 1] == input[..i] + [input[i]];
    FoldConcat(step, s, input[..i], [input[i]]);
    FoldOne(step, Fold(step, s, input[..i]), input[i]);
  }

  /** Each element replaced by the pieces it is made of. */
  function Flatten<T, U>(pieces: T -> seq<U>, input: seq<T>): seq<U> {
    if input == [] then [] else pieces(input[0]) + Flatten(pieces, input[1..])
  }

  lemma {:induction false} FlattenConcat<T, U>(pieces: T -> seq<U>, a: seq<T>, b: seq<T>)
    ensures Flatten(pieces, a + b) == Flatten(pieces, a) + Flatten(pieces, b)
  {
    if a == [] {
      assert a + b == b;
    } else {
      assert (a + b)[0] == a[0] && (a + b)[1..] == a[1..] + b;
      FlattenConcat(pieces, a[1..], b);
    }
  }

  lemma FlattenFour<T, U>(pieces: T -> seq<U>, t: seq<T>)
    requires |t| == 4
    ensures Flatten(pieces, t) == pieces(t[0]) + pieces(t[1]) + pieces(t[2]) + pieces(t[3])
  {
    assert t[1..][1..] == t[2..] && t[2..][1..] == t[3..] && t[3..][1..] == [];
    assert Flatten(pieces, t[3..]) == pieces(t[3]) + Flatten(pieces, []);
    assert Flatten(pieces, t[2..]) == pieces(t[2]) + Flatten(pieces, t[3..]);
    assert Flatten(pieces, t[1..]) == pieces(t[1]) + Flatten(pieces, t[2..]);
  }

  /** If one coarse step is a fold over the pieces, so is the whole fold. */
  lemma {:induction false} FoldFlatten<S(!new), T(!new), U>(
      coarse: (S, T) -> S, fine: (S, U) -> S, pieces: T -> seq<U>, s: S, input: seq<T>)
    requires forall r, t :: coarse(r, t) == Fold(fine, r, pieces(t))
    ensures Fold(coarse, s, input) == Fold(fine, s, Flatten(pieces, input))
  {
    if input != [] {
      FoldFlatten(coarse, fine, pieces, coarse(s, input[0]), input[1..]);
      FoldConcat(fine, s, pieces(input[0]), Flatten(pieces, input[1..]));
    }
  }

  function Iterate<S>(f: S -> S, n: nat, s: S): S {
    if n == 0 then s else Iterate(f, n - 1, f(s))
  }

  lemma {:induction false} IterateSplit<S>(f: S -> S, m: nat, n: nat, s: S)
    ensures Iterate(f, m + n, s) == Iterate(f, n, Iterate(f, m, s))
  {
    if m > 0 {
      IterateSplit(f, m - 1, n, f(s));
    }
  }

  lemma {:induction false} IterateAdditive<S(!new)>(f: S -> S, plus: (S, S) -> S, n: nat, a: S, b: S)
    requires forall x, y :: f(plus(x, y)) == plus(f(x), f(y))
    ensures Iterate(f, n, plus(a, b)) == plus(Iterate(f, n, a), Iterate(f, n, b))
  {
    if n > 0 {
      IterateAdditive(f, plus, n - 1, f(a), f(b));
    }
  }

  /** Two sequences that agree outside a window share what comes before and after it. */
  lemma SplitWindow<T>(x: seq<T>, y: seq<T>, i: nat, n: nat)
    returns (p: seq<T>, v: seq<T>, w: seq<T>, q: seq<T>)
    requires |x| == |y|
    requires forall k | 0 <= k < |x| && (k < i || i + n <= k) :: x[k] == y[k]
    ensures x == p + (v + q) && y == p + (w + q)
    ensures |v| == |w| <= n
  {
    var lo := if i < |x| then i else |x|;
    var hi := if i + n < |x| then i + n else |x|;
    p, v, w, q := x[..lo], x[lo..hi], y[lo..hi], x[hi..];
    assert x == p + (v + q);
    assert y[..lo] == p && y[hi..] == q;
    assert y == y[..lo] + (y[lo..hi] + y[hi..]);
  }
}
