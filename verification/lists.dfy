/** The Ruby `Array` operations used to build name lists: `uniq` and
    difference (`-`), which is also what `reject { |u| list.include?(u) }`
    computes. */
module Lists {

  predicate NoDuplicates<T(==,!new)>(xs: seq<T>) {
    forall i, j :: 0 <= i < j < |xs| ==> xs[i] != xs[j]
  }

  /** `Array#uniq`: the first occurrence of every element, in order. */
  function Uniq<T(==,!new)>(xs: seq<T>): (r: seq<T>)
    ensures NoDuplicates(r)
    ensures forall x :: x in r <==> x in xs
    ensures |xs| > 0 ==> |r| > 0 && r[0] == xs[0]
    decreases |xs|
  {
    if |xs| == 0 then []
    else
      var u := Uniq(xs[..|xs| - 1]);
      assert xs == xs[..|xs| - 1] + [xs[|xs| - 1]];
      if xs[|xs| - 1] in u then u else u + [xs[|xs| - 1]]
  }

  /** `Array#-`: every element of `xs` that does not occur in `ys`, in
      order, with repetitions kept. */
  function Minus<T(==,!new)>(xs: seq<T>, ys: seq<T>): (r: seq<T>)
    ensures forall x :: x in r <==> x in xs && x !in ys
    ensures NoDuplicates(xs) ==> NoDuplicates(r)
    decreases |xs|
  {
    if |xs| == 0 then []
    else
      var rest := Minus(xs[1..], ys);
      assert xs == [xs[0]] + xs[1..];
      if xs[0] in ys then rest else [xs[0]] + rest
  }

  /** The difference keeps the order of `xs`: it is computed piecewise
      over any split of `xs`, and a single element survives exactly when
      it is not in `ys`. */
  lemma {:induction false} MinusKeepsOrder<T(!new)>(a: seq<T>, b: seq<T>, ys: seq<T>)
    ensures Minus(a + b, ys) == Minus(a, ys) + Minus(b, ys)
    ensures |a| == 1 ==> Minus(a, ys) == if a[0] in ys then [] else a
    decreases |a|
  {
    if |a| == 0 {
      assert a + b == b;
    } else {
      var x, rest := a[0], a[1..];
      var head: seq<T> := if x in ys then [] else [x];
      assert a == [x] + rest;
      assert a + b == [x] + (rest + b);
      MinusKeepsOrder(rest, b, ys);
      calc {
        Minus(a + b, ys);
        { MinusCons(x, rest + b, ys); }
        head + Minus(rest + b, ys);
        head + (Minus(rest, ys) + Minus(b, ys));
        (head + Minus(rest, ys)) + Minus(b, ys);
        { MinusCons(x, rest, ys); }
        Minus(a, ys) + Minus(b, ys);
      }
    }
  }

  lemma MinusCons<T(!new)>(x: T, xs: seq<T>, ys: seq<T>)
    ensures Minus([x] + xs, ys) == (if x in ys then [] else [x]) + Minus(xs, ys)
  {
    assert ([x] + xs)[1..] == xs;
  }

  /** Repetitions are kept: every element not in `ys` occurs in the
      difference as often as in `xs`. */
  lemma {:induction false} MinusCounts<T(!new)>(xs: seq<T>, ys: seq<T>)
    ensures forall x :: multiset(Minus(xs, ys))[x] == if x in ys then 0 else multiset(xs)[x]
    decreases |xs|
  {
    if |xs| > 0 {
      MinusCounts(xs[1..], ys);
      assert xs == [xs[0]] + xs[1..];
    }
  }
}
