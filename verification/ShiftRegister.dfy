/**
  Shift registers over any values with an addition: what linearity and
  injectivity of one step say about whole runs.
*/
module ShiftRegister {

  /** k applications of f. */
  function Iterate<T>(f: T -> T, r: T, k: nat): T {
    if k == 0 then r else f(Iterate(f, r, k - 1))
  }

  /** Register with step g after adding in a run of symbols one by one. */
  function Absorb<T>(g: T -> T, plus: (T, T) -> T, r: T, data: seq<T>): T {
    if data == [] then r else g(plus(Absorb(g, plus, r, data[..|data| - 1]), data[|data| - 1]))
  }

  function AddAll<T>(plus: (T, T) -> T, a: seq<T>, b: seq<T>): seq<T>
    requires |a| == |b|
  {
    if a == [] then []
    else AddAll(plus, a[..|a| - 1], b[..|a| - 1]) + [plus(a[|a| - 1], b[|a| - 1])]
  }

  ghost predicate LinearAt<T>(f: T -> T, plus: (T, T) -> T, x: T, y: T) {
    f(plus(x, y)) == plus(f(x), f(y))
  }

  ghost predicate Linear<T(!new)>(f: T -> T, plus: (T, T) -> T) {
    forall x, y :: LinearAt(f, plus, x, y)
  }

  ghost predicate InjectiveAt<T>(f: T -> T, x: T, y: T) {
    f(x) == f(y) ==> x == y
  }

  ghost predicate Injective<T(!new)>(f: T -> T) {
    forall x, y :: InjectiveAt(f, x, y)
  }

  ghost predicate CancelsAt<T>(plus: (T, T) -> T, x: T, y: T, b: T) {
    plus(x, b) == plus(y, b) ==> x == y
  }

  ghost predicate Cancels<T(!new)>(plus: (T, T) -> T) {
    forall x, y, b :: CancelsAt(plus, x, y, b)
  }

  ghost predicate RegroupsAt<T>(plus: (T, T) -> T, x: T, y: T, a: T, b: T) {
    plus(plus(x, y), plus(a, b)) == plus(plus(x, a), plus(y, b))
  }

  ghost predicate Regroups<T(!new)>(plus: (T, T) -> T) {
    forall x, y, a, b :: RegroupsAt(plus, x, y, a, b)
  }

  lemma {:induction false} IterateLinear<T(!new)>(f: T -> T, plus: (T, T) -> T, x: T, y: T, k: nat)
    requires Linear(f, plus)
    ensures Iterate(f, plus(x, y), k) == plus(Iterate(f, x, k), Iterate(f, y, k))
  {
    if k > 0 {
      IterateLinear(f, plus, x, y, k - 1);
      assert LinearAt(f, plus, Iterate(f, x, k - 1), Iterate(f, y, k - 1));
    }
  }

  lemma {:induction false} IterateInjective<T(!new)>(f: T -> T, x: T, y: T, k: nat)
    requires Injective(f) && Iterate(f, x, k) == Iterate(f, y, k)
    ensures x == y
  {
    if k > 0 {
      assert InjectiveAt(f, Iterate(f, x, k - 1), Iterate(f, y, k - 1));
      IterateInjective(f, x, y, k - 1);
    }
  }

  ghost predicate UndoesAt<T>(g: T -> T, f: T -> T, x: T) {
    g(f(x)) == x
  }

  /** If g undoes one step, it undoes as many as were made. */
  lemma {:induction false} IterateUndone<T(!new)>(g: T -> T, f: T -> T, x: T, k: nat)
    requires forall y :: UndoesAt(g, f, y)
    ensures Iterate(g, Iterate(f, x, k), k) == x
  {
    if k > 0 {
      assert UndoesAt(g, f, Iterate(f, x, k - 1));
      IterateOneMore(g, Iterate(f, x, k), k - 1);
      IterateUndone(g, f, x, k - 1);
    }
  }

  lemma {:induction false} IterateOneMore<T>(f: T -> T, x: T, k: nat)
    ensures Iterate(f, x, k + 1) == Iterate(f, f(x), k)
  {
    if k > 0 {
      IterateOneMore(f, x, k - 1);
    }
  }

  lemma AbsorbSnoc<T>(g: T -> T, plus: (T, T) -> T, r: T, data: seq<T>, b: T)
    ensures Absorb(g, plus, r, data + [b]) == g(plus(Absorb(g, plus, r, data), b))
  {
    assert (data + [b])[..|data|] == data;
  }

  lemma AddAllSnoc<T>(plus: (T, T) -> T, a: seq<T>, b: seq<T>, x: T, y: T)
    requires |a| == |b|
    ensures AddAll(plus, a + [x], b + [y]) == AddAll(plus, a, b) + [plus(x, y)]
  {
    assert (a + [x])[..|a|] == a && (b + [y])[..|a|] == b;
  }

  /** A linear step makes the whole run linear in start value and data together. */
  lemma {:induction false} AbsorbLinear<T(!new)>(g: T -> T, plus: (T, T) -> T, r: T, q: T, a: seq<T>, b: seq<T>)
    requires Linear(g, plus) && Regroups(plus) && |a| == |b|
    ensures Absorb(g, plus, plus(r, q), AddAll(plus, a, b)) == plus(Absorb(g, plus, r, a), Absorb(g, plus, q, b))
  {
    if a != [] {
      var n := |a| - 1;
      AbsorbLinear(g, plus, r, q, a[..n], b[..n]);
      AbsorbSnoc(g, plus, plus(r, q), AddAll(plus, a[..n], b[..n]), plus(a[n], b[n]));
      var x, y := Absorb(g, plus, r, a[..n]), Absorb(g, plus, q, b[..n]);
      assert RegroupsAt(plus, x, y, a[n], b[n]);
      assert LinearAt(g, plus, plus(x, a[n]), plus(y, b[n]));
    }
  }

  /** An injective step never lets two registers meet over equal data. */
  lemma {:induction false} AbsorbInjective<T(!new)>(g: T -> T, plus: (T, T) -> T, x: T, y: T, data: seq<T>)
    requires Injective(g) && Cancels(plus) && Absorb(g, plus, x, data) == Absorb(g, plus, y, data)
    ensures x == y
  {
    if data != [] {
      var n := |data| - 1;
      var p, q := Absorb(g, plus, x, data[..n]), Absorb(g, plus, y, data[..n]);
      assert InjectiveAt(g, plus(p, data[n]), plus(q, data[n]));
      assert CancelsAt(plus, p, q, data[n]);
      AbsorbInjective(g, plus, x, y, data[..n]);
    }
  }

  lemma {:induction false} AbsorbAppend<T>(g: T -> T, plus: (T, T) -> T, r: T, a: seq<T>, b: seq<T>)
    ensures Absorb(g, plus, r, a + b) == Absorb(g, plus, Absorb(g, plus, r, a), b)
  {
    if b == [] {
      assert a + b == a;
    } else {
      var n := |b| - 1;
      AbsorbAppend(g, plus, r, a, b[..n]);
      assert a + b[..n] + [b[n]] == a + b;
      AbsorbSnoc(g, plus, r, a + b[..n], b[n]);
    }
  }

  /** Register driven by a step that takes the old value and the next symbol. */
  function Drive<T>(h: (T, T) -> T, c: T, data: seq<T>): T {
    if data == [] then c else h(Drive(h, c, data[..|data| - 1]), data[|data| - 1])
  }

  ghost predicate SameStepAt<T>(g: T -> T, plus: (T, T) -> T, h: (T, T) -> T, c: T, b: T) {
    g(plus(c, b)) == h(c, b)
  }

  lemma {:induction false} AbsorbIsDrive<T(!new)>(
      g: T -> T, plus: (T, T) -> T, h: (T, T) -> T, c: T, data: seq<T>, symbols: set<T>)
    requires forall b :: b in data ==> b in symbols
    requires forall x, b :: b in symbols ==> SameStepAt(g, plus, h, x, b)
    ensures Absorb(g, plus, c, data) == Drive(h, c, data)
  {
    if data != [] {
      var n := |data| - 1;
      AbsorbIsDrive(g, plus, h, c, data[..n], symbols);
      assert SameStepAt(g, plus, h, Absorb(g, plus, c, data[..n]), data[n]);
    }
  }

  ghost predicate AssociatesAt<T>(plus: (T, T) -> T, x: T, y: T, z: T) {
    plus(x, plus(y, z)) == plus(plus(x, y), z)
  }

  ghost predicate Associates<T(!new)>(plus: (T, T) -> T) {
    forall x, y, z :: AssociatesAt(plus, x, y, z)
  }

  ghost predicate SwapsAt<T>(plus: (T, T) -> T, x: T, y: T, z: T) {
    plus(plus(x, y), z) == plus(plus(x, z), y)
  }

  lemma SwapsRegroup<T(!new)>(plus: (T, T) -> T)
    requires Associates(plus) && forall x, y, z :: SwapsAt(plus, x, y, z)
    ensures Regroups(plus)
  {
    forall x, y, a, b
      ensures RegroupsAt(plus, x, y, a, b)
    {
      assert AssociatesAt(plus, plus(x, y), a, b) && SwapsAt(plus, x, y, a) && AssociatesAt(plus, plus(x, a), y, b);
    }
  }

  ghost predicate MovesDownAt<T>(g: T -> T, plus: (T, T) -> T, down: T -> T, x: T, z: T) {
    g(plus(x, z)) == plus(g(x), down(z))
  }

  /** Values without low symbol only move down during a step. */
  ghost predicate MovesDown<T(!new)>(g: T -> T, plus: (T, T) -> T, down: T -> T, clear: T -> bool) {
    forall x, z :: clear(z) ==> MovesDownAt(g, plus, down, x, z)
  }

  /** Four symbols packed into one value x may be added in at once. */
  lemma AbsorbFour<T(!new)>(
      g: T -> T, plus: (T, T) -> T, down: T -> T, clear: T -> bool,
      r: T, x: T, a: T, b: T, c: T, d: T, z1: T, z2: T, z3: T)
    requires MovesDown(g, plus, down, clear) && Associates(plus)
    requires x == plus(a, z1) && clear(z1)
    requires down(z1) == plus(b, z2) && clear(z2)
    requires down(z2) == plus(c, z3) && clear(z3)
    requires down(z3) == d
    ensures Absorb(g, plus, r, [a, b, c, d]) == g(g(g(g(plus(r, x)))))
  {
    var p1 := AbsorbOne(g, plus, r, [], a);
    var p2 := AbsorbOne(g, plus, r, [a], b);
    var p3 := AbsorbOne(g, plus, r, [a, b], c);
    var p4 := AbsorbOne(g, plus, r, [a, b, c], d);
    assert AssociatesAt(plus, r, a, z1) && MovesDownAt(g, plus, down, plus(r, a), z1);
    assert g(plus(r, x)) == plus(p1, down(z1));
    assert AssociatesAt(plus, p1, b, z2) && MovesDownAt(g, plus, down, plus(p1, b), z2);
    assert g(g(plus(r, x))) == plus(p2, down(z2));
    assert AssociatesAt(plus, p2, c, z3) && MovesDownAt(g, plus, down, plus(p2, c), z3);
    assert g(g(g(plus(r, x)))) == plus(p3, d);
    assert [a, b] + [c] == [a, b, c] && [a, b, c] + [d] == [a, b, c, d];
  }

  lemma AbsorbOne<T>(g: T -> T, plus: (T, T) -> T, r: T, data: seq<T>, b: T) returns (p: T)
    ensures p == Absorb(g, plus, r, data + [b]) == g(plus(Absorb(g, plus, r, data), b))
  {
    AbsorbSnoc(g, plus, r, data, b);
    p := Absorb(g, plus, r, data + [b]);
  }

  lemma IterateFour<T>(f: T -> T, r: T)
    ensures Iterate(f, r, 4) == f(f(f(f(r))))
  {
    assert Iterate(f, r, 2) == f(f(r));
  }

  lemma {:induction false} IterateSum<T>(f: T -> T, r: T, j: nat, k: nat)
    ensures Iterate(f, r, j + k) == Iterate(f, Iterate(f, r, j), k)
  {
    if k > 0 {
      IterateSum(f, r, j, k - 1);
    }
  }
}
