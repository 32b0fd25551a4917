/** The three combinators of the `ctrs` crate (src/lib.rs) and the category
    laws its documentation states for them: the identity arrow is a unit
    under composition and composition is associative. That `unit` is the only
    arrow into the unit type is a law added here; the crate only calls it a
    function from any type to the unit type.

    As a modelling choice, the operands of `compose` are taken to be total
    and pure: a Rust `Fn(A) -> B` becomes Dafny's total arrow type `A -> B`,
    which reads no heap and has no precondition. A Rust closure could panic,
    loop or have effects; the model does not capture that. Dafny has no
    extensionality axiom for function values, so every law is stated
    pointwise: the two sides agree on every input. */
module Ctrs {

  /** `id`: hands back its argument, unchanged, for a value of any type. */
  function Id<T>(x: T): (r: T)
    ensures r == x
  {
    x
  }

  /** `compose(f, g)`: the arrow "g after f", which runs `f` first and feeds
      its result to `g`. The result is a total function value that captures
      `f` and `g` and nothing else. */
  function Compose<A(!new), B, C>(f: A -> B, g: B -> C): (h: A -> C)
    ensures forall x {:trigger h(x)} :: h(x) == g(f(x))
  {
    x => g(f(x))
  }

  /** `unit`: discards its argument and returns the one value of type `()`. */
  function Unit<T>(t: T): ()
  {
    ()
  }

  // ---------------------------------------------------------------------
  // The laws of a category

  /** `id` returns what it is given, e.g. `id(1) == 1` and `id("OK") == "OK"`. */
  lemma IdExamples<T>(x: T)
    ensures Id(x) == x
    ensures Id(1) == 1 && Id("OK") == "OK"
  {
  }

  /** Identity is a unit under composition, on either side. */
  lemma IdIsUnit<A(!new), B>(f: A -> B)
    ensures forall x :: Compose(Id, f)(x) == f(x)
    ensures forall x :: Compose(f, Id)(x) == f(x)
  {
  }

  /** Composition is associative: `(f then g) then h` and `f then (g then h)`
      agree on every input. */
  lemma ComposeAssociative<A(!new), B(!new), C, D>(f: A -> B, g: B -> C, h: C -> D)
    ensures forall x :: Compose(Compose(f, g), h)(x) == Compose(f, Compose(g, h))(x)
  {
  }

  /** A composite reads no state and accepts every input, so two calls on
      the same input cannot disagree. This follows from the arrow type
      `A -> C` that `Compose` returns, given total and pure operands. */
  lemma ComposeIsPure<A(!new), B, C>(f: A -> B, g: B -> C, x: A)
    ensures Compose(f, g).requires(x)
    ensures Compose(f, g).reads(x) == {}
  {
  }

  /** `unit` collapses every value of every type to the same value. */
  lemma UnitCollapses<S, T>(x: S, y: T)
    ensures Unit(x) == Unit(y) == ()
  {
  }

  /** The unit type is terminal: any arrow into `()` agrees with `unit` on
      every input, so `unit` is the only one. The crate does not state this
      law; it is added here. */
  lemma UnitIsTerminal<T(!new)>(h: T -> ())
    ensures forall x :: h(x) == Unit(x)
  {
  }

  // ---------------------------------------------------------------------
  // The documentation's examples, on mathematical integers

  /** The incrementer of the documentation's examples. */
  function Inc(x: int): int
  {
    x + 1
  }

  /** The doubling function of the documentation's examples. */
  function Double(x: int): int
  {
    x * 2
  }

  /** `inc(1) == 2`, `compose(id, inc)(1) == 2` and, with "g after f",
      `compose(inc, double)(1) == 4` while the swapped order gives 3. */
  lemma ComposeExamples()
    ensures Inc(1) == 2
    ensures Compose(Id, Inc)(1) == 2
    ensures Compose(Inc, Double)(1) == 4
    ensures Compose(Double, Inc)(1) == 3
  {
  }

  /** Whether composing `f` and `g` in either order gives the same arrow. */
  ghost predicate Commute<A(!new)>(f: A -> A, g: A -> A)
  {
    forall x :: Compose(f, g)(x) == Compose(g, f)(x)
  }

  /** The order of the arguments of `compose` matters: `inc` and `double`
      do not commute. */
  lemma IncDoubleDoNotCommute()
    ensures !Commute(Inc, Double)
  {
    assert Compose(Inc, Double)(1) == 4 != 3 == Compose(Double, Inc)(1);
  }

  // ---------------------------------------------------------------------
  // Supplement, with no counterpart in the crate's code: paths of arrows on
  // one type. Associativity and the unit law let such a chain be composed
  // in one piece, whatever the bracketing.

  /** Reference semantics of a path: apply its arrows one by one, first
      arrow first. */
  function ApplyAll<T>(fs: seq<T -> T>, x: T): T
  {
    if fs == [] then x else ApplyAll(fs[1..], fs[0](x))
  }

  /** The composite of a path of arrows on one type, `id` for the empty
      path, built by `compose` from the right. It runs the path's arrows in
      order, first arrow first. */
  function ComposeAll<T(!new)>(fs: seq<T -> T>): (h: T -> T)
    ensures forall x {:trigger h(x)} :: h(x) == ApplyAll(fs, x)
  {
    if fs == [] then Id else Compose(fs[0], ComposeAll(fs[1..]))
  }

  /** Running a concatenated path runs the first part, then the second. */
  lemma {:induction false} ApplyAllConcat<T>(a: seq<T -> T>, b: seq<T -> T>, x: T)
    ensures ApplyAll(a + b, x) == ApplyAll(b, ApplyAll(a, x))
  {
    if a != [] {
      assert (a + b)[0] == a[0];
      assert (a + b)[1..] == a[1..] + b;
      ApplyAllConcat(a[1..], b, a[0](x));
    } else {
      assert a + b == b;
    }
  }

  /** Concatenating two paths composes their composites: the composite does
      not depend on where the path is split. */
  lemma ComposeAllConcat<T(!new)>(a: seq<T -> T>, b: seq<T -> T>, x: T)
    ensures ComposeAll(a + b)(x) == Compose(ComposeAll(a), ComposeAll(b))(x)
  {
    ApplyAllConcat(a, b, x);
  }
}
