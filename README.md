# ctrs — identity, composition and unit, with their category laws

The `ctrs` crate illustrates the first chapter of *Category Theory for
Programmers* with three generic combinators: `id`, which returns its argument;
`compose(f, g)`, which returns the closure "g after f"; and `unit`, which maps
any value to `()`. Its documentation states the laws these combinators obey:
identity is a unit under composition, and composition is associative. It calls
`unit` a polymorphic function from any type to the unit type. The model adds
one law that the crate does not state: `unit` is the only such function
(`UnitIsTerminal`).

The model is one Dafny module, `Ctrs` in `ctrs.dfy`. As a modelling choice, a
Rust `Fn(A) -> B` is taken to be total and pure and is modelled as Dafny's total
arrow type `A -> B`, which reads no state and accepts every input. A Rust
closure can panic, loop forever or have effects; see "Left out". `compose`
returns the lambda `x => g(f(x))`. Dafny has no extensionality axiom for function values, so every law is stated pointwise:
both sides agree on every input. The `(!new)` marks on some type parameters let
contracts quantify over all values of that type. They rule out no Rust
instantiation, because a Rust value is not a reference into Dafny's heap.

The last part of the module is a supplement with no counterpart in the crate's
code. It extends the associativity and unit laws (src/lib.rs:77-79) from two
arrows to a path of arrows, for arrows on one type only. `ComposeAll` composes
such a path, starting from `id`. `ApplyAll` is its reference definition: it
applies the arrows one by one. Two lemmas show that a path may be split
anywhere.

## Model

| member | source | states |
|---|---|---|
| `Ctrs.Id` | src/lib.rs:91-93 | `id` returns its argument unchanged, for a value of any type (the promise of src/lib.rs:58-59); its partner laws are `IdIsUnit` |
| `Ctrs.Unit` | src/lib.rs:155-158 | `unit` discards its argument and returns `()`; the type `()` has one value, so there is nothing more to state |
| `Ctrs.IdExamples` | src/lib.rs:85-92 | `id(x)` is `x` for a value of any type; in particular `id(1) == 1` and `id("OK") == "OK"` |
| `Ctrs.Compose` | src/lib.rs:147-153 | the composite applies `f` first and `g` to its result: `compose(f, g)(x) == g(f(x))` for every `x` |
| `Ctrs.IdIsUnit` | src/lib.rs:55 | identity is a left and a right unit: `compose(id, f)` and `compose(f, id)` agree with `f` on every input |
| `Ctrs.ComposeAssociative` | src/lib.rs:77 | `compose(compose(f, g), h)` and `compose(f, compose(g, h))` agree on every input |
| `Ctrs.ComposeIsPure` | src/lib.rs:152 | the composite reads no state and is defined on every input, so repeated calls on one input give one result; this holds because `Compose` returns a total arrow `A -> C` and its operands are taken to be total and pure |
| `Ctrs.UnitCollapses` | src/lib.rs:155-158 | `unit(x) == unit(y) == ()` for any two values of any two types |
| `Ctrs.UnitIsTerminal` | src/lib.rs:155 | every arrow `T -> ()` agrees with `unit` on every input: the arrow into the unit type is unique (a law added here; the crate states only that `unit` maps any type to the unit type) |
| `Ctrs.ComposeExamples` | src/lib.rs:118-145 | `inc(1) == 2`, `compose(id, inc)(1) == 2`, `compose(inc, double)(1) == 4` and `compose(double, inc)(1) == 3` |
| `Ctrs.IncDoubleDoNotCommute` | src/lib.rs:133-145 | "g after f" is not "f after g": `compose(inc, double)` and `compose(double, inc)` differ on some input |
| `Ctrs.ComposeAll` | src/lib.rs:77-79 | supplement, derived from the associativity and unit laws for arrows on one type: the composite of a path of arrows, built by `compose` from `id`, applies the path's arrows one by one, first arrow first, on every input |
| `Ctrs.ApplyAllConcat` | src/lib.rs:77-79 | supplement, for arrows on one type: running a concatenated path runs the first path and then the second on its result |
| `Ctrs.ComposeAllConcat` | src/lib.rs:77-79 | supplement, for arrows on one type: the composite of a concatenated path is the composition of the two paths' composites: a path can be split anywhere |

## Left out

- Ownership and lifetimes are not modelled: the `'static` bounds, the boxed `dyn Fn` and the `move` capture. A Dafny function value already stays valid after `Compose` returns.
- Ctrs.Compose, Ctrs.ComposeIsPure: the operands are assumed total and pure. A panic or an effect in `f` or `g` is not modelled, nor is `g` not running when `f` panics, nor a closure that loops forever.
- `Ctrs.ComposeExamples`: `inc` and `double` use mathematical integers, not `i32` with overflow. The examples only use small values.
- The crate-level prose and the answers to the chapter's questions (src/lib.rs:1-53) are not modelled. They contain no code. The path supplement does not model them either; it rests on the laws at src/lib.rs:77-79.
- The notes on memoization and isomorphisms (src/lib.rs:160-178) are not modelled. They are comments and nothing in them is implemented.
- The laws are stated pointwise, not as equalities of function values. Dafny cannot prove that two function values are equal from agreement on every input.
