/** Poses as elements of an arbitrary group: composition, inversion and the zero pose. */
module Poses {

  datatype Group<!P> = Group(compose: (P, P) -> P, inverse: P -> P, zero: P)

  ghost predicate IsGroup<P(!new)>(g: Group<P>)
  {
    && (forall a, b, c :: g.compose(g.compose(a, b), c) == g.compose(a, g.compose(b, c)))
    && (forall a :: g.compose(g.zero, a) == a && g.compose(a, g.zero) == a)
    && (forall a :: g.compose(g.inverse(a), a) == g.zero && g.compose(a, g.inverse(a)) == g.zero)
  }

  /** The pose of something at `a` as seen from something at `b`. */
  function Relative<P>(g: Group<P>, a: P, b: P): P
  {
    g.compose(g.inverse(b), a)
  }

  lemma Associative<P(!new)>(g: Group<P>, a: P, b: P, c: P)
    requires IsGroup(g)
    ensures g.compose(g.compose(a, b), c) == g.compose(a, g.compose(b, c))
  {
  }

  lemma Neutral<P(!new)>(g: Group<P>, a: P)
    requires IsGroup(g)
    ensures g.compose(g.zero, a) == a && g.compose(a, g.zero) == a
  {
  }

  lemma Inverse<P(!new)>(g: Group<P>, a: P)
    requires IsGroup(g)
    ensures g.compose(g.inverse(a), a) == g.zero && g.compose(a, g.inverse(a)) == g.zero
  {
  }

  /** What is done and then undone leaves the rest. */
  lemma Undone<P(!new)>(g: Group<P>, a: P, b: P)
    requires IsGroup(g)
    ensures g.compose(g.inverse(a), g.compose(a, b)) == b
    ensures g.compose(a, g.compose(g.inverse(a), b)) == b
  {
  }

  lemma InverseOfProduct<P(!new)>(g: Group<P>, a: P, b: P)
    requires IsGroup(g)
    ensures g.inverse(g.compose(a, b)) == g.compose(g.inverse(b), g.inverse(a))
  {
    hide IsGroup;
    var ab, i := g.compose(a, b), g.compose(g.inverse(b), g.inverse(a));
    calc {
      g.inverse(ab);
    == { Neutral(g, g.inverse(ab)); Undone(g, b, g.inverse(ab)); }
      g.compose(g.inverse(b), g.compose(b, g.inverse(ab)));
    == { Undone(g, a, g.compose(b, g.inverse(ab))); }
      g.compose(g.inverse(b), g.compose(g.inverse(a), g.compose(a, g.compose(b, g.inverse(ab)))));
    == { Associative(g, a, b, g.inverse(ab)); Inverse(g, ab); }
      g.compose(g.inverse(b), g.compose(g.inverse(a), g.zero));
    == { Neutral(g, g.inverse(a)); }
      i;
    }
  }

  /** Seen from `c`, what is at `a` is where it is seen from `b`, moved to where `b` is seen from `c`. */
  lemma RelativeChains<P(!new)>(g: Group<P>, a: P, b: P, c: P)
    requires IsGroup(g)
    ensures g.compose(Relative(g, b, c), Relative(g, a, b)) == Relative(g, a, c)
    ensures Relative(g, a, a) == g.zero
  {
  }

  /** A move common to both ends changes nothing between them. */
  lemma RelativeCancels<P(!new)>(g: Group<P>, m: P, a: P, b: P)
    requires IsGroup(g)
    ensures Relative(g, g.compose(m, a), g.compose(m, b)) == Relative(g, a, b)
  {
    hide IsGroup;
    InverseOfProduct(g, m, b);
    Associative(g, g.inverse(b), g.inverse(m), g.compose(m, a));
    Undone(g, m, a);
  }
}
