/**
 * The pair comparators of `PairUtil`.
 *
 * A Java `Comparator` (and a type's natural `compareTo`) is a function to
 * `int` whose sign is the verdict.  The "natural" comparators work on pairs
 * whose components may be null; a null component is `None` here, and a
 * present one is compared with the component type's natural order, passed
 * in as a comparator.  The comparators built from user comparators hand the
 * raw components (null or not) to those comparators, so their pairs carry
 * the components unchanged.
 */
module PairUtil {
  import opened Outcomes

  datatype Pair<A, B> = Pair(first: A, second: B)

  type Comparator<!T> = (T, T) -> int

  function Swap<A, B>(p: Pair<A, B>): Pair<B, A> {
    Pair(p.second, p.first)
  }

  function Sign(x: int): int {
    if x < 0 then -1 else if x > 0 then 1 else 0
  }

  /** The contract of `Comparable`/`Comparator`: `sgn(cmp(x, y)) == -sgn(cmp(y, x))`. */
  ghost predicate Antisymmetric<T(!new)>(cmp: Comparator<T>) {
    forall x, y :: Sign(cmp(x, y)) == -Sign(cmp(y, x))
  }

  /** Every value compares equal to itself. */
  ghost predicate Reflexive<T(!new)>(cmp: Comparator<T>) {
    forall x :: cmp(x, x) == 0
  }

  /** "At most" under `cmp` is transitive. */
  ghost predicate Transitive<T(!new)>(cmp: Comparator<T>) {
    forall x, y, z :: cmp(x, y) <= 0 && cmp(y, z) <= 0 ==> cmp(x, z) <= 0
  }

  /**
   * One component of a natural comparison: two present values are compared
   * with `cmp`; a present value sorts before null; two nulls tie.
   */
  function CompareComponent<T>(cmp: Comparator<T>, a: Option<T>, b: Option<T>): int {
    match a
    case Some(x) =>
      (match b
       case None => -1
       case Some(y) => cmp(x, y))
    case None =>
      if b.Some? then 1 else 0
  }

  /** `CompareNatural.compare`: by first component, then by second. */
  function CompareNatural<A, B>(ca: Comparator<A>, cb: Comparator<B>,
                                o1: Pair<Option<A>, Option<B>>, o2: Pair<Option<A>, Option<B>>): int
  {
    var delta1 := CompareComponent(ca, o1.first, o2.first);
    if delta1 != 0 then delta1
    else CompareComponent(cb, o1.second, o2.second)
  }

  /** `CompareNaturalFirst.compare`: by first component only. */
  function CompareNaturalFirst<A, B>(ca: Comparator<A>,
                                     o1: Pair<Option<A>, B>, o2: Pair<Option<A>, B>): int
  {
    CompareComponent(ca, o1.first, o2.first)
  }

  /** `CompareNaturalSecond.compare`: by second component only. */
  function CompareNaturalSecond<A, B>(cb: Comparator<B>,
                                      o1: Pair<A, Option<B>>, o2: Pair<A, Option<B>>): int
  {
    CompareComponent(cb, o1.second, o2.second)
  }

  /** `CompareNaturalSwapped.compare`: by second component, then by first. */
  function CompareNaturalSwapped<A, B>(ca: Comparator<A>, cb: Comparator<B>,
                                       o1: Pair<Option<A>, Option<B>>, o2: Pair<Option<A>, Option<B>>): int
  {
    var delta2 := CompareComponent(cb, o1.second, o2.second);
    if delta2 != 0 then delta2
    else CompareComponent(ca, o1.first, o2.first)
  }

  /** `Compare.compare`: `fcomparator` on the firsts, `scomparator` on a tie. */
  function Compare<A, B>(fc: Comparator<A>, sc: Comparator<B>, o1: Pair<A, B>, o2: Pair<A, B>): int {
    var delta1 := fc(o1.first, o2.first);
    if delta1 != 0 then delta1
    else sc(o1.second, o2.second)
  }

  /** `CompareByFirst.compare`. */
  function CompareByFirst<A, B>(c: Comparator<A>, o1: Pair<A, B>, o2: Pair<A, B>): int {
    c(o1.first, o2.first)
  }

  /** `CompareBySecond.compare`. */
  function CompareBySecond<A, B>(c: Comparator<B>, o1: Pair<A, B>, o2: Pair<A, B>): int {
    c(o1.second, o2.second)
  }

  /** `CompareSwapped.compare`: `scomparator` on the seconds, `fcomparator` on a tie. */
  function CompareSwapped<A, B>(fc: Comparator<A>, sc: Comparator<B>, o1: Pair<A, B>, o2: Pair<A, B>): int {
    var delta2 := sc(o1.second, o2.second);
    if delta2 != 0 then delta2
    else fc(o1.first, o2.first)
  }

  // ----- null placement -------------------------------------------------

  /**
   * A pair whose first component is present sorts before one whose first is
   * null, and vice versa, whatever the second components are; two null
   * firsts leave the decision to the second components.
   */
  lemma NaturalNullPlacement<A, B>(ca: Comparator<A>, cb: Comparator<B>, x: A, b1: Option<B>, b2: Option<B>)
    ensures CompareNatural(ca, cb, Pair(Some(x), b1), Pair(None, b2)) == -1
    ensures CompareNatural(ca, cb, Pair(None, b1), Pair(Some(x), b2)) == 1
    ensures CompareNatural(ca, cb, Pair(None, b1), Pair(None, b2)) == CompareComponent(cb, b1, b2)
    ensures CompareComponent(cb, b1, None) == (if b1.Some? then -1 else 0)
    ensures CompareComponent(cb, None, b2) == (if b2.Some? then 1 else 0)
  {
  }

  // ----- lexicographic priority -------------------------------------------

  /**
   * `CompareNatural` is lexicographic: a decision on the first components is
   * final, and the second components are consulted exactly when the first
   * components tie.  It coincides with `Compare` over the null-aware
   * component comparators.
   */
  lemma NaturalIsLexicographic<A, B>(ca: Comparator<A>, cb: Comparator<B>,
                                     o1: Pair<Option<A>, Option<B>>, o2: Pair<Option<A>, Option<B>>)
    ensures CompareNaturalFirst(ca, o1, o2) != 0
            ==> CompareNatural(ca, cb, o1, o2) == CompareNaturalFirst(ca, o1, o2)
    ensures CompareNaturalFirst(ca, o1, o2) == 0
            ==> CompareNatural(ca, cb, o1, o2) == CompareNaturalSecond(cb, o1, o2)
    ensures CompareNatural(ca, cb, o1, o2)
            == Compare((a1, a2) => CompareComponent(ca, a1, a2), (b1, b2) => CompareComponent(cb, b1, b2), o1, o2)
  {
  }

  /** `CompareNaturalSwapped` is `CompareNatural` on the component-swapped pairs. */
  lemma NaturalSwappedIsNaturalOfSwap<A, B>(ca: Comparator<A>, cb: Comparator<B>,
                                            o1: Pair<Option<A>, Option<B>>, o2: Pair<Option<A>, Option<B>>)
    ensures CompareNaturalSwapped(ca, cb, o1, o2) == CompareNatural(cb, ca, Swap(o1), Swap(o2))
  {
  }

  /** `CompareSwapped` is `Compare` with the comparators and the components exchanged. */
  lemma SwappedIsCompareOfSwap<A, B>(fc: Comparator<A>, sc: Comparator<B>, o1: Pair<A, B>, o2: Pair<A, B>)
    ensures CompareSwapped(fc, sc, o1, o2) == Compare(sc, fc, Swap(o1), Swap(o2))
    ensures sc(o1.second, o2.second) != 0 ==> CompareSwapped(fc, sc, o1, o2) == sc(o1.second, o2.second)
    ensures sc(o1.second, o2.second) == 0 ==> CompareSwapped(fc, sc, o1, o2) == fc(o1.first, o2.first)
  {
  }

  /**
   * The single-component comparators ignore the other component: pairs that
   * agree on the compared component (or both hold null there) tie.
   */
  lemma SingleComponentIgnoresOther<A(!new), B(!new)>(ca: Comparator<A>, cb: Comparator<B>,
                                          a: Option<A>, b1: B, b2: B, a1: A, b: Option<B>, a2: A)
    requires Reflexive(ca) && Reflexive(cb)
    ensures CompareNaturalFirst(ca, Pair(a, b1), Pair(a, b2)) == 0
    ensures CompareNaturalSecond(cb, Pair(a1, b), Pair(a2, b)) == 0
  {
  }

  // ----- comparator laws ------------------------------------------------

  lemma ComponentAntisymmetric<T(!new)>(cmp: Comparator<T>, a: Option<T>, b: Option<T>)
    requires Antisymmetric(cmp)
    ensures Sign(CompareComponent(cmp, a, b)) == -Sign(CompareComponent(cmp, b, a))
  {
    if a.Some? && b.Some? {
      assert Sign(cmp(a.value, b.value)) == -Sign(cmp(b.value, a.value));
    }
  }

  /** Every comparator of the file inherits antisymmetry from its component orders. */
  lemma ComparatorsAntisymmetric<A(!new), B(!new)>(ca: Comparator<A>, cb: Comparator<B>,
                                                 o1: Pair<Option<A>, Option<B>>, o2: Pair<Option<A>, Option<B>>,
                                                 p1: Pair<A, B>, p2: Pair<A, B>)
    requires Antisymmetric(ca) && Antisymmetric(cb)
    ensures Sign(CompareNatural(ca, cb, o1, o2)) == -Sign(CompareNatural(ca, cb, o2, o1))
    ensures Sign(CompareNaturalSwapped(ca, cb, o1, o2)) == -Sign(CompareNaturalSwapped(ca, cb, o2, o1))
    ensures Sign(CompareNaturalFirst(ca, o1, o2)) == -Sign(CompareNaturalFirst(ca, o2, o1))
    ensures Sign(CompareNaturalSecond(cb, o1, o2)) == -Sign(CompareNaturalSecond(cb, o2, o1))
    ensures Sign(Compare(ca, cb, p1, p2)) == -Sign(Compare(ca, cb, p2, p1))
    ensures Sign(CompareSwapped(ca, cb, p1, p2)) == -Sign(CompareSwapped(ca, cb, p2, p1))
    ensures Sign(CompareByFirst(ca, p1, p2)) == -Sign(CompareByFirst(ca, p2, p1))
    ensures Sign(CompareBySecond(cb, p1, p2)) == -Sign(CompareBySecond(cb, p2, p1))
  {
    ComponentAntisymmetric(ca, o1.first, o2.first);
    ComponentAntisymmetric(cb, o1.second, o2.second);
    assert Sign(ca(p1.first, p2.first)) == -Sign(ca(p2.first, p1.first));
    assert Sign(cb(p1.second, p2.second)) == -Sign(cb(p2.second, p1.second));
  }

  /** A pair compares equal to itself under every comparator of the file. */
  lemma ComparatorsReflexive<A(!new), B(!new)>(ca: Comparator<A>, cb: Comparator<B>,
                                             o: Pair<Option<A>, Option<B>>, p: Pair<A, B>)
    requires Reflexive(ca) && Reflexive(cb)
    ensures CompareNatural(ca, cb, o, o) == 0
    ensures CompareNaturalSwapped(ca, cb, o, o) == 0
    ensures CompareNaturalFirst(ca, o, o) == 0
    ensures CompareNaturalSecond(cb, o, o) == 0
    ensures Compare(ca, cb, p, p) == 0
    ensures CompareSwapped(ca, cb, p, p) == 0
    ensures CompareByFirst(ca, p, p) == 0
    ensures CompareBySecond(cb, p, p) == 0
  {
  }

  lemma ComponentTransitive<T(!new)>(cmp: Comparator<T>, a: Option<T>, b: Option<T>, c: Option<T>)
    requires Antisymmetric(cmp) && Transitive(cmp)
    ensures CompareComponent(cmp, a, b) <= 0 && CompareComponent(cmp, b, c) <= 0
            ==> CompareComponent(cmp, a, c) <= 0
    ensures CompareComponent(cmp, a, b) == 0 && CompareComponent(cmp, b, c) == 0
            ==> CompareComponent(cmp, a, c) == 0
    ensures CompareComponent(cmp, a, b) <= 0 && CompareComponent(cmp, b, c) <= 0
            && (CompareComponent(cmp, a, b) < 0 || CompareComponent(cmp, b, c) < 0)
            ==> CompareComponent(cmp, a, c) < 0
  {
    if a.Some? && b.Some? && c.Some? {
      var x, y, z := a.value, b.value, c.value;
      assert Sign(cmp(x, y)) == -Sign(cmp(y, x));
      assert Sign(cmp(y, z)) == -Sign(cmp(z, y));
      assert Sign(cmp(x, z)) == -Sign(cmp(z, x));
      if cmp(x, y) <= 0 && cmp(y, z) <= 0 {
        assert cmp(x, z) <= 0;
        if cmp(x, z) == 0 {
          assert cmp(z, x) <= 0;
          assert cmp(z, y) <= 0;
          assert cmp(y, x) <= 0;
        }
      }
    }
  }

  /**
   * Given antisymmetric, transitive component orders, `CompareNatural` is a
   * transitive order on pairs, so sorting with it is well defined.
   */
  lemma NaturalTransitive<A(!new), B(!new)>(ca: Comparator<A>, cb: Comparator<B>,
                                          o1: Pair<Option<A>, Option<B>>, o2: Pair<Option<A>, Option<B>>,
                                          o3: Pair<Option<A>, Option<B>>)
    requires Antisymmetric(ca) && Transitive(ca)
    requires Antisymmetric(cb) && Transitive(cb)
    requires CompareNatural(ca, cb, o1, o2) <= 0 && CompareNatural(ca, cb, o2, o3) <= 0
    ensures CompareNatural(ca, cb, o1, o3) <= 0
  {
    ComponentTransitive(ca, o1.first, o2.first, o3.first);
    ComponentTransitive(cb, o1.second, o2.second, o3.second);
  }

  /** The same holds for the comparator over user comparators, with the null-free components. */
  lemma {:induction false} CompareTransitive<A(!new), B(!new)>(fc: Comparator<A>, sc: Comparator<B>,
                                                              p1: Pair<A, B>, p2: Pair<A, B>, p3: Pair<A, B>)
    requires Antisymmetric(fc) && Transitive(fc)
    requires Antisymmetric(sc) && Transitive(sc)
    requires Compare(fc, sc, p1, p2) <= 0 && Compare(fc, sc, p2, p3) <= 0
    ensures Compare(fc, sc, p1, p3) <= 0
  {
    ComponentTransitive(fc, Some(p1.first), Some(p2.first), Some(p3.first));
    ComponentTransitive(sc, Some(p1.second), Some(p2.second), Some(p3.second));
  }
}
