/**
 * The navigation defaults of the `traits` crate: finding a value's variant
 * in `VARIANTS` by discriminant, and stepping to the next or previous value
 * of a variant list, with the `Cycle` contract they are measured against.
 *
 * A type's `PartialEq` is a parameter `eq`, `mem::discriminant` a parameter
 * `disc`; the variant list is a sequence.
 */
module Traits {

  /** The index of the first element satisfying `p`, or `|s|` when there is none. */
  function FirstWhere<T>(s: seq<T>, p: T -> bool): (i: nat)
    ensures i <= |s|
    ensures i < |s| ==> p(s[i])
    ensures forall j :: 0 <= j < i ==> !p(s[j])
    decreases |s|
  {
    if s == [] then 0
    else if p(s[0]) then 0
    else 1 + FirstWhere(s[1..], p)
  }

  /** `y == x` under `eq`, as the loops compare (the candidate on the left). */
  function EqTo<T>(eq: (T, T) -> bool, x: T): T -> bool {
    y => eq(y, x)
  }

  /** Has discriminant `d`. */
  function DiscIs<T, D(==)>(disc: T -> D, d: D): T -> bool {
    y => disc(y) == d
  }

  /** Derived `PartialEq` of a field-less enum: structural equality. */
  function Eq<T(==)>(a: T, b: T): bool {
    a == b
  }

  // ---------------------------------------------------------------------------
  // Variants::variant_lifetime_cast

  /** Some variant has the value's discriminant: what the `unsafe` contract of `Variants` guarantees. */
  predicate HasDisc<T, D(==)>(variants: seq<T>, disc: T -> D, value: T) {
    exists k :: 0 <= k < |variants| && disc(variants[k]) == disc(value)
  }

  /** The first entry of `variants` with the value's discriminant. */
  function Cast<T, D(==)>(variants: seq<T>, disc: T -> D, value: T): (r: T)
    requires HasDisc(variants, disc, value)
    ensures exists k :: 0 <= k < |variants| && r == variants[k] && disc(r) == disc(value)
                        && forall j :: 0 <= j < k ==> disc(variants[j]) != disc(value)
  {
    var k :| 0 <= k < |variants| && disc(variants[k]) == disc(value);
    assert DiscIs(disc, disc(value))(variants[k]);
    variants[FirstWhere(variants, DiscIs(disc, disc(value)))]
  }

  /** The slice loop of `variant_lifetime_cast`: drop heads until one has the value's discriminant. */
  method VariantLifetimeCast<T, D(==)>(variants: seq<T>, disc: T -> D, value: T) returns (r: T)
    requires HasDisc(variants, disc, value)
    ensures r == Cast(variants, disc, value)
  {
    var d := disc(value);
    var rest := variants;
    while true
      invariant |rest| <= |variants| && rest == variants[|variants| - |rest|..]
      invariant forall j :: 0 <= j < |variants| - |rest| ==> disc(variants[j]) != d
      invariant exists k :: 0 <= k < |rest| && disc(rest[k]) == d
      decreases |rest|
    {
      if disc(rest[0]) == d {
        ghost var i := |variants| - |rest|;
        assert variants[i] == rest[0];
        assert DiscIs(disc, d)(variants[i]);
        return rest[0];
      }
      rest := rest[1..];
    }
  }

  // ---------------------------------------------------------------------------
  // PartialVariants::partial_cycle_next / partial_cycle_prev

  /**
   * The element after the first occurrence of `x` among all but the last
   * element; the first element when there is none.
   */
  function NextOf<T>(vs: seq<T>, eq: (T, T) -> bool, x: T): (r: T)
    requires |vs| > 0
    ensures r in vs
    ensures forall i :: 0 <= i < |vs| - 1 && eq(vs[i], x) && (forall j :: 0 <= j < i ==> !eq(vs[j], x)) ==> r == vs[i + 1]
    ensures (forall i :: 0 <= i < |vs| - 1 ==> !eq(vs[i], x)) ==> r == vs[0]
  {
    var k := FirstWhere(vs[..|vs| - 1], EqTo(eq, x));
    if k < |vs| - 1 then vs[k + 1] else vs[0]
  }

  /**
   * The element before the first occurrence of `x` among all but the first
   * element; the last element when there is none.
   */
  function PrevOf<T>(vs: seq<T>, eq: (T, T) -> bool, x: T): (r: T)
    requires |vs| > 0
    ensures r in vs
    ensures forall i :: 1 <= i < |vs| && eq(vs[i], x) && (forall j :: 1 <= j < i ==> !eq(vs[j], x)) ==> r == vs[i - 1]
    ensures (forall i :: 1 <= i < |vs| ==> !eq(vs[i], x)) ==> r == vs[|vs| - 1]
  {
    var k := FirstWhere(vs[1..], EqTo(eq, x));
    if k < |vs| - 1 then vs[k] else vs[|vs| - 1]
  }

  /** The default `partial_cycle_next`: walk a peekable iterator, return the peeked element after a match. */
  method PartialCycleNext<T>(vs: seq<T>, eq: (T, T) -> bool, current: T) returns (r: T)
    requires |vs| > 0
    ensures r == NextOf(vs, eq, current)
  {
    var first := vs[0];
    var k := 0;
    while k + 1 < |vs|
      invariant k <= |vs| - 1
      invariant forall j :: 0 <= j < k ==> !eq(vs[j], current)
    {
      if eq(vs[k], current) {
        return vs[k + 1];
      }
      k := k + 1;
    }
    return first;
  }

  /** The default `partial_cycle_prev`: remember the last peeked element, return the one before a match. */
  method PartialCyclePrev<T>(vs: seq<T>, eq: (T, T) -> bool, current: T) returns (r: T)
    requires |vs| > 0
    ensures r == PrevOf(vs, eq, current)
  {
    var last := vs[0];
    var k := 0;
    while k + 1 < |vs|
      invariant k <= |vs| - 1
      invariant last == vs[k]
      invariant forall j :: 1 <= j <= k ==> !eq(vs[j], current)
    {
      last := vs[k + 1];
      if eq(vs[k + 1], current) {
        return vs[k];
      }
      k := k + 1;
    }
    return last;
  }

  /** Each element equals itself and no other element under `eq`. */
  predicate Distinct<T>(vs: seq<T>, eq: (T, T) -> bool) {
    forall i, j :: 0 <= i < |vs| && 0 <= j < |vs| ==> (eq(vs[i], vs[j]) <==> i == j)
  }

  /** `FirstWhere` is characterised by its ensures: the one index with `p` and none before. */
  lemma FirstWhereIs<T>(s: seq<T>, p: T -> bool, i: nat)
    requires i <= |s| && (i < |s| ==> p(s[i]))
    requires forall j :: 0 <= j < i ==> !p(s[j])
    ensures FirstWhere(s, p) == i
  {
  }

  /** The cyclic successor index. */
  function Succ(i: nat, n: nat): (r: nat)
    requires i < n
    ensures r < n && r == (i + 1) % n
  {
    if i + 1 < n then i + 1 else 0
  }

  /** The cyclic predecessor index. */
  function Pred(i: nat, n: nat): (r: nat)
    requires i < n
    ensures r < n && r == (i + n - 1) % n
  {
    if i > 0 then i - 1 else n - 1
  }

  /** On a list without duplicates the default next is the cyclic successor. */
  lemma NextOfCyclic<T>(vs: seq<T>, eq: (T, T) -> bool, i: nat)
    requires Distinct(vs, eq) && i < |vs|
    ensures NextOf(vs, eq, vs[i]) == vs[Succ(i, |vs|)]
  {
    var n := |vs|;
    var s, p := vs[..n - 1], EqTo(eq, vs[i]);
    assert forall j :: 0 <= j < |s| ==> (p(s[j]) <==> j == i);
    FirstWhereIs(s, p, if i < n - 1 then i else n - 1);
  }

  /** On a list without duplicates the default prev is the cyclic predecessor. */
  lemma PrevOfCyclic<T>(vs: seq<T>, eq: (T, T) -> bool, i: nat)
    requires Distinct(vs, eq) && i < |vs|
    ensures PrevOf(vs, eq, vs[i]) == vs[Pred(i, |vs|)]
  {
    var n := |vs|;
    var s, p := vs[1..], EqTo(eq, vs[i]);
    assert forall j :: 0 <= j < |s| ==> (p(s[j]) <==> j + 1 == i);
    FirstWhereIs(s, p, if i > 0 then i - 1 else n - 1);
  }

  /** On a list without duplicates next and prev undo each other. */
  lemma NextPrevInverse<T>(vs: seq<T>, eq: (T, T) -> bool, i: nat)
    requires Distinct(vs, eq) && i < |vs|
    ensures PrevOf(vs, eq, NextOf(vs, eq, vs[i])) == vs[i]
    ensures NextOf(vs, eq, PrevOf(vs, eq, vs[i])) == vs[i]
  {
    var n := |vs|;
    NextOfCyclic(vs, eq, i);
    PrevOfCyclic(vs, eq, Succ(i, n));
    PrevOfCyclic(vs, eq, i);
    NextOfCyclic(vs, eq, Pred(i, n));
  }

  // ---------------------------------------------------------------------------
  // Cycle and the blanket PartialVariants impl for Variants + Cycle

  /** The `unsafe` contract of `Cycle`: next and prev are the cyclic neighbours in `VARIANTS`. */
  ghost predicate CycleContract<T>(variants: seq<T>, cycleNext: T -> T, cyclePrev: T -> T) {
    forall i :: 0 <= i < |variants| ==>
      cycleNext(variants[i]) == variants[Succ(i, |variants|)] &&
      cyclePrev(variants[i]) == variants[Pred(i, |variants|)]
  }

  /** Each variant of a field-less enum appears once in `VARIANTS` with its own discriminant. */
  predicate DiscDistinct<T, D(==)>(variants: seq<T>, disc: T -> D) {
    forall i, j :: 0 <= i < |variants| && 0 <= j < |variants| && disc(variants[i]) == disc(variants[j]) ==> i == j
  }

  /** The blanket `partial_cycle_next`: cast `cycle_next(self)` back into `VARIANTS`. */
  method BlanketCycleNext<T, D(==)>(variants: seq<T>, disc: T -> D, cycleNext: T -> T, current: T) returns (r: T)
    requires HasDisc(variants, disc, cycleNext(current))
    ensures r == Cast(variants, disc, cycleNext(current))
  {
    r := VariantLifetimeCast(variants, disc, cycleNext(current));
  }

  /** The blanket `partial_cycle_prev`: cast `cycle_prev(self)` back into `VARIANTS`. */
  method BlanketCyclePrev<T, D(==)>(variants: seq<T>, disc: T -> D, cyclePrev: T -> T, current: T) returns (r: T)
    requires HasDisc(variants, disc, cyclePrev(current))
    ensures r == Cast(variants, disc, cyclePrev(current))
  {
    r := VariantLifetimeCast(variants, disc, cyclePrev(current));
  }

  /** Casting a listed variant finds that very entry. */
  lemma CastOfMember<T, D>(variants: seq<T>, disc: T -> D, i: nat)
    requires DiscDistinct(variants, disc) && i < |variants|
    ensures HasDisc(variants, disc, variants[i])
    ensures Cast(variants, disc, variants[i]) == variants[i]
  {
    var r := Cast(variants, disc, variants[i]);
    var k :| 0 <= k < |variants| && variants[k] == r;
  }

  /**
   * For a `Variants + Cycle` type the blanket next/prev are the cyclic
   * neighbours, and they agree with what the default loops would give
   * under the derived equality.
   */
  lemma BlanketIsDefault<T, D>(variants: seq<T>, disc: T -> D, cycleNext: T -> T, cyclePrev: T -> T, i: nat)
    requires CycleContract(variants, cycleNext, cyclePrev) && DiscDistinct(variants, disc) && i < |variants|
    ensures HasDisc(variants, disc, cycleNext(variants[i])) && HasDisc(variants, disc, cyclePrev(variants[i]))
    ensures Cast(variants, disc, cycleNext(variants[i])) == NextOf(variants, Eq, variants[i])
    ensures Cast(variants, disc, cyclePrev(variants[i])) == PrevOf(variants, Eq, variants[i])
  {
    var n := |variants|;
    CastOfMember(variants, disc, Succ(i, n));
    CastOfMember(variants, disc, Pred(i, n));
    assert Distinct(variants, Eq) by {
      forall a, b | 0 <= a < n && 0 <= b < n
        ensures Eq(variants[a], variants[b]) <==> a == b
      {
        if variants[a] == variants[b] {
          assert disc(variants[a]) == disc(variants[b]);
        }
      }
    }
    NextOfCyclic(variants, Eq, i);
    PrevOfCyclic(variants, Eq, i);
  }
}
