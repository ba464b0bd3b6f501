/** The five percentage resources of the survival game, the clamped-add rule
    every effect goes through, and effect mappings (resource name to signed
    delta) as the ordered lists of entries that the game walks key by key. */
module Resources {

  /** The resource names an effect mapping may mention. */
  datatype Stat = Health | Sanity | Food | Water | ShipCondition

  /** Every resource is a percentage. */
  const Floor: int := 0
  const Ceiling: int := 100

  /** The clamped-add rule: the smaller of the value and the ceiling, then the
      larger of that and the floor. */
  function Clamp(x: int): (r: int)
    ensures Floor <= r <= Ceiling
    ensures Floor <= x <= Ceiling ==> r == x
    ensures x < Floor ==> r == Floor
    ensures x > Ceiling ==> r == Ceiling
  {
    var capped := if x < Ceiling then x else Ceiling;
    if capped > Floor then capped else Floor
  }

  /** One key of an effect mapping and the signed delta stored under it. */
  datatype Effect = Effect(stat: Stat, delta: int)

  /** An effect mapping, as its entries in key order. */
  type Effects = seq<Effect>

  /** True iff the mapping has an entry for `k`. */
  predicate Names(es: Effects, k: Stat)
    decreases |es|
  {
    |es| > 0 && (es[0].stat == k || Names(es[1..], k))
  }

  /** The delta of the first entry for `k`, or 0 when there is none. */
  function DeltaFor(es: Effects, k: Stat): int
    decreases |es|
  {
    if |es| == 0 then 0
    else if es[0].stat == k then es[0].delta
    else DeltaFor(es[1..], k)
  }

  /** No resource has two entries: what a mapping written as an object
      literal always satisfies. */
  predicate DistinctStats(es: Effects) {
    forall i, j :: 0 <= i < j < |es| ==> es[i].stat != es[j].stat
  }

  /** Every delta of the mapping takes something away. */
  predicate AllHarmful(es: Effects) {
    forall j :: 0 <= j < |es| ==> es[j].delta < 0
  }

  /** Every delta of the mapping gives something back. */
  predicate AllRestorative(es: Effects) {
    forall j :: 0 <= j < |es| ==> es[j].delta > 0
  }

  /** Dropping the first entry keeps the resources distinct, and the dropped
      resource is named nowhere else. */
  lemma DistinctTail(es: Effects)
    requires |es| > 0 && DistinctStats(es)
    ensures DistinctStats(es[1..])
    ensures forall j :: 0 <= j < |es[1..]| ==> es[1..][j].stat != es[0].stat
  {
    var rest := es[1..];
    forall i, j | 0 <= i < j < |rest|
      ensures rest[i].stat != rest[j].stat
    {
      assert rest[i] == es[i + 1] && rest[j] == es[j + 1];
    }
  }

  /** A resource the mapping does not mention has delta 0. */
  lemma {:induction false} DeltaForUnnamed(es: Effects, k: Stat)
    requires !Names(es, k)
    ensures DeltaFor(es, k) == 0
    decreases |es|
  {
    if |es| > 0 {
      DeltaForUnnamed(es[1..], k);
    }
  }

  /** A resource with no entry at any index is not named. */
  lemma {:induction false} NotNamedWhenAbsent(es: Effects, k: Stat)
    requires forall j :: 0 <= j < |es| ==> es[j].stat != k
    ensures !Names(es, k)
    decreases |es|
  {
    if |es| > 0 {
      NotNamedWhenAbsent(es[1..], k);
    }
  }

  /** Two losses in a row from a percentage clamp like one combined loss:
      once the value has hit the floor it stays there. */
  lemma ClampLossesCompose(x: int, a: int, b: int)
    requires x <= Ceiling && a >= 0 && b >= 0
    ensures Clamp(Clamp(x - a) - b) == Clamp(x - a - b)
  {
  }

  /** The delta a harmful mapping stores for a named resource is negative;
      a restorative one stores a positive delta. */
  lemma {:induction false} DeltaSign(es: Effects, k: Stat)
    requires Names(es, k)
    ensures AllHarmful(es) ==> DeltaFor(es, k) < 0
    ensures AllRestorative(es) ==> DeltaFor(es, k) > 0
    decreases |es|
  {
    if es[0].stat != k {
      DeltaSign(es[1..], k);
    }
  }
}
