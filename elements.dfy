/**
 * The four elements a piece carries and the capture advantage between them
 * (project.py, `ELEMENTS` and `elemental_advantage`).
 */
module Elements {

  /** Declared in the order of the source's `ELEMENTS` list. */
  datatype Element = Fire | Water | Earth | Air

  /** Position of an element in the `ELEMENTS` list, used by the evaluation. */
  function Index(e: Element): (i: nat)
    ensures i < 4
  {
    match e
    case Fire => 0
    case Water => 1
    case Earth => 2
    case Air => 3
  }

  /** The single element listed in the `wins` table for `e`. */
  function Prey(e: Element): Element
  {
    match e
    case Fire => Air
    case Water => Fire
    case Earth => Water
    case Air => Earth
  }

  /**
   * Position on the cycle of dominance Fire -> Air -> Earth -> Water -> Fire,
   * where each element beats the one after it.  This is an independent
   * description of the `wins` table, used to state what `Advantage` means.
   */
  function CyclePos(e: Element): nat
  {
    match e
    case Fire => 0
    case Air => 1
    case Earth => 2
    case Water => 3
  }

  /** `e` beats `d` when `d` is the next element on the cycle. */
  predicate BeatsOnCycle(e: Element, d: Element)
  {
    CyclePos(d) == (CyclePos(e) + 1) % 4
  }

  /**
   * `elemental_advantage(attacker, defender)`: +1 when the attacker beats the
   * defender, -1 when the defender beats the attacker, 0 otherwise.
   */
  function Advantage(attacker: Element, defender: Element): (r: int)
    ensures -1 <= r <= 1
    ensures r == 1 <==> BeatsOnCycle(attacker, defender)
    ensures r == -1 <==> BeatsOnCycle(defender, attacker)
    ensures r == 0 <==> (CyclePos(attacker) + 4 - CyclePos(defender)) % 2 == 0
  {
    if attacker == defender then 0
    else if defender == Prey(attacker) then 1
    else if attacker == Prey(defender) then -1
    else 0
  }

  /** The relation is antisymmetric. */
  lemma AdvantageAntisymmetric(a: Element, b: Element)
    ensures Advantage(a, b) == -Advantage(b, a)
  {
  }

  /** Zero exactly for equal elements and the two unrelated pairs. */
  lemma AdvantageZero(a: Element, b: Element)
    ensures Advantage(a, b) == 0 <==>
      a == b || {a, b} == {Fire, Earth} || {a, b} == {Water, Air}
  {
  }

  /** +1 exactly for the four winning pairs of the `wins` table. */
  lemma AdvantageWins(a: Element, b: Element)
    ensures Advantage(a, b) == 1 <==>
      (a, b) in {(Fire, Air), (Water, Fire), (Earth, Water), (Air, Earth)}
  {
  }
}
