/** Instants, durations and the two interval relations every part of the
    system compares windows with: half-open overlap and inclusive containment.
    Instants are JavaScript `Date` values, i.e. milliseconds on one timeline. */
module Intervals {

  /** A point in time, in milliseconds since the epoch. */
  type Instant = int

  const HOUR_MS: int := 60 * 60 * 1000
  const DAY_MS: int := 24 * HOUR_MS

  /** Milliseconds since midnight of a calendar date: what an "HH:mm" input
      denotes once it is combined with the date. */
  type TimeOfDay = t: int | 0 <= t < DAY_MS

  /** Reference overlap relation: the half-open windows [s1, e1) and [s2, e2)
      share an instant. Touching endpoints do not overlap. */
  predicate HalfOpenOverlap(s1: Instant, e1: Instant, s2: Instant, e2: Instant)
  {
    s1 < e2 && s2 < e1
  }

  /** The window [innerStart, innerEnd] lies inside [outerStart, outerEnd],
      both bounds inclusive. */
  predicate Within(outerStart: Instant, outerEnd: Instant, innerStart: Instant, innerEnd: Instant)
  {
    outerStart <= innerStart && innerEnd <= outerEnd
  }

  /** Overlap does not depend on which window comes first. */
  lemma OverlapSymmetric(s1: Instant, e1: Instant, s2: Instant, e2: Instant)
    ensures HalfOpenOverlap(s1, e1, s2, e2) <==> HalfOpenOverlap(s2, e2, s1, e1)
  {
  }

  /** A window that ends exactly when another begins does not overlap it. */
  lemma TouchingDoNotOverlap(s1: Instant, e1: Instant, e2: Instant)
    ensures !HalfOpenOverlap(s1, e1, e1, e2)
    ensures !HalfOpenOverlap(e1, e2, s1, e1)
  {
  }

  /** Containment is reflexive, because both bounds are inclusive. */
  lemma WithinReflexive(s: Instant, e: Instant)
    ensures Within(s, e, s, e)
  {
  }
}
