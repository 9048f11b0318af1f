/** The incentive snapshot stored on a prisoner document, and how the translator decides it
    from the outcome of the incentives lookup. */
module Incentives {
  import opened Wrappers
  import opened JavaTime
  import Services

  datatype IncentiveLevel = IncentiveLevel(code: Option<string>, description: string)

  /** The stored snapshot; the index keeps `dateTime` to the second only. */
  datatype CurrentIncentive = CurrentIncentive(
    level: IncentiveLevel,
    dateTime: LocalDateTime,
    nextReviewDate: Option<LocalDate>)

  /** The snapshot for a review returned by the incentives service; none for no review. */
  function ToCurrentIncentive(review: Option<Services.IncentiveLevel>): (r: Option<CurrentIncentive>)
    ensures r.Some? <==> review.Some?
    ensures review.Some? ==>
      && r.value.level.code == Some(review.value.iepCode)
      && r.value.level.description == review.value.iepLevel
      && r.value.nextReviewDate == review.value.nextReviewDate
      && r.value.dateTime.nano == 0
      && SameSecond(r.value.dateTime, review.value.iepTime)
  {
    match review
    case None => None
    case Some(it) =>
      Some(CurrentIncentive(
        level := IncentiveLevel(Some(it.iepCode), it.iepLevel),
        nextReviewDate := it.nextReviewDate,
        dateTime := WithNano(it.iepTime, 0)))
  }

  /** The incentive decision (translator.kt:120): a successful lookup
      decides the snapshot on its own; a failed one keeps what the existing document had. */
  function ResolveIncentive(lookup: Result<Option<Services.IncentiveLevel>>, existing: Option<CurrentIncentive>)
    : (r: Option<CurrentIncentive>)
    ensures lookup.Failure? ==> r == existing
    ensures lookup == Success(None) ==> r == None
    ensures r.Some? <==> (lookup.Success? && lookup.value.Some?) || (lookup.Failure? && existing.Some?)
    ensures lookup.Success? && lookup.value.Some? ==>
      && r.value.level == IncentiveLevel(Some(lookup.value.value.iepCode), lookup.value.value.iepLevel)
      && r.value.dateTime.nano == 0
      && SameSecond(r.value.dateTime, lookup.value.value.iepTime)
      && r.value.nextReviewDate == lookup.value.value.nextReviewDate
  {
    match lookup
    case Success(review) => ToCurrentIncentive(review)
    case Failure => existing
  }

  /** The existing document is consulted only when the lookup failed. */
  lemma ExistingOnlyOnFailure(lookup: Result<Option<Services.IncentiveLevel>>, e1: Option<CurrentIncentive>, e2: Option<CurrentIncentive>)
    requires lookup.Success?
    ensures ResolveIncentive(lookup, e1) == ResolveIncentive(lookup, e2)
  {
  }

  /** A snapshot that is stored and then rebuilt from the same second is unchanged: every stored
      `dateTime` is already truncated, so truncating it again is a no-op. */
  lemma SnapshotStable(review: Services.IncentiveLevel)
    ensures var c := ToCurrentIncentive(Some(review)).value;
      ToCurrentIncentive(Some(review.(iepTime := c.dateTime))) == Some(c)
  {
  }

  /** A failed lookup never clears a known incentive, and a not-found one always does. */
  lemma FallbackScenarios(known: CurrentIncentive)
    requires known.level.code == Some("STD")
    ensures ResolveIncentive(Failure, Some(known)) == Some(known)
    ensures ResolveIncentive(Success(None), Some(known)) == None
    ensures ResolveIncentive(Failure, None) == None
  {
  }
}
