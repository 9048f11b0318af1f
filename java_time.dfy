/** `java.time` values as the translator sees them: dates are opaque; a date-time keeps its
    sub-second part in `nano`, which is what the translator truncates. */
module JavaTime {

  /** `java.time.LocalDate`, identified by its day; no calendar arithmetic is modelled. */
  datatype LocalDate = LocalDate(epochDay: int)

  /** `java.time.LocalDateTime`, down to the nanosecond of the second */
  datatype LocalDateTime = LocalDateTime(date: LocalDate, hour: nat, minute: nat, second: nat, nano: nat)

  /** Two date-times denote the same second */
  predicate SameSecond(a: LocalDateTime, b: LocalDateTime) {
    a.date == b.date && a.hour == b.hour && a.minute == b.minute && a.second == b.second
  }

  /** `LocalDateTime.withNano(n)`; Java throws outside 0..999,999,999, which the precondition excludes. */
  function WithNano(t: LocalDateTime, n: nat): (r: LocalDateTime)
    requires n <= 999_999_999
    ensures r.nano == n && SameSecond(r, t)
  {
    t.(nano := n)
  }

  /** Truncating to the second keeps the second, and truncating again changes nothing. */
  lemma TruncationIdempotent(t: LocalDateTime)
    ensures WithNano(WithNano(t, 0), 0) == WithNano(t, 0)
    ensures t.nano == 0 ==> WithNano(t, 0) == t
  {
  }
}
