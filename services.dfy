/** The records the services layer hands to the translator. */
module Services {
  import opened Wrappers
  import opened JavaTime

  /** The incentive review returned by the incentives service */
  datatype IncentiveLevel = IncentiveLevel(
    iepCode: string,
    iepLevel: string,
    iepTime: LocalDateTime,
    nextReviewDate: Option<LocalDate>)

  /** A hospital or other agency */
  datatype Agency = Agency(agencyId: string, description: Option<string>)

  /** Restricted-patient data for a prisoner discharged to hospital */
  datatype RestrictedPatient = RestrictedPatient(
    supportingPrisonId: Option<string>,
    dischargedHospital: Option<Agency>,
    dischargeDate: Option<LocalDate>,
    dischargeDetails: Option<string>)

  /** `canonicalPNCNumberShort` and `canonicalPNCNumberLong`, whose definitions are not part
      of this model: the translator receives them as two arbitrary functions. */
  datatype PncCanonicaliser = PncCanonicaliser(
    short: string -> Option<string>,
    long: string -> Option<string>)
}
