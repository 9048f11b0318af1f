/** The booking record read from the prison system: only the fields the translator reads.
    Kotlin's `type` fields are called `typeCode` here, `type` being a keyword. */
module Nomis {
  import opened Wrappers
  import opened JavaTime

  datatype OffenderIdentifier = OffenderIdentifier(typeCode: string, value: Option<string>)

  datatype AssignedLivingUnit = AssignedLivingUnit(description: Option<string>, agencyName: Option<string>)

  datatype Alias = Alias(
    firstName: string,
    middleName: Option<string>,
    lastName: string,
    age: Option<int>,
    dob: LocalDate,
    gender: Option<string>,
    ethnicity: Option<string>,
    nameType: Option<string>,
    createDate: LocalDate)

  datatype Alert = Alert(alertType: string, alertCode: string, active: bool, expired: bool)

  datatype PhysicalAttributes = PhysicalAttributes(
    gender: Option<string>,
    ethnicity: Option<string>,
    heightCentimetres: Option<int>,
    weightKilograms: Option<int>)

  datatype PhysicalCharacteristic = PhysicalCharacteristic(typeCode: string, detail: Option<string>)

  datatype PhysicalMark = PhysicalMark(typeCode: string, bodyPart: Option<string>, comment: Option<string>)

  datatype ProfileInformation = ProfileInformation(typeCode: string, resultValue: Option<string>)

  datatype SentenceDetail = SentenceDetail(
    sentenceStartDate: Option<LocalDate>,
    confirmedReleaseDate: Option<LocalDate>,
    releaseDate: Option<LocalDate>,
    sentenceExpiryDate: Option<LocalDate>,
    licenceExpiryDate: Option<LocalDate>,
    homeDetentionCurfewEligibilityDate: Option<LocalDate>,
    homeDetentionCurfewActualDate: Option<LocalDate>,
    homeDetentionCurfewEndDate: Option<LocalDate>,
    topupSupervisionStartDate: Option<LocalDate>,
    topupSupervisionExpiryDate: Option<LocalDate>,
    additionalDaysAwarded: Option<int>,
    nonDtoReleaseDate: Option<LocalDate>,
    nonDtoReleaseDateType: Option<string>,
    tariffDate: Option<LocalDate>,
    paroleEligibilityDate: Option<LocalDate>,
    automaticReleaseDate: Option<LocalDate>,
    automaticReleaseOverrideDate: Option<LocalDate>,
    postRecallReleaseDate: Option<LocalDate>,
    postRecallReleaseOverrideDate: Option<LocalDate>,
    conditionalReleaseDate: Option<LocalDate>,
    conditionalReleaseOverrideDate: Option<LocalDate>,
    actualParoleDate: Option<LocalDate>)

  datatype OffenceHistoryDetail = OffenceHistoryDetail(bookingId: int, mostSerious: bool, offenceDescription: string)

  datatype SentenceTerms = SentenceTerms(bookingId: int, lifeSentence: bool)

  datatype OffenderBooking = OffenderBooking(
    offenderNo: Option<string>,
    bookingNo: Option<string>,
    bookingId: Option<int>,
    identifiers: Option<seq<OffenderIdentifier>>,
    assignedLivingUnit: Option<AssignedLivingUnit>,
    agencyId: Option<string>,
    status: Option<string>,
    inOutStatus: Option<string>,
    lastMovementTypeCode: Option<string>,
    lastMovementReasonCode: Option<string>,
    categoryCode: Option<string>,
    csra: Option<string>,
    dateOfBirth: Option<LocalDate>,
    firstName: Option<string>,
    middleName: Option<string>,
    lastName: Option<string>,
    aliases: Option<seq<Alias>>,
    alerts: Option<seq<Alert>>,
    physicalAttributes: Option<PhysicalAttributes>,
    physicalCharacteristics: Option<seq<PhysicalCharacteristic>>,
    physicalMarks: Option<seq<PhysicalMark>>,
    profileInformation: Option<seq<ProfileInformation>>,
    sentenceDetail: Option<SentenceDetail>,
    receptionDate: Option<LocalDate>,
    locationDescription: Option<string>,
    offenceHistory: Option<seq<OffenceHistoryDetail>>,
    recall: Option<bool>,
    legalStatus: Option<string>,
    imprisonmentStatus: Option<string>,
    imprisonmentStatusDescription: Option<string>,
    sentenceTerms: Option<seq<SentenceTerms>>)

  /** Stand-ins for a null living unit, physical-attributes record or sentence detail: reading a
      field through a null record gives null, which is what every field of these gives. */
  const NoLivingUnit := AssignedLivingUnit(None, None)
  const NoPhysicalAttributes := PhysicalAttributes(None, None, None, None)
  const NoSentenceDetail := SentenceDetail(None, None, None, None, None, None, None, None, None, None, None,
                                           None, None, None, None, None, None, None, None, None, None, None)
}
