/** The prisoner search document and `Prisoner.translate`, which fills it from a booking record,
    the outcome of the incentives lookup and optional restricted-patient data. */
module Translator {
  import opened Wrappers
  import opened KotlinText
  import opened JavaTime
  import opened Nomis
  import Services
  import opened Incentives
  import opened FieldMapping

  /** The characteristics the loop visits: the non-blank ones, none for a null list (translator.kt:48). */
  function CharacteristicsToApply(cs: Option<seq<PhysicalCharacteristic>>): (r: seq<PhysicalCharacteristic>)
    ensures cs.None? ==> r == []
    ensures cs.Some? ==> r == NotBlank(cs.value)
    ensures forall c :: c in r <==> cs.Some? && c in cs.value && !IsNullOrBlank(c.detail)
  {
    if cs.Some? then NotBlankMembers(cs.value); NotBlank(cs.value) else []
  }

  /** The marks the loop visits, none for a null list (translator.kt:59). */
  function MarksToFile(pms: Option<seq<PhysicalMark>>): (r: seq<PhysicalMark>)
    ensures pms.None? ==> r == []
    ensures pms.Some? ==> r == pms.value
  {
    if pms.Some? then pms.value else []
  }

  /** The discharge hospital's agency id, null without data or hospital (translator.kt:115). */
  function HospitalId(rp: Option<Services.RestrictedPatient>): (r: Option<string>)
    ensures r.Some? <==> rp.Some? && rp.value.dischargedHospital.Some?
    ensures r.Some? ==> r.value == rp.value.dischargedHospital.value.agencyId
  {
    if rp.Some? && rp.value.dischargedHospital.Some? then Some(rp.value.dischargedHospital.value.agencyId) else None
  }

  lemma AppendAllStep<T>(list: Option<seq<T>>, xs: seq<T>, x: T)
    ensures AppendAll(list, xs + [x]) == Plus(AppendAll(list, xs), x)
  {
    assert (xs + [x])[..|xs|] == xs;
  }

  /** The search document: one field per property the translator writes, each nullable as
      in the index. The translator's receiver is passed in as a value and the updated document
      returned, so every prior value the result depends on is visible in the contracts. */
  datatype Prisoner = Prisoner(
    prisonerNumber: Option<string>,
    bookNumber: Option<string>,
    bookingId: Option<string>,
    pncNumber: Option<string>,
    pncNumberCanonicalShort: Option<string>,
    pncNumberCanonicalLong: Option<string>,
    croNumber: Option<string>,
    cellLocation: Option<string>,
    prisonName: Option<string>,
    prisonId: Option<string>,
    status: Option<string>,
    inOutStatus: Option<string>,
    lastMovementTypeCode: Option<string>,
    lastMovementReasonCode: Option<string>,
    category: Option<string>,
    csra: Option<string>,
    dateOfBirth: Option<LocalDate>,
    firstName: Option<string>,
    middleNames: Option<string>,
    lastName: Option<string>,
    aliases: Option<seq<PrisonerAlias>>,
    alerts: Option<seq<PrisonerAlert>>,
    gender: Option<string>,
    ethnicity: Option<string>,
    heightCentimetres: Option<int>,
    weightKilograms: Option<int>,
    hairColour: Option<string>,
    rightEyeColour: Option<string>,
    leftEyeColour: Option<string>,
    facialHair: Option<string>,
    shapeOfFace: Option<string>,
    build: Option<string>,
    shoeSize: Option<int>,
    tattoos: Option<seq<BodyPartDetail>>,
    scars: Option<seq<BodyPartDetail>>,
    marks: Option<seq<BodyPartDetail>>,
    otherMarks: Option<seq<BodyPartDetail>>,
    nationality: Option<string>,
    religion: Option<string>,
    maritalStatus: Option<string>,
    youthOffender: Option<bool>,
    sentenceStartDate: Option<LocalDate>,
    confirmedReleaseDate: Option<LocalDate>,
    releaseDate: Option<LocalDate>,
    sentenceExpiryDate: Option<LocalDate>,
    licenceExpiryDate: Option<LocalDate>,
    homeDetentionCurfewEligibilityDate: Option<LocalDate>,
    homeDetentionCurfewActualDate: Option<LocalDate>,
    homeDetentionCurfewEndDate: Option<LocalDate>,
    topupSupervisionStartDate: Option<LocalDate>,
    topupSupervisionExpiryDate: Option<LocalDate>,
    additionalDaysAwarded: Option<int>,
    nonDtoReleaseDate: Option<LocalDate>,
    nonDtoReleaseDateType: Option<string>,
    tariffDate: Option<LocalDate>,
    receptionDate: Option<LocalDate>,
    paroleEligibilityDate: Option<LocalDate>,
    automaticReleaseDate: Option<LocalDate>,
    postRecallReleaseDate: Option<LocalDate>,
    conditionalReleaseDate: Option<LocalDate>,
    actualParoleDate: Option<LocalDate>,
    locationDescription: Option<string>,
    mostSeriousOffence: Option<string>,
    recall: Option<bool>,
    legalStatus: Option<string>,
    imprisonmentStatus: Option<string>,
    imprisonmentStatusDescription: Option<string>,
    indeterminateSentence: Option<bool>,
    restrictedPatient: bool,
    supportingPrisonId: Option<string>,
    dischargedHospitalId: Option<string>,
    dischargedHospitalDescription: Option<string>,
    dischargeDate: Option<LocalDate>,
    dischargeDetails: Option<string>,
    currentIncentive: Option<CurrentIncentive>)

  /** `Prisoner()`: every field null, not a restricted patient */
  const EmptyPrisoner := Prisoner(None, None, None, None, None, None, None, None, None, None, None, None, None, None, None, None, None, None, None, None, None, None, None, None, None, None, None, None, None, None, None, None, None, None, None, None, None, None, None, None, None, None, None, None, None, None, None, None, None, None, None, None, None, None, None, None, None, None, None, None, None, None, None, None, None, None, None, None, false, None, None, None, None, None, None)

  /** The `forEach` over the non-blank physical characteristics (translator.kt lines 48-58): an
      entry of a known type overwrites its field, so the last entry of each type decides it and
      a type without an entry leaves the prior value. */
  method ApplyCharacteristics(p: Prisoner, cs: seq<PhysicalCharacteristic>) returns (q: Prisoner)
    ensures q == p.(
      hairColour := DetailAfter(p.hairColour, cs, "HAIR"),
      rightEyeColour := DetailAfter(p.rightEyeColour, cs, "R_EYE_C"),
      leftEyeColour := DetailAfter(p.leftEyeColour, cs, "L_EYE_C"),
      facialHair := DetailAfter(p.facialHair, cs, "FACIAL_HAIR"),
      shapeOfFace := DetailAfter(p.shapeOfFace, cs, "FACE"),
      build := DetailAfter(p.build, cs, "BUILD"),
      shoeSize := ShoeSizeAfter(p.shoeSize, cs))
  {
    q := p;
    var i := 0;
    while i < |cs|
      invariant 0 <= i <= |cs|
      invariant q == p.(
        hairColour := DetailAfter(p.hairColour, cs[..i], "HAIR"),
        rightEyeColour := DetailAfter(p.rightEyeColour, cs[..i], "R_EYE_C"),
        leftEyeColour := DetailAfter(p.leftEyeColour, cs[..i], "L_EYE_C"),
        facialHair := DetailAfter(p.facialHair, cs[..i], "FACIAL_HAIR"),
        shapeOfFace := DetailAfter(p.shapeOfFace, cs[..i], "FACE"),
        build := DetailAfter(p.build, cs[..i], "BUILD"),
        shoeSize := ShoeSizeAfter(p.shoeSize, cs[..i]))
    {
      var c := cs[i];
      assert cs[..i + 1] == cs[..i] + [c];
      DetailAfterStep(p.hairColour, cs[..i], c, "HAIR");
      DetailAfterStep(p.rightEyeColour, cs[..i], c, "R_EYE_C");
      DetailAfterStep(p.leftEyeColour, cs[..i], c, "L_EYE_C");
      DetailAfterStep(p.facialHair, cs[..i], c, "FACIAL_HAIR");
      DetailAfterStep(p.shapeOfFace, cs[..i], c, "FACE");
      DetailAfterStep(p.build, cs[..i], c, "BUILD");
      ShoeSizeAfterStep(p.shoeSize, cs[..i], c);
      if c.typeCode == "HAIR" {
        q := q.(hairColour := c.detail);
      } else if c.typeCode == "R_EYE_C" {
        q := q.(rightEyeColour := c.detail);
      } else if c.typeCode == "L_EYE_C" {
        q := q.(leftEyeColour := c.detail);
      } else if c.typeCode == "FACIAL_HAIR" {
        q := q.(facialHair := c.detail);
      } else if c.typeCode == "FACE" {
        q := q.(shapeOfFace := c.detail);
      } else if c.typeCode == "BUILD" {
        q := q.(build := c.detail);
      } else if c.typeCode == "SHOESIZE" {
        q := q.(shoeSize := if c.detail.Some? then ToIntOrNull(c.detail.value) else None);
      }
      i := i + 1;
    }
    assert cs[..|cs|] == cs;
  }

  /** The `forEach` over the physical marks (translator.kt lines 59-68): a mark with a body part
      is appended to the list of its category, a null list becoming a singleton; any other
      mark is dropped. */
  method FileMarks(p: Prisoner, pms: seq<PhysicalMark>) returns (q: Prisoner)
    ensures q == p.(
      tattoos := AppendAll(p.tattoos, MarksOf(pms, "Tattoo")),
      scars := AppendAll(p.scars, MarksOf(pms, "Scar")),
      marks := AppendAll(p.marks, MarksOf(pms, "Mark")),
      otherMarks := AppendAll(p.otherMarks, MarksOf(pms, "Other")))
  {
    var tattoos, scars, marks, otherMarks := p.tattoos, p.scars, p.marks, p.otherMarks;
    var j := 0;
    while j < |pms|
      invariant 0 <= j <= |pms|
      invariant tattoos == AppendAll(p.tattoos, MarksOf(pms[..j], "Tattoo"))
      invariant scars == AppendAll(p.scars, MarksOf(pms[..j], "Scar"))
      invariant marks == AppendAll(p.marks, MarksOf(pms[..j], "Mark"))
      invariant otherMarks == AppendAll(p.otherMarks, MarksOf(pms[..j], "Other"))
    {
      var pm := pms[j];
      MarksOfStep(pms, j, "Tattoo");
      MarksOfStep(pms, j, "Scar");
      MarksOfStep(pms, j, "Mark");
      MarksOfStep(pms, j, "Other");
      if pm.bodyPart.Some? {
        var bodyPart := BodyPartDetail(pm.bodyPart.value, pm.comment);
        if pm.typeCode == "Tattoo" {
          AppendAllStep(p.tattoos, MarksOf(pms[..j], "Tattoo"), bodyPart);
          tattoos := Plus(tattoos, bodyPart);
        } else if pm.typeCode == "Scar" {
          AppendAllStep(p.scars, MarksOf(pms[..j], "Scar"), bodyPart);
          scars := Plus(scars, bodyPart);
        } else if pm.typeCode == "Mark" {
          AppendAllStep(p.marks, MarksOf(pms[..j], "Mark"), bodyPart);
          marks := Plus(marks, bodyPart);
        } else if pm.typeCode == "Other" {
          AppendAllStep(p.otherMarks, MarksOf(pms[..j], "Other"), bodyPart);
          otherMarks := Plus(otherMarks, bodyPart);
        }
      }
      j := j + 1;
    }
    assert pms[..|pms|] == pms;
    q := p.(tattoos := tattoos, scars := scars, marks := marks, otherMarks := otherMarks);
  }

  /** The translator (translator.kt:11-123), applied to the receiver's current value.
      Every field is overwritten from the inputs except the seven characteristic fields, which
      keep the receiver's value when no non-blank entry of their type exists, and the four mark
      lists, which grow from the receiver's lists. Only the incentive is taken from
      `existingPrisoner`, and only when the lookup failed; its Kotlin default of null is the
      caller passing `None`. */
  method Translate(receiver: Prisoner, existingPrisoner: Option<Prisoner>, ob: OffenderBooking,
                   incentiveLevel: Result<Option<Services.IncentiveLevel>>,
                   restrictedPatientData: Option<Services.RestrictedPatient>,
                   pnc: Services.PncCanonicaliser)
    returns (p: Prisoner)
    // identity and location (lines 12-31)
    ensures p.prisonerNumber == ob.offenderNo && p.bookNumber == ob.bookingNo
    ensures p.bookingId == (if ob.bookingId.Some? then Some(LongToString(ob.bookingId.value)) else None)
    ensures p.pncNumber == IdentifierValue(ob.identifiers, "PNC")
    ensures p.pncNumberCanonicalShort == CanonicalPnc(ob.identifiers, pnc.short)
    ensures p.pncNumberCanonicalLong == CanonicalPnc(ob.identifiers, pnc.long)
    ensures p.croNumber == IdentifierValue(ob.identifiers, "CRO")
    ensures p.cellLocation == ob.assignedLivingUnit.GetOr(NoLivingUnit).description
    ensures p.prisonName == ob.assignedLivingUnit.GetOr(NoLivingUnit).agencyName
    ensures p.prisonId == ob.agencyId && p.status == ob.status && p.inOutStatus == ob.inOutStatus
    ensures p.lastMovementTypeCode == ob.lastMovementTypeCode && p.lastMovementReasonCode == ob.lastMovementReasonCode
    ensures p.category == ob.categoryCode && p.csra == ob.csra
    ensures p.dateOfBirth == ob.dateOfBirth && p.firstName == ob.firstName
    ensures p.middleNames == ob.middleName && p.lastName == ob.lastName
    // aliases and alerts (38-41)
    ensures p.aliases == Aliases(ob.aliases) && p.alerts == Alerts(ob.alerts)
    // physical attributes (43-46)
    ensures p.gender == ob.physicalAttributes.GetOr(NoPhysicalAttributes).gender
    ensures p.ethnicity == ob.physicalAttributes.GetOr(NoPhysicalAttributes).ethnicity
    ensures p.heightCentimetres == ob.physicalAttributes.GetOr(NoPhysicalAttributes).heightCentimetres
    ensures p.weightKilograms == ob.physicalAttributes.GetOr(NoPhysicalAttributes).weightKilograms
    // physical characteristics: the last non-blank entry of each type, else the receiver's value (48-58)
    ensures var cs := CharacteristicsToApply(ob.physicalCharacteristics);
      && p.hairColour == DetailAfter(receiver.hairColour, cs, "HAIR")
      && p.rightEyeColour == DetailAfter(receiver.rightEyeColour, cs, "R_EYE_C")
      && p.leftEyeColour == DetailAfter(receiver.leftEyeColour, cs, "L_EYE_C")
      && p.facialHair == DetailAfter(receiver.facialHair, cs, "FACIAL_HAIR")
      && p.shapeOfFace == DetailAfter(receiver.shapeOfFace, cs, "FACE")
      && p.build == DetailAfter(receiver.build, cs, "BUILD")
      && p.shoeSize == ShoeSizeAfter(receiver.shoeSize, cs)
    // physical marks: appended to the receiver's lists by category (59-68)
    ensures var pms := MarksToFile(ob.physicalMarks);
      && p.tattoos == AppendAll(receiver.tattoos, MarksOf(pms, "Tattoo"))
      && p.scars == AppendAll(receiver.scars, MarksOf(pms, "Scar"))
      && p.marks == AppendAll(receiver.marks, MarksOf(pms, "Mark"))
      && p.otherMarks == AppendAll(receiver.otherMarks, MarksOf(pms, "Other"))
    // profile information (70-74)
    ensures p.nationality == ProfileValue(ob.profileInformation, "NAT")
    ensures p.religion == ProfileValue(ob.profileInformation, "RELF")
    ensures p.maritalStatus == ProfileValue(ob.profileInformation, "MARITAL")
    ensures p.youthOffender == Some(YouthOffender(ob.profileInformation))
    // sentence dates (76-99)
    ensures var sd := ob.sentenceDetail.GetOr(NoSentenceDetail);
      && p.sentenceStartDate == sd.sentenceStartDate && p.confirmedReleaseDate == sd.confirmedReleaseDate
      && p.releaseDate == sd.releaseDate && p.sentenceExpiryDate == sd.sentenceExpiryDate
      && p.licenceExpiryDate == sd.licenceExpiryDate
      && p.homeDetentionCurfewEligibilityDate == sd.homeDetentionCurfewEligibilityDate
      && p.homeDetentionCurfewActualDate == sd.homeDetentionCurfewActualDate
      && p.homeDetentionCurfewEndDate == sd.homeDetentionCurfewEndDate
      && p.topupSupervisionStartDate == sd.topupSupervisionStartDate
      && p.topupSupervisionExpiryDate == sd.topupSupervisionExpiryDate
      && p.additionalDaysAwarded == sd.additionalDaysAwarded
      && p.nonDtoReleaseDate == sd.nonDtoReleaseDate && p.nonDtoReleaseDateType == sd.nonDtoReleaseDateType
      && p.tariffDate == sd.tariffDate && p.paroleEligibilityDate == sd.paroleEligibilityDate
      && p.actualParoleDate == sd.actualParoleDate
    ensures p.receptionDate == ob.receptionDate
    ensures p.automaticReleaseDate == AutomaticReleaseDate(ob.sentenceDetail)
    ensures p.postRecallReleaseDate == PostRecallReleaseDate(ob.sentenceDetail)
    ensures p.conditionalReleaseDate == ConditionalReleaseDate(ob.sentenceDetail)
    // location, offence and status (101-111)
    ensures p.locationDescription == LocationDescription(ob.locationDescription, restrictedPatientData)
    ensures p.mostSeriousOffence == MostSeriousOffence(ob.offenceHistory, ob.bookingId)
    ensures p.recall == ob.recall && p.legalStatus == ob.legalStatus
    ensures p.imprisonmentStatus == ob.imprisonmentStatus
    ensures p.imprisonmentStatusDescription == ob.imprisonmentStatusDescription
    ensures p.indeterminateSentence == IndeterminateSentence(ob.sentenceTerms, ob.bookingId)
    // restricted patient (113-118)
    ensures p.restrictedPatient == restrictedPatientData.Some?
    ensures p.supportingPrisonId == (if restrictedPatientData.Some? then restrictedPatientData.value.supportingPrisonId else None)
    ensures p.dischargedHospitalId == HospitalId(restrictedPatientData)
    ensures p.dischargedHospitalDescription == HospitalDescription(restrictedPatientData)
    ensures p.dischargeDate == (if restrictedPatientData.Some? then restrictedPatientData.value.dischargeDate else None)
    ensures p.dischargeDetails == (if restrictedPatientData.Some? then restrictedPatientData.value.dischargeDetails else None)
    // incentive (120)
    ensures p.currentIncentive ==
      ResolveIncentive(incentiveLevel, if existingPrisoner.Some? then existingPrisoner.value.currentIncentive else None)
  {
    var unit := ob.assignedLivingUnit.GetOr(NoLivingUnit);
    var attributes := ob.physicalAttributes.GetOr(NoPhysicalAttributes);
    p := receiver.(
      prisonerNumber := ob.offenderNo,
      bookNumber := ob.bookingNo,
      bookingId := if ob.bookingId.Some? then Some(LongToString(ob.bookingId.value)) else None,
      pncNumber := IdentifierValue(ob.identifiers, "PNC"),
      pncNumberCanonicalShort := CanonicalPnc(ob.identifiers, pnc.short),
      pncNumberCanonicalLong := CanonicalPnc(ob.identifiers, pnc.long),
      croNumber := IdentifierValue(ob.identifiers, "CRO"),
      cellLocation := unit.description,
      prisonName := unit.agencyName,
      prisonId := ob.agencyId,
      status := ob.status,
      inOutStatus := ob.inOutStatus,
      lastMovementTypeCode := ob.lastMovementTypeCode,
      lastMovementReasonCode := ob.lastMovementReasonCode,
      category := ob.categoryCode,
      csra := ob.csra,
      dateOfBirth := ob.dateOfBirth,
      firstName := ob.firstName,
      middleNames := ob.middleName,
      lastName := ob.lastName,
      aliases := Aliases(ob.aliases),
      alerts := Alerts(ob.alerts),
      gender := attributes.gender,
      ethnicity := attributes.ethnicity,
      heightCentimetres := attributes.heightCentimetres,
      weightKilograms := attributes.weightKilograms);

    p := ApplyCharacteristics(p, CharacteristicsToApply(ob.physicalCharacteristics));
    p := FileMarks(p, MarksToFile(ob.physicalMarks));

    var sd := ob.sentenceDetail.GetOr(NoSentenceDetail);
    p := p.(
      nationality := ProfileValue(ob.profileInformation, "NAT"),
      religion := ProfileValue(ob.profileInformation, "RELF"),
      maritalStatus := ProfileValue(ob.profileInformation, "MARITAL"),
      youthOffender := Some(YouthOffender(ob.profileInformation)),
      sentenceStartDate := sd.sentenceStartDate,
      confirmedReleaseDate := sd.confirmedReleaseDate,
      releaseDate := sd.releaseDate,
      sentenceExpiryDate := sd.sentenceExpiryDate,
      licenceExpiryDate := sd.licenceExpiryDate,
      homeDetentionCurfewEligibilityDate := sd.homeDetentionCurfewEligibilityDate,
      homeDetentionCurfewActualDate := sd.homeDetentionCurfewActualDate,
      homeDetentionCurfewEndDate := sd.homeDetentionCurfewEndDate,
      topupSupervisionStartDate := sd.topupSupervisionStartDate,
      topupSupervisionExpiryDate := sd.topupSupervisionExpiryDate,
      additionalDaysAwarded := sd.additionalDaysAwarded,
      nonDtoReleaseDate := sd.nonDtoReleaseDate,
      nonDtoReleaseDateType := sd.nonDtoReleaseDateType,
      tariffDate := sd.tariffDate,
      receptionDate := ob.receptionDate,
      paroleEligibilityDate := sd.paroleEligibilityDate,
      automaticReleaseDate := AutomaticReleaseDate(ob.sentenceDetail),
      postRecallReleaseDate := PostRecallReleaseDate(ob.sentenceDetail),
      conditionalReleaseDate := ConditionalReleaseDate(ob.sentenceDetail),
      actualParoleDate := sd.actualParoleDate,
      locationDescription := LocationDescription(ob.locationDescription, restrictedPatientData),
      mostSeriousOffence := MostSeriousOffence(ob.offenceHistory, ob.bookingId),
      recall := ob.recall,
      legalStatus := ob.legalStatus,
      imprisonmentStatus := ob.imprisonmentStatus,
      imprisonmentStatusDescription := ob.imprisonmentStatusDescription,
      indeterminateSentence := IndeterminateSentence(ob.sentenceTerms, ob.bookingId),
      restrictedPatient := restrictedPatientData.Some?,
      supportingPrisonId := if restrictedPatientData.Some? then restrictedPatientData.value.supportingPrisonId else None,
      dischargedHospitalId := HospitalId(restrictedPatientData),
      dischargedHospitalDescription := HospitalDescription(restrictedPatientData),
      dischargeDate := if restrictedPatientData.Some? then restrictedPatientData.value.dischargeDate else None,
      dischargeDetails := if restrictedPatientData.Some? then restrictedPatientData.value.dischargeDetails else None);

    var fallback := if existingPrisoner.Some? then existingPrisoner.value.currentIncentive else None;
    p := p.(currentIncentive := ResolveIncentive(incentiveLevel, fallback));
  }

  /** The contract of `Translate` fixes every field of the result: two translations of the same
      inputs into the same receiver give the same document. */
  method TranslateDeterministic(receiver: Prisoner, existingPrisoner: Option<Prisoner>, ob: OffenderBooking,
                                incentiveLevel: Result<Option<Services.IncentiveLevel>>,
                                restrictedPatientData: Option<Services.RestrictedPatient>,
                                pnc: Services.PncCanonicaliser)
    returns (first: Prisoner, second: Prisoner)
    ensures first == second
  {
    first := Translate(receiver, existingPrisoner, ob, incentiveLevel, restrictedPatientData, pnc);
    second := Translate(receiver, existingPrisoner, ob, incentiveLevel, restrictedPatientData, pnc);
  }

  /** Translating into a fresh document, a mark list is null when its category receives nothing
      and holds exactly that category's marks otherwise. */
  lemma FreshMarkList(pms: seq<PhysicalMark>, category: string)
    ensures EmptyPrisoner.tattoos == None && EmptyPrisoner.scars == None
    ensures EmptyPrisoner.marks == None && EmptyPrisoner.otherMarks == None
    ensures AppendAll(None, MarksOf(pms, category)) ==
      if MarksOf(pms, category) == [] then None else Some(MarksOf(pms, category))
  {
    var filed := MarksOf(pms, category);
    assert Option<seq<BodyPartDetail>>.None.GetOr([]) + filed == filed;
  }

  /** Translating into a fresh document, a characteristic without a non-blank entry of its type
      stays null. */
  lemma FreshCharacteristic(cs: seq<PhysicalCharacteristic>, code: string)
    requires forall j :: 0 <= j < |cs| && cs[j].typeCode == code ==> IsNullOrBlank(cs[j].detail)
    ensures EmptyPrisoner.hairColour == None && EmptyPrisoner.rightEyeColour == None
    ensures EmptyPrisoner.leftEyeColour == None && EmptyPrisoner.facialHair == None
    ensures EmptyPrisoner.shapeOfFace == None && EmptyPrisoner.build == None && EmptyPrisoner.shoeSize == None
    ensures DetailAfter(None, NotBlank(cs), code) == None
    ensures code == "SHOESIZE" ==> ShoeSizeAfter(None, NotBlank(cs)) == None
  {
    NoEntryKeepsPrior(None, None, cs, code);
  }
}
