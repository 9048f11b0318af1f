/** The expressions the translator evaluates over a booking record: first-match lookups,
    list filters and maps, the specifications of its two loops, date precedence, the
    booking-id guards and the restricted-patient overlay. */
module FieldMapping {
  import opened Wrappers
  import opened KotlinText
  import opened JavaTime
  import opened Nomis
  import Services

  // ---------------------------------------------------------------- first and last match

  /** Position of the first element satisfying `p` */
  function FirstIndex<T>(xs: seq<T>, p: T -> bool): (r: Option<nat>)
    ensures r.None? <==> forall i :: 0 <= i < |xs| ==> !p(xs[i])
    ensures r.Some? ==> r.value < |xs| && p(xs[r.value]) && forall j :: 0 <= j < r.value ==> !p(xs[j])
    decreases |xs|
  {
    if xs == [] then None
    else if p(xs[0]) then Some(0)
    else match FirstIndex(xs[1..], p)
      case None => None
      case Some(k) => Some(k + 1)
  }

  /** Kotlin's `firstOrNull(p)` */
  function FirstOrNull<T>(xs: seq<T>, p: T -> bool): (r: Option<T>)
    ensures r.None? <==> forall i :: 0 <= i < |xs| ==> !p(xs[i])
    ensures r.Some? ==> r.value in xs && p(r.value)
  {
    match FirstIndex(xs, p)
    case Some(k) => Some(xs[k])
    case None => None
  }

  /** The first match is the one before which nothing matches. */
  lemma FirstOrNullAt<T>(xs: seq<T>, p: T -> bool, k: nat)
    requires k < |xs| && p(xs[k])
    requires forall j :: 0 <= j < k ==> !p(xs[j])
    ensures FirstOrNull(xs, p) == Some(xs[k])
  {
  }

  /** Entries after a match never change what is found. */
  lemma {:induction false} FirstOrNullIgnoresLater<T>(xs: seq<T>, ys: seq<T>, p: T -> bool)
    requires FirstIndex(xs, p).Some?
    ensures FirstIndex(xs + ys, p) == FirstIndex(xs, p)
    ensures FirstOrNull(xs + ys, p) == FirstOrNull(xs, p)
    decreases |xs|
  {
    if !p(xs[0]) {
      FirstOrNullIgnoresLater(xs[1..], ys, p);
      assert (xs + ys)[1..] == xs[1..] + ys;
    }
  }

  /** Position of the last element satisfying `p` */
  function LastIndex<T>(xs: seq<T>, p: T -> bool): (r: Option<nat>)
    ensures r.None? <==> forall i :: 0 <= i < |xs| ==> !p(xs[i])
    ensures r.Some? ==> r.value < |xs| && p(xs[r.value]) && forall j :: r.value < j < |xs| ==> !p(xs[j])
    decreases |xs|
  {
    if xs == [] then None
    else if p(xs[|xs| - 1]) then Some(|xs| - 1)
    else LastIndex(xs[..|xs| - 1], p)
  }

  // ---------------------------------------------------------------- identifiers and profile

  function IdentifierOfType(code: string): OffenderIdentifier -> bool {
    (i: OffenderIdentifier) => i.typeCode == code
  }

  /** The value of the first identifier of the given type; null without a list, without such an
      identifier, or when that identifier has no value (translator.kt:15, 20). */
  function IdentifierValue(ids: Option<seq<OffenderIdentifier>>, code: string): (r: Option<string>)
    ensures r.Some? ==> ids.Some? && exists k :: 0 <= k < |ids.value| && ids.value[k].typeCode == code && ids.value[k].value == r
  {
    match ids
    case None => None
    case Some(xs) =>
      match FirstOrNull(xs, IdentifierOfType(code))
      case Some(i) => i.value
      case None => None
  }

  /** The value found is that of the first identifier of the type; without one there is none. */
  lemma IdentifierValueIsFirst(ids: seq<OffenderIdentifier>, code: string)
    ensures (forall i :: 0 <= i < |ids| ==> ids[i].typeCode != code) ==> IdentifierValue(Some(ids), code) == None
    ensures forall k :: 0 <= k < |ids| && ids[k].typeCode == code && (forall j :: 0 <= j < k ==> ids[j].typeCode != code) ==>
              IdentifierValue(Some(ids), code) == ids[k].value
  {
    forall k | 0 <= k < |ids| && ids[k].typeCode == code && (forall j :: 0 <= j < k ==> ids[j].typeCode != code)
      ensures IdentifierValue(Some(ids), code) == ids[k].value
    {
      FirstOrNullAt(ids, IdentifierOfType(code), k);
    }
  }

  /** A later duplicate of an identifier type is ignored. */
  lemma IdentifierDuplicateIgnored(ids: seq<OffenderIdentifier>, later: seq<OffenderIdentifier>, code: string)
    requires exists i :: 0 <= i < |ids| && ids[i].typeCode == code
    ensures IdentifierValue(Some(ids + later), code) == IdentifierValue(Some(ids), code)
  {
    FirstOrNullIgnoresLater(ids, later, IdentifierOfType(code));
  }

  /** One canonical form of the PNC number, null when there is no PNC value (translator.kt:16-19). */
  function CanonicalPnc(ids: Option<seq<OffenderIdentifier>>, canonical: string -> Option<string>): (r: Option<string>)
    ensures IdentifierValue(ids, "PNC").None? ==> r.None?
    ensures IdentifierValue(ids, "PNC").Some? ==> r == canonical(IdentifierValue(ids, "PNC").value)
  {
    match IdentifierValue(ids, "PNC")
    case Some(v) => canonical(v)
    case None => None
  }

  /** Without a PNC identifier the PNC number and both canonical forms are null. */
  lemma NoPncNoCanonical(ids: Option<seq<OffenderIdentifier>>, canon: Services.PncCanonicaliser)
    requires ids.None? || forall i :: 0 <= i < |ids.value| ==> ids.value[i].typeCode != "PNC"
    ensures IdentifierValue(ids, "PNC") == None
    ensures CanonicalPnc(ids, canon.short) == None && CanonicalPnc(ids, canon.long) == None
  {
    if ids.Some? { IdentifierValueIsFirst(ids.value, "PNC"); }
  }

  function ProfileOfType(code: string): ProfileInformation -> bool {
    (p: ProfileInformation) => p.typeCode == code
  }

  /** The result value of the first profile entry of the given type, or null (translator.kt:70-72). */
  function ProfileValue(ps: Option<seq<ProfileInformation>>, code: string): (r: Option<string>)
    ensures r.Some? ==> ps.Some? && exists k :: 0 <= k < |ps.value| && ps.value[k].typeCode == code && ps.value[k].resultValue == r
  {
    match ps
    case None => None
    case Some(xs) =>
      match FirstOrNull(xs, ProfileOfType(code))
      case Some(p) => p.resultValue
      case None => None
  }

  /** The profile value is that of the first entry of the type; a later entry never counts. */
  lemma ProfileValueIsFirst(ps: seq<ProfileInformation>, code: string, k: nat)
    requires k < |ps| && ps[k].typeCode == code
    requires forall j :: 0 <= j < k ==> ps[j].typeCode != code
    ensures ProfileValue(Some(ps), code) == ps[k].resultValue
  {
    FirstOrNullAt(ps, ProfileOfType(code), k);
  }

  /** Whether the first YOUTH profile value reads "YES" in upper case; a missing value compares
      unequal, so the flag is never null (translator.kt:73-74). */
  function YouthOffender(ps: Option<seq<ProfileInformation>>): (b: bool)
    ensures b ==> ProfileValue(ps, "YOUTH").Some? && |ProfileValue(ps, "YOUTH").value| == 3
  {
    match ProfileValue(ps, "YOUTH")
    case Some(v) => Uppercase(v) == "YES"
    case None => false
  }

  /** The youth flag is true exactly when the first YOUTH entry says "yes" in some case;
      a missing list, a missing entry or a null value all give false. */
  lemma YouthOffenderMeaning(ps: Option<seq<ProfileInformation>>)
    ensures YouthOffender(ps) <==>
      var v := ProfileValue(ps, "YOUTH");
      v.Some? && |v.value| == 3 && v.value[0] in "yY" && v.value[1] in "eE" && v.value[2] in "sS\U{17F}"
  {
    if ProfileValue(ps, "YOUTH").Some? { UppercaseIsYes(ProfileValue(ps, "YOUTH").value); }
  }

  // ---------------------------------------------------------------- aliases and alerts

  datatype PrisonerAlias = PrisonerAlias(
    firstName: string,
    middleNames: Option<string>,
    lastName: string,
    dateOfBirth: LocalDate,
    gender: Option<string>,
    ethnicity: Option<string>)

  /** The alias list mapped field by field, null staying null (translator.kt:38-39). */
  function Aliases(aliases: Option<seq<Alias>>): (r: Option<seq<PrisonerAlias>>)
    ensures r.None? <==> aliases.None?
    ensures r.Some? ==> |r.value| == |aliases.value| && forall i :: 0 <= i < |r.value| ==>
      && r.value[i].firstName == aliases.value[i].firstName
      && r.value[i].middleNames == aliases.value[i].middleName
      && r.value[i].lastName == aliases.value[i].lastName
      && r.value[i].dateOfBirth == aliases.value[i].dob
      && r.value[i].gender == aliases.value[i].gender
      && r.value[i].ethnicity == aliases.value[i].ethnicity
  {
    match aliases
    case None => None
    case Some(xs) =>
      Some(seq(|xs|, i requires 0 <= i < |xs| =>
        PrisonerAlias(xs[i].firstName, xs[i].middleName, xs[i].lastName, xs[i].dob, xs[i].gender, xs[i].ethnicity)))
  }

  datatype PrisonerAlert = PrisonerAlert(alertType: string, alertCode: string, active: bool, expired: bool)

  function ToPrisonerAlert(a: Alert): (r: PrisonerAlert)
    ensures r.alertType == a.alertType && r.alertCode == a.alertCode
    ensures r.active == a.active && r.expired == a.expired
  {
    PrisonerAlert(a.alertType, a.alertCode, a.active, a.expired)
  }

  /** The active alerts, in their original order (translator.kt:41). */
  function ActiveOnly(alerts: seq<Alert>): (r: seq<Alert>)
    ensures |r| <= |alerts|
    decreases |alerts|
  {
    if alerts == [] then []
    else (if alerts[0].active then [alerts[0]] else []) + ActiveOnly(alerts[1..])
  }

  /** The filter keeps exactly the active alerts, each as often as the source has it. */
  lemma {:induction false} ActiveOnlyKeepsActive(alerts: seq<Alert>)
    ensures forall a :: a in ActiveOnly(alerts) <==> a in alerts && a.active
    ensures forall a: Alert :: multiset(ActiveOnly(alerts))[a] == if a.active then multiset(alerts)[a] else 0
    decreases |alerts|
  {
    if alerts != [] {
      ActiveOnlyKeepsActive(alerts[1..]);
      assert alerts == [alerts[0]] + alerts[1..];
    }
  }

  /** The filter keeps source order: it distributes over concatenation. */
  lemma {:induction false} ActiveOnlyConcat(a: seq<Alert>, b: seq<Alert>)
    ensures ActiveOnly(a + b) == ActiveOnly(a) + ActiveOnly(b)
    decreases |a|
  {
    if a == [] {
      assert a + b == b;
    } else {
      assert (a + b)[0] == a[0];
      assert (a + b)[1..] == a[1..] + b;
      ActiveOnlyConcat(a[1..], b);
    }
  }

  /** A list of active alerts is kept whole. */
  lemma {:induction false} AllActiveKept(alerts: seq<Alert>)
    requires forall i :: 0 <= i < |alerts| ==> alerts[i].active
    ensures ActiveOnly(alerts) == alerts
    decreases |alerts|
  {
    if alerts != [] { AllActiveKept(alerts[1..]); }
  }

  function MapAlerts(alerts: seq<Alert>): (r: seq<PrisonerAlert>)
    ensures |r| == |alerts|
    ensures forall i :: 0 <= i < |r| ==> r[i] == ToPrisonerAlert(alerts[i])
  {
    seq(|alerts|, i requires 0 <= i < |alerts| => ToPrisonerAlert(alerts[i]))
  }

  /** The active alerts converted one by one, null staying null (translator.kt:40-41). */
  function Alerts(alerts: Option<seq<Alert>>): (r: Option<seq<PrisonerAlert>>)
    ensures r.None? <==> alerts.None?
    ensures r.Some? ==> forall i :: 0 <= i < |r.value| ==> r.value[i].active
    ensures r.Some? ==> forall a :: a in alerts.value && a.active ==> ToPrisonerAlert(a) in r.value
    ensures r.Some? ==> r.value == MapAlerts(ActiveOnly(alerts.value))
  {
    match alerts
    case None => None
    case Some(xs) =>
      var kept := ActiveOnly(xs);
      ActiveOnlyKeepsActive(xs);
      assert forall a :: a in xs && a.active ==> ToPrisonerAlert(a) in MapAlerts(kept) by {
        forall a | a in xs && a.active ensures ToPrisonerAlert(a) in MapAlerts(kept) {
          var k :| 0 <= k < |kept| && kept[k] == a;
          assert MapAlerts(kept)[k] == ToPrisonerAlert(a);
        }
      }
      assert forall i :: 0 <= i < |kept| ==> kept[i].active by {
        forall i | 0 <= i < |kept| ensures kept[i].active { assert kept[i] in kept; }
      }
      Some(MapAlerts(kept))
  }

  /** Every document alert is the conversion of an active source alert. */
  lemma AlertsFromActive(xs: seq<Alert>)
    ensures forall i :: 0 <= i < |Alerts(Some(xs)).value| ==>
      exists a :: a in xs && a.active && Alerts(Some(xs)).value[i] == ToPrisonerAlert(a)
  {
    var kept := ActiveOnly(xs);
    ActiveOnlyKeepsActive(xs);
    var r := Alerts(Some(xs)).value;
    assert r == MapAlerts(kept);
    forall i | 0 <= i < |r|
      ensures exists a :: a in xs && a.active && r[i] == ToPrisonerAlert(a)
    {
      assert kept[i] in kept;
      assert r[i] == ToPrisonerAlert(kept[i]);
    }
  }

  /** The document alerts of two source lists joined are those of each, in the same order, so
      source order and repeats are kept. */
  lemma AlertsConcat(xs: seq<Alert>, ys: seq<Alert>)
    ensures Alerts(Some(xs + ys)).value == Alerts(Some(xs)).value + Alerts(Some(ys)).value
  {
    ActiveOnlyConcat(xs, ys);
    var l, m, r := MapAlerts(ActiveOnly(xs + ys)), MapAlerts(ActiveOnly(xs)), MapAlerts(ActiveOnly(ys));
    assert |l| == |m + r|;
    forall i | 0 <= i < |l| ensures l[i] == (m + r)[i] {
      if i < |m| { assert ActiveOnly(xs + ys)[i] == ActiveOnly(xs)[i]; }
      else { assert ActiveOnly(xs + ys)[i] == ActiveOnly(ys)[i - |m|]; }
    }
  }

  // ---------------------------------------------------------------- physical characteristics

  /** The characteristics whose detail is neither null nor blank, in order (translator.kt:48). */
  function NotBlank(cs: seq<PhysicalCharacteristic>): (r: seq<PhysicalCharacteristic>)
    ensures |r| <= |cs|
    decreases |cs|
  {
    if cs == [] then []
    else NotBlank(cs[..|cs| - 1]) + (if IsNullOrBlank(cs[|cs| - 1].detail) then [] else [cs[|cs| - 1]])
  }

  /** Exactly the entries with a non-blank detail survive the filter. */
  lemma {:induction false} NotBlankMembers(cs: seq<PhysicalCharacteristic>)
    ensures forall c :: c in NotBlank(cs) <==> c in cs && !IsNullOrBlank(c.detail)
    decreases |cs|
  {
    if cs != [] {
      NotBlankMembers(cs[..|cs| - 1]);
      assert cs == cs[..|cs| - 1] + [cs[|cs| - 1]];
    }
  }

  lemma {:induction false} NotBlankConcat(a: seq<PhysicalCharacteristic>, b: seq<PhysicalCharacteristic>)
    ensures NotBlank(a + b) == NotBlank(a) + NotBlank(b)
    decreases |b|
  {
    if b == [] {
      assert a + b == a;
    } else {
      assert (a + b)[..|a + b| - 1] == a + b[..|b| - 1];
      assert (a + b)[|a + b| - 1] == b[|b| - 1];
      NotBlankConcat(a, b[..|b| - 1]);
    }
  }

  function CharacteristicOfType(code: string): PhysicalCharacteristic -> bool {
    (c: PhysicalCharacteristic) => c.typeCode == code
  }

  /** A field set by the characteristics loop: the detail of the last non-blank entry of its
      type, or the receiver's prior value when there is none. */
  function DetailAfter(prior: Option<string>, nonBlank: seq<PhysicalCharacteristic>, code: string): (r: Option<string>)
    ensures (forall i :: 0 <= i < |nonBlank| ==> nonBlank[i].typeCode != code) ==> r == prior
    ensures r != prior ==> exists i :: 0 <= i < |nonBlank| && nonBlank[i].typeCode == code && nonBlank[i].detail == r
  {
    match LastIndex(nonBlank, CharacteristicOfType(code))
    case Some(k) => nonBlank[k].detail
    case None => prior
  }

  /** `shoeSize` after the loop: the last non-blank SHOESIZE detail parsed as an `Int`, or the prior value. */
  function ShoeSizeAfter(prior: Option<int>, nonBlank: seq<PhysicalCharacteristic>): (r: Option<int>)
    ensures (forall i :: 0 <= i < |nonBlank| ==> nonBlank[i].typeCode != "SHOESIZE") ==> r == prior
    ensures r != prior && r.Some? ==> IntMin <= r.value <= IntMax
  {
    match LastIndex(nonBlank, CharacteristicOfType("SHOESIZE"))
    case Some(k) => if nonBlank[k].detail.Some? then ToIntOrNull(nonBlank[k].detail.value) else None
    case None => prior
  }

  /** One more iteration of the characteristics loop: an entry of the field's type overwrites it. */
  lemma DetailAfterStep(prior: Option<string>, cs: seq<PhysicalCharacteristic>, c: PhysicalCharacteristic, code: string)
    ensures DetailAfter(prior, cs + [c], code) == if c.typeCode == code then c.detail else DetailAfter(prior, cs, code)
  {
    assert (cs + [c])[..|cs|] == cs;
    assert (cs + [c])[|cs|] == c;
  }

  lemma ShoeSizeAfterStep(prior: Option<int>, cs: seq<PhysicalCharacteristic>, c: PhysicalCharacteristic)
    ensures ShoeSizeAfter(prior, cs + [c]) ==
      if c.typeCode != "SHOESIZE" then ShoeSizeAfter(prior, cs)
      else if c.detail.Some? then ToIntOrNull(c.detail.value) else None
  {
    assert (cs + [c])[..|cs|] == cs;
    assert (cs + [c])[|cs|] == c;
  }

  /** An element after which nothing matches is the last match. */
  lemma LastIndexAt<T>(xs: seq<T>, p: T -> bool, k: nat)
    requires k < |xs| && p(xs[k])
    requires forall j :: k < j < |xs| ==> !p(xs[j])
    ensures LastIndex(xs, p) == Some(k)
  {
  }

  /** Entries of a type whose details are all blank leave no entry of that type behind. */
  lemma NoNonBlankOfType(cs: seq<PhysicalCharacteristic>, code: string)
    requires forall j :: 0 <= j < |cs| && cs[j].typeCode == code ==> IsNullOrBlank(cs[j].detail)
    ensures forall j :: 0 <= j < |NotBlank(cs)| ==> NotBlank(cs)[j].typeCode != code
  {
    NotBlankMembers(cs);
    forall j | 0 <= j < |NotBlank(cs)| ensures NotBlank(cs)[j].typeCode != code {
      assert NotBlank(cs)[j] in NotBlank(cs);
    }
  }

  /** Over the original list: the last entry of the type with a non-blank detail decides the field,
      whatever blank entries of the type come after it. */
  lemma LastNonBlankDecides(prior: Option<string>, priorShoe: Option<int>, cs: seq<PhysicalCharacteristic>, code: string, k: nat)
    requires k < |cs| && cs[k].typeCode == code && !IsNullOrBlank(cs[k].detail)
    requires forall j :: k < j < |cs| && cs[j].typeCode == code ==> IsNullOrBlank(cs[j].detail)
    ensures DetailAfter(prior, NotBlank(cs), code) == cs[k].detail
    ensures code == "SHOESIZE" ==> ShoeSizeAfter(priorShoe, NotBlank(cs)) == ToIntOrNull(cs[k].detail.value)
  {
    var before, after := NotBlank(cs[..k]), NotBlank(cs[k + 1..]);
    NotBlankAround(cs, k);
    NoNonBlankOfType(cs[k + 1..], code);
    LastBeforeNoMatch(before, cs[k], after, CharacteristicOfType(code));
  }

  /** A non-blank entry stays between what survives before it and what survives after it. */
  lemma NotBlankAround(cs: seq<PhysicalCharacteristic>, k: nat)
    requires k < |cs| && !IsNullOrBlank(cs[k].detail)
    ensures NotBlank(cs) == NotBlank(cs[..k]) + [cs[k]] + NotBlank(cs[k + 1..])
  {
    var pre, x, post := cs[..k], cs[k], cs[k + 1..];
    assert cs == (pre + [x]) + post;
    NotBlankConcat(pre + [x], post);
    NotBlankSnoc(pre, x);
  }

  lemma NotBlankSnoc(pre: seq<PhysicalCharacteristic>, x: PhysicalCharacteristic)
    requires !IsNullOrBlank(x.detail)
    ensures NotBlank(pre + [x]) == NotBlank(pre) + [x]
  {
    assert (pre + [x])[..|pre|] == pre;
    assert (pre + [x])[|pre|] == x;
  }

  /** A match followed only by non-matches is the last match. */
  lemma LastBeforeNoMatch<T>(before: seq<T>, x: T, after: seq<T>, p: T -> bool)
    requires p(x) && forall j :: 0 <= j < |after| ==> !p(after[j])
    ensures LastIndex(before + [x] + after, p) == Some(|before|)
  {
    LastIndexSkipsTail(before + [x], after, p);
  }

  /** Non-matching entries at the end do not move the last match. */
  lemma {:induction false} LastIndexSkipsTail<T>(xs: seq<T>, after: seq<T>, p: T -> bool)
    requires forall j :: 0 <= j < |after| ==> !p(after[j])
    ensures LastIndex(xs + after, p) == LastIndex(xs, p)
    decreases |after|
  {
    if after == [] {
      assert xs + after == xs;
    } else {
      var ys := xs + after;
      assert ys[|ys| - 1] == after[|after| - 1];
      assert ys[..|ys| - 1] == xs + after[..|after| - 1];
      LastIndexSkipsTail(xs, after[..|after| - 1], p);
    }
  }

  /** Applying the same characteristics again changes nothing: a second translation of the same
      booking leaves the characteristic fields as the first one set them. */
  lemma CharacteristicsReapplied(prior: Option<string>, priorShoe: Option<int>, nonBlank: seq<PhysicalCharacteristic>, code: string)
    ensures DetailAfter(DetailAfter(prior, nonBlank, code), nonBlank, code) == DetailAfter(prior, nonBlank, code)
    ensures ShoeSizeAfter(ShoeSizeAfter(priorShoe, nonBlank), nonBlank) == ShoeSizeAfter(priorShoe, nonBlank)
  {
  }

  /** A blank shoe size is skipped, so the unparsable "abc" before it decides: the field becomes
      null, replacing both the earlier "9" and the receiver's prior value. */
  lemma ShoeSizeScenario()
    ensures ShoeSizeAfter(Some(42), NotBlank([PhysicalCharacteristic("SHOESIZE", Some("9")),
                                              PhysicalCharacteristic("SHOESIZE", Some("abc")),
                                              PhysicalCharacteristic("SHOESIZE", Some("  "))])) == None
  {
    var cs := [PhysicalCharacteristic("SHOESIZE", Some("9")), PhysicalCharacteristic("SHOESIZE", Some("abc")),
               PhysicalCharacteristic("SHOESIZE", Some("  "))];
    assert !IsBlank("abc") by { assert !IsWhitespace("abc"[0]); }
    LastNonBlankDecides(None, Some(42), cs, "SHOESIZE", 1);
    NonNumericIsNull();
  }

  /** A field whose type has no non-blank entry keeps the receiver's prior value. */
  lemma NoEntryKeepsPrior(prior: Option<string>, priorShoe: Option<int>, cs: seq<PhysicalCharacteristic>, code: string)
    requires forall j :: 0 <= j < |cs| && cs[j].typeCode == code ==> IsNullOrBlank(cs[j].detail)
    ensures DetailAfter(prior, NotBlank(cs), code) == prior
    ensures code == "SHOESIZE" ==> ShoeSizeAfter(priorShoe, NotBlank(cs)) == priorShoe
  {
    var nb := NotBlank(cs);
    NotBlankMembers(cs);
    forall j | 0 <= j < |nb| ensures !CharacteristicOfType(code)(nb[j]) {
      assert nb[j] in cs;
    }
  }

  // ---------------------------------------------------------------- physical marks

  datatype BodyPartDetail = BodyPartDetail(bodyPart: string, comment: Option<string>)

  /** A list extended by one detail, a null list becoming a singleton (translator.kt:62-65). */
  function Plus<T>(list: Option<seq<T>>, x: T): (r: Option<seq<T>>)
    ensures r.Some? && r.value == list.GetOr([]) + [x]
  {
    match list
    case Some(l) => Some(l + [x])
    case None => Some([x])
  }

  /** Appending the details one `Plus` at a time */
  function AppendAll<T>(list: Option<seq<T>>, xs: seq<T>): (r: Option<seq<T>>)
    ensures xs == [] ==> r == list
    ensures xs != [] ==> r == Some(list.GetOr([]) + xs)
    decreases |xs|
  {
    if xs == [] then list
    else
      var init, last := xs[..|xs| - 1], xs[|xs| - 1];
      assert xs == init + [last];
      assert AppendAll(list, init).GetOr([]) == list.GetOr([]) + init;
      assert Plus(AppendAll(list, init), last) == Some(AppendAll(list, init).GetOr([]) + [last]);
      assert list.GetOr([]) + init + [last] == list.GetOr([]) + xs;
      Plus(AppendAll(list, init), last)
  }

  /** Filing the same non-empty details twice into one list duplicates them: unlike the
      characteristics, the marks of a document translated again from the same booking pile up. */
  lemma AppendAllTwice<T>(list: Option<seq<T>>, xs: seq<T>)
    requires xs != []
    ensures AppendAll(AppendAll(list, xs), xs) == Some(list.GetOr([]) + xs + xs)
    ensures AppendAll(AppendAll(list, xs), xs) != AppendAll(list, xs)
  {
    assert |list.GetOr([]) + xs + xs| > |list.GetOr([]) + xs|;
  }

  predicate IsMarkCategory(c: string) {
    c == "Tattoo" || c == "Scar" || c == "Mark" || c == "Other"
  }

  /** A mark the loop files somewhere: it names a body part and a known category. */
  predicate Filed(pm: PhysicalMark) {
    pm.bodyPart.Some? && IsMarkCategory(pm.typeCode)
  }

  /** The details that the marks loop appends to the list of one category, in source order */
  function MarksOf(pms: seq<PhysicalMark>, category: string): (r: seq<BodyPartDetail>)
    ensures |r| <= |pms|
    decreases |pms|
  {
    if pms == [] then []
    else
      var pm := pms[|pms| - 1];
      MarksOf(pms[..|pms| - 1], category) +
        (if pm.bodyPart.Some? && pm.typeCode == category then [BodyPartDetail(pm.bodyPart.value, pm.comment)] else [])
  }

  /** One more iteration of the marks loop */
  lemma MarksOfStep(pms: seq<PhysicalMark>, j: nat, category: string)
    requires j < |pms|
    ensures pms[j].bodyPart.Some? && pms[j].typeCode == category ==>
      MarksOf(pms[..j + 1], category) == MarksOf(pms[..j], category) + [BodyPartDetail(pms[j].bodyPart.value, pms[j].comment)]
    ensures !(pms[j].bodyPart.Some? && pms[j].typeCode == category) ==>
      MarksOf(pms[..j + 1], category) == MarksOf(pms[..j], category)
  {
    assert pms[..j + 1][..j] == pms[..j];
  }

  function CountFiled(pms: seq<PhysicalMark>): (n: nat)
    decreases |pms|
  {
    if pms == [] then 0 else CountFiled(pms[..|pms| - 1]) + (if Filed(pms[|pms| - 1]) then 1 else 0)
  }

  /** Every filed mark lands in exactly one of the four lists; every other mark in none. */
  lemma {:induction false} MarksPartition(pms: seq<PhysicalMark>)
    ensures |MarksOf(pms, "Tattoo")| + |MarksOf(pms, "Scar")| + |MarksOf(pms, "Mark")| + |MarksOf(pms, "Other")|
      == CountFiled(pms)
    decreases |pms|
  {
    if pms != [] { MarksPartition(pms[..|pms| - 1]); }
  }

  /** A mark without a body part or with an unknown category is dropped from every list. */
  lemma UnfiledMarkDropped(pms: seq<PhysicalMark>, pm: PhysicalMark, category: string)
    requires !Filed(pm) && IsMarkCategory(category)
    ensures MarksOf(pms + [pm], category) == MarksOf(pms, category)
  {
    assert (pms + [pm])[..|pms|] == pms;
  }

  /** A filed mark goes to the end of its own category's list and to no other. */
  lemma FiledMarkAppended(pms: seq<PhysicalMark>, pm: PhysicalMark, category: string)
    requires Filed(pm)
    ensures category == pm.typeCode ==>
      MarksOf(pms + [pm], category) == MarksOf(pms, category) + [BodyPartDetail(pm.bodyPart.value, pm.comment)]
    ensures category != pm.typeCode ==> MarksOf(pms + [pm], category) == MarksOf(pms, category)
  {
    assert (pms + [pm])[..|pms|] == pms;
  }

  // ---------------------------------------------------------------- sentence dates

  /** The override date when recorded, else the calculated date; null without a sentence detail
      (translator.kt:93-98, the same rule for all three dates). */
  function AutomaticReleaseDate(sd: Option<SentenceDetail>): (r: Option<LocalDate>)
    ensures r.Some? ==> sd.Some? && (r == sd.value.automaticReleaseOverrideDate || r == sd.value.automaticReleaseDate)
  {
    match sd
    case Some(d) => OrElse(d.automaticReleaseOverrideDate, d.automaticReleaseDate)
    case None => None
  }

  function PostRecallReleaseDate(sd: Option<SentenceDetail>): (r: Option<LocalDate>)
    ensures r.Some? ==> sd.Some? && (r == sd.value.postRecallReleaseOverrideDate || r == sd.value.postRecallReleaseDate)
  {
    match sd
    case Some(d) => OrElse(d.postRecallReleaseOverrideDate, d.postRecallReleaseDate)
    case None => None
  }

  function ConditionalReleaseDate(sd: Option<SentenceDetail>): (r: Option<LocalDate>)
    ensures r.Some? ==> sd.Some? && (r == sd.value.conditionalReleaseOverrideDate || r == sd.value.conditionalReleaseDate)
  {
    match sd
    case Some(d) => OrElse(d.conditionalReleaseOverrideDate, d.conditionalReleaseDate)
    case None => None
  }

  /** An override date, when recorded, wins over the calculated date; without a sentence
      detail all three dates are null. */
  lemma OverridePrecedence(sd: Option<SentenceDetail>)
    ensures sd.None? ==> AutomaticReleaseDate(sd) == None && PostRecallReleaseDate(sd) == None && ConditionalReleaseDate(sd) == None
    ensures sd.Some? ==>
      AutomaticReleaseDate(sd) == (if sd.value.automaticReleaseOverrideDate.Some? then sd.value.automaticReleaseOverrideDate else sd.value.automaticReleaseDate)
    ensures sd.Some? ==>
      PostRecallReleaseDate(sd) == (if sd.value.postRecallReleaseOverrideDate.Some? then sd.value.postRecallReleaseOverrideDate else sd.value.postRecallReleaseDate)
    ensures sd.Some? ==>
      ConditionalReleaseDate(sd) == (if sd.value.conditionalReleaseOverrideDate.Some? then sd.value.conditionalReleaseOverrideDate else sd.value.conditionalReleaseDate)
  {
  }

  // ---------------------------------------------------------------- booking-id guards

  function MostSeriousFor(bookingId: Option<int>): OffenceHistoryDetail -> bool {
    (off: OffenceHistoryDetail) => off.mostSerious && bookingId == Some(off.bookingId)
  }

  /** The description of the first offence that is flagged most serious and belongs to this
      booking (translator.kt:105-106). */
  function MostSeriousOffence(history: Option<seq<OffenceHistoryDetail>>, bookingId: Option<int>): (r: Option<string>)
    ensures r.Some? ==>
      history.Some? &&
      exists k :: 0 <= k < |history.value| && history.value[k].mostSerious &&
                  bookingId == Some(history.value[k].bookingId) && history.value[k].offenceDescription == r.value
    ensures bookingId.None? || history.None? ==> r.None?
  {
    match history
    case None => None
    case Some(offs) =>
      match FirstIndex(offs, MostSeriousFor(bookingId))
      case Some(k) => Some(offs[k].offenceDescription)
      case None => None
  }

  /** The first most-serious entry of this booking is chosen; earlier entries of other bookings are passed over. */
  lemma MostSeriousOffenceIsFirst(offs: seq<OffenceHistoryDetail>, bookingId: int, k: nat)
    requires k < |offs| && offs[k].mostSerious && offs[k].bookingId == bookingId
    requires forall j :: 0 <= j < k ==> !(offs[j].mostSerious && offs[j].bookingId == bookingId)
    ensures MostSeriousOffence(Some(offs), Some(bookingId)) == Some(offs[k].offenceDescription)
  {
    FirstOrNullAt(offs, MostSeriousFor(Some(bookingId)), k);
  }

  lemma MostSeriousOffenceScenario()
    ensures MostSeriousOffence(Some([OffenceHistoryDetail(6, true, "Fraud"), OffenceHistoryDetail(5, true, "Theft")]), Some(5)) == Some("Theft")
    ensures MostSeriousOffence(Some([OffenceHistoryDetail(5, true, "Theft"), OffenceHistoryDetail(6, true, "Fraud")]), Some(5)) == Some("Theft")
  {
    MostSeriousOffenceIsFirst([OffenceHistoryDetail(6, true, "Fraud"), OffenceHistoryDetail(5, true, "Theft")], 5, 1);
    MostSeriousOffenceIsFirst([OffenceHistoryDetail(5, true, "Theft"), OffenceHistoryDetail(6, true, "Fraud")], 5, 0);
  }

  /** Whether some term is a life sentence on this booking (translator.kt:111). */
  function AnyLifeSentenceFor(terms: seq<SentenceTerms>, bookingId: Option<int>): (b: bool)
    ensures b <==> exists i :: 0 <= i < |terms| && terms[i].lifeSentence && bookingId == Some(terms[i].bookingId)
    decreases |terms|
  {
    if terms == [] then false
    else (terms[0].lifeSentence && bookingId == Some(terms[0].bookingId)) || AnyLifeSentenceFor(terms[1..], bookingId)
  }

  /** Null without terms, else whether some life sentence is on this booking (translator.kt:111). */
  function IndeterminateSentence(terms: Option<seq<SentenceTerms>>, bookingId: Option<int>): (r: Option<bool>)
    ensures r.None? <==> terms.None?
    ensures r.Some? ==> (r.value <==>
      exists i :: 0 <= i < |terms.value| && terms.value[i].lifeSentence && bookingId == Some(terms.value[i].bookingId))
    ensures terms.Some? && bookingId.None? ==> r == Some(false)
  {
    match terms
    case None => None
    case Some(ts) => Some(AnyLifeSentenceFor(ts, bookingId))
  }

  // ---------------------------------------------------------------- restricted patients

  function HospitalDescription(rp: Option<Services.RestrictedPatient>): (r: Option<string>)
    ensures r.Some? ==> rp.Some? && rp.value.dischargedHospital.Some? && rp.value.dischargedHospital.value.description == r
    ensures rp.Some? && rp.value.dischargedHospital.Some? ==> r == rp.value.dischargedHospital.value.description
    ensures rp.None? || rp.value.dischargedHospital.None? ==> r.None?
  {
    match rp
    case Some(p) => if p.dischargedHospital.Some? then p.dischargedHospital.value.description else None
    case None => None
  }

  /** For a restricted patient, the booking's location and the hospital's description joined by
      " - discharged to ", nulls rendered as text; otherwise the booking's location (translator.kt:101-103). */
  function LocationDescription(location: Option<string>, rp: Option<Services.RestrictedPatient>): (r: Option<string>)
    ensures rp.None? ==> r == location
    ensures rp.Some? ==> r.Some?
  {
    match rp
    case Some(_) => Some(Render(location) + " - discharged to " + Render(HospitalDescription(rp)))
    case None => location
  }

  /** For a restricted patient the description starts with the prison's own text ("null" when it
      has none) and ends with the hospital's ("null" when there is none). */
  lemma LocationOverlay(location: Option<string>, rp: Services.RestrictedPatient)
    ensures var d := LocationDescription(location, Some(rp)).value;
      var head := Render(location);
      var tail := Render(HospitalDescription(Some(rp)));
      && |d| == |head| + |" - discharged to "| + |tail|
      && d[..|head|] == head
      && d[|head|..|head| + |" - discharged to "|] == " - discharged to "
      && d[|d| - |tail|..] == tail
  {
  }

  lemma LocationOverlayNulls(rp: Services.RestrictedPatient)
    requires rp.dischargedHospital.None?
    ensures LocationDescription(None, Some(rp)) == Some("null - discharged to null")
  {
    assert HospitalDescription(Some(rp)) == None;
    assert "null" + " - discharged to " + "null" == "null - discharged to null";
  }
}
