/**
 * The add/update appointment form (Controller/AddUpdateAppointmentController.java):
 * the quarter-hour time choices, the business-hours rule, the overlap rule, and the
 * save sequence whose first failing check decides the message shown.
 */
module AddUpdateAppointment {
  import opened Wrappers
  import opened ZonedTime
  import opened Appointments
  import opened AppointmentDao

  // ---------------------------------------------------------------- text fields

  /** Java's String.trim: leading characters at or below U+0020 removed. */
  // What is removed is TrimStartDropsBlanks.
  function TrimStart(s: string): (r: string)
    ensures |r| <= |s|
  {
    if s != [] && s[0] <= ' ' then TrimStart(s[1..]) else s
  }

  /** Java's String.trim: trailing characters at or below U+0020 removed. */
  // What is removed is TrimEndDropsBlanks.
  function TrimEnd(s: string): (r: string)
    ensures |r| <= |s|
  {
    if s != [] && s[|s| - 1] <= ' ' then TrimEnd(s[..|s| - 1]) else s
  }

  /** Java's String.trim. */
  function Trim(s: string): string {
    TrimEnd(TrimStart(s))
  }

  /** TrimStart drops a prefix of blanks and control characters and stops at the first other character. */
  lemma {:induction false} TrimStartDropsBlanks(s: string)
    ensures TrimStart(s) == s[|s| - |TrimStart(s)|..]
    ensures forall k :: 0 <= k < |s| - |TrimStart(s)| ==> s[k] <= ' '
    ensures TrimStart(s) != [] ==> TrimStart(s)[0] > ' '
  {
    if s != [] && s[0] <= ' ' {
      TrimStartDropsBlanks(s[1..]);
    }
  }

  /** TrimEnd drops a suffix of blanks and control characters and stops at the last other character. */
  lemma {:induction false} TrimEndDropsBlanks(s: string)
    ensures TrimEnd(s) == s[..|TrimEnd(s)|]
    ensures forall k :: |TrimEnd(s)| <= k < |s| ==> s[k] <= ' '
    ensures TrimEnd(s) != [] ==> TrimEnd(s)[|TrimEnd(s)| - 1] > ' '
  {
    if s != [] && s[|s| - 1] <= ' ' {
      TrimEndDropsBlanks(s[..|s| - 1]);
    }
  }

  /** A field is empty after trimming exactly when it holds nothing but blanks and control characters. */
  lemma {:induction false} TrimEmptyIff(s: string)
    ensures Trim(s) == [] <==> forall k :: 0 <= k < |s| ==> s[k] <= ' '
  {
    var t := TrimStart(s);
    TrimStartDropsBlanks(s);
    TrimEndDropsBlanks(t);
    if Trim(s) != [] {
      assert t != [] && t[0] == s[|s| - |t|];
    }
  }

  // ---------------------------------------------------------------- time choices

  /** The four quarter-hour choices of one hour. */
  function HourSlots(hour: int): seq<int> {
    seq(4, i => LocalTimeOf(hour, i * 15))
  }

  /** The quarter-hour choices from `hour`:00 to 23:45. */
  function SlotsFrom(hour: nat): (r: seq<int>)
    requires hour <= 24
    ensures |r| == 4 * (24 - hour)
    ensures forall k :: 0 <= k < |r| ==> r[k] == LocalTimeOf(hour + k / 4, (k % 4) * 15)
    decreases 24 - hour
  {
    if hour == 24 then [] else HourSlots(hour) + SlotsFrom(hour + 1)
  }

  /** The start- and end-time choices offered by the form: 00:00, 00:15, ..., 23:45. */
  function QuarterHourSlots(): seq<int> {
    SlotsFrom(0)
  }

  /** There are 96 choices, strictly increasing, each on the hour or at :15, :30 or :45, all within one day. */
  lemma {:induction false} QuarterHourSlotsShape()
    ensures |QuarterHourSlots()| == 96
    ensures forall k :: 0 <= k < 96 ==>
              && QuarterHourSlots()[k] == LocalTimeOf(k / 4, (k % 4) * 15)
              && 0 <= k / 4 < 24 && (k % 4) * 15 in {0, 15, 30, 45}
              && 0 <= QuarterHourSlots()[k] < SecondsPerDay
    ensures forall i, j :: 0 <= i < j < 96 ==> QuarterHourSlots()[i] < QuarterHourSlots()[j]
  {
    var r := QuarterHourSlots();
    forall k | 0 <= k < 96
      ensures r[k] == 900 * k
    {
      assert r[k] == (k / 4) * 3600 + (k % 4) * 15 * 60;
    }
  }

  // ---------------------------------------------------------------- business hours

  /** 08:00 and 22:00, opening and closing time in New York. */
  const BusinessOpen := LocalTimeOf(8, 0)
  const BusinessClose := LocalTimeOf(22, 0)

  /** The clock time of a wall-clock date-time lies in [08:00, 22:00]. */
  predicate InBusinessWindow(t: int) {
    BusinessOpen <= TimeOfDay(t) <= BusinessClose
  }

  /**
   * Both endpoints, moved from the system zone to New York, show a clock time in
   * [08:00, 22:00], and the end instant is not before the start instant. Only the
   * clock times are checked against the window, never the dates.
   */
  predicate IsWithinBusinessHours(start: int, end: int, system: Zone, newYork: Zone) {
    && InBusinessWindow(Convert(start, system, newYork))
    && InBusinessWindow(Convert(end, system, newYork))
    && !(ToUtc(end, system) < ToUtc(start, system))
  }

  /**
   * With fixed offsets, the rule is the window applied to both New York clock times
   * plus plain order of the local times, whatever the system zone is.
   */
  lemma {:induction false} BusinessHoursFixedZones(start: int, end: int, system: Zone, newYork: Zone, a: int, b: int)
    requires IsFixed(system, a) && IsFixed(newYork, b)
    ensures IsWithinBusinessHours(start, end, system, newYork) <==>
              && BusinessOpen <= TimeOfDay(start - a + b) <= BusinessClose
              && BusinessOpen <= TimeOfDay(end - a + b) <= BusinessClose
              && start <= end
  {
    FixedConvertShifts(start, end, system, newYork, a, b);
    assert system.offsetForLocal(start) == a && system.offsetForLocal(end) == a;
    assert newYork.offsetAtInstant(start - a) == b && newYork.offsetAtInstant(end - a) == b;
  }

  /** A New York clock time before 08:00 or after 22:00 at either endpoint fails the rule. */
  lemma OutsideWindowFails(start: int, end: int, system: Zone, newYork: Zone)
    requires !InBusinessWindow(Convert(start, system, newYork)) || !InBusinessWindow(Convert(end, system, newYork))
    ensures !IsWithinBusinessHours(start, end, system, newYork)
  {
  }

  /**
   * The rule accepts an appointment from 21:00 one day to 09:00 the next in New
   * York, because both clock times are inside the window.
   */
  lemma {:induction false} OvernightSpanAccepted(day: int)
    ensures IsWithinBusinessHours(DateTimeOf(day, LocalTimeOf(21, 0)), DateTimeOf(day + 1, LocalTimeOf(9, 0)),
                                  Fixed(-4 * SecondsPerHour), Fixed(-4 * SecondsPerHour))
  {
    var z := Fixed(-4 * SecondsPerHour);
    var s, e := DateTimeOf(day, LocalTimeOf(21, 0)), DateTimeOf(day + 1, LocalTimeOf(9, 0));
    assert Convert(s, z, z) == s && Convert(e, z, z) == e;
    DateTimeJoin(day, LocalTimeOf(21, 0));
    DateTimeJoin(day + 1, LocalTimeOf(9, 0));
  }

  /** 09:00-10:00 on a UTC system is 05:00-06:00 in New York at UTC-4: refused as before opening. */
  lemma {:induction false} EarlyUtcMorningRefused(day: int)
    ensures !IsWithinBusinessHours(DateTimeOf(day, LocalTimeOf(9, 0)), DateTimeOf(day, LocalTimeOf(10, 0)),
                                   Utc(), Fixed(-4 * SecondsPerHour))
  {
    var s := DateTimeOf(day, LocalTimeOf(9, 0));
    assert Convert(s, Utc(), Fixed(-4 * SecondsPerHour)) == DateTimeOf(day, LocalTimeOf(5, 0));
    DateTimeJoin(day, LocalTimeOf(5, 0));
  }

  // ---------------------------------------------------------------- overlap

  /** The overlap test of the save loop: the candidate starts before the other ends and ends after it starts. */
  predicate Conflicts(start: int, end: int, otherStart: int, otherEnd: int) {
    start < otherEnd && end > otherStart
  }

  /** The test is symmetric, and back-to-back appointments do not conflict. */
  lemma ConflictsSymmetric(start: int, end: int, otherStart: int, otherEnd: int)
    ensures Conflicts(start, end, otherStart, otherEnd) == Conflicts(otherStart, otherEnd, start, end)
    ensures end == otherStart ==> !Conflicts(start, end, otherStart, otherEnd)
    ensures otherEnd == start ==> !Conflicts(start, end, otherStart, otherEnd)
  {
  }

  /** Instant `t` lies in the half-open interval [start, end). */
  predicate Covers(start: int, end: int, t: int) {
    start <= t < end
  }

  /** For two proper intervals, the test holds exactly when the half-open intervals share an instant. */
  lemma {:induction false} ConflictsIffShareInstant(start: int, end: int, otherStart: int, otherEnd: int)
    requires start < end && otherStart < otherEnd
    ensures Conflicts(start, end, otherStart, otherEnd) <==>
              exists t :: Covers(start, end, t) && Covers(otherStart, otherEnd, t)
  {
    if Conflicts(start, end, otherStart, otherEnd) {
      var t := if start < otherStart then otherStart else start;
      assert Covers(start, end, t) && Covers(otherStart, otherEnd, t);
    }
  }

  /** An existing appointment the save loop skips: the record being edited, when an id is present. */
  predicate Skipped(currentId: int, appt: Appointment)
    reads appt
  {
    currentId != 0 && appt.id == currentId
  }

  /** Some appointment of the list, other than the one being edited, conflicts with the candidate. */
  predicate HasOverlap(start: int, end: int, currentId: int, appts: seq<Appointment>)
    reads appts
  {
    exists k :: 0 <= k < |appts| && !Skipped(currentId, appts[k]) && Conflicts(start, end, appts[k].start, appts[k].end)
  }

  /** The save loop over the customer's appointments, stopping at the first conflict. */
  method FindOverlap(start: int, end: int, currentId: int, appts: seq<Appointment>) returns (overlap: bool)
    ensures overlap <==> HasOverlap(start, end, currentId, appts)
  {
    for k := 0 to |appts|
      invariant !HasOverlap(start, end, currentId, appts[..k])
    {
      var appt := appts[k];
      if currentId != 0 && appt.id == currentId {
        continue;
      }
      if start < appt.end && end > appt.start {
        assert !Skipped(currentId, appts[k]) && Conflicts(start, end, appts[k].start, appts[k].end);
        return true;
      }
    }
    assert appts[..|appts|] == appts;
    return false;
  }

  /** A new appointment (id 0) is checked against every appointment of the list. */
  lemma NewAppointmentChecksAll(start: int, end: int, appts: seq<Appointment>)
    ensures HasOverlap(start, end, 0, appts) <==>
              exists k :: 0 <= k < |appts| && Conflicts(start, end, appts[k].start, appts[k].end)
  {
  }

  /**
   * An edit never conflicts with its own stored record: if the only conflicting
   * entries carry the edited id, no overlap is reported.
   */
  lemma {:induction false} EditIgnoresOwnRecord(start: int, end: int, currentId: int, appts: seq<Appointment>)
    requires currentId != 0
    requires forall k :: 0 <= k < |appts| && appts[k].id != currentId ==>
               !Conflicts(start, end, appts[k].start, appts[k].end)
    ensures !HasOverlap(start, end, currentId, appts)
  {
  }

  // ---------------------------------------------------------------- validation

  /** The raw values of the form's inputs; an unselected picker or combo box is None. */
  datatype Form = Form(title: string, description: string, location: string, appointmentType: string,
                       contactName: Option<string>,
                       startDate: Option<int>, startTime: Option<int>,
                       endDate: Option<int>, endTime: Option<int>,
                       customerId: Option<int>, userId: Option<int>)

  /** Why a save was refused, in the order the checks run. */
  datatype Reason = MissingFields | EndNotAfterStart | OutsideBusinessHours | InvalidContact | OverlappingAppointment

  /** The result of the checks: the candidate's times and contact, or the first failure. */
  datatype Verdict = Accept(start: int, end: int, contactId: int) | Reject(reason: Reason)

  /** A required input is missing; description and location may be empty. */
  predicate MissingField(f: Form) {
    || Trim(f.title) == [] || f.contactName.None?
    || f.startDate.None? || f.startTime.None? || f.endDate.None? || f.endTime.None?
    || f.customerId.None? || f.userId.None? || Trim(f.appointmentType) == []
  }

  function StartOf(f: Form): int
    requires f.startDate.Some? && f.startTime.Some?
  {
    DateTimeOf(f.startDate.value, f.startTime.value)
  }

  function EndOf(f: Form): int
    requires f.endDate.Some? && f.endTime.Some?
  {
    DateTimeOf(f.endDate.value, f.endTime.value)
  }

  /**
   * The checks of a save, in the order they run; the first failing one decides.
   * `contactIdOf` is the contacts table keyed by name, read through
   * ContactIdByName; `existing` holds the customer's stored appointments.
   */
  function Validate(f: Form, currentId: int, contactIdOf: map<string, int>, existing: seq<Appointment>,
                    system: Zone, newYork: Zone): (v: Verdict)
    reads existing
  {
    if MissingField(f) then Reject(MissingFields)
    else CheckTimes(StartOf(f), EndOf(f), f.contactName.value, currentId, contactIdOf, existing, system, newYork)
  }

  /**
   * ContactDAO.getContactIdByName: the Contact_ID stored under the name, or -1 when
   * the directory has no such name. A stored id of -1 is indistinguishable from a miss.
   */
  function ContactIdByName(contactIdOf: map<string, int>, contactName: string): int {
    if contactName in contactIdOf then contactIdOf[contactName] else -1
  }

  /** The checks after every required input is present, in their order. */
  function CheckTimes(start: int, end: int, contactName: string, currentId: int, contactIdOf: map<string, int>,
                      existing: seq<Appointment>, system: Zone, newYork: Zone): (v: Verdict)
    reads existing
  {
    if !(end > start) then Reject(EndNotAfterStart)
    else if !IsWithinBusinessHours(start, end, system, newYork) then Reject(OutsideBusinessHours)
    else if ContactIdByName(contactIdOf, contactName) == -1 then Reject(InvalidContact)
    else if HasOverlap(start, end, currentId, existing) then Reject(OverlappingAppointment)
    else Accept(start, end, ContactIdByName(contactIdOf, contactName))
  }

  /**
   * Each refusal happens exactly when its own check fails and every earlier one passed,
   * so e.g. an end not after the start is reported even when the hours are also wrong.
   */
  lemma RejectionOrder(f: Form, currentId: int, contactIdOf: map<string, int>, existing: seq<Appointment>,
                       system: Zone, newYork: Zone)
    ensures var v := Validate(f, currentId, contactIdOf, existing, system, newYork);
      && (v == Reject(MissingFields) <==> MissingField(f))
      && (v == Reject(EndNotAfterStart) <==> !MissingField(f) && EndOf(f) <= StartOf(f))
      && (v == Reject(OutsideBusinessHours) <==>
            !MissingField(f) && EndOf(f) > StartOf(f)
            && !IsWithinBusinessHours(StartOf(f), EndOf(f), system, newYork))
      && (v == Reject(InvalidContact) <==>
            !MissingField(f) && EndOf(f) > StartOf(f)
            && IsWithinBusinessHours(StartOf(f), EndOf(f), system, newYork)
            && ContactIdByName(contactIdOf, f.contactName.value) == -1)
      && (v == Reject(OverlappingAppointment) <==>
            !MissingField(f) && EndOf(f) > StartOf(f)
            && IsWithinBusinessHours(StartOf(f), EndOf(f), system, newYork)
            && f.contactName.value in contactIdOf && contactIdOf[f.contactName.value] != -1
            && HasOverlap(StartOf(f), EndOf(f), currentId, existing))
  {
  }

  /** What passing the time, contact and overlap checks establishes. */
  lemma CheckTimesAccepted(start: int, end: int, contactName: string, currentId: int, contactIdOf: map<string, int>,
                           existing: seq<Appointment>, system: Zone, newYork: Zone)
    requires CheckTimes(start, end, contactName, currentId, contactIdOf, existing, system, newYork).Accept?
    ensures CheckTimes(start, end, contactName, currentId, contactIdOf, existing, system, newYork)
              == Accept(start, end, contactIdOf[contactName])
    ensures contactName in contactIdOf && contactIdOf[contactName] != -1
    ensures start < end && IsWithinBusinessHours(start, end, system, newYork)
    ensures !HasOverlap(start, end, currentId, existing)
  {
  }

  /**
   * An accepted appointment is a proper interval inside business hours, with a known
   * contact, sharing no instant with any other appointment of the customer.
   */
  lemma {:induction false} AcceptedIsSound(f: Form, currentId: int, contactIdOf: map<string, int>,
                                           existing: seq<Appointment>, system: Zone, newYork: Zone)
    requires Validate(f, currentId, contactIdOf, existing, system, newYork).Accept?
    ensures var v := Validate(f, currentId, contactIdOf, existing, system, newYork);
      && v.start < v.end
      && IsWithinBusinessHours(v.start, v.end, system, newYork)
      && f.contactName.Some? && f.contactName.value in contactIdOf && v.contactId == contactIdOf[f.contactName.value]
      && v.contactId != -1
      && forall k :: 0 <= k < |existing| && !Skipped(currentId, existing[k]) && existing[k].start < existing[k].end ==>
           !exists t :: Covers(v.start, v.end, t) && Covers(existing[k].start, existing[k].end, t)
  {
    var v := Validate(f, currentId, contactIdOf, existing, system, newYork);
    assert !MissingField(f);
    var start, end := StartOf(f), EndOf(f);
    assert v == CheckTimes(start, end, f.contactName.value, currentId, contactIdOf, existing, system, newYork);
    CheckTimesAccepted(start, end, f.contactName.value, currentId, contactIdOf, existing, system, newYork);
    forall k | 0 <= k < |existing| && !Skipped(currentId, existing[k]) && existing[k].start < existing[k].end
      ensures !exists t :: Covers(start, end, t) && Covers(existing[k].start, existing[k].end, t)
    {
      assert !Conflicts(start, end, existing[k].start, existing[k].end);
      ConflictsIffShareInstant(start, end, existing[k].start, existing[k].end);
    }
  }

  /** Description and location never decide the verdict. */
  lemma OptionalFieldsIgnored(f: Form, description: string, location: string, currentId: int,
                              contactIdOf: map<string, int>, existing: seq<Appointment>, system: Zone, newYork: Zone)
    ensures Validate(f.(description := description, location := location), currentId, contactIdOf, existing, system, newYork)
         == Validate(f, currentId, contactIdOf, existing, system, newYork)
  {
    var g := f.(description := description, location := location);
    assert g.title == f.title && g.appointmentType == f.appointmentType && g.contactName == f.contactName;
    assert g.startDate == f.startDate && g.startTime == f.startTime && g.endDate == f.endDate && g.endTime == f.endTime;
    assert g.customerId == f.customerId && g.userId == f.userId;
    assert MissingField(g) == MissingField(f);
    if !MissingField(f) {
      var start, end := StartOf(f), EndOf(f);
      assert StartOf(g) == start && EndOf(g) == end;
      if end > start && IsWithinBusinessHours(start, end, system, newYork)
         && ContactIdByName(contactIdOf, f.contactName.value) != -1 {
        assert HasOverlap(StartOf(g), EndOf(g), currentId, existing) == HasOverlap(start, end, currentId, existing);
      }
    }
  }

  // ---------------------------------------------------------------- the form

  /** What a save did: refused with a reason, inserted a new row, or rewrote an existing one. */
  datatype SaveOutcome = Refused(reason: Reason) | Added | Updated

  /** The message the form shows for an outcome. */
  function Message(outcome: SaveOutcome): string {
    match outcome
    case Refused(MissingFields) => "Please fill out all fields."
    case Refused(EndNotAfterStart) => "End time must be after start time."
    case Refused(OutsideBusinessHours) => "Appointment must be within business hours (8:00 a.m. to 10:00 p.m. ET)."
    case Refused(InvalidContact) => "Invalid contact selection."
    case Refused(OverlappingAppointment) => "This customer has an overlapping appointment at this time."
    case Added => "Appointment added!"
    case Updated => "Appointment updated!"
  }

  /** The id the form works with: an empty id field reads as 0, "not stored yet". */
  function CurrentId(idField: Option<int>): int {
    match idField
    case None => 0
    case Some(id) => id
  }

  /** The row a save writes under `key` for an accepted form: trimmed texts, times moved to UTC. */
  function CandidateRow(f: Form, key: int, v: Verdict, system: Zone): Row
    requires v.Accept? && f.customerId.Some? && f.userId.Some?
  {
    Row(key, Trim(f.title), Trim(f.description), Trim(f.location), Trim(f.appointmentType),
        ToUtc(v.start, system), ToUtc(v.end, system), f.customerId.value, f.userId.value, v.contactId)
  }

  /** The id an item of a combo box of ids selects: the first equal id, or no selection. */
  function SelectById(items: seq<int>, id: int): Option<int> {
    if id in items then Some(id) else None
  }

  /**
   * The checks of a save as the form runs them, one after another, returning at the
   * first failure; the overlap check is the loop over the customer's appointments.
   */
  method RunChecks(f: Form, currentId: int, contactIdOf: map<string, int>, existing: seq<Appointment>,
                   system: Zone, newYork: Zone) returns (v: Verdict)
    ensures v == Validate(f, currentId, contactIdOf, existing, system, newYork)
  {
    var title, kind := Trim(f.title), Trim(f.appointmentType);
    if title == [] || f.contactName.None? || f.startDate.None? || f.startTime.None?
       || f.endDate.None? || f.endTime.None? || f.customerId.None? || f.userId.None? || kind == [] {
      return Reject(MissingFields);
    }
    var start := DateTimeOf(f.startDate.value, f.startTime.value);
    var end := DateTimeOf(f.endDate.value, f.endTime.value);
    assert !MissingField(f);
    ghost var rest := CheckTimes(start, end, f.contactName.value, currentId, contactIdOf, existing, system, newYork);
    assert Validate(f, currentId, contactIdOf, existing, system, newYork) == rest;
    if !(end > start) {
      return Reject(EndNotAfterStart);
    }
    if !IsWithinBusinessHours(start, end, system, newYork) {
      return Reject(OutsideBusinessHours);
    }
    var contactId := ContactIdByName(contactIdOf, f.contactName.value);
    if contactId == -1 {
      return Reject(InvalidContact);
    }
    var overlap := FindOverlap(start, end, currentId, existing);
    if overlap {
      return Reject(OverlappingAppointment);
    }
    return Accept(start, end, contactId);
  }

  /**
   * The write of an accepted save: a new model built from the trimmed inputs and the
   * checked times, inserted when the id is 0 and otherwise rewriting the row with that id.
   */
  method Store(f: Form, currentId: int, v: Verdict, table: AppointmentTable, system: Zone)
    returns (outcome: SaveOutcome)
    requires v.Accept? && !MissingField(f) && table.Valid()
    modifies table
    ensures table.Valid()
    ensures if currentId == 0 then
              && outcome == Added && table.nextKey == old(table.nextKey) + 1
              && table.rows == old(table.rows) + [CandidateRow(f, old(table.nextKey), v, system)]
              && old(table.nextKey) != 0 && (forall r :: r in old(table.rows) ==> r.id != old(table.nextKey))
            else
              && outcome == Updated && table.nextKey == old(table.nextKey)
              && table.rows == Replaced(old(table.rows), CandidateRow(f, currentId, v, system))
  {
    var appt := new Appointment(currentId, Trim(f.title), Trim(f.description), Trim(f.location),
                                Trim(f.appointmentType), v.start, v.end,
                                f.customerId.value, f.userId.value, v.contactId, f.contactName.value);
    if currentId == 0 {
      ghost var row := CandidateRow(f, table.nextKey, v, system);
      assert StoredRow(appt, table.nextKey, system) == row;
      table.AddAppointment(appt, system);
      assert table.rows == old(table.rows) + [row];
      outcome := Added;
    } else {
      ghost var row := CandidateRow(f, currentId, v, system);
      assert StoredRow(appt, currentId, system) == row;
      table.UpdateAppointment(appt, system);
      assert table.rows == Replaced(old(table.rows), row) && table.nextKey == old(table.nextKey);
      outcome := Updated;
    }
  }

  /** The add/update form: its inputs, the id field, the appointment being edited, the time choices. */
  class AppointmentForm {
    var form: Form
    var idField: Option<int>
    var currentAppointment: Appointment?
    var times: seq<int>

    /** An empty form offering the quarter-hour time choices. */
    constructor ()
      ensures form == Form("", "", "", "", None, None, None, None, None, None, None)
      ensures idField == None && currentAppointment == null && times == QuarterHourSlots()
    {
      form := Form("", "", "", "", None, None, None, None, None, None, None);
      idField := None;
      currentAppointment := null;
      times := QuarterHourSlots();
    }

    /** Pre-fills every input from `appt`, whose id fills the id field. */
    method SetAppointment(appt: Appointment, customers: seq<int>, users: seq<int>)
      modifies this`form, this`idField, this`currentAppointment
      ensures currentAppointment == appt && idField == Some(appt.id)
      ensures form == Form(appt.title, appt.description, appt.location, appt.appointmentType,
                           Some(appt.contactName),
                           Some(DateOf(appt.start)), Some(TimeOfDay(appt.start)),
                           Some(DateOf(appt.end)), Some(TimeOfDay(appt.end)),
                           SelectById(customers, appt.customerId), SelectById(users, appt.userId))
    {
      currentAppointment := appt;
      idField := Some(appt.id);
      form := Form(appt.title, appt.description, appt.location, appt.appointmentType,
                   Some(appt.contactName),
                   Some(DateOf(appt.start)), Some(TimeOfDay(appt.start)),
                   Some(DateOf(appt.end)), Some(TimeOfDay(appt.end)),
                   SelectById(customers, appt.customerId), SelectById(users, appt.userId));
    }

    /**
     * Save: run the checks in order against the customer's appointments `existing`;
     * on acceptance insert (id 0) or rewrite the row keyed by the id, storing UTC times.
     * A refusal leaves the table as it was.
     */
    method OnSave(contactIdOf: map<string, int>, existing: seq<Appointment>, table: AppointmentTable,
                  system: Zone, newYork: Zone) returns (outcome: SaveOutcome)
      requires table.Valid()
      modifies table
      ensures table.Valid()
      ensures var v := old(Validate(form, CurrentId(idField), contactIdOf, existing, system, newYork));
        match v
        case Reject(reason) =>
          outcome == Refused(reason) && table.rows == old(table.rows) && table.nextKey == old(table.nextKey)
        case Accept(_, _, _) =>
          if CurrentId(idField) == 0 then
            && outcome == Added && table.nextKey == old(table.nextKey) + 1
            && table.rows == old(table.rows) + [CandidateRow(form, old(table.nextKey), v, system)]
          else
            && outcome == Updated && table.nextKey == old(table.nextKey)
            && table.rows == Replaced(old(table.rows), CandidateRow(form, CurrentId(idField), v, system))
    {
      var f, currentId := form, CurrentId(idField);
      var v := RunChecks(f, currentId, contactIdOf, existing, system, newYork);
      if v.Reject? {
        return Refused(v.reason);
      }
      assert !MissingField(f);
      outcome := Store(f, currentId, v, table, system);
    }

    /** Delete: removes the stored row of the appointment being edited, if there is one. */
    method OnDelete(table: AppointmentTable) returns (deleted: bool)
      requires table.Valid()
      modifies table`rows
      ensures table.Valid()
      ensures deleted == (currentAppointment != null)
      ensures deleted ==> table.rows == Retain(old(table.rows), WithoutId(currentAppointment.id))
      ensures !deleted ==> table.rows == old(table.rows)
    {
      deleted := currentAppointment != null;
      if deleted {
        table.DeleteAppointment(currentAppointment.id);
      }
    }
  }
}
