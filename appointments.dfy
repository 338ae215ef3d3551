/** The booking validator of `AppointmentSerializer.validate`: given the validated request,
    the appointment being edited (if any), the stored appointments and today's date, it
    collects a field-keyed error map from four independent checks and either rejects with
    that map or returns the request unchanged. It only reads the table. */
module Appointments {
  import opened Common

  /** The eight stored status strings: four English and four Arabic, all distinct values. */
  datatype Status =
    | Pending | Confirmed | Completed | Cancelled
    | PendingAr | ConfirmedAr | CompletedAr | CancelledAr

  /** The string each status is stored as. */
  function Label(s: Status): string {
    match s
    case Pending => "pending"
    case Confirmed => "confirmed"
    case Completed => "completed"
    case Cancelled => "cancelled"
    case PendingAr => "معلق"
    case ConfirmedAr => "مؤكد"
    case CompletedAr => "منجز"
    case CancelledAr => "ملغي"
  }

  /** The status choice a stored string denotes, if it is one of the eight. */
  function StatusOf(text: string): (r: Option<Status>)
    ensures r.Some? ==> Label(r.value) == text
    ensures r.None? ==> forall s: Status :: Label(s) != text
  {
    if text == "pending" then Some(Pending)
    else if text == "confirmed" then Some(Confirmed)
    else if text == "completed" then Some(Completed)
    else if text == "cancelled" then Some(Cancelled)
    else if text == "معلق" then Some(PendingAr)
    else if text == "مؤكد" then Some(ConfirmedAr)
    else if text == "منجز" then Some(CompletedAr)
    else if text == "ملغي" then Some(CancelledAr)
    else None
  }

  /** Every status is read back from its own label, so no two statuses share a label. */
  lemma LabelRoundTrip(s: Status)
    ensures StatusOf(Label(s)) == Some(s)
  {
  }

  const DefaultStatus: Status := Pending

  /** The statuses the upcoming-appointment check treats as active. */
  const ActiveStatuses: set<Status> := {ConfirmedAr, PendingAr}

  /** Calendar dates as day numbers; times of day are opaque and only compared for equality. */
  type Date = int
  type Time = int

  datatype Appointment = Appointment(
    id: nat, patient: nat, doctor: nat, date: Date, time: Time,
    status: Status, reason: Option<string>)

  /** The validated request: each key either absent or given. */
  datatype AppointmentData = AppointmentData(
    patient: Supplied<nat>, doctor: Supplied<nat>, date: Supplied<Date>, time: Supplied<Time>,
    status: Supplied<Status>, reason: Supplied<Option<string>>)

  /** The doctor, patient, date and time the checks run on. */
  datatype Slot = Slot(doctor: nat, patient: nat, date: Date, time: Time)

  /** On create the serializer makes doctor, patient, date and time required; on update
      any of them may be missing and is then taken from the instance. */
  predicate Complete(data: AppointmentData, instance: Option<Appointment>) {
    instance.Some? || (data.doctor.Given? && data.patient.Given? && data.date.Given? && data.time.Given?)
  }

  function Effective(data: AppointmentData, instance: Option<Appointment>): (slot: Slot)
    requires Complete(data, instance)
    ensures slot.doctor == if data.doctor.Given? then data.doctor.value else instance.value.doctor
    ensures slot.patient == if data.patient.Given? then data.patient.value else instance.value.patient
    ensures slot.date == if data.date.Given? then data.date.value else instance.value.date
    ensures slot.time == if data.time.Given? then data.time.value else instance.value.time
  {
    Slot(
      match data.doctor { case Given(d) => d case Absent => instance.value.doctor },
      match data.patient { case Given(p) => p case Absent => instance.value.patient },
      match data.date { case Given(d) => d case Absent => instance.value.date },
      match data.time { case Given(t) => t case Absent => instance.value.time })
  }

  /** The three table queries the validator runs. */
  datatype Query =
    | DoctorAt(doctor: nat, date: Date, time: Time)
    | PatientAt(patient: nat, date: Date, time: Time)
    | UpcomingFor(patient: nat, today: Date)

  predicate Matches(a: Appointment, q: Query) {
    match q
    case DoctorAt(d, dt, t) => a.doctor == d && a.date == dt && a.time == t && a.status != CancelledAr
    case PatientAt(p, dt, t) => a.patient == p && a.date == dt && a.time == t && a.status != CancelledAr
    case UpcomingFor(p, today) => a.patient == p && a.date >= today && a.status in ActiveStatuses
  }

  /** The row of the instance being edited is left out of every query. */
  predicate Excluded(a: Appointment, instance: Option<Appointment>) {
    instance.Some? && a.id == instance.value.id
  }

  /** `.exists()` of a query after excluding the edited instance. */
  predicate Hit(stored: seq<Appointment>, q: Query, instance: Option<Appointment>) {
    exists i :: 0 <= i < |stored| && Matches(stored[i], q) && !Excluded(stored[i], instance)
  }

  const PastDateMessage: string := "لا يمكن اختيار تاريخ سابق لحجز الموعد."
  const DoctorBusyMessage: string := "الطبيب لديه موعد آخر في نفس التاريخ والوقت."
  const PatientBusyMessage: string := "المريض لديه موعد آخر في نفس التاريخ والوقت."
  const UpcomingMessage: string := "المريض لديه موعد قادم بالفعل ولا يمكن حجز أكثر من موعد في نفس الفترة."

  /** The error map the validator builds, stated key by key: a past date gives 'date';
      a doctor or patient clash gives 'time', the patient message winning when both clash;
      an upcoming active appointment of the patient gives 'patient'. */
  function Errors(slot: Slot, instance: Option<Appointment>, stored: seq<Appointment>, today: Date)
    : (e: map<string, string>)
    ensures "date" in e <==> slot.date < today
    ensures "time" in e <==> (Hit(stored, DoctorAt(slot.doctor, slot.date, slot.time), instance)
                             || Hit(stored, PatientAt(slot.patient, slot.date, slot.time), instance))
    ensures "patient" in e <==> Hit(stored, UpcomingFor(slot.patient, today), instance)
    ensures e.Keys <= {"date", "time", "patient"}
    ensures "date" in e ==> e["date"] == PastDateMessage
    ensures "time" in e ==>
              e["time"] == if Hit(stored, PatientAt(slot.patient, slot.date, slot.time), instance)
                           then PatientBusyMessage else DoctorBusyMessage
    ensures "patient" in e ==> e["patient"] == UpcomingMessage
  {
    var doctorBusy := Hit(stored, DoctorAt(slot.doctor, slot.date, slot.time), instance);
    var patientBusy := Hit(stored, PatientAt(slot.patient, slot.date, slot.time), instance);
    (if slot.date < today then map["date" := PastDateMessage] else map[])
    + (if patientBusy then map["time" := PatientBusyMessage]
       else if doctorBusy then map["time" := DoctorBusyMessage] else map[])
    + (if Hit(stored, UpcomingFor(slot.patient, today), instance) then map["patient" := UpcomingMessage] else map[])
  }

  /** A request passes exactly when none of the four checks fires. */
  predicate Accepts(slot: Slot, instance: Option<Appointment>, stored: seq<Appointment>, today: Date) {
    Errors(slot, instance, stored, today) == map[]
  }

  lemma AcceptsIff(slot: Slot, instance: Option<Appointment>, stored: seq<Appointment>, today: Date)
    ensures Accepts(slot, instance, stored, today) <==>
      && slot.date >= today
      && !Hit(stored, DoctorAt(slot.doctor, slot.date, slot.time), instance)
      && !Hit(stored, PatientAt(slot.patient, slot.date, slot.time), instance)
      && !Hit(stored, UpcomingFor(slot.patient, today), instance)
  {
    var e := Errors(slot, instance, stored, today);
    if e != map[] {
      var k :| k in e;
    }
  }

  /** One `.filter(...).exclude(...).exists()` scan over the table. */
  method AnyMatch(stored: seq<Appointment>, q: Query, instance: Option<Appointment>) returns (found: bool)
    ensures found <==> Hit(stored, q, instance)
  {
    found := false;
    var i := 0;
    while i < |stored| && !found
      invariant 0 <= i <= |stored|
      invariant found <==> exists j :: 0 <= j < i && Matches(stored[j], q) && !Excluded(stored[j], instance)
    {
      found := Matches(stored[i], q) && !Excluded(stored[i], instance);
      i := i + 1;
    }
  }

  /** `AppointmentSerializer.validate`: runs all four checks without stopping at the first,
      writing key 'time' twice when both the doctor and the patient clash; rejects with the
      collected map, or returns the request unchanged. */
  method Validate(data: AppointmentData, instance: Option<Appointment>, stored: seq<Appointment>, today: Date)
    returns (r: Result<AppointmentData, map<string, string>>)
    requires Complete(data, instance)
    ensures r.Ok? <==> Accepts(Effective(data, instance), instance, stored, today)
    ensures r.Ok? ==> r.value == data
    ensures r.Err? ==> r.error == Errors(Effective(data, instance), instance, stored, today)
  {
    var slot := Effective(data, instance);
    var errors: map<string, string> := map[];
    if slot.date < today {
      errors := errors["date" := PastDateMessage];
    }
    var doctorBusy := AnyMatch(stored, DoctorAt(slot.doctor, slot.date, slot.time), instance);
    if doctorBusy {
      errors := errors["time" := DoctorBusyMessage];
    }
    var patientBusy := AnyMatch(stored, PatientAt(slot.patient, slot.date, slot.time), instance);
    if patientBusy {
      errors := errors["time" := PatientBusyMessage];
    }
    var upcoming := AnyMatch(stored, UpcomingFor(slot.patient, today), instance);
    if upcoming {
      errors := errors["patient" := UpcomingMessage];
    }
    assert errors == Errors(slot, instance, stored, today);
    if errors != map[] {
      return Err(errors);
    }
    return Ok(data);
  }

  /** The row that saving an accepted request stores: the effective slot, and the status and
      reason from the request, else from the instance, else the defaults. */
  function Saved(id: nat, data: AppointmentData, instance: Option<Appointment>): (a: Appointment)
    requires Complete(data, instance)
    ensures a.id == id
    ensures (Slot(a.doctor, a.patient, a.date, a.time)) == Effective(data, instance)
    ensures a.status == if data.status.Given? then data.status.value
                        else if instance.Some? then instance.value.status else DefaultStatus
    ensures a.reason == if data.reason.Given? then data.reason.value
                        else if instance.Some? then instance.value.reason else None
  {
    var slot := Effective(data, instance);
    Appointment(id, slot.patient, slot.doctor, slot.date, slot.time,
      match data.status { case Given(s) => s case Absent => if instance.Some? then instance.value.status else DefaultStatus },
      match data.reason { case Given(r) => r case Absent => if instance.Some? then instance.value.reason else None })
  }

  // ---------------------------------------------------------------------------
  // Properties of the checks

  lemma {:induction false} HitConcat(a: seq<Appointment>, b: seq<Appointment>, q: Query, instance: Option<Appointment>)
    ensures Hit(a + b, q, instance) <==> Hit(a, q, instance) || Hit(b, q, instance)
  {
    if Hit(a + b, q, instance) {
      var i :| 0 <= i < |a + b| && Matches((a + b)[i], q) && !Excluded((a + b)[i], instance);
      if i >= |a| {
        assert (a + b)[i] == b[i - |a|];
      }
    }
    if Hit(b, q, instance) {
      var i :| 0 <= i < |b| && Matches(b[i], q) && !Excluded(b[i], instance);
      assert (a + b)[|a| + i] == b[i];
    }
    if Hit(a, q, instance) {
      var i :| 0 <= i < |a| && Matches(a[i], q) && !Excluded(a[i], instance);
      assert (a + b)[i] == a[i];
    }
  }

  /** Rows whose stored status is 'ملغي' never make any check fire, wherever they are added. */
  lemma CancelledRowsNeverBlock(slot: Slot, instance: Option<Appointment>, stored: seq<Appointment>,
                                extra: seq<Appointment>, today: Date)
    requires forall i :: 0 <= i < |extra| ==> extra[i].status == CancelledAr
    ensures Errors(slot, instance, stored + extra, today) == Errors(slot, instance, stored, today)
  {
    HitConcat(stored, extra, DoctorAt(slot.doctor, slot.date, slot.time), instance);
    HitConcat(stored, extra, PatientAt(slot.patient, slot.date, slot.time), instance);
    HitConcat(stored, extra, UpcomingFor(slot.patient, today), instance);
  }

  /** Rows carrying the edited instance's id never make any check fire. */
  lemma EditedRowNeverBlocks(slot: Slot, instance: Appointment, stored: seq<Appointment>,
                             extra: seq<Appointment>, today: Date)
    requires forall i :: 0 <= i < |extra| ==> extra[i].id == instance.id
    ensures Errors(slot, Some(instance), stored + extra, today) == Errors(slot, Some(instance), stored, today)
  {
    HitConcat(stored, extra, DoctorAt(slot.doctor, slot.date, slot.time), Some(instance));
    HitConcat(stored, extra, PatientAt(slot.patient, slot.date, slot.time), Some(instance));
    HitConcat(stored, extra, UpcomingFor(slot.patient, today), Some(instance));
  }

  /** Adding rows to the table can only add error keys, never remove one. */
  lemma MoreRowsMoreErrors(slot: Slot, instance: Option<Appointment>, stored: seq<Appointment>,
                           extra: seq<Appointment>, today: Date)
    ensures Errors(slot, instance, stored, today).Keys <= Errors(slot, instance, stored + extra, today).Keys
  {
    HitConcat(stored, extra, DoctorAt(slot.doctor, slot.date, slot.time), instance);
    HitConcat(stored, extra, PatientAt(slot.patient, slot.date, slot.time), instance);
    HitConcat(stored, extra, UpcomingFor(slot.patient, today), instance);
  }

  /** The upcoming check looks at today, not at the requested date or time: moving the
      request to another date or time never changes whether 'patient' is reported. */
  lemma UpcomingIgnoresRequestedSlot(slot: Slot, date: Date, time: Time, instance: Option<Appointment>,
                                     stored: seq<Appointment>, today: Date)
    ensures ("patient" in Errors(slot, instance, stored, today))
        == ("patient" in Errors(slot.(date := date, time := time), instance, stored, today))
  {
  }

  // ---------------------------------------------------------------------------
  // What accepting a request preserves in the table

  /** No two rows not stored as 'ملغي' share a doctor slot or a patient slot. */
  predicate SlotsExclusive(stored: seq<Appointment>) {
    forall i, j :: 0 <= i < |stored| && 0 <= j < |stored| && i != j
      && stored[i].status != CancelledAr && stored[j].status != CancelledAr
      && stored[i].date == stored[j].date && stored[i].time == stored[j].time
      ==> stored[i].doctor != stored[j].doctor && stored[i].patient != stored[j].patient
  }

  /** No patient holds two rows that the upcoming check counts. */
  predicate OneUpcomingPerPatient(stored: seq<Appointment>, today: Date) {
    forall i, j :: 0 <= i < |stored| && 0 <= j < |stored| && i != j
      && Matches(stored[i], UpcomingFor(stored[i].patient, today))
      ==> !Matches(stored[j], UpcomingFor(stored[i].patient, today))
  }

  predicate UniqueIds(stored: seq<Appointment>) {
    forall i, j :: 0 <= i < |stored| && 0 <= j < |stored| && i != j ==> stored[i].id != stored[j].id
  }

  /** Storing an accepted new booking keeps doctor and patient slots exclusive. */
  lemma AcceptedCreateKeepsSlotsExclusive(id: nat, data: AppointmentData, stored: seq<Appointment>, today: Date)
    requires Complete(data, None)
    requires SlotsExclusive(stored)
    requires Accepts(Effective(data, None), None, stored, today)
    ensures SlotsExclusive(stored + [Saved(id, data, None)])
  {
    var slot := Effective(data, None);
    var a := Saved(id, data, None);
    var s := stored + [a];
    AcceptsIff(slot, None, stored, today);
    forall i, j | 0 <= i < |s| && 0 <= j < |s| && i != j
      && s[i].status != CancelledAr && s[j].status != CancelledAr
      && s[i].date == s[j].date && s[i].time == s[j].time
      ensures s[i].doctor != s[j].doctor && s[i].patient != s[j].patient
    {
      if j == |stored| {
        assert s[i] == stored[i];
        assert !Matches(stored[i], DoctorAt(slot.doctor, slot.date, slot.time));
        assert !Matches(stored[i], PatientAt(slot.patient, slot.date, slot.time));
      } else if i == |stored| {
        assert s[j] == stored[j];
        assert !Matches(stored[j], DoctorAt(slot.doctor, slot.date, slot.time));
        assert !Matches(stored[j], PatientAt(slot.patient, slot.date, slot.time));
      } else {
        assert s[i] == stored[i] && s[j] == stored[j];
      }
    }
  }

  /** Saving an accepted edit over row k keeps doctor and patient slots exclusive. */
  lemma AcceptedUpdateKeepsSlotsExclusive(k: nat, data: AppointmentData, stored: seq<Appointment>, today: Date)
    requires k < |stored| && UniqueIds(stored)
    requires SlotsExclusive(stored)
    requires Accepts(Effective(data, Some(stored[k])), Some(stored[k]), stored, today)
    ensures SlotsExclusive(stored[k := Saved(stored[k].id, data, Some(stored[k]))])
  {
    var inst := Some(stored[k]);
    var slot := Effective(data, inst);
    var s := stored[k := Saved(stored[k].id, data, inst)];
    AcceptsIff(slot, inst, stored, today);
    forall i, j | 0 <= i < |s| && 0 <= j < |s| && i != j
      && s[i].status != CancelledAr && s[j].status != CancelledAr
      && s[i].date == s[j].date && s[i].time == s[j].time
      ensures s[i].doctor != s[j].doctor && s[i].patient != s[j].patient
    {
      if j == k {
        assert s[i] == stored[i] && !Excluded(stored[i], inst);
        assert !Matches(stored[i], DoctorAt(slot.doctor, slot.date, slot.time));
        assert !Matches(stored[i], PatientAt(slot.patient, slot.date, slot.time));
      } else if i == k {
        assert s[j] == stored[j] && !Excluded(stored[j], inst);
        assert !Matches(stored[j], DoctorAt(slot.doctor, slot.date, slot.time));
        assert !Matches(stored[j], PatientAt(slot.patient, slot.date, slot.time));
      } else {
        assert s[i] == stored[i] && s[j] == stored[j];
      }
    }
  }

  /** Storing an accepted new booking, whatever its status, keeps at most one counted
      upcoming appointment per patient. */
  lemma AcceptedCreateKeepsOneUpcoming(id: nat, data: AppointmentData, stored: seq<Appointment>, today: Date)
    requires Complete(data, None)
    requires OneUpcomingPerPatient(stored, today)
    requires Accepts(Effective(data, None), None, stored, today)
    ensures OneUpcomingPerPatient(stored + [Saved(id, data, None)], today)
  {
    var slot := Effective(data, None);
    var a := Saved(id, data, None);
    var s := stored + [a];
    AcceptsIff(slot, None, stored, today);
    forall i, j | 0 <= i < |s| && 0 <= j < |s| && i != j
      && Matches(s[i], UpcomingFor(s[i].patient, today))
      ensures !Matches(s[j], UpcomingFor(s[i].patient, today))
    {
      if j == |stored| {
        assert s[i] == stored[i];
        assert !Matches(stored[i], UpcomingFor(slot.patient, today));
      } else if i == |stored| {
        assert s[j] == stored[j];
        assert !Matches(stored[j], UpcomingFor(slot.patient, today));
      } else {
        assert s[i] == stored[i] && s[j] == stored[j];
      }
    }
  }

  /** Saving an accepted edit over row k, whatever its status, keeps at most one counted
      upcoming appointment per patient. */
  lemma AcceptedUpdateKeepsOneUpcoming(k: nat, data: AppointmentData, stored: seq<Appointment>, today: Date)
    requires k < |stored| && UniqueIds(stored)
    requires OneUpcomingPerPatient(stored, today)
    requires Accepts(Effective(data, Some(stored[k])), Some(stored[k]), stored, today)
    ensures OneUpcomingPerPatient(stored[k := Saved(stored[k].id, data, Some(stored[k]))], today)
  {
    var inst := Some(stored[k]);
    var slot := Effective(data, inst);
    var a := Saved(stored[k].id, data, inst);
    var s := stored[k := a];
    AcceptsIff(slot, inst, stored, today);
    assert a.patient == slot.patient;
    forall i, j | 0 <= i < |s| && 0 <= j < |s| && i != j
      && Matches(s[i], UpcomingFor(s[i].patient, today))
      ensures !Matches(s[j], UpcomingFor(s[i].patient, today))
    {
      if j == k {
        assert s[i] == stored[i] && !Excluded(stored[i], inst);
        assert !Matches(stored[i], UpcomingFor(slot.patient, today));
      } else if i == k {
        assert s[j] == stored[j] && !Excluded(stored[j], inst);
        assert !Matches(stored[j], UpcomingFor(slot.patient, today));
      } else {
        assert s[i] == stored[i] && s[j] == stored[j];
      }
    }
  }

  // ---------------------------------------------------------------------------
  // Behaviour of the status strings as written

  /** A row stored as English 'cancelled' still occupies its slot: only 'ملغي' is excluded. */
  lemma EnglishCancelledStillBlocks(slot: Slot, id: nat, today: Date)
    requires slot.date >= today
    ensures var row := Appointment(id, slot.patient + 1, slot.doctor, slot.date, slot.time, Cancelled, None);
            Errors(slot, None, [row], today) == map["time" := DoctorBusyMessage]
  {
    var row := Appointment(id, slot.patient + 1, slot.doctor, slot.date, slot.time, Cancelled, None);
    assert Matches([row][0], DoctorAt(slot.doctor, slot.date, slot.time));
  }

  /** Only the Arabic 'مؤكد' and 'معلق' count as active: an English 'confirmed' or the
      default 'pending' appointment later on does not stop the patient from booking. */
  lemma EnglishActiveStatusesDoNotCount(slot: Slot, id: nat, later: Date, status: Status, today: Date)
    requires slot.date >= today && later > slot.date
    ensures var row := Appointment(id, slot.patient, slot.doctor + 1, later, slot.time, status, None);
            Accepts(slot, None, [row], today) <==> status !in ActiveStatuses
  {
    var row := Appointment(id, slot.patient, slot.doctor + 1, later, slot.time, status, None);
    AcceptsIff(slot, None, [row], today);
    if status in ActiveStatuses {
      assert Matches([row][0], UpcomingFor(slot.patient, today));
    }
  }
}
