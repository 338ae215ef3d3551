/** The prescription and medication-package operations of the medical-record serializers,
    over an in-memory store of the tables they touch: clinical exams (with their prescription
    notes), medications, medication packages and their items, prescribed medications, and
    the log of applied packages. */
module MedicalRecords {
  import opened Common

  /** A `MedicationPackageItem` without its package: what one package line prescribes. */
  datatype PackageItem = PackageItem(
    medication: nat, timesPerDay: int, doseUnit: string, numberOfDays: int, notes: Option<string>)

  /** A row of the package-item table. */
  datatype ItemRow = ItemRow(package: nat, item: PackageItem)

  /** The scalar columns of a `MedicationPackage`. */
  datatype Package = Package(name: string, disease: Option<nat>, description: Option<string>, active: bool)

  /** The columns a package update may set; each one is changed only when supplied. */
  datatype PackagePatch = PackagePatch(
    name: Supplied<string>, disease: Supplied<Option<nat>>,
    description: Supplied<Option<string>>, active: Supplied<bool>)

  /** A `PrescribedMedication` row. */
  datatype Prescription = Prescription(
    id: nat, exam: nat, medication: nat, timesPerDay: int, doseUnit: string,
    numberOfDays: int, notes: Option<string>, prescribedBy: Option<nat>)

  datatype Mode = Append | Replace

  /** An `AppliedMedicationPackage` row. */
  datatype Application = Application(exam: nat, package: nat, prescribedBy: Option<nat>, mode: Mode)

  const InactivePackageMessage: string := "هذه الحزمة غير مفعلة."
  const ExamNotFoundMessage: string := "الفحص السريري غير موجود."
  const NoItemsMessage: string := "يجب إضافة دواء واحد على الأقل."

  // ---------------------------------------------------------------------------
  // Table views and the specifications of the writes

  function ItemsOf(rows: seq<ItemRow>, package: nat): seq<ItemRow> {
    Filter(rows, (r: ItemRow) => r.package == package)
  }

  function OtherPackagesItems(rows: seq<ItemRow>, package: nat): seq<ItemRow> {
    Filter(rows, (r: ItemRow) => r.package != package)
  }

  function ForExam(rows: seq<Prescription>, exam: nat): seq<Prescription> {
    Filter(rows, (p: Prescription) => p.exam == exam)
  }

  function OtherExams(rows: seq<Prescription>, exam: nat): seq<Prescription> {
    Filter(rows, (p: Prescription) => p.exam != exam)
  }

  /** The package lines to insert for `package`, in the given order. */
  function LinesFor(package: nat, items: seq<PackageItem>): (r: seq<ItemRow>)
    ensures |r| == |items|
    ensures forall i :: 0 <= i < |items| ==> r[i] == ItemRow(package, items[i])
  {
    seq(|items|, i requires 0 <= i < |items| => ItemRow(package, items[i]))
  }

  /** The prescription copied from one package line: same dosage and notes, for the exam,
      with the given prescriber. */
  function CopyOf(line: ItemRow, exam: nat, doctor: Option<nat>, id: nat): (p: Prescription)
    ensures p.id == id && p.exam == exam && p.prescribedBy == doctor
    ensures p.medication == line.item.medication && p.timesPerDay == line.item.timesPerDay
    ensures p.doseUnit == line.item.doseUnit && p.numberOfDays == line.item.numberOfDays
    ensures p.notes == line.item.notes
  {
    var it := line.item;
    Prescription(id, exam, it.medication, it.timesPerDay, it.doseUnit, it.numberOfDays, it.notes, doctor)
  }

  /** One copy per line, numbered from `next`. */
  function Copies(lines: seq<ItemRow>, exam: nat, doctor: Option<nat>, next: nat): (r: seq<Prescription>)
    ensures |r| == |lines|
    ensures forall i :: 0 <= i < |lines| ==> r[i] == CopyOf(lines[i], exam, doctor, next + i)
  {
    seq(|lines|, i requires 0 <= i < |lines| => CopyOf(lines[i], exam, doctor, next + i))
  }

  /** The prescription table after a package is applied to an exam: the copies come last;
      every other row was already there; append mode keeps every row, and replace mode keeps
      every row of the other exams and none of this one. */
  function AfterApply(rows: seq<Prescription>, lines: seq<ItemRow>, exam: nat, doctor: Option<nat>,
                      mode: Mode, next: nat): (r: seq<Prescription>)
    ensures |lines| <= |r| && r[|r| - |lines|..] == Copies(lines, exam, doctor, next)
    ensures forall i :: 0 <= i < |r| - |lines| ==> r[i] in rows
    ensures mode == Append ==> forall p :: p in rows ==> p in r
    ensures mode == Replace ==> forall p :: p in rows && p.exam != exam ==> p in r
    ensures mode == Replace ==> forall i :: 0 <= i < |r| - |lines| ==> r[i].exam != exam
  {
    (if mode == Replace then OtherExams(rows, exam) else rows) + Copies(lines, exam, doctor, next)
  }

  /** In replace mode the exam ends up with exactly the copies of the package lines. */
  lemma ReplaceLeavesOnlyCopies(rows: seq<Prescription>, lines: seq<ItemRow>, exam: nat, doctor: Option<nat>, next: nat)
    ensures ForExam(AfterApply(rows, lines, exam, doctor, Replace, next), exam) == Copies(lines, exam, doctor, next)
  {
    var copies := Copies(lines, exam, doctor, next);
    FilterConcat(OtherExams(rows, exam), copies, (p: Prescription) => p.exam == exam);
    FilterDropsAll(OtherExams(rows, exam), (p: Prescription) => p.exam == exam);
    FilterKeepsAll(copies, (p: Prescription) => p.exam == exam);
  }

  /** In append mode the exam keeps its prescriptions and gains the copies after them. */
  lemma AppendKeepsExisting(rows: seq<Prescription>, lines: seq<ItemRow>, exam: nat, doctor: Option<nat>, next: nat)
    ensures ForExam(AfterApply(rows, lines, exam, doctor, Append, next), exam)
            == ForExam(rows, exam) + Copies(lines, exam, doctor, next)
  {
    var copies := Copies(lines, exam, doctor, next);
    FilterConcat(rows, copies, (p: Prescription) => p.exam == exam);
    FilterKeepsAll(copies, (p: Prescription) => p.exam == exam);
  }

  /** Applying a package never changes the prescriptions of any other exam. */
  lemma OtherExamsUntouched(rows: seq<Prescription>, lines: seq<ItemRow>, exam: nat, doctor: Option<nat>,
                            mode: Mode, next: nat, other: nat)
    requires other != exam
    ensures ForExam(AfterApply(rows, lines, exam, doctor, mode, next), other) == ForExam(rows, other)
  {
    var copies := Copies(lines, exam, doctor, next);
    var kept := if mode == Replace then OtherExams(rows, exam) else rows;
    FilterConcat(kept, copies, (p: Prescription) => p.exam == other);
    FilterDropsAll(copies, (p: Prescription) => p.exam == other);
    if mode == Replace {
      FilterNarrow(rows, (p: Prescription) => p.exam != exam, (p: Prescription) => p.exam == other);
    }
  }

  lemma CopiesStep(lines: seq<ItemRow>, i: nat, exam: nat, doctor: Option<nat>, next: nat)
    requires i < |lines|
    ensures Copies(lines[..i + 1], exam, doctor, next)
            == Copies(lines[..i], exam, doctor, next) + [CopyOf(lines[i], exam, doctor, next + i)]
  {
  }

  /** Copies numbered from `next` on top of rows numbered below `next` stay below the new counter. */
  lemma FreshCopiesKeepIds(rows: seq<Prescription>, lines: seq<ItemRow>, req: ApplyRequest, next: nat)
    requires forall p :: p in rows ==> p.id < next
    ensures forall p :: p in rows + Copies(lines, req.exam, req.doctor, next) ==> p.id < next + |lines|
  {
    var all := rows + Copies(lines, req.exam, req.doctor, next);
    forall p | p in all ensures p.id < next + |lines| {
      var i :| 0 <= i < |all| && all[i] == p;
      if i >= |rows| {
        assert all[i] == CopyOf(lines[i - |rows|], req.exam, req.doctor, next + i - |rows|);
      } else {
        assert all[i] in rows;
      }
    }
  }

  /** The package lines after an update: replaced by exactly the given list when one is
      given, and otherwise left alone; the other packages' lines never change. */
  function LinesAfterUpdate(rows: seq<ItemRow>, package: nat, items: Option<seq<PackageItem>>): (r: seq<ItemRow>)
    ensures items.None? ==> r == rows
    ensures items.Some? ==> |items.value| <= |r| && r[|r| - |items.value|..] == LinesFor(package, items.value)
    ensures items.Some? ==> forall i :: 0 <= i < |r| - |items.value| ==> r[i] in rows && r[i].package != package
    ensures forall l :: l in rows && l.package != package ==> l in r
  {
    if items.Some? then OtherPackagesItems(rows, package) + LinesFor(package, items.value) else rows
  }

  lemma UpdateReplacesLines(rows: seq<ItemRow>, package: nat, items: Option<seq<PackageItem>>, other: nat)
    ensures ItemsOf(LinesAfterUpdate(rows, package, items), package)
            == if items.Some? then LinesFor(package, items.value) else ItemsOf(rows, package)
    ensures other != package ==> ItemsOf(LinesAfterUpdate(rows, package, items), other) == ItemsOf(rows, other)
  {
    if items.Some? {
      var added := LinesFor(package, items.value);
      var kept := OtherPackagesItems(rows, package);
      FilterConcat(kept, added, (r: ItemRow) => r.package == package);
      FilterDropsAll(kept, (r: ItemRow) => r.package == package);
      FilterKeepsAll(added, (r: ItemRow) => r.package == package);
      if other != package {
        FilterConcat(kept, added, (r: ItemRow) => r.package == other);
        FilterDropsAll(added, (r: ItemRow) => r.package == other);
        FilterNarrow(rows, (r: ItemRow) => r.package != package, (r: ItemRow) => r.package == other);
      }
    }
  }

  /** `setattr` of each supplied column. */
  function Patched(p: Package, patch: PackagePatch): (q: Package)
    ensures q.name == (if patch.name.Given? then patch.name.value else p.name)
    ensures q.disease == (if patch.disease.Given? then patch.disease.value else p.disease)
    ensures q.description == (if patch.description.Given? then patch.description.value else p.description)
    ensures q.active == (if patch.active.Given? then patch.active.value else p.active)
  {
    Package(patch.name.GetOr(p.name), patch.disease.GetOr(p.disease),
            patch.description.GetOr(p.description), patch.active.GetOr(p.active))
  }

  /** An empty patch changes nothing, and patching twice with the same patch is patching once. */
  lemma PatchedLaws(p: Package, patch: PackagePatch)
    ensures Patched(p, PackagePatch(Absent, Absent, Absent, Absent)) == p
    ensures Patched(Patched(p, patch), patch) == Patched(p, patch)
  {
  }

  // ---------------------------------------------------------------------------
  // PrescriptionUpsertSerializer and PrescribedMedicationSerializer inputs

  datatype PrescriptionItemInput = PrescriptionItemInput(
    medication: nat, timesPerDay: int, doseUnit: string, numberOfDays: int, notes: Supplied<string>)

  datatype UpsertInput = UpsertInput(exam: nat, generalNotes: Supplied<string>, items: seq<PrescriptionItemInput>)

  /** Field errors (the exam is unknown, and the failing fields of each item, in item order),
      or the object-level "at least one medication" error. */
  datatype UpsertError = FieldErrors(examMissing: bool, itemErrors: seq<set<string>>) | NoItems(message: string)

  /** `value or None` for an optional text field. */
  function OrNone(v: Supplied<string>): (r: Option<string>)
    ensures r.None? <==> v.Absent? || v.value == ""
    ensures r.Some? ==> r.value == v.value
  {
    if v.Given? && v.value != "" then Some(v.value) else None
  }

  /** The upsert rows for the validated items, numbered from `next`. */
  function UpsertRows(items: seq<PrescriptionItemInput>, exam: nat, doctor: Option<nat>, next: nat): (r: seq<Prescription>)
    ensures |r| == |items|
    ensures forall i :: 0 <= i < |items| ==>
              r[i] == Prescription(next + i, exam, items[i].medication, items[i].timesPerDay, items[i].doseUnit,
                                   items[i].numberOfDays, OrNone(items[i].notes), doctor)
  {
    seq(|items|, i requires 0 <= i < |items| =>
      Prescription(next + i, exam, items[i].medication, items[i].timesPerDay, items[i].doseUnit,
                   items[i].numberOfDays, OrNone(items[i].notes), doctor))
  }

  /** The input of `PrescribedMedicationSerializer.create`; the prescriber may be left out. */
  datatype PrescribedInput = PrescribedInput(
    exam: nat, medication: nat, timesPerDay: int, doseUnit: string, numberOfDays: int,
    notes: Option<string>, prescribedBy: Supplied<Option<nat>>)

  datatype ApplyRequest = ApplyRequest(exam: nat, doctor: Option<nat>, mode: Mode)

  /** Who sent the request: no request in the serializer context, an anonymous user, or a
      signed-in `CustomUser`. */
  datatype Requester = NoRequest | Anonymous | SignedIn(user: nat)

  /** `getattr(getattr(request, "user", None), "doctor", None)`. Neither `CustomUser` nor
      Django's anonymous user has an attribute called `doctor`: the user's link to its doctor
      is the reverse accessor `doctor_profile` of `Doctor.user`. So the lookup falls back to
      its default for every requester. */
  function RequestDoctor(requester: Requester): (d: Option<nat>)
    ensures d == None
  {
    match requester
    case NoRequest => None
    case Anonymous => None
    case SignedIn(_) => None
  }

  /** Package copies made for the request's doctor carry no prescriber. */
  lemma AppliedCopiesUnattributed(lines: seq<ItemRow>, exam: nat, requester: Requester, next: nat)
    ensures forall p :: p in Copies(lines, exam, RequestDoctor(requester), next) ==> p.prescribedBy == None
  {
    var copies := Copies(lines, exam, RequestDoctor(requester), next);
    forall p | p in copies ensures p.prescribedBy == None {
      var i :| 0 <= i < |copies| && copies[i] == p;
      assert p == CopyOf(lines[i], exam, RequestDoctor(requester), next + i);
    }
  }

  /** Upsert rows made for the request's doctor carry no prescriber. */
  lemma UpsertRowsUnattributed(items: seq<PrescriptionItemInput>, exam: nat, requester: Requester, next: nat)
    ensures forall p :: p in UpsertRows(items, exam, RequestDoctor(requester), next) ==> p.prescribedBy == None
  {
    var rows := UpsertRows(items, exam, RequestDoctor(requester), next);
    forall p | p in rows ensures p.prescribedBy == None {
      var i :| 0 <= i < |rows| && rows[i] == p;
    }
  }

  /** What `ApplyMedicationPackageSerializer.create` returns. */
  datatype ApplyOutcome = ApplyOutcome(createdIds: seq<nat>, count: nat, mode: Mode, package: nat)

  /** What `PrescriptionUpsertSerializer.create` returns. */
  datatype UpsertOutcome = UpsertOutcome(exam: nat, generalNotes: Option<string>, count: nat, items: seq<Prescription>)

  // ---------------------------------------------------------------------------
  // The row-building loops

  /** The loop of `ApplyMedicationPackageSerializer.create`: one prescription per package line,
      numbered from `next`, and the list of their ids. */
  method CopyLines(lines: seq<ItemRow>, exam: nat, doctor: Option<nat>, next: nat)
    returns (created: seq<Prescription>, ids: seq<nat>)
    ensures created == Copies(lines, exam, doctor, next)
    ensures |ids| == |lines| && forall i :: 0 <= i < |ids| ==> ids[i] == created[i].id == next + i
  {
    created, ids := [], [];
    for i := 0 to |lines|
      invariant created == Copies(lines[..i], exam, doctor, next)
      invariant |ids| == i && forall j :: 0 <= j < i ==> ids[j] == next + j
    {
      CopiesStep(lines, i, exam, doctor, next);
      created := created + [CopyOf(lines[i], exam, doctor, next + i)];
      ids := ids + [next + i];
    }
    assert lines[..|lines|] == lines;
  }

  /** The loops creating one package line per item. */
  method BuildLines(package: nat, items: seq<PackageItem>) returns (lines: seq<ItemRow>)
    ensures lines == LinesFor(package, items)
  {
    lines := [];
    for i := 0 to |items|
      invariant lines == LinesFor(package, items[..i])
    {
      assert LinesFor(package, items[..i + 1]) == lines + [ItemRow(package, items[i])];
      lines := lines + [ItemRow(package, items[i])];
    }
    assert items[..|items|] == items;
  }

  /** The loop of `PrescriptionUpsertSerializer.create`: one prescription per item. */
  method BuildUpsertRows(items: seq<PrescriptionItemInput>, exam: nat, doctor: Option<nat>, next: nat)
    returns (created: seq<Prescription>)
    ensures created == UpsertRows(items, exam, doctor, next)
  {
    created := [];
    for i := 0 to |items|
      invariant created == UpsertRows(items[..i], exam, doctor, next)
    {
      var it := items[i];
      var pm := Prescription(next + i, exam, it.medication, it.timesPerDay, it.doseUnit,
                             it.numberOfDays, OrNone(it.notes), doctor);
      assert UpsertRows(items[..i + 1], exam, doctor, next) == created + [pm];
      created := created + [pm];
    }
    assert items[..|items|] == items;
  }

  /** Upsert rows numbered from `next` all lie below `next + |items|`. */
  lemma UpsertRowsIds(items: seq<PrescriptionItemInput>, exam: nat, doctor: Option<nat>, next: nat)
    ensures forall p :: p in UpsertRows(items, exam, doctor, next) ==> next <= p.id < next + |items|
  {
    var rows := UpsertRows(items, exam, doctor, next);
    forall p | p in rows ensures next <= p.id < next + |items| {
      var i :| 0 <= i < |rows| && rows[i] == p;
    }
  }

  // ---------------------------------------------------------------------------
  // The store

  class Store {
    /** Clinical exam id to its prescription notes. */
    var exams: map<nat, Option<string>>
    /** Medication id to its `is_active` flag. */
    var medications: map<nat, bool>
    var packages: map<nat, Package>
    var packageItems: seq<ItemRow>
    var prescriptions: seq<Prescription>
    var applications: seq<Application>
    var nextPrescription: nat
    var nextPackage: nat

    /** Every stored id was handed out by the counters. */
    predicate Valid()
      reads this
    {
      && (forall p :: p in prescriptions ==> p.id < nextPrescription)
      && (forall k :: k in packages ==> k < nextPackage)
    }

    constructor ()
      ensures Valid()
      ensures exams == map[] && medications == map[] && packages == map[]
      ensures packageItems == [] && prescriptions == [] && applications == []
    {
      exams, medications, packages := map[], map[], map[];
      packageItems, prescriptions, applications := [], [], [];
      nextPrescription, nextPackage := 0, 0;
    }

    /** `ApplyMedicationPackageSerializer.validate`: an inactive package is refused first, then
        an unknown exam; otherwise the request carries the exam, the requesting user's doctor
        (which the lookup never finds) and the mode, `append` unless given. */
    function ValidateApply(package: nat, examId: nat, mode: Supplied<Mode>, requester: Requester): (r: Result<ApplyRequest, string>)
      requires package in packages
      reads this
      ensures r.Ok? <==> packages[package].active && examId in exams
      ensures !packages[package].active ==> r == Err(InactivePackageMessage)
      ensures packages[package].active && examId !in exams ==> r == Err(ExamNotFoundMessage)
      ensures r.Ok? ==> r.value == ApplyRequest(examId, None, mode.GetOr(Append))
    {
      if !packages[package].active then Err(InactivePackageMessage)
      else if examId !in exams then Err(ExamNotFoundMessage)
      else Ok(ApplyRequest(examId, RequestDoctor(requester), mode.GetOr(Append)))
    }

    /** `ApplyMedicationPackageSerializer.create`: in replace mode delete the exam's
        prescriptions, then copy every line of the package into a new prescription, and log
        one application. */
    method ApplyPackage(package: nat, req: ApplyRequest) returns (out: ApplyOutcome)
      requires Valid()
      modifies this
      ensures Valid()
      ensures prescriptions == AfterApply(old(prescriptions), ItemsOf(packageItems, package), req.exam,
                                          req.doctor, req.mode, old(nextPrescription))
      ensures nextPrescription == old(nextPrescription) + |ItemsOf(packageItems, package)|
      ensures |out.createdIds| == |ItemsOf(packageItems, package)| && out.count == |out.createdIds|
      ensures forall i :: 0 <= i < |out.createdIds| ==> out.createdIds[i] == old(nextPrescription) + i
      ensures out.mode == req.mode && out.package == package
      ensures applications == old(applications) + [Application(req.exam, package, req.doctor, req.mode)]
      ensures exams == old(exams) && medications == old(medications) && packages == old(packages)
      ensures packageItems == old(packageItems) && nextPackage == old(nextPackage)
    {
      var kept := if req.mode == Replace then OtherExams(prescriptions, req.exam) else prescriptions;
      var lines := ItemsOf(packageItems, package);
      var created, createdIds := CopyLines(lines, req.exam, req.doctor, nextPrescription);
      FreshCopiesKeepIds(kept, lines, req, nextPrescription);
      prescriptions, nextPrescription := kept + created, nextPrescription + |created|;
      applications := applications + [Application(req.exam, package, req.doctor, req.mode)];
      out := ApplyOutcome(createdIds, |createdIds|, req.mode, package);
    }

    /** `MedicationPackageSerializer.create`: insert the package, then one line per item. */
    method CreatePackage(fields: Package, items: seq<PackageItem>) returns (id: nat)
      requires Valid()
      modifies this
      ensures Valid()
      ensures id == old(nextPackage) && id !in old(packages)
      ensures packages == old(packages)[id := fields] && nextPackage == id + 1
      ensures packageItems == old(packageItems) + LinesFor(id, items)
      ensures exams == old(exams) && medications == old(medications) && prescriptions == old(prescriptions)
      ensures applications == old(applications) && nextPrescription == old(nextPrescription)
    {
      id := nextPackage;
      var lines := BuildLines(id, items);
      packages, nextPackage := packages[id := fields], nextPackage + 1;
      packageItems := packageItems + lines;
    }

    /** `MedicationPackageSerializer.update`: set the supplied columns; when items are given,
        delete the package's lines and insert the given ones. */
    method UpdatePackage(id: nat, patch: PackagePatch, items: Option<seq<PackageItem>>)
      requires Valid() && id in packages
      modifies this
      ensures Valid()
      ensures packages == old(packages)[id := Patched(old(packages)[id], patch)]
      ensures packageItems == LinesAfterUpdate(old(packageItems), id, items)
      ensures exams == old(exams) && medications == old(medications) && prescriptions == old(prescriptions)
      ensures applications == old(applications) && nextPrescription == old(nextPrescription)
      ensures nextPackage == old(nextPackage)
    {
      packages := packages[id := Patched(packages[id], patch)];
      if items.Some? {
        var lines := BuildLines(id, items.value);
        packageItems := OtherPackagesItems(packageItems, id) + lines;
      }
    }

    /** The failing fields of one upsert item: an unknown or inactive medication, fewer than
        one dose a day or one day, and a blank or over-long dose unit. */
    function ItemErrors(it: PrescriptionItemInput): (e: set<string>)
      reads this
      ensures "medication" in e <==> !(it.medication in medications && medications[it.medication])
      ensures "times_per_day" in e <==> it.timesPerDay < 1
      ensures "number_of_days" in e <==> it.numberOfDays < 1
      ensures "dose_unit" in e <==> it.doseUnit == "" || |it.doseUnit| > 50
      ensures e <= {"medication", "times_per_day", "dose_unit", "number_of_days"}
    {
      (if it.medication in medications && medications[it.medication] then {} else {"medication"})
      + (if it.timesPerDay < 1 then {"times_per_day"} else {})
      + (if it.doseUnit == "" || |it.doseUnit| > 50 then {"dose_unit"} else {})
      + (if it.numberOfDays < 1 then {"number_of_days"} else {})
    }

    /** Field validation of the upsert, then `validate`: field errors are reported together;
        only when there are none is an empty item list refused. */
    function ValidateUpsert(input: UpsertInput): (r: Result<UpsertInput, UpsertError>)
      reads this
      ensures r.Ok? <==> (input.exam in exams && input.items != []
                          && forall i :: 0 <= i < |input.items| ==> ItemErrors(input.items[i]) == {})
      ensures r.Ok? ==> r.value == input
      ensures r == Err(NoItems(NoItemsMessage)) <==> input.exam in exams && input.items == []
      ensures r.Err? && r.error.FieldErrors? ==> (
        && r.error.examMissing == (input.exam !in exams)
        && |r.error.itemErrors| == |input.items|
        && forall i :: 0 <= i < |input.items| ==> r.error.itemErrors[i] == ItemErrors(input.items[i]))
    {
      var errs := seq(|input.items|, i requires 0 <= i < |input.items| reads this => ItemErrors(input.items[i]));
      if input.exam !in exams || exists i :: 0 <= i < |input.items| && ItemErrors(input.items[i]) != {} then
        Err(FieldErrors(input.exam !in exams, errs))
      else if input.items == [] then
        Err(NoItems(NoItemsMessage))
      else
        Ok(input)
    }

    /** `PrescriptionUpsertSerializer.create`: store the general notes (None when absent or
        empty) on the exam, then insert one prescription per item, with blank notes stored as
        None and no prescriber: the lookup of the requesting user's doctor finds nothing. */
    method CreatePrescription(input: UpsertInput, requester: Requester) returns (out: UpsertOutcome)
      requires Valid() && input.exam in exams
      modifies this
      ensures Valid()
      ensures exams == old(exams)[input.exam := OrNone(input.generalNotes)]
      ensures prescriptions == old(prescriptions) + UpsertRows(input.items, input.exam, None, old(nextPrescription))
      ensures nextPrescription == old(nextPrescription) + |input.items|
      ensures out == UpsertOutcome(input.exam, OrNone(input.generalNotes), |input.items|,
                                   UpsertRows(input.items, input.exam, None, old(nextPrescription)))
      ensures forall p :: p in out.items ==> p.prescribedBy == None
      ensures medications == old(medications) && packages == old(packages) && packageItems == old(packageItems)
      ensures applications == old(applications) && nextPackage == old(nextPackage)
    {
      exams := exams[input.exam := OrNone(input.generalNotes)];
      var doctor := RequestDoctor(requester);
      var created := BuildUpsertRows(input.items, input.exam, doctor, nextPrescription);
      UpsertRowsIds(input.items, input.exam, doctor, nextPrescription);
      UpsertRowsUnattributed(input.items, input.exam, requester, nextPrescription);
      prescriptions, nextPrescription := prescriptions + created, nextPrescription + |created|;
      out := UpsertOutcome(input.exam, OrNone(input.generalNotes), |created|, created);
    }

    /** `PrescribedMedicationSerializer.create`: the requesting user's doctor would fill in a
        prescriber left out, but the lookup never finds one, so the prescriber is the supplied
        one (even a null one) or none. */
    method CreatePrescribed(input: PrescribedInput, requester: Requester) returns (row: Prescription)
      requires Valid()
      modifies this
      ensures Valid()
      ensures row.prescribedBy == if input.prescribedBy.Given? then input.prescribedBy.value else None
      ensures row == Prescription(old(nextPrescription), input.exam, input.medication, input.timesPerDay,
                                  input.doseUnit, input.numberOfDays, input.notes, row.prescribedBy)
      ensures prescriptions == old(prescriptions) + [row] && nextPrescription == old(nextPrescription) + 1
      ensures exams == old(exams) && medications == old(medications) && packages == old(packages)
      ensures packageItems == old(packageItems) && applications == old(applications)
      ensures nextPackage == old(nextPackage)
    {
      var requestDoctor := RequestDoctor(requester);
      var supplied := input.prescribedBy;
      if requestDoctor.Some? && supplied.Absent? {
        supplied := Given(requestDoctor);
      }
      row := Prescription(nextPrescription, input.exam, input.medication, input.timesPerDay,
                          input.doseUnit, input.numberOfDays, input.notes, supplied.GetOr(None));
      prescriptions := prescriptions + [row];
      nextPrescription := nextPrescription + 1;
    }
  }
}
