# DentPro serializer core in Dafny

DentPro is a dental-clinic back end built on Django REST Framework. This project models the
serializer logic that decides what it accepts and what it writes. The stored tables are
in-memory Dafny values or objects. Queries are order-preserving filters over sequences, and
every rule is stated and proved over that model.

- **Appointments** (`appointments.dfy`). `AppointmentSerializer.validate` runs four checks and
  collects their errors in a map:
  - a booking date in the past;
  - a doctor slot clash;
  - a patient slot clash;
  - an upcoming active appointment for the patient.

  Each check skips rows stored with the Arabic "cancelled" status where the code says so, and
  skips the appointment being edited. The lemmas show that accepted bookings keep doctor and
  patient slots exclusive and keep at most one upcoming appointment per patient. They also pin
  down what the literal status strings do: English statuses are not treated like their Arabic
  twins.
- **Flexible foreign-key field** (`resolver.dfy`). `FlexiblePKOrSlugRelatedField` resolves a
  value against a table of `(pk, slug)` rows. The value may be a dict, an integer or a string.
  Digit strings are tried as a primary key first, or as a slug first under `prefer_slug`.
  Proved:
  - every resolved key names a stored row;
  - the representation round trip holds when keys are tried first;
  - under `prefer_slug` the round trip breaks on a concrete table.
- **Procedures** (`procedures.dfy`):
  - the case-insensitive duplicate check on category names, which accepts the stripped name;
  - the filling of missing procedure fields from the linked definition, on create and on the
    live update;
  - the bulk attaching of teeth to a procedure.
- **Tooth-code seeding** (`toothcodes.dfy`). The FDI (ISO 3950) two-digit numbers, and the
  `seed_toothcodes` command, which calls `get_or_create` over a table class. Proved:
  - the command appends exactly the missing pairs and counts them;
  - it fails at the first pair the table already holds twice;
  - a second run creates nothing.
- **Medical records** (`medicalrecord.dfy`). A store class holds exams, medications, packages,
  package lines, prescriptions and the log of applied packages. It covers:
  - applying a package in append or replace mode;
  - creating and updating packages;
  - the prescription upsert with its validation;
  - creating a single prescribed medication.
- **Patients** (`patients.dfy`). The field validators of `PatientSerializer` and its
  attribute-setting update. The phone pattern `^\+?\d{7,15}$` is given both as a predicate and
  as a matcher, proved equal. Python's `$` also accepts one trailing newline, and the model
  keeps that.
- **Accounts** (`accounts.dfy`). `UnifiedUserSerializer.validate`, `create` and `update`, over
  a directory of users, their one-to-one profiles and their doctor rows.

Shared pieces:
- `common.dfy`: `Option`, `Result`, `Supplied` (whether a key was present in a dict), loose
  attribute values, and `Filter`.
- `text.dfy`: ASCII models of `strip`, `lower`, `isalpha`, `isdigit`, `str(n)` and `int(s)`.
- `records.dfy`: a model instance as an attribute map, with the `setattr` loop that several
  `update` methods run.

Today's date and the requesting user are parameters. The three medical-record operations that
look up the requesting user's doctor do so with `getattr(user, "doctor", None)`. Neither
`CustomUser` nor Django's anonymous user has an attribute of that name: a user reaches its
doctor rows through the reverse accessor `doctor_profile` (accounts/models.py:102). So the
lookup always yields None, and `MedicalRecords.RequestDoctor` models it that way. Package
copies and upsert rows therefore carry no prescriber, and a single prescribed medication has
only the prescriber supplied in the request, if any.

## Model

| member | source | states |
|---|---|---|
| Appointments.StatusOf | appointment/models.py:14-23 | a string maps to a status exactly when it is that status's stored label |
| Appointments.LabelRoundTrip | appointment/models.py:14-23 | every status reads back from its own label, so the eight labels are distinct |
| Appointments.Effective | appointment/serializers.py:17-20 | each of doctor, patient, date and time comes from the request when given, else from the edited instance |
| Appointments.Errors | appointment/serializers.py:22-49 | key 'date' iff the date is before today; 'time' iff a doctor or patient clash, with the patient message winning; 'patient' iff an upcoming active appointment; each with its fixed message |
| Appointments.AcceptsIff | appointment/serializers.py:51-54 | the request passes iff the date is not past and none of the three queries finds a row |
| Appointments.AnyMatch | appointment/serializers.py:27-31 | the scan reports true iff some row matches the query and is not the edited instance |
| Appointments.Validate | appointment/serializers.py:15-54 | returns the data unchanged exactly when accepted, otherwise the full error map |
| Appointments.Saved | appointment/models.py:24-29 | the stored row carries the effective slot; its status and reason are the request's when given, else the edited instance's, else the defaults 'pending' and None |
| Appointments.HitConcat | appointment/serializers.py:27-48 | a query finds a row in two tables together iff it finds one in either |
| Appointments.CancelledRowsNeverBlock | appointment/serializers.py:31-48 | adding rows stored as 'ملغي' never changes the error map |
| Appointments.EditedRowNeverBlocks | appointment/serializers.py:31-48 | rows carrying the edited instance's id never change the error map |
| Appointments.MoreRowsMoreErrors | appointment/serializers.py:27-49 | adding rows can only add error keys |
| Appointments.UpcomingIgnoresRequestedSlot | appointment/serializers.py:43-49 | the upcoming check does not depend on the requested date or time |
| Appointments.AcceptedCreateKeepsSlotsExclusive | appointment/serializers.py:26-40 | storing an accepted booking keeps non-cancelled doctor and patient slots exclusive |
| Appointments.AcceptedUpdateKeepsSlotsExclusive | appointment/serializers.py:26-40 | saving an accepted edit over its row keeps the slots exclusive |
| Appointments.AcceptedCreateKeepsOneUpcoming | appointment/serializers.py:42-49 | storing an accepted booking keeps at most one counted upcoming appointment per patient |
| Appointments.AcceptedUpdateKeepsOneUpcoming | appointment/serializers.py:42-49 | saving an accepted edit over a stored row keeps at most one counted upcoming appointment per patient |
| Appointments.EnglishCancelledStillBlocks | appointment/serializers.py:31 | a row stored as English 'cancelled' still blocks the doctor's slot |
| Appointments.EnglishActiveStatusesDoNotCount | appointment/serializers.py:43-48 | a later appointment blocks a new booking iff its status is 'مؤكد' or 'معلق' |
| Resolver.Get | procedures/serializers.py:27-32 | `.get` finds nothing iff no row matches, one row iff exactly one matches, and then that row's key |
| Resolver.ToRepresentation | procedures/serializers.py:23-25 | the representation is the primary key, or None exactly for None |
| Resolver.ByPk | procedures/serializers.py:27-28 | nothing is found iff no row has the key; a single hit is a stored row with that key |
| Resolver.BySlug | procedures/serializers.py:30-32 | nothing is found iff no row's slug equals the stripped text ignoring case; a single hit is a stored row whose slug does |
| Resolver.StrOf | procedures/serializers.py:53 | `str` of a string is the string, of None is 'None', and of an integer reads back as that integer |
| Resolver.IntOf | procedures/serializers.py:39 | `int` of an integer is itself; of a string it parses iff `int()` of the text does; None and other values raise TypeError |
| Resolver.ResolveText | procedures/serializers.py:54-86 | a resolved key names a stored row; not-found means no row matches the text by slug nor, for digits, by key; it never reports a missing key or an invalid type |
| Resolver.ResolveDict | procedures/serializers.py:36-49 | a resolved key names a stored row; the missing-key error comes exactly when there is neither a usable 'id' nor a truthy slug entry |
| Resolver.ResolveScalar | procedures/serializers.py:51-88 | a resolved key names a stored row; invalid-type comes exactly for values that are neither an integer nor a non-blank string |
| Resolver.ToInternalValue | procedures/serializers.py:34-88 | for any input and preference a resolved key names a stored row; a missing key is only a dict's error and an invalid type only a scalar's |
| Resolver.ScalarText | procedures/serializers.py:52-53 | a non-blank string is resolved by its stripped value |
| Resolver.TextResolvesBySlugOnly | procedures/serializers.py:80-86 | non-digit text resolves iff exactly one slug matches ignoring case; none gives not-found, several give multiple-found |
| Resolver.DigitsPreferPk | procedures/serializers.py:68-79 | without `prefer_slug` a digit string resolves by primary key, falling back to the slug only when no key matches |
| Resolver.DigitsPreferSlug | procedures/serializers.py:56-67 | with `prefer_slug` a digit string resolves by slug; several matches are an error; the key is tried only when no slug matches |
| Resolver.DictIdTakesPrecedence | procedures/serializers.py:36-42 | in a dict a non-empty 'id' decides, whatever the slug key holds |
| Resolver.DictIdResolves | procedures/serializers.py:37-41 | a usable 'id' that `int()` reads selects the row with that key, not-found when none has it, an uncaught error when several do; an unreadable id is not-found and one of the wrong type an uncaught TypeError |
| Resolver.DictSlugResolves | procedures/serializers.py:42-48 | without a usable 'id' a truthy slug entry resolves by its stripped text ignoring case: one match gives that row, none not-found, several multiple-found |
| Resolver.IntScalarIsItsText | procedures/serializers.py:52-53 | an integer resolves exactly as its decimal text does, so the digit-string laws hold for integers |
| Resolver.DictWithoutKeysRejected | procedures/serializers.py:42-49 | a dict with neither a usable 'id' nor a truthy slug entry is rejected |
| Resolver.InvalidScalarsRejected | procedures/serializers.py:88 | blank strings, None and other non-dict values are an invalid type |
| Resolver.PkRowsOfStoredRow | procedures/serializers.py:27-28 | with unique keys a stored row's key selects that row alone |
| Resolver.RepresentationRoundTrip | procedures/serializers.py:23-71 | without `prefer_slug` a stored row's representation resolves back to that row, as an integer and as `{"id": key}` |
| Resolver.PreferSlugShadowsKeys | procedures/serializers.py:56-59 | with `prefer_slug` and unique keys, a stored row whose key is the slug of exactly one other row has its representation resolve to that other row, a different key |
| Resolver.PreferSlugShadowsKeysExample | procedures/serializers.py:56-59 | on the table of rows (1, "2") and (2, "x") the integer 2 resolves to row 1 |
| Procedures.ValidateCategoryName | procedures/serializers.py:96-99 | accepted iff no stored name equals the stripped value ignoring case; the result is the stripped value |
| Procedures.AcceptedNameKeepsDistinct | procedures/serializers.py:96-99 | storing accepted names keeps category names distinct ignoring case |
| Procedures.StoredNameIsRefused | procedures/serializers.py:96-99 | once stored, the same name in any case or padding is refused |
| Procedures.Filled | procedures/serializers.py:186-220 | name, description, cost and category are filled from the definition only where missing (or None/empty), per create or update rule; every other key is kept |
| Procedures.Prepare | procedures/serializers.py:186-220 | with a definition the data becomes `Filled`; without one it is unchanged |
| Procedures.FilledIdempotent | procedures/serializers.py:186-220 | filling twice from the same definition is filling once |
| Procedures.EmptyDescriptionCreateVersusUpdate | procedures/serializers.py:190-215 | an empty description survives create but is replaced on update |
| Procedures.LinkFor | procedures/serializers.py:243-248 | each link has the procedure and tooth code, no performer unless given, and empty notes unless given |
| Procedures.AttachTeeth | procedures/serializers.py:238-249 | one link per item in order, appended after the existing links |
| ToothCodes.Range | procedures/management/commands/seed_toothcodes.py:4-5 | `list(range(lo, hi))` has `hi - lo` elements, counting up from `lo` |
| ToothCodes.PermanentCodes | procedures/management/commands/seed_toothcodes.py:4 | 32 permanent codes, the i-th being quadrant i/8+1 and position i%8+1 |
| ToothCodes.PrimaryCodes | procedures/management/commands/seed_toothcodes.py:5 | 20 primary codes, the i-th being quadrant i/5+5 and position i%5+1 |
| ToothCodes.PermanentMembership | procedures/management/commands/seed_toothcodes.py:4 | a number is a permanent code iff its quadrant is 1-4 and its position 1-8 |
| ToothCodes.PrimaryMembership | procedures/management/commands/seed_toothcodes.py:5 | a number is a primary code iff its quadrant is 5-8 and its position 1-5 |
| ToothCodes.CodeListsShape | procedures/management/commands/seed_toothcodes.py:4-5 | both lists increase strictly, every permanent code is below every primary one, and all have two digits |
| ToothCodes.Seeds | procedures/management/commands/seed_toothcodes.py:12-16 | the pairs asked for: each permanent code's text with 'permanent', then each primary one with 'primary' |
| ToothCodes.SeedsDistinct | procedures/management/commands/seed_toothcodes.py:12-16 | no pair is asked for twice |
| ToothCodes.Occurrences | procedures/management/commands/seed_toothcodes.py:13 | a count of zero means the pair is absent |
| ToothCodes.ToothcodeTable.GetOrCreate | procedures/management/commands/seed_toothcodes.py:13-16 | creates and appends the pair when absent, fetches it when held once, and fails when held more than once |
| ToothCodes.ToothcodeTable.SeedOne | procedures/management/commands/seed_toothcodes.py:13-14 | one step fails iff the pair was held twice before the command, creates iff it was absent, and extends the appended pairs by it |
| ToothCodes.ToothcodeTable.SeedList | procedures/management/commands/seed_toothcodes.py:12-17 | one loop fails at the first pair held twice, giving its position; otherwise it appends the pairs of its list that are missing and counts them on |
| ToothCodes.ToothcodeTable.Handle | procedures/management/commands/seed_toothcodes.py:10-18 | succeeds iff no asked-for pair is held twice; then exactly the missing pairs are appended and counted; otherwise stops at the first such pair |
| ToothCodes.SeedStep | procedures/management/commands/seed_toothcodes.py:12-17 | mid-run, the next pair is held as often as before the run, and joins the missing pairs iff it was absent |
| ToothCodes.SecondRunCreatesNothing | procedures/management/commands/seed_toothcodes.py:10-18 | after a successful run each pair is held once and a second run finds nothing missing |
| ToothCodes.MissingOccurrences | procedures/management/commands/seed_toothcodes.py:12-17 | each pair is appended once if absent and never otherwise |
| ToothCodes.EmptyTableGetsAll | procedures/management/commands/seed_toothcodes.py:10-18 | on an empty table all 52 pairs are created |
| MedicalRecords.LinesFor | medicalrecord/serializers.py:239-240 | one package line per item, in order, for the package |
| MedicalRecords.CopyOf | medicalrecord/serializers.py:285-293 | a copied prescription keeps the line's medication, dosage and notes, for the exam, with the prescriber passed in |
| MedicalRecords.Copies | medicalrecord/serializers.py:284-294 | one copy per line, numbered consecutively |
| MedicalRecords.AfterApply | medicalrecord/serializers.py:280-294 | the copies come last; every other row was already stored; append keeps every row; replace keeps every other exam's rows and none of this exam's |
| MedicalRecords.ReplaceLeavesOnlyCopies | medicalrecord/serializers.py:280-294 | in replace mode the exam is left with exactly the copies |
| MedicalRecords.AppendKeepsExisting | medicalrecord/serializers.py:283-294 | in append mode the exam keeps its prescriptions and gains the copies after them |
| MedicalRecords.OtherExamsUntouched | medicalrecord/serializers.py:280-294 | applying a package never changes another exam's prescriptions |
| MedicalRecords.FreshCopiesKeepIds | medicalrecord/serializers.py:285-294 | copies numbered from the counter keep every id below the new counter |
| MedicalRecords.LinesAfterUpdate | medicalrecord/serializers.py:244-251 | no items leave the lines alone; given items come last as the package's new lines; every other kept line was stored and belongs to another package; other packages' lines are kept |
| MedicalRecords.UpdateReplacesLines | medicalrecord/serializers.py:244-251 | given items replace exactly the package's lines; no items leave them alone; other packages' lines never change |
| MedicalRecords.Patched | medicalrecord/serializers.py:245-246 | each package column takes the supplied value, else keeps its own |
| MedicalRecords.PatchedLaws | medicalrecord/serializers.py:245-246 | an empty patch changes nothing, and patching twice is patching once |
| MedicalRecords.OrNone | medicalrecord/serializers.py:325-339 | `value or None` is None iff the value is missing or empty |
| MedicalRecords.UpsertRows | medicalrecord/serializers.py:332-342 | one prescription per item, in order, with blank notes stored as None and the prescriber passed in |
| MedicalRecords.CopyLines | medicalrecord/serializers.py:283-294 | the loop builds exactly `Copies`, and the list of their ids |
| MedicalRecords.BuildLines | medicalrecord/serializers.py:239-251 | the loop builds exactly `LinesFor` |
| MedicalRecords.BuildUpsertRows | medicalrecord/serializers.py:331-342 | the loop builds exactly `UpsertRows` |
| MedicalRecords.UpsertRowsIds | medicalrecord/serializers.py:333-342 | new prescription ids lie in the counter's fresh range |
| MedicalRecords.RequestDoctor | medicalrecord/serializers.py:271 | the lookup of the requesting user's `doctor` attribute yields None for every requester, since no user class has that attribute |
| MedicalRecords.AppliedCopiesUnattributed | medicalrecord/serializers.py:271-293 | package copies made with the looked-up doctor have no prescriber |
| MedicalRecords.UpsertRowsUnattributed | medicalrecord/serializers.py:328-342 | upsert rows made with the looked-up doctor have no prescriber |
| MedicalRecords.Store.constructor | medicalrecord/serializers.py:258-299 | an empty store satisfies the id invariant |
| MedicalRecords.Store.ValidateApply | medicalrecord/serializers.py:262-272 | an inactive package is refused first, then an unknown exam; otherwise the request carries the exam, no doctor and the mode, `append` by default |
| MedicalRecords.Store.ApplyPackage | medicalrecord/serializers.py:274-299 | the prescription table becomes `AfterApply`, ids and count are reported, one application is logged, and nothing else changes |
| MedicalRecords.Store.CreatePackage | medicalrecord/serializers.py:236-241 | the package is inserted with a fresh id, with one line per item, and nothing else changes |
| MedicalRecords.Store.UpdatePackage | medicalrecord/serializers.py:243-252 | the columns are patched and the lines become `LinesAfterUpdate`; nothing else changes |
| MedicalRecords.Store.ItemErrors | medicalrecord/serializers.py:305-310 | an item fails on an unknown or inactive medication, fewer than one dose a day or one day, or a blank or over-long dose unit |
| MedicalRecords.Store.ValidateUpsert | medicalrecord/serializers.py:312-320 | passes iff the exam exists, items are given and none fails; field errors come before the empty-items error |
| MedicalRecords.Store.CreatePrescription | medicalrecord/serializers.py:322-364 | the exam's notes become `general_notes or None`, the upsert rows are appended without a prescriber, and the result reports the exam, notes, count and rows |
| MedicalRecords.Store.CreatePrescribed | medicalrecord/serializers.py:84-89 | the prescriber is the supplied one, even null, else none, as the doctor lookup finds nothing; the row is appended |
| Patients.ValidateFirstName | patients/serializers.py:27-30 | accepted iff the stripped value is non-empty letters; the unstripped value passes |
| Patients.ValidateLastName | patients/serializers.py:33-36 | accepted iff the stripped value is non-empty letters; the unstripped value passes |
| Patients.ValidateDateOfBirth | patients/serializers.py:39-42 | accepted iff the date is not after today |
| Patients.ValidateGender | patients/serializers.py:58-63 | accepted iff the stripped, lower-cased value is male, female or other, which is what passes |
| Patients.GenderNormalisationIdempotent | patients/serializers.py:58-63 | a normalised gender passes again, unchanged |
| Patients.MatchPhoneIff | patients/serializers.py:53 | the matcher accepts exactly the strings of `^\+?\d{7,15}$`, including the trailing newline `$` allows |
| Patients.MatchImpliesPattern | patients/serializers.py:53 | every string the matcher accepts fits the pattern |
| Patients.PatternImpliesMatch | patients/serializers.py:53 | every string of the pattern is accepted by the matcher |
| Patients.ValidatePhone | patients/serializers.py:52-57 | accepted iff the pattern matches and no other patient has the phone; the format error comes first |
| Patients.ValidateEmail | patients/serializers.py:65-68 | an empty email always passes; otherwise accepted iff no other patient has it |
| Patients.OwnRowNeverClashes | patients/serializers.py:55-66 | the edited patient's own row never makes its phone or email count as taken |
| Patients.AcceptedPhoneKeepsUnique | patients/serializers.py:52-57 | storing a new patient whose phone was accepted keeps phones unique |
| Patients.ValidateAddress | patients/serializers.py:71-74 | accepted iff the stripped value has at least five characters |
| Patients.Update | patients/serializers.py:81-85 | every validated attribute is set, and every other attribute is kept |
| Records.Instance.SetAttributes | patients/serializers.py:82-83 | the attributes become the old ones overridden by the updates |
| Accounts.Validate | accounts/serializers.py:52-58 | a missing password or password2 raises KeyError; a mismatch rejects 'password'; a doctor without `doctor_profile` in the request rejects 'doctor_profile'; otherwise the data passes unchanged |
| Accounts.NewUser | accounts/serializers.py:61-68 | the new user has the given username, email, type and password, with names defaulting to empty |
| Accounts.Merged | accounts/serializers.py:81-86 | username, email and type are kept unless supplied; the password changes only to a supplied non-empty value; the names never change |
| Accounts.MergedLaws | accounts/serializers.py:81-86 | an empty update leaves the user as it was, and merging twice is merging once |
| Accounts.Directory.constructor | accounts/serializers.py:60-75 | an empty directory satisfies its invariant |
| Accounts.Directory.Create | accounts/serializers.py:60-75 | stores the user, exactly one fresh profile with the profile data, and a doctor row iff the type is doctor and doctor data is non-empty |
| Accounts.Directory.Update | accounts/serializers.py:77-101 | the user is merged and the profile gets the supplied attributes; the doctor branch fails after that, exactly when the merged type is doctor; doctor rows never change |
| Text.Strip | patients/serializers.py:28 | `strip` yields a trimmed infix of the input with only whitespace before and after it, empty iff the input is all whitespace |
| Text.StripUnique | patients/serializers.py:28 | any non-empty trimmed infix with only whitespace around it is the stripped string |
| Text.Lower | patients/serializers.py:60 | `lower` keeps the length and lower-cases each letter |
| Text.IntToString | procedures/serializers.py:53 | `str(i)` is the digits of the integer's magnitude, denoting it and without leading zeros, after a minus sign for a negative one |
| Text.PyInt | procedures/serializers.py:39 | `int` refuses blank text; reads stripped digits as their value, after '+' as the same and after '-' as its negation; and accepts nothing but digits after at most one sign |
| Text.IntToStringRoundTrip | procedures/serializers.py:39 | `int(str(i)) == i` for every integer |
| Text.PyIntOfDigits | procedures/serializers.py:71 | a digit string is its own strip and `int` reads it as its digit value |

## Left out

- Database and framework machinery is not modelled: querysets, transactions and `bulk_create`
  return values. Neither is most of DRF's field-level parsing, such as type coercion,
  `CharField` whitespace trimming, the `max_length` of model fields, or the `ChoiceField` and
  `validate_password` checks. The validators receive the already-parsed value. The one field
  limit modelled is the upsert item's `dose_unit` (at most 50 characters, not blank), in
  `MedicalRecords.Store.ItemErrors`.
- `date.today()` and the requesting user are parameters, not read from a clock or a session.
- Concurrency is not modelled. In particular, the check-then-write race between validating and
  saving a booking, a phone number or a category name is left out.
- Password hashing (`set_password`) and tokens are not modelled. A user row holds the last
  password set.
- `Text.Strip`, `Text.Lower`, `Text.IsAlpha` and `Text.IsDigits`: modelled over ASCII only.
  Python applies Unicode whitespace, case and letter classes.
- `Text.PyInt`: does not accept the underscores between digits that Python's `int()` allows.
- `Resolver.ToInternalValue`: floats and booleans as input values are not modelled. They fall
  under the opaque `VOther` case only when they are not ints.
- `Resolver.ToInternalValue`: the validation messages are reduced to error kinds.
- The nullable patient fields are not modelled as None. Python would crash on `.strip()` of
  None, and the validators take strings only.
- `Patients.ValidateGender`: the `ChoiceField` that DRF derives from the model's choices runs
  first. That field is not modelled, so only the validator's own rule is stated.
- `Patients.ValidatePhone` and `Patients.ValidateEmail`: `phone` and `email` are
  `unique=True` (patients/models.py:19-20), so DRF's field-level `UniqueValidator` runs
  before these validators and reports a taken value first. That validator is not modelled,
  so the validators' own "already exists" branches are stated as if they ran alone.
- The first `validate_gender` (patients/serializers.py:45-49) and the first `update` of
  `ProcedureSerializer` (procedures/serializers.py:197-207) are not modelled. Later
  definitions in the same class replace them.
- `MedicalRecords.Store.ValidateUpsert`: the per-item error list always has one entry per item.
  DRF reports that list only when some item fails, which the condition on the `FieldErrors`
  case reflects.
- Timestamps (`created_at`, `prescribed_at`) and package-line row ids are not modelled.
- The enriched item representation in the upsert result is reduced to the stored rows. It
  holds the medication name and timestamps.
- UUID primary keys are abstracted to natural numbers.
- Tooth-code columns other than the number and the type are not modelled.
- The console message of `seed_toothcodes` is not modelled. The count it prints is the
  command's result.
- `MedicalRecords.Store.UpdatePackage`: the generic `setattr` loop over the validated data is
  modelled column by column, through `PackagePatch`.
- `Accounts.Directory.Update`: the `setattr` calls on the related manager before the failing
  `save()` are not modelled. The failure is recorded as the `DoctorSaveFailed` outcome, after
  the user and the profile have been saved.
- Files, migrations, views, URLs, admin classes and the read-only serializers are not
  modelled.
