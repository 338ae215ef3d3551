/** The field validators and the update of `PatientSerializer`. Each validator receives the
    field's value after field-level parsing, the other stored patients where it checks
    uniqueness, and the id of the patient being edited, if any. */
module Patients {
  import opened Common
  import opened Text
  import Records

  const FirstNameMessage: string := "First name must contain only letters."
  const LastNameMessage: string := "Last name must contain only letters."
  const FutureBirthMessage: string := "Date of birth cannot be in the future."
  const GenderMessage: string := "Gender must be one of: male, female, other."
  const PhoneFormatMessage: string := "Phone number must contain only digits and may start with '+'."
  const PhoneTakenMessage: string := "Phone number already exists."
  const EmailTakenMessage: string := "Email already exists."
  const AddressMessage: string := "Address is too short."

  /** The columns of a stored patient the uniqueness checks look at; the UUID primary key is
      abstracted to a number. */
  datatype PatientRow = PatientRow(id: nat, phone: string, email: Option<string>)

  type Date = int

  /** `validate_first_name`: the stripped value must be non-empty letters; the value itself,
      unstripped, is what passes. */
  function ValidateFirstName(value: string): (r: Result<string, string>)
    ensures r.Ok? <==> IsAlpha(Strip(value))
    ensures r.Ok? ==> r.value == value
    ensures r.Err? ==> r.error == FirstNameMessage
  {
    if IsAlpha(Strip(value)) then Ok(value) else Err(FirstNameMessage)
  }

  /** `validate_last_name`: the same rule as the first name, with its own message. */
  function ValidateLastName(value: string): (r: Result<string, string>)
    ensures r.Ok? <==> IsAlpha(Strip(value))
    ensures r.Ok? ==> r.value == value
    ensures r.Err? ==> r.error == LastNameMessage
  {
    if IsAlpha(Strip(value)) then Ok(value) else Err(LastNameMessage)
  }

  /** `validate_date_of_birth`: a date after today is refused; today itself passes. */
  function ValidateDateOfBirth(value: Date, today: Date): (r: Result<Date, string>)
    ensures r.Ok? <==> value <= today
    ensures r.Ok? ==> r.value == value
    ensures r.Err? ==> r.error == FutureBirthMessage
  {
    if value > today then Err(FutureBirthMessage) else Ok(value)
  }

  /** The genders the live `validate_gender` (the second definition) allows. */
  const AllowedGenders: set<string> := {"male", "female", "other"}

  /** `validate_gender`: strip, lower-case, and require one of the allowed values, which is
      what passes. */
  function ValidateGender(value: string): (r: Result<string, string>)
    ensures r.Ok? <==> Lower(Strip(value)) in AllowedGenders
    ensures r.Ok? ==> r.value == Lower(Strip(value)) && r.value in AllowedGenders
    ensures r.Err? ==> r.error == GenderMessage
  {
    var normalized := Lower(Strip(value));
    if normalized in AllowedGenders then Ok(normalized) else Err(GenderMessage)
  }

  /** Normalising is idempotent: a value that passes passes again unchanged. */
  lemma GenderNormalisationIdempotent(value: string)
    requires ValidateGender(value).Ok?
    ensures ValidateGender(ValidateGender(value).value) == ValidateGender(value)
  {
    var s := Strip(value);
    LowerKeepsTrimmed(s);
    StripTrimmed(Lower(s));
    LowerIdempotent(s);
  }

  // ---------------------------------------------------------------------------
  // validate_phone: `re.match(r'^\+?\d{7,15}$', value)`

  /** Seven to fifteen decimal digits. */
  predicate DigitRun(s: string) {
    7 <= |s| <= 15 && forall i :: 0 <= i < |s| ==> IsDigit(s[i])
  }

  /** An optional plus sign, then the digit run. */
  predicate SignedDigitRun(s: string) {
    DigitRun(s) || (|s| > 0 && s[0] == '+' && DigitRun(s[1..]))
  }

  /** What the pattern matches: the signed digit run, with Python's `$` also allowing one
      final newline. */
  predicate PhonePattern(s: string) {
    SignedDigitRun(s) || (|s| > 0 && s[|s| - 1] == '\n' && SignedDigitRun(s[..|s| - 1]))
  }

  /** The length of the longest all-digit prefix. */
  function LeadingDigits(s: string): (n: nat)
    ensures n <= |s|
    ensures forall i :: 0 <= i < n ==> IsDigit(s[i])
    ensures n < |s| ==> !IsDigit(s[n])
  {
    if s != [] && IsDigit(s[0]) then 1 + LeadingDigits(s[1..]) else 0
  }

  /** The matcher: take the sign if there is one, take the digits greedily, and accept when
      there are 7 to 15 of them and at most a newline follows. */
  function MatchPhone(s: string): bool {
    var rest := if |s| > 0 && s[0] == '+' then s[1..] else s;
    var n := LeadingDigits(rest);
    7 <= n <= 15 && (rest[n..] == "" || rest[n..] == "\n")
  }

  /** The matcher accepts exactly the strings of the pattern. */
  lemma MatchPhoneIff(s: string)
    ensures MatchPhone(s) <==> PhonePattern(s)
  {
    if MatchPhone(s) {
      MatchImpliesPattern(s);
    }
    if PhonePattern(s) {
      PatternImpliesMatch(s);
    }
  }

  lemma MatchImpliesPattern(s: string)
    requires MatchPhone(s)
    ensures PhonePattern(s)
  {
    var signed := |s| > 0 && s[0] == '+';
    var rest := if signed then s[1..] else s;
    var n := LeadingDigits(rest);
    if rest[n..] == "" {
      assert rest == rest[..n];
      assert DigitRun(rest);
    } else {
      assert n == |rest| - 1;
      var body := s[..|s| - 1];
      assert s[|s| - 1] == rest[n] == '\n';
      assert DigitRun(rest[..n]);
      if signed {
        assert body[0] == '+' && body[1..] == rest[..n];
      } else {
        assert body == rest[..n];
      }
      assert SignedDigitRun(body);
    }
  }

  lemma PatternImpliesMatch(s: string)
    requires PhonePattern(s)
    ensures MatchPhone(s)
  {
    var body := if SignedDigitRun(s) then s else s[..|s| - 1];
    assert SignedDigitRun(body);
    if DigitRun(body) {
      assert s[0] == body[0] && IsDigit(s[0]);
      assert s[..|body|] == body;
      DigitsPrefix(s, |body|);
    } else {
      var rest := s[1..];
      assert s[0] == body[0] == '+';
      assert rest[..|body| - 1] == body[1..];
      DigitsPrefix(rest, |body| - 1);
    }
  }

  /** A digit prefix of length `k` followed by nothing or one newline is the whole run of
      leading digits. */
  lemma DigitsPrefix(rest: string, k: nat)
    requires k <= |rest| && (k == |rest| || (k == |rest| - 1 && rest[k] == '\n'))
    requires forall i :: 0 <= i < k ==> IsDigit(rest[i])
    ensures LeadingDigits(rest) == k && (rest[k..] == "" || rest[k..] == "\n")
  {
    if k < |rest| {
      assert rest[k..] == [rest[k]];
    }
  }

  /** `validate_phone`: the pattern first, then no other patient (the edited one excluded)
      may have the same phone. */
  function ValidatePhone(value: string, rows: seq<PatientRow>, editing: Option<nat>): (r: Result<string, string>)
    ensures r.Ok? <==> PhonePattern(value) && !PhoneTaken(value, rows, editing)
    ensures r.Ok? ==> r.value == value
    ensures !PhonePattern(value) ==> r == Err(PhoneFormatMessage)
    ensures PhonePattern(value) && PhoneTaken(value, rows, editing) ==> r == Err(PhoneTakenMessage)
  {
    MatchPhoneIff(value);
    if !MatchPhone(value) then Err(PhoneFormatMessage)
    else if PhoneTaken(value, rows, editing) then Err(PhoneTakenMessage)
    else Ok(value)
  }

  /** `filter(...).exclude(id=...)`: with no edited patient the exclusion matches nothing. */
  predicate IsOther(row: PatientRow, editing: Option<nat>) {
    editing.None? || row.id != editing.value
  }

  predicate PhoneTaken(value: string, rows: seq<PatientRow>, editing: Option<nat>) {
    exists i :: 0 <= i < |rows| && rows[i].phone == value && IsOther(rows[i], editing)
  }

  /** `validate_email`: an empty email is never checked; otherwise no other patient may have it. */
  function ValidateEmail(value: string, rows: seq<PatientRow>, editing: Option<nat>): (r: Result<string, string>)
    ensures r.Ok? <==> value == "" || !EmailTaken(value, rows, editing)
    ensures r.Ok? ==> r.value == value
    ensures r.Err? ==> r.error == EmailTakenMessage
  {
    if value != "" && EmailTaken(value, rows, editing) then Err(EmailTakenMessage) else Ok(value)
  }

  predicate EmailTaken(value: string, rows: seq<PatientRow>, editing: Option<nat>) {
    exists i :: 0 <= i < |rows| && rows[i].email == Some(value) && IsOther(rows[i], editing)
  }

  /** The edited patient's own row never makes its phone or email count as taken. */
  lemma OwnRowNeverClashes(value: string, rows: seq<PatientRow>, own: PatientRow)
    ensures ValidatePhone(value, rows + [own], Some(own.id)) == ValidatePhone(value, rows, Some(own.id))
    ensures ValidateEmail(value, rows + [own], Some(own.id)) == ValidateEmail(value, rows, Some(own.id))
  {
    var all := rows + [own];
    if PhoneTaken(value, all, Some(own.id)) {
      var i :| 0 <= i < |all| && all[i].phone == value && IsOther(all[i], Some(own.id));
      assert i < |rows| && all[i] == rows[i];
    }
    if PhoneTaken(value, rows, Some(own.id)) {
      var i :| 0 <= i < |rows| && rows[i].phone == value && IsOther(rows[i], Some(own.id));
      assert all[i] == rows[i];
    }
    if EmailTaken(value, all, Some(own.id)) {
      var i :| 0 <= i < |all| && all[i].email == Some(value) && IsOther(all[i], Some(own.id));
      assert i < |rows| && all[i] == rows[i];
    }
    if EmailTaken(value, rows, Some(own.id)) {
      var i :| 0 <= i < |rows| && rows[i].email == Some(value) && IsOther(rows[i], Some(own.id));
      assert all[i] == rows[i];
    }
  }

  /** Storing only accepted phones keeps phones unique across patients. */
  predicate PhonesUnique(rows: seq<PatientRow>) {
    forall i, j :: 0 <= i < |rows| && 0 <= j < |rows| && i != j ==> rows[i].phone != rows[j].phone
  }

  lemma AcceptedPhoneKeepsUnique(rows: seq<PatientRow>, added: PatientRow)
    requires PhonesUnique(rows)
    requires forall i :: 0 <= i < |rows| ==> rows[i].id != added.id
    requires ValidatePhone(added.phone, rows, None).Ok?
    ensures PhonesUnique(rows + [added])
  {
    var all := rows + [added];
    forall i, j | 0 <= i < |all| && 0 <= j < |all| && i != j ensures all[i].phone != all[j].phone {
      if i == |rows| {
        assert all[j] == rows[j];
        assert !(rows[j].phone == added.phone && IsOther(rows[j], None));
      } else if j == |rows| {
        assert all[i] == rows[i];
        assert !(rows[i].phone == added.phone && IsOther(rows[i], None));
      } else {
        assert all[i] == rows[i] && all[j] == rows[j];
      }
    }
  }

  /** `validate_address`: fewer than five characters once stripped is too short. */
  function ValidateAddress(value: string): (r: Result<string, string>)
    ensures r.Ok? <==> |Strip(value)| >= 5
    ensures r.Ok? ==> r.value == value
    ensures r.Err? ==> r.error == AddressMessage
  {
    if |Strip(value)| < 5 then Err(AddressMessage) else Ok(value)
  }

  /** `update`: set every validated attribute on the instance; nothing else changes. */
  method Update(patient: Records.Instance, validated: map<string, Val>)
    modifies patient
    ensures patient.attrs == old(patient.attrs) + validated
    ensures forall k :: k in old(patient.attrs) && k !in validated ==> patient.attrs[k] == old(patient.attrs)[k]
    ensures forall k :: k in validated ==> patient.attrs[k] == validated[k]
  {
    patient.SetAttributes(validated);
  }
}
