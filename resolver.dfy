/** `FlexiblePKOrSlugRelatedField`: a foreign-key field that accepts a primary key (an
    integer or a digit string), a name (the "slug" column, matched case-insensitively), or a
    dict holding either, and resolves it against a table of `(pk, slug)` rows. */
module Resolver {
  import opened Common
  import opened Text

  /** A JSON value as it reaches the field. Arrays and nested objects are `VOther`, carried
      with the text Python's `str()` gives them and their truthiness. */
  datatype Value =
    | VNone
    | VInt(i: int)
    | VStr(s: string)
    | VOther(repr: string, truthy: bool)

  datatype Input = DictInput(entries: map<string, Value>) | Scalar(v: Value)

  /** The two columns of the target table the field looks at. */
  datatype Row = Row(pk: nat, slug: string)

  /** `Uncaught` is an exception the field does not catch (a TypeError from `int()`, or
      MultipleObjectsReturned from a primary-key lookup). */
  datatype ResolveError = NotFound | MultipleFound | MissingIdOrSlug | InvalidValueType | Uncaught

  /** What a queryset `.get(...)` finds. */
  datatype Lookup = Zero | One(pk: nat) | Many

  function Get(hits: seq<Row>): (r: Lookup)
    ensures r == Zero <==> hits == []
    ensures r.One? <==> |hits| == 1
    ensures r.One? ==> r.pk == hits[0].pk
  {
    if |hits| == 0 then Zero else if |hits| == 1 then One(hits[0].pk) else Many
  }

  predicate HasPk(r: Row, k: int) {
    r.pk == k
  }

  predicate HasSlug(r: Row, key: string) {
    EqualsIgnoreCase(r.slug, key)
  }

  /** The rows `.get(pk=k)` looks at. */
  function PkRows(rows: seq<Row>, k: int): seq<Row> {
    Filter(rows, (r: Row) => HasPk(r, k))
  }

  /** The rows `.get(<slug>__iexact=key)` looks at. */
  function SlugRows(rows: seq<Row>, key: string): seq<Row> {
    Filter(rows, (r: Row) => HasSlug(r, key))
  }

  /** `_get_by_slug`: the value is turned into text and stripped before the lookup. Nothing
      is found exactly when no row's slug equals the stripped text ignoring case, and a
      single hit is such a row. */
  function BySlug(rows: seq<Row>, text: string): (r: Lookup)
    ensures r == Zero <==> forall i :: 0 <= i < |rows| ==> !HasSlug(rows[i], Strip(text))
    ensures r.One? ==> exists i :: 0 <= i < |rows| && rows[i].pk == r.pk && HasSlug(rows[i], Strip(text))
  {
    var hits := SlugRows(rows, Strip(text));
    assert |hits| == 1 ==> hits[0] in rows;
    Get(hits)
  }

  /** `.get(pk=k)`: nothing is found exactly when no row has key `k`; a single hit is the
      row with that key. */
  function ByPk(rows: seq<Row>, k: int): (r: Lookup)
    ensures r == Zero <==> forall i :: 0 <= i < |rows| ==> rows[i].pk != k
    ensures r.One? ==> r.pk == k && exists i :: 0 <= i < |rows| && rows[i].pk == k
  {
    var hits := PkRows(rows, k);
    assert |hits| == 1 ==> hits[0] in rows && HasPk(hits[0], k);
    assert forall i :: 0 <= i < |rows| && rows[i].pk == k ==> HasPk(rows[i], k);
    Get(hits)
  }

  /** Python's `str(value)`: a string is itself, and an integer's text reads back as it. */
  function StrOf(v: Value): (r: string)
    ensures v.VStr? ==> r == v.s
    ensures v.VInt? ==> PyInt(r) == Some(v.i)
    ensures v.VNone? ==> r == "None"
  {
    match v
    case VNone => "None"
    case VInt(i) => IntToStringRoundTrip(i); IntToString(i)
    case VStr(s) => s
    case VOther(repr, _) => repr
  }

  /** Python's truthiness of a value. */
  predicate Truthy(v: Value) {
    match v
    case VNone => false
    case VInt(i) => i != 0
    case VStr(s) => s != ""
    case VOther(_, t) => t
  }

  datatype IntOutcome = IntOk(n: int) | ValueError | TypeError

  /** Python's `int(value)`: an integer is itself, a string is parsed and None or any other
      non-string value is a TypeError. */
  function IntOf(v: Value): (r: IntOutcome)
    ensures v.VInt? ==> r == IntOk(v.i)
    ensures r.TypeError? <==> v.VNone? || v.VOther?
    ensures v.VStr? ==> (r.IntOk? <==> PyInt(v.s).Some?) && (r.IntOk? ==> r.n == PyInt(v.s).value)
  {
    match v
    case VInt(i) => IntOk(i)
    case VStr(s) => (match PyInt(s) { case Some(n) => IntOk(n) case None => ValueError })
    case VNone => TypeError
    case VOther(_, _) => TypeError
  }

  /** A slug lookup as its callers report it. */
  function SlugOutcome(l: Lookup): Result<nat, ResolveError> {
    match l
    case One(pk) => Ok(pk)
    case Zero => Err(NotFound)
    case Many => Err(MultipleFound)
  }

  /** A primary-key lookup: MultipleObjectsReturned is never caught there. */
  function PkOutcome(l: Lookup): Result<nat, ResolveError> {
    match l
    case One(pk) => Ok(pk)
    case Zero => Err(NotFound)
    case Many => Err(Uncaught)
  }

  /** The integer-or-text branch, on the stripped text `s`. A resolved key names a row; "not
      found" means that no row matches the text by slug nor, for digits, by key. */
  function ResolveText(rows: seq<Row>, preferSlug: bool, s: string): (r: Result<nat, ResolveError>)
    ensures r.Ok? ==> exists i :: 0 <= i < |rows| && rows[i].pk == r.value
    ensures r == Err(NotFound) ==> forall i :: 0 <= i < |rows| ==> !HasSlug(rows[i], Strip(s))
    ensures r == Err(NotFound) && IsDigits(s) ==> forall i :: 0 <= i < |rows| ==> rows[i].pk != DigitsValue(s)
    ensures r != Err(InvalidValueType) && r != Err(MissingIdOrSlug)
  {
    if IsDigits(s) && preferSlug then
      match BySlug(rows, s)
      case One(pk) => Ok(pk)
      case Many => Err(MultipleFound)
      case Zero => PkOutcome(ByPk(rows, DigitsValue(s)))
    else if IsDigits(s) then
      match ByPk(rows, DigitsValue(s))
      case One(pk) => Ok(pk)
      case Many => Err(Uncaught)
      case Zero => SlugOutcome(BySlug(rows, s))
    else
      SlugOutcome(BySlug(rows, s))
  }

  /** The dict branch of `to_internal_value`: a non-empty 'id' first, then a truthy slug
      entry. A resolved key names a row, and only a dict with neither is refused as missing. */
  function ResolveDict(rows: seq<Row>, slugField: string, m: map<string, Value>): (r: Result<nat, ResolveError>)
    ensures r.Ok? ==> exists i :: 0 <= i < |rows| && rows[i].pk == r.value
    ensures r == Err(MissingIdOrSlug) <==>
              !("id" in m && m["id"] != VNone && m["id"] != VStr("")) && !(slugField in m && Truthy(m[slugField]))
    ensures r != Err(InvalidValueType)
  {
    if "id" in m && m["id"] != VNone && m["id"] != VStr("") then
      match IntOf(m["id"])
      case IntOk(k) => PkOutcome(ByPk(rows, k))
      case ValueError => Err(NotFound)
      case TypeError => Err(Uncaught)
    else if slugField in m && Truthy(m[slugField]) then
      SlugOutcome(BySlug(rows, StrOf(m[slugField])))
    else
      Err(MissingIdOrSlug)
  }

  /** The scalar branch of `to_internal_value`: an integer or a non-blank string. A resolved
      key names a row, and every other value is refused as an invalid type. */
  function ResolveScalar(rows: seq<Row>, preferSlug: bool, v: Value): (r: Result<nat, ResolveError>)
    ensures r.Ok? ==> exists i :: 0 <= i < |rows| && rows[i].pk == r.value
    ensures r == Err(InvalidValueType) <==> !(v.VInt? || (v.VStr? && Strip(v.s) != ""))
    ensures r != Err(MissingIdOrSlug)
  {
    if v.VInt? || (v.VStr? && Strip(v.s) != "") then
      ResolveText(rows, preferSlug, Strip(StrOf(v)))
    else
      Err(InvalidValueType)
  }

  /** `to_internal_value`: whatever the input and the preference, a resolved key names a row
      of the table; a missing id or slug is a dict's error and an invalid type a scalar's. */
  function ToInternalValue(rows: seq<Row>, slugField: string, preferSlug: bool, data: Input)
    : (r: Result<nat, ResolveError>)
    ensures r.Ok? ==> exists i :: 0 <= i < |rows| && rows[i].pk == r.value
    ensures r == Err(MissingIdOrSlug) ==> data.DictInput?
    ensures r == Err(InvalidValueType) ==> data.Scalar?
  {
    match data
    case DictInput(m) => ResolveDict(rows, slugField, m)
    case Scalar(v) => ResolveScalar(rows, preferSlug, v)
  }

  /** `to_representation`: the primary key, or None for None. */
  function ToRepresentation(value: Option<Row>): (r: Option<nat>)
    ensures r.Some? <==> value.Some?
    ensures r.Some? ==> r.value == value.value.pk
  {
    match value
    case Some(row) => Some(row.pk)
    case None => None
  }

  predicate UniquePks(rows: seq<Row>) {
    forall i, j :: 0 <= i < |rows| && 0 <= j < |rows| && i != j ==> rows[i].pk != rows[j].pk
  }

  // ---------------------------------------------------------------------------
  // Properties

  /** A scalar string that is not blank goes to the integer-or-text branch, stripped. */
  lemma ScalarText(rows: seq<Row>, slugField: string, preferSlug: bool, s: string)
    requires Strip(s) != ""
    ensures ToInternalValue(rows, slugField, preferSlug, Scalar(VStr(s))) == ResolveText(rows, preferSlug, Strip(s))
    ensures BySlug(rows, Strip(s)) == Get(SlugRows(rows, Strip(s)))
  {
    StripIdempotent(s);
    assert StrOf(VStr(s)) == s;
    assert ToInternalValue(rows, slugField, preferSlug, Scalar(VStr(s))) == ResolveScalar(rows, preferSlug, VStr(s));
  }

  /** A non-blank, non-digit string resolves by its stripped value against the slug column
      alone: one match resolves, none is "not found", several are "multiple found". */
  lemma TextResolvesBySlugOnly(rows: seq<Row>, slugField: string, preferSlug: bool, s: string)
    requires Strip(s) != "" && !IsDigits(Strip(s))
    ensures var r := ToInternalValue(rows, slugField, preferSlug, Scalar(VStr(s)));
            var hits := SlugRows(rows, Strip(s));
            && (r.Ok? <==> |hits| == 1)
            && (r.Ok? ==> r.value == hits[0].pk && hits[0] in rows && EqualsIgnoreCase(hits[0].slug, Strip(s)))
            && (r == Err(NotFound) <==> hits == [])
            && (r == Err(MultipleFound) <==> |hits| > 1)
  {
    ScalarText(rows, slugField, preferSlug, s);
  }

  /** With `prefer_slug=False` a digit string is a primary key first; the slug column is
      consulted only when no row has that key. */
  lemma DigitsPreferPk(rows: seq<Row>, slugField: string, s: string)
    requires IsDigits(Strip(s))
    ensures var r := ToInternalValue(rows, slugField, false, Scalar(VStr(s)));
            var key := DigitsValue(Strip(s));
            && (|PkRows(rows, key)| == 1 ==> r == Ok(PkRows(rows, key)[0].pk))
            && (PkRows(rows, key) == [] ==> r == SlugOutcome(Get(SlugRows(rows, Strip(s)))))
  {
    ScalarText(rows, slugField, false, s);
    var key := DigitsValue(Strip(s));
    assert ByPk(rows, key) == Get(PkRows(rows, key));
    if PkRows(rows, key) == [] {
      assert ResolveText(rows, false, Strip(s)) == SlugOutcome(BySlug(rows, Strip(s)));
    }
  }

  /** With `prefer_slug=True` a digit string is a slug first: several slug matches are an
      error with no fallback, and only when no slug matches is the primary key tried. */
  lemma DigitsPreferSlug(rows: seq<Row>, slugField: string, s: string)
    requires IsDigits(Strip(s))
    ensures var r := ToInternalValue(rows, slugField, true, Scalar(VStr(s)));
            var hits := SlugRows(rows, Strip(s));
            && (|hits| > 1 ==> r == Err(MultipleFound))
            && (|hits| == 1 ==> r == Ok(hits[0].pk))
            && (hits == [] ==> r == PkOutcome(ByPk(rows, DigitsValue(Strip(s)))))
  {
    ScalarText(rows, slugField, true, s);
  }

  /** In a dict, a non-empty 'id' is used and whatever the slug key holds is ignored. */
  lemma DictIdTakesPrecedence(rows: seq<Row>, slugField: string, preferSlug: bool,
                              m: map<string, Value>, v: Value)
    requires "id" in m && m["id"] != VNone && m["id"] != VStr("") && slugField != "id"
    ensures ToInternalValue(rows, slugField, preferSlug, DictInput(m))
         == ToInternalValue(rows, slugField, preferSlug, DictInput(m[slugField := v]))
  {
  }

  /** A dict with a usable 'id' resolves by primary key: an `int()` of it selects the row with
      that key, not-found when none has it, an uncaught error when several do; an id `int()`
      cannot read is not-found, and one of the wrong type an uncaught TypeError. */
  lemma DictIdResolves(rows: seq<Row>, slugField: string, preferSlug: bool, m: map<string, Value>)
    requires "id" in m && m["id"] != VNone && m["id"] != VStr("")
    ensures var r := ToInternalValue(rows, slugField, preferSlug, DictInput(m));
            match IntOf(m["id"])
            case IntOk(n) =>
              var hits := PkRows(rows, n);
              && (|hits| == 1 ==> r == Ok(n) && hits[0] in rows && hits[0].pk == n)
              && (hits == [] ==> r == Err(NotFound))
              && (|hits| > 1 ==> r == Err(Uncaught))
            case ValueError => r == Err(NotFound)
            case TypeError => r == Err(Uncaught)
  {
    assert ToInternalValue(rows, slugField, preferSlug, DictInput(m)) == ResolveDict(rows, slugField, m);
    match IntOf(m["id"])
    case IntOk(n) =>
      assert ByPk(rows, n) == Get(PkRows(rows, n));
    case ValueError =>
    case TypeError =>
  }

  /** A dict without a usable 'id' but with a truthy slug entry resolves by the stripped
      text of that entry against the slug column: one match resolves to it, none is
      not-found, several are multiple-found. */
  lemma DictSlugResolves(rows: seq<Row>, slugField: string, preferSlug: bool, m: map<string, Value>)
    requires "id" !in m || m["id"] == VNone || m["id"] == VStr("")
    requires slugField in m && Truthy(m[slugField])
    ensures var r := ToInternalValue(rows, slugField, preferSlug, DictInput(m));
            var hits := SlugRows(rows, Strip(StrOf(m[slugField])));
            && (r.Ok? <==> |hits| == 1)
            && (r.Ok? ==> r.value == hits[0].pk && hits[0] in rows
                          && EqualsIgnoreCase(hits[0].slug, Strip(StrOf(m[slugField]))))
            && (r == Err(NotFound) <==> hits == [])
            && (r == Err(MultipleFound) <==> |hits| > 1)
  {
    assert ToInternalValue(rows, slugField, preferSlug, DictInput(m)) == ResolveDict(rows, slugField, m);
    assert ResolveDict(rows, slugField, m) == SlugOutcome(BySlug(rows, StrOf(m[slugField])));
    assert BySlug(rows, StrOf(m[slugField])) == Get(SlugRows(rows, Strip(StrOf(m[slugField]))));
  }

  /** An integer scalar resolves exactly as its decimal text does, so the digit-string laws
      carry over to integers. */
  lemma IntScalarIsItsText(rows: seq<Row>, slugField: string, preferSlug: bool, i: int)
    ensures ToInternalValue(rows, slugField, preferSlug, Scalar(VInt(i)))
         == ToInternalValue(rows, slugField, preferSlug, Scalar(VStr(IntToString(i))))
  {
    var t := IntToString(i);
    IntTextIsStripped(i);
    assert StrOf(VInt(i)) == t && StrOf(VStr(t)) == t;
    assert ToInternalValue(rows, slugField, preferSlug, Scalar(VInt(i))) == ResolveScalar(rows, preferSlug, VInt(i));
    assert ToInternalValue(rows, slugField, preferSlug, Scalar(VStr(t))) == ResolveScalar(rows, preferSlug, VStr(t));
  }

  lemma IntTextIsStripped(i: int)
    ensures IntToString(i) != "" && Strip(IntToString(i)) == IntToString(i)
  {
    var t := IntToString(i);
    assert !IsSpace(t[0]) && !IsSpace(t[|t| - 1]);
    StripTrimmed(t);
  }

  /** A dict with neither a usable 'id' nor a truthy slug key is rejected. */
  lemma DictWithoutKeysRejected(rows: seq<Row>, slugField: string, preferSlug: bool, m: map<string, Value>)
    requires "id" !in m || m["id"] == VNone || m["id"] == VStr("")
    requires slugField !in m || !Truthy(m[slugField])
    ensures ToInternalValue(rows, slugField, preferSlug, DictInput(m)) == Err(MissingIdOrSlug)
  {
  }

  /** Blank strings, None and any other non-dict value are rejected as an invalid type. */
  lemma InvalidScalarsRejected(rows: seq<Row>, slugField: string, preferSlug: bool, v: Value)
    requires v.VNone? || v.VOther? || (v.VStr? && Strip(v.s) == "")
    ensures ToInternalValue(rows, slugField, preferSlug, Scalar(v)) == Err(InvalidValueType)
  {
  }

  /** With unique keys, the rows `.get(pk=...)` sees for a stored row's key are that row alone. */
  lemma {:induction false} PkRowsOfStoredRow(rows: seq<Row>, row: Row)
    requires UniquePks(rows) && row in rows
    ensures PkRows(rows, row.pk) == [row]
  {
    var i :| 0 <= i < |rows| && rows[i] == row;
    assert rows == rows[..i] + [row] + rows[i + 1..];
    FilterConcat(rows[..i] + [row], rows[i + 1..], (r: Row) => HasPk(r, row.pk));
    FilterConcat(rows[..i], [row], (r: Row) => HasPk(r, row.pk));
    FilterDropsAll(rows[..i], (r: Row) => HasPk(r, row.pk));
    FilterDropsAll(rows[i + 1..], (r: Row) => HasPk(r, row.pk));
    assert Filter([row], (r: Row) => HasPk(r, row.pk)) == [row];
  }

  /** With `prefer_slug=False`, the representation of a stored row (its key) resolves back
      to that row, both as a bare integer and as `{"id": key}`. */
  lemma RepresentationRoundTrip(rows: seq<Row>, slugField: string, row: Row)
    requires UniquePks(rows) && row in rows
    ensures ToInternalValue(rows, slugField, false, Scalar(VInt(ToRepresentation(Some(row)).value))) == Ok(row.pk)
    ensures forall preferSlug: bool ::
      ToInternalValue(rows, slugField, preferSlug, DictInput(map["id" := VInt(row.pk)])) == Ok(row.pk)
  {
    PkRowsOfStoredRow(rows, row);
    StoredKeyTextResolves(rows, row);
    IntTextIsStripped(row.pk);
    assert StrOf(VInt(row.pk)) == NatToString(row.pk);
    assert ResolveScalar(rows, false, VInt(row.pk)) == Ok(row.pk);
    StoredKeyDictResolves(rows, slugField, row);
  }

  lemma StoredKeyTextResolves(rows: seq<Row>, row: Row)
    requires PkRows(rows, row.pk) == [row]
    ensures ResolveText(rows, false, NatToString(row.pk)) == Ok(row.pk)
  {
    DigitsValueOfNatToString(row.pk);
    assert ByPk(rows, DigitsValue(NatToString(row.pk))) == One(row.pk);
  }

  lemma StoredKeyDictResolves(rows: seq<Row>, slugField: string, row: Row)
    requires PkRows(rows, row.pk) == [row]
    ensures ResolveDict(rows, slugField, map["id" := VInt(row.pk)]) == Ok(row.pk)
  {
    var m := map["id" := VInt(row.pk)];
    assert m["id"] == VInt(row.pk);
    assert ByPk(rows, row.pk) == One(row.pk);
  }

  /** With `prefer_slug=True` the round trip fails whenever a stored row's key is, ignoring
      case, the slug of exactly one other row: the representation resolves to that other row. */
  lemma PreferSlugShadowsKeys(rows: seq<Row>, slugField: string, row: Row, other: Row)
    requires UniquePks(rows) && row in rows && other != row
    requires SlugRows(rows, NatToString(row.pk)) == [other]
    ensures ToInternalValue(rows, slugField, true, Scalar(VInt(ToRepresentation(Some(row)).value))) == Ok(other.pk)
    ensures other.pk != row.pk
  {
    var t := NatToString(row.pk);
    assert IntToString(row.pk) == t;
    IntScalarIsItsText(rows, slugField, true, row.pk);
    PyIntOfDigits(t);
    DigitsPreferSlug(rows, slugField, t);
    assert other in rows;
    var i :| 0 <= i < |rows| && rows[i] == row;
    var j :| 0 <= j < |rows| && rows[j] == other;
  }

  /** The hypotheses of `PreferSlugShadowsKeys` are met by a two-row table in which row 2's
      key is row 1's slug. */
  lemma PreferSlugShadowsKeysExample()
    ensures ToInternalValue([Row(1, "2"), Row(2, "x")], "tooth_number", true, Scalar(VInt(2))) == Ok(1)
  {
    var rows := [Row(1, "2"), Row(2, "x")];
    assert NatToString(2) == "2";
    PyIntOfDigits("2");
    assert HasSlug(rows[0], "2") && !HasSlug(rows[1], "2");
    assert SlugRows(rows, "2") == [Row(1, "2")];
  }
}
