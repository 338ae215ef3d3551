/** The procedure serializers: the duplicate check on category names, the filling of a
    procedure's missing fields from its linked definition on create and update, and the bulk
    attaching of teeth to a procedure. */
module Procedures {
  import opened Common
  import opened Text

  // ---------------------------------------------------------------------------
  // ProcedureCategorySerializer.validate_name

  const DuplicateCategoryMessage: string := "هذا التصنيف موجود بالفعل."

  /** Rejects a name whose stripped value equals an existing category name ignoring case;
      otherwise yields the stripped value. */
  function ValidateCategoryName(existing: seq<string>, value: string): (r: Result<string, string>)
    ensures r.Ok? <==> forall i :: 0 <= i < |existing| ==> !EqualsIgnoreCase(existing[i], Strip(value))
    ensures r.Ok? ==> r.value == Strip(value) && Trimmed(r.value)
    ensures r.Err? ==> r.error == DuplicateCategoryMessage
  {
    if exists i :: 0 <= i < |existing| && EqualsIgnoreCase(existing[i], Strip(value)) then
      Err(DuplicateCategoryMessage)
    else
      Ok(Strip(value))
  }

  /** No two category names are equal ignoring case. */
  predicate DistinctIgnoringCase(names: seq<string>) {
    forall i, j :: 0 <= i < |names| && 0 <= j < |names| && i != j ==> !EqualsIgnoreCase(names[i], names[j])
  }

  /** Storing only names the check accepted keeps the names distinct ignoring case. */
  lemma AcceptedNameKeepsDistinct(existing: seq<string>, value: string)
    requires DistinctIgnoringCase(existing)
    requires ValidateCategoryName(existing, value).Ok?
    ensures DistinctIgnoringCase(existing + [ValidateCategoryName(existing, value).value])
  {
    var names := existing + [Strip(value)];
    forall i, j | 0 <= i < |names| && 0 <= j < |names| && i != j
      ensures !EqualsIgnoreCase(names[i], names[j])
    {
      if i == |existing| {
        assert names[j] == existing[j];
      } else if j == |existing| {
        assert names[i] == existing[i];
      } else {
        assert names[i] == existing[i] && names[j] == existing[j];
      }
    }
  }

  /** Once a name is stored, the same name in any letter case or surrounding whitespace is refused. */
  lemma StoredNameIsRefused(existing: seq<string>, value: string, again: string)
    requires ValidateCategoryName(existing, value).Ok?
    requires EqualsIgnoreCase(Strip(again), Strip(value))
    ensures ValidateCategoryName(existing + [Strip(value)], again).Err?
  {
    var names := existing + [Strip(value)];
    assert EqualsIgnoreCase(names[|existing|], Strip(again));
  }

  // ---------------------------------------------------------------------------
  // ProcedureSerializer.create / update

  /** The linked `DentalProcedure` definition. */
  datatype Definition = Definition(
    pk: nat, name: string, description: Option<string>, defaultPrice: Val, categoryId: Option<nat>)

  datatype FillMode = ForCreate | ForUpdate

  /** `validated_data.get(key) in (None, "")`. */
  predicate NoneOrEmpty(vd: map<string, Val>, key: string) {
    key !in vd || vd[key] == Null || vd[key] == Str("")
  }

  /** `not validated_data.get("category")` (a category is a model instance, always truthy)
      and the definition's `category_id` is truthy. */
  predicate TakesCategory(vd: map<string, Val>, d: Definition) {
    ("category" !in vd || vd["category"] == Null) && d.categoryId.Some? && d.categoryId.value != 0
  }

  function DescriptionOf(d: Definition): Val {
    match d.description
    case Some(s) => Str(s)
    case None => Null
  }

  /** `create` keeps a supplied description, even an empty one; the live `update` (the
      second definition in the class) also replaces a None or empty one. */
  predicate TakesDescription(vd: map<string, Val>, mode: FillMode) {
    if mode == ForCreate then "description" !in vd else NoneOrEmpty(vd, "description")
  }

  /** The validated data after the definition has filled the gaps, key by key. */
  function Filled(vd: map<string, Val>, d: Definition, mode: FillMode): (out: map<string, Val>)
    ensures out.Keys == vd.Keys + {"name", "description", "cost"} + (if TakesCategory(vd, d) then {"category_id"} else {})
    ensures out["name"] == if "name" in vd then vd["name"] else Str(d.name)
    ensures out["description"] == if TakesDescription(vd, mode) then DescriptionOf(d) else vd["description"]
    ensures out["cost"] == if NoneOrEmpty(vd, "cost") then d.defaultPrice else vd["cost"]
    ensures TakesCategory(vd, d) ==> out["category_id"] == Int(d.categoryId.value)
    ensures forall k :: (k in vd && k !in {"name", "description", "cost"}
                         && !(k == "category_id" && TakesCategory(vd, d))) ==> out[k] == vd[k]
  {
    var named := if "name" in vd then vd else vd["name" := Str(d.name)];
    var described := if TakesDescription(named, mode) then named["description" := DescriptionOf(d)] else named;
    var priced := if NoneOrEmpty(described, "cost") then described["cost" := d.defaultPrice] else described;
    if TakesCategory(priced, d) then priced["category_id" := Int(d.categoryId.value)] else priced
  }

  /** The body of `create` and of the live `update` before they hand the data to the ORM:
      with a definition, `setdefault` the name (and, on create, the description), replace a
      missing or empty cost by the default price, and take the definition's category when
      none is given. Without a definition nothing changes. */
  method Prepare(vd: map<string, Val>, definition: Option<Definition>, mode: FillMode)
    returns (out: map<string, Val>)
    ensures definition.None? ==> out == vd
    ensures definition.Some? ==> out == Filled(vd, definition.value, mode)
  {
    out := vd;
    if definition.Some? {
      var d := definition.value;
      if "name" !in out {
        out := out["name" := Str(d.name)];
      }
      if mode == ForCreate {
        if "description" !in out {
          out := out["description" := DescriptionOf(d)];
        }
      } else if NoneOrEmpty(out, "description") {
        out := out["description" := DescriptionOf(d)];
      }
      if NoneOrEmpty(out, "cost") {
        out := out["cost" := d.defaultPrice];
      }
      if ("category" !in out || out["category"] == Null) && d.categoryId.Some? && d.categoryId.value != 0 {
        out := out["category_id" := Int(d.categoryId.value)];
      }
      assert out == Filled(vd, d, mode);
    }
  }

  /** Filling a second time from the same definition changes nothing more: the gaps are
      only ever filled from the definition, so a gap left after the first fill is filled
      with the same value again. */
  lemma FilledIdempotent(vd: map<string, Val>, d: Definition, mode: FillMode)
    ensures Filled(Filled(vd, d, mode), d, mode) == Filled(vd, d, mode)
  {
    var once := Filled(vd, d, mode);
    var twice := Filled(once, d, mode);
    assert twice.Keys == once.Keys;
    forall k | k in once ensures twice[k] == once[k] {
    }
  }

  /** A supplied empty description survives `create` but is replaced on `update`. */
  lemma EmptyDescriptionCreateVersusUpdate(vd: map<string, Val>, d: Definition)
    requires "description" in vd && vd["description"] == Str("")
    ensures Filled(vd, d, ForCreate)["description"] == Str("")
    ensures Filled(vd, d, ForUpdate)["description"] == DescriptionOf(d)
  {
  }

  // ---------------------------------------------------------------------------
  // ProcedureAttachTeethSerializer.create

  /** One validated item: the resolved tooth code and the optional performer and notes. */
  datatype AttachItem = AttachItem(toothcode: nat, performedBy: Supplied<Option<nat>>, notes: Supplied<string>)

  /** A `ProcedureToothcode` row. */
  datatype ToothLink = ToothLink(procedure: nat, toothcode: nat, performedBy: Option<nat>, notes: string)

  /** The link built for one item: no performer and empty notes unless given. */
  function LinkFor(procedure: nat, it: AttachItem): (l: ToothLink)
    ensures l.procedure == procedure && l.toothcode == it.toothcode
    ensures l.performedBy == if it.performedBy.Given? then it.performedBy.value else None
    ensures l.notes == if it.notes.Given? then it.notes.value else ""
  {
    ToothLink(procedure, it.toothcode, it.performedBy.GetOr(None), it.notes.GetOr(""))
  }

  /** Builds one link per item, in order, and bulk-inserts them after the existing links. */
  method AttachTeeth(links: seq<ToothLink>, procedure: nat, items: seq<AttachItem>)
    returns (created: seq<ToothLink>, links': seq<ToothLink>)
    ensures |created| == |items|
    ensures forall i :: 0 <= i < |items| ==> created[i] == LinkFor(procedure, items[i])
    ensures links' == links + created
  {
    var objs: seq<ToothLink> := [];
    for i := 0 to |items|
      invariant |objs| == i
      invariant forall j :: 0 <= j < i ==> objs[j] == LinkFor(procedure, items[j])
    {
      objs := objs + [LinkFor(procedure, items[i])];
    }
    created := objs;
    links' := links + objs;
  }
}
