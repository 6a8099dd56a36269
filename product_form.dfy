/** The product form of frontend/src/components/ProductFormDialog.jsx: the
    `form` state cell with its initial values and the three change handlers,
    the payload `handleSubmit` builds from it, and the `isEdit` test. */
module ProductForm {
  import opened JsValues
  import opened Normalize

  type Form = map<string, JsValue>

  const FormKeys: set<string> := ProductKeys

  /** The form state seeded from `initial`: a missing or null field takes its
      default ('' for text fields, 0 for the rating, true for `available`).
      `initial` defaults to `{}` when undefined; reading a field of null
      throws. */
  function InitialForm(initial: JsValue): (f: Form)
    requires !initial.Null?
    ensures f.Keys == FormKeys
    ensures forall k :: k in FormKeys && !IsNullish(Get(initial, k)) ==> f[k] == Get(initial, k)
    ensures forall k :: k in FormKeys - {"rating", "available"} && IsNullish(Get(initial, k)) ==> f[k] == Str("")
    ensures IsNullish(Get(initial, "rating")) ==> f["rating"] == Num(Finite(0.0))
    ensures IsNullish(Get(initial, "available")) ==> f["available"] == Bool(true)
  {
    map[
      "_id" := Coalesce(Get(initial, "_id"), Str("")),
      "name" := Coalesce(Get(initial, "name"), Str("")),
      "type" := Coalesce(Get(initial, "type"), Str("")),
      "price" := Coalesce(Get(initial, "price"), Str("")),
      "rating" := Coalesce(Get(initial, "rating"), Num(Finite(0.0))),
      "warranty_years" := Coalesce(Get(initial, "warranty_years"), Str("")),
      "available" := Coalesce(Get(initial, "available"), Bool(true))]
  }

  /** The conditional `payload._id = Number(form._id)`. */
  predicate ConvertsId(form: Form, showId: bool) {
    showId && Get(Object(form), "_id") != Str("")
  }

  /** `handleSubmit`'s payload: the form spread, with price and warranty
      converted unless empty, the rating always converted, and `_id` made a
      number when the id field is shown and filled in. */
  function Payload(form: Form, showId: bool): (p: map<string, JsValue>)
    ensures p.Keys == form.Keys + {"price", "rating", "warranty_years"} + (if ConvertsId(form, showId) then {"_id"} else {})
    ensures forall k :: k in form && k !in {"_id", "price", "rating", "warranty_years"} ==> p[k] == form[k]
    ensures Get(Object(form), "price") == Str("") ==> p["price"] == Str("")
    ensures Get(Object(form), "price") != Str("") ==> p["price"] == Num(ToNumber(Get(Object(form), "price")))
    ensures p["rating"] == Num(ToNumber(Get(Object(form), "rating")))
    ensures Get(Object(form), "warranty_years") == Str("") ==> p["warranty_years"] == Str("")
    ensures Get(Object(form), "warranty_years") != Str("") ==>
      p["warranty_years"] == Num(ParseInt(Get(Object(form), "warranty_years")))
    ensures ConvertsId(form, showId) ==> p["_id"] == Num(ToNumber(Get(Object(form), "_id")))
    ensures !ConvertsId(form, showId) ==> Get(Object(p), "_id") == Get(Object(form), "_id")
  {
    var f := Object(form);
    var price := Get(f, "price");
    var warranty := Get(f, "warranty_years");
    var converted := form + map[
      "price" := if price == Str("") then Str("") else Num(ToNumber(price)),
      "rating" := Num(ToNumber(Get(f, "rating"))),
      "warranty_years" := if warranty == Str("") then Str("") else Num(ParseInt(warranty))];
    if ConvertsId(form, showId) then converted["_id" := Num(ToNumber(Get(f, "_id")))] else converted
  }

  /** `Boolean(initial && Object.keys(initial).length)`: a string's keys are
      its indices, other primitives have none. */
  predicate IsEdit(initial: JsValue) {
    match initial
    case Object(fields) => |fields| > 0
    case Str(s) => s != ""
    case _ => false
  }

  /** The page passes `editing || {}`: the dialog is in edit mode exactly when
      the page is editing a record. */
  lemma IsEditFollowsPage(editing: JsValue)
    requires editing.Object? ==> |editing.fields| > 0
    requires editing.Object? || IsNullish(editing)
    ensures IsEdit(if Truthy(editing) then editing else Object(map[])) <==> Truthy(editing)
  {
  }

  /** Submitting an untouched edit form: the payload normalises back to the
      record being edited, for a record with an id and a whole-number warranty
      that `String` writes without an exponent. */
  lemma UnchangedEditRoundTrip(n: Product)
    requires WellFormed(n) && n.id.Some?
    requires n.warrantyYears.Num? && n.warrantyYears.n.Finite?
    requires n.warrantyYears.n.value == n.warrantyYears.n.value.Floor as real
    requires -ExponentFormFrom < n.warrantyYears.n.value < ExponentFormFrom
    ensures NormalizeProduct(Object(Payload(InitialForm(ToValue(n)), false))) == n
  {
    var v := Object(Payload(InitialForm(ToValue(n)), false));
    UntouchedPayloadFields(n);
    NormalizeRoundTrip(n);
    assert NormalizeProduct(v) == NormalizeProduct(ToValue(n)) by {
      assert Get(v, "_id") == Get(ToValue(n), "_id");
      assert Get(v, "name") == Get(ToValue(n), "name");
      assert Get(v, "type") == Get(ToValue(n), "type");
      assert Get(v, "price") == Get(ToValue(n), "price");
      assert Get(v, "rating") == Get(ToValue(n), "rating");
      assert Get(v, "warranty_years") == Get(ToValue(n), "warranty_years");
      assert Get(v, "available") == Get(ToValue(n), "available");
    }
  }

  /** The untouched edit form sends every field of the record as it was. */
  lemma UntouchedPayloadFields(n: Product)
    requires WellFormed(n) && n.id.Some?
    requires n.warrantyYears.Num? && n.warrantyYears.n.Finite?
    requires n.warrantyYears.n.value == n.warrantyYears.n.value.Floor as real
    requires -ExponentFormFrom < n.warrantyYears.n.value < ExponentFormFrom
    ensures forall key :: key in ProductKeys ==>
      Get(Object(Payload(InitialForm(ToValue(n)), false)), key) == Get(ToValue(n), key)
  {
    ParseIntWholeNumber(n.warrantyYears.n.value.Floor);
    var p := Payload(InitialForm(ToValue(n)), false);
    assert p["warranty_years"] == n.warrantyYears;
  }

  /** The warranty the payload holds is a whole number or NaN. JSON writes a
      NaN as null, so the server receives no warranty; a whole number arrives
      as it is and is already what the server's `parseInt(value, 10)` makes
      of it exactly when it is below 10^21 in magnitude (a larger one is
      re-parsed from its exponent form to a single digit). */
  lemma PayloadWarrantyIsParsed(form: Form, showId: bool)
    requires Get(Object(form), "warranty_years") != Str("")
    ensures var w := Payload(form, showId)["warranty_years"];
      && w.Num? && (w.n.NaN? || w.n.Finite?)
      && (w.n.NaN? ==> OnWire(w) == Null)
      && (w.n.Finite? ==>
            OnWire(w) == w && (ParseInt(w) == w.n <==> -ExponentFormFrom < w.n.value < ExponentFormFrom))
      && (ParseInt(w) == w.n <==> w.n.NaN? || -ExponentFormFrom < w.n.value < ExponentFormFrom)
  {
    ParseIntIdempotent(Get(Object(form), "warranty_years"));
  }

  /** The state cell of the dialog. */
  class ProductFormDialog {
    var form: Form

    ghost predicate Valid()
      reads this
    {
      FormKeys <= form.Keys
    }

    /** `useState({...})` with the defaults applied to `initial`. */
    constructor (initial: JsValue)
      requires !initial.Null?
      ensures Valid() && form == InitialForm(initial)
    {
      form := InitialForm(initial);
    }

    /** The effect run when `initial` or `open` changes: the same defaults. */
    method Reset(initial: JsValue)
      requires !initial.Null?
      modifies this
      ensures Valid() && form == InitialForm(initial)
    {
      form := InitialForm(initial);
    }

    /** `handleChange`: sets the field named by the input, nothing else. */
    method HandleChange(name: string, value: JsValue)
      requires Valid()
      modifies this
      ensures Valid() && form == old(form)[name := value]
      ensures forall k :: k in old(form) && k != name ==> form[k] == old(form)[k]
    {
      form := form[name := value];
    }

    /** `handleSwitch`: sets only `available` to the switch position. */
    method HandleSwitch(checked: bool)
      requires Valid()
      modifies this
      ensures Valid() && form == old(form)["available" := Bool(checked)]
      ensures form.Keys == old(form.Keys)
    {
      form := form["available" := Bool(checked)];
    }

    /** `handleRating`: sets only `rating`; a cleared rating (null) is 0. */
    method HandleRating(value: JsValue)
      requires Valid()
      modifies this
      ensures Valid() && form == old(form)["rating" := Coalesce(value, Num(Finite(0.0)))]
      ensures form.Keys == old(form.Keys) && !IsNullish(form["rating"])
    {
      form := form["rating" := Coalesce(value, Num(Finite(0.0)))];
    }

    /** `handleSubmit`: the payload handed to `onSubmit`. */
    method Submit(showId: bool) returns (payload: map<string, JsValue>)
      requires Valid()
      ensures payload == Payload(form, showId)
      ensures FormKeys <= payload.Keys
    {
      payload := Payload(form, showId);
    }
  }
}
