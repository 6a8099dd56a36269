/** The row list of frontend/src/pages/ProductsPage.jsx and the handlers that
    change it: the initial fetch, the three push-event handlers, form
    submission and confirmed deletion. The page keeps its own `rows` state
    next to the Redux slice and reconciles it with `replaceById` and two
    different deletion filters.

    Each React state cell is a field of `Page`; every `setRows` argument is a
    list function below. The HTTP reply each handler awaits is a parameter. */
module ProductsPage {
  import opened Wrappers
  import opened JsValues
  import opened Normalize
  import opened ProductsSlice

  /** A row as the page keeps it: the object form of a normalised record, so
      normalising it again gives it back unchanged. */
  predicate IsNormalRow(x: JsValue) {
    x.Object? && ToValue(NormalizeProduct(x)) == x
  }

  predicate NormalRows(rows: seq<JsValue>) {
    forall i :: 0 <= i < |rows| ==> IsNormalRow(rows[i])
  }

  lemma ToValueIsNormalRow(n: Product)
    requires WellFormed(n)
    ensures IsNormalRow(ToValue(n))
  {
    NormalizeRoundTrip(n);
  }

  /** The message of the TypeError raised by reading `_id` of null or
      undefined. */
  function ReadIdError(v: JsValue): (m: string)
    requires IsNullish(v)
    ensures v.Null? ==> m == NullRecordMessage
  {
    "Cannot read properties of " + (if v.Null? then "null" else "undefined") + " (reading '_id')"
  }

  /** The notice shown after a successful delete. */
  const DeletedMessage := "Produit supprimé"

  // ------------------------------------------------------------ row lists

  /** `data.filter(Boolean).map(normalizeProduct)` */
  function FetchedRows(items: seq<JsValue>): seq<JsValue> {
    var kept := Compact(items);
    seq(|kept|, i requires 0 <= i < |kept| => ToValue(NormalizeProduct(kept[i])))
  }

  /** Fetched rows are normal, one per truthy item, in order, and each is the
      normalised form of its item. */
  lemma FetchedRowsSpec(items: seq<JsValue>)
    ensures NormalRows(FetchedRows(items))
    ensures |FetchedRows(items)| == |Compact(items)|
    ensures forall i :: 0 <= i < |FetchedRows(items)| ==>
      NormalizeProduct(FetchedRows(items)[i]) == NormalizeProduct(Compact(items)[i])
  {
    var r := FetchedRows(items);
    forall i | 0 <= i < |r|
      ensures IsNormalRow(r[i]) && NormalizeProduct(r[i]) == NormalizeProduct(Compact(items)[i])
    {
      NormalizeRoundTrip(NormalizeProduct(Compact(items)[i]));
    }
  }

  /** The page and the slice read the same fetch reply alike when no item is
      falsy: the rows are the object forms of the slice's records. A null item
      makes the slice reject the whole fetch, while the page only drops it. */
  lemma FetchedRowsAgreeWithSlice(items: seq<JsValue>)
    ensures (forall i :: 0 <= i < |items| ==> Truthy(items[i])) ==>
      var s := FetchAllThunk(Reply(JsonArray(items)));
      s.Success? && FetchedRows(items) == seq(|s.value|, i requires 0 <= i < |s.value| => ToValue(s.value[i]))
    ensures (exists i :: 0 <= i < |items| && items[i].Null?) ==>
      FetchAllThunk(Reply(JsonArray(items))).Failure?
  {
    if forall i :: 0 <= i < |items| ==> Truthy(items[i]) {
      TruthyRowsAgreeWithSlice(items);
    }
  }

  lemma TruthyRowsAgreeWithSlice(items: seq<JsValue>)
    requires forall i :: 0 <= i < |items| ==> Truthy(items[i])
    ensures var s := FetchAllThunk(Reply(JsonArray(items)));
      s.Success? && FetchedRows(items) == seq(|s.value|, i requires 0 <= i < |s.value| => ToValue(s.value[i]))
  {
    FilterAllPass(items, Truthy);
    assert Compact(items) == items;
    assert !exists i :: 0 <= i < |items| && items[i].Null? by {
      forall i | 0 <= i < |items| ensures !items[i].Null? {
        assert Truthy(items[i]);
      }
    }
    var s := FetchAllThunk(Reply(JsonArray(items)));
    assert s.value == seq(|items|, i requires 0 <= i < |items| => NormalizeProduct(items[i]));
  }

  /** The `onDeleted` filter: `x && Number(x._id) !== id`. */
  function DeletedRows(rows: seq<JsValue>, id: JsNumber): (r: seq<JsValue>)
    ensures forall i :: 0 <= i < |r| ==> Truthy(r[i]) && !Matches(r[i], id) && r[i] in rows
    ensures forall i :: 0 <= i < |rows| && Truthy(rows[i]) && !Matches(rows[i], id) ==> rows[i] in r
  {
    Filter(rows, x => Truthy(x) && !NumEq(IdOf(x), id))
  }

  /** The `confirmDelete` filter: `x && x._id !== p._id`, strict equality with
      no numeric coercion. */
  function ConfirmedRows(rows: seq<JsValue>, pid: JsValue): (r: seq<JsValue>)
    ensures forall i :: 0 <= i < |r| ==> Truthy(r[i]) && !StrictEq(Get(r[i], "_id"), pid) && r[i] in rows
    ensures forall i :: 0 <= i < |rows| && Truthy(rows[i]) && !StrictEq(Get(rows[i], "_id"), pid) ==> rows[i] in r
  {
    Filter(rows, x => Truthy(x) && !StrictEq(Get(x, "_id"), pid))
  }

  /** Every row's `_id` is a number or absent, as in normalised rows. */
  predicate RowIdsAreNumbers(rows: seq<JsValue>) {
    forall i :: 0 <= i < |rows| ==> Get(rows[i], "_id").Undefined? || Get(rows[i], "_id").Num?
  }

  /** On rows whose ids are numbers, the two deletion rules agree for a finite
      id: removing by `Number(_id) !== id` and by `_id !== p._id` leave the
      same rows. */
  lemma DeleteRulesAgree(rows: seq<JsValue>, k: real)
    requires RowIdsAreNumbers(rows)
    ensures DeletedRows(rows, Finite(k)) == ConfirmedRows(rows, Num(Finite(k)))
  {
    var id := Finite(k);
    FilterCongruent(rows, x => Truthy(x) && !NumEq(IdOf(x), id), x => Truthy(x) && !StrictEq(Get(x, "_id"), Num(id)));
  }

  /** The rules differ once a row holds its id as a string: the push handler
      removes a row whose `_id` is "7" for id 7, the confirmed delete of a
      product with `_id` 7 keeps it. */
  lemma DeleteRulesDifferOnStringIds()
    ensures var row := Object(map["_id" := Str("7")]);
      DeletedRows([row], Finite(7.0)) == [] && ConfirmedRows([row], Num(Finite(7.0))) == [row]
  {
    var row := Object(map["_id" := Str("7")]);
    StringIdRowDeleted(row);
    StringIdRowConfirmedKept(row);
  }

  lemma StringIdRowDeleted(row: JsValue)
    requires row == Object(map["_id" := Str("7")])
    ensures DeletedRows([row], Finite(7.0)) == []
  {
    SevenParses();
    assert Matches(row, Finite(7.0));
  }

  lemma StringIdRowConfirmedKept(row: JsValue)
    requires row == Object(map["_id" := Str("7")])
    ensures ConfirmedRows([row], Num(Finite(7.0))) == [row]
  {
    var keep := x => Truthy(x) && !StrictEq(Get(x, "_id"), Num(Finite(7.0)));
    assert keep(row);
    assert Filter([row], keep) == [row] + Filter([row][1..], keep);
    assert [row][1..] == [];
  }

  lemma SevenParses()
    ensures StringToNumber("7") == Finite(7.0)
  {
    assert TrimStart("7") == "7";
    assert TrimEnd("7") == "7";
    assert DigitPrefix("7") == "7";
    assert DigitsValue("7") == 7 by {
      assert DigitsValue("") == 0;
    }
  }

  lemma NormalRowsHaveNumberIds(rows: seq<JsValue>)
    requires NormalRows(rows)
    ensures RowIdsAreNumbers(rows)
  {
    forall i | 0 <= i < |rows| ensures Get(rows[i], "_id").Undefined? || Get(rows[i], "_id").Num? {
      assert rows[i] == ToValue(NormalizeProduct(rows[i]));
    }
  }

  /** Any subsequence of normal rows is normal; both filters keep normality. */
  lemma FilteredRowsAreNormal(rows: seq<JsValue>, r: seq<JsValue>)
    requires NormalRows(rows)
    requires forall i :: 0 <= i < |r| ==> r[i] in rows
    ensures NormalRows(r)
  {
    forall i | 0 <= i < |r| ensures IsNormalRow(r[i]) {
      var j :| 0 <= j < |rows| && rows[j] == r[i];
    }
  }

  lemma ConfirmedRowsAreNormal(rows: seq<JsValue>, pid: JsValue)
    requires NormalRows(rows)
    ensures NormalRows(ConfirmedRows(rows, pid))
  {
    FilteredRowsAreNormal(rows, ConfirmedRows(rows, pid));
  }

  /** On normal rows, merging a record into the row with its id yields exactly
      the record's object form: a normal row has no key the record lacks. */
  lemma MergeIntoNormalRow(row: JsValue, n: Product)
    requires IsNormalRow(row) && HasUsableId(n) && WellFormed(n)
    ensures MergeRow(row, n) == ToValue(n)
  {
    var f := ToValue(n).fields;
    assert row.fields.Keys == ProductKeys by {
      assert row == ToValue(NormalizeProduct(row));
    }
    assert Spread(row) + f == f;
    assert f + map["_id" := Num(n.id.value)] == f;
  }

  /** `replaceById` of a normalised record keeps the rows normal, and with
      normal rows the list is not compacted further. */
  lemma ReplaceByIdKeepsNormalRows(rows: seq<JsValue>, n: Product)
    requires NormalRows(rows) && WellFormed(n)
    ensures NormalRows(ReplaceById(rows, ToValue(n)))
    ensures !HasUsableId(n) ==> ReplaceById(rows, ToValue(n)) == rows
  {
    FilterAllPass(rows, Truthy);
    NormalizeRoundTrip(n);
    ToValueIsNormalRow(n);
    if HasUsableId(n) {
      var idx := FindIndex(rows, n.id.value);
      if idx == -1 {
        PrependKeepsNormalRows(rows, ToValue(n));
      } else {
        MergeIntoNormalRow(rows[idx], n);
        UpdateKeepsNormalRows(rows, idx, ToValue(n));
      }
    }
  }

  lemma PrependKeepsNormalRows(rows: seq<JsValue>, v: JsValue)
    requires NormalRows(rows) && IsNormalRow(v)
    ensures NormalRows([v] + rows)
  {
  }

  lemma UpdateKeepsNormalRows(rows: seq<JsValue>, i: int, v: JsValue)
    requires NormalRows(rows) && IsNormalRow(v) && 0 <= i < |rows|
    ensures NormalRows(rows[i := v])
  {
  }

  // ------------------------------------------------------------ submission

  /** What `handleSubmit` does with the reply before touching state: on the
      edit path (`editing` truthy) any normalised record is accepted; on the
      create path a record without `_id` throws. */
  function SubmitOutcome(editing: JsValue, reply: HttpReply): (r: Result<Product>)
    ensures r.Success? ==> WellFormed(r.value) && (!Truthy(editing) ==> r.value.id.Some?)
  {
    match reply
    case HttpError(m) => Failure(m)
    case Reply(b) =>
      match NormalizeBody(b)
      case Failure(m) => Failure(m)
      case Success(prod) =>
        if !Truthy(editing) && prod.id.None? then Failure(PostWithoutIdMessage) else Success(prod)
  }

  /** The create path makes the same check as the slice's `createProduct`
      thunk; the edit path, unlike `updateProduct`, accepts a reply without
      `_id`. */
  lemma SubmitMatchesSliceThunks(editing: JsValue, reply: HttpReply)
    ensures !Truthy(editing) ==> SubmitOutcome(editing, reply) == CreateThunk(reply)
    ensures Truthy(editing) && UpdateThunk(reply).Success? ==>
      SubmitOutcome(editing, reply) == UpdateThunk(reply)
    ensures Truthy(editing) && reply.Reply? && NormalizeBody(reply.body).Success? ==>
      SubmitOutcome(editing, reply) == NormalizeBody(reply.body)
  {
  }

  /** `replaceById(rows, prod)` for a normalised record, with the fact that
      it keeps the rows normal. */
  function ReconciledRows(rows: seq<JsValue>, prod: Product): (r: seq<JsValue>)
    requires NormalRows(rows) && WellFormed(prod)
    ensures NormalRows(r)
    ensures r == ReplaceById(rows, ToValue(prod))
  {
    ReplaceByIdKeepsNormalRows(rows, prod);
    ReplaceById(rows, ToValue(prod))
  }

  /** The success notice of `handleSubmit`. */
  function SuccessMessage(editing: JsValue): string {
    if Truthy(editing) then "Produit mis à jour" else "Produit créé"
  }

  // ------------------------------------------------------------ the page

  class Page {
    var rows: seq<JsValue>
    var loading: bool
    var errorMsg: string
    var successMsg: string
    var openForm: bool
    var editing: JsValue
    var confirmOpen: bool
    var confirmProduct: JsValue

    /** The dialog state cells. */
    function Dialogs(): (bool, JsValue, bool, JsValue)
      reads this
    {
      (openForm, editing, confirmOpen, confirmProduct)
    }

    ghost predicate Valid()
      reads this
    {
      NormalRows(rows)
    }

    /** The initial `useState` values. */
    constructor ()
      ensures Valid() && rows == [] && !loading && errorMsg == "" && successMsg == ""
      ensures Dialogs() == (false, Null, false, Null)
    {
      rows := [];
      loading := false;
      errorMsg := "";
      successMsg := "";
      openForm := false;
      editing := Null;
      confirmOpen := false;
      confirmProduct := Null;
    }

    /** `fetchProducts`: an array reply replaces the rows, any other reply
        empties them, an HTTP error only sets the message; loading ends off. */
    method FetchProducts(reply: HttpReply)
      requires Valid()
      modifies this
      ensures Valid() && !loading
      ensures reply.HttpError? ==> errorMsg == reply.message && rows == old(rows)
      ensures reply.Reply? && reply.body.JsonArray? ==>
        errorMsg == old(errorMsg) && rows == FetchedRows(reply.body.items)
      ensures reply.Reply? && reply.body.Json? ==> errorMsg == old(errorMsg) && rows == []
      ensures successMsg == old(successMsg) && Dialogs() == old(Dialogs())
    {
      loading := true;
      match reply {
        case HttpError(m) =>
          errorMsg := m;
        case Reply(JsonArray(items)) =>
          FetchedRowsSpec(items);
          rows := FetchedRows(items);
        case Reply(Json(_)) =>
          rows := [];
      }
      loading := false;
    }

    /** `onCreated` and `onUpdated`: a null payload makes `normalizeProduct`
        throw in the handler; a record without `_id` is ignored; otherwise the
        record is reconciled into the rows. */
    method OnUpserted(p: JsValue)
      requires Valid()
      modifies this
      ensures Valid()
      ensures p.Null? || NormalizeProduct(p).id.None? ==> rows == old(rows)
      ensures !p.Null? && NormalizeProduct(p).id.Some? ==>
        rows == ReplaceById(old(rows), ToValue(NormalizeProduct(p)))
      ensures loading == old(loading) && errorMsg == old(errorMsg) && successMsg == old(successMsg)
      ensures Dialogs() == old(Dialogs())
    {
      if p.Null? {
        return;
      }
      var n := NormalizeProduct(p);
      if n.id.None? {
        return;
      }
      ReplaceByIdKeepsNormalRows(rows, n);
      rows := ReplaceById(rows, ToValue(n));
    }

    /** `onDeleted({ _id })`: destructuring null or undefined throws; an id
        that is not a finite number is ignored; otherwise every row with that
        numeric id, and every falsy row, goes. */
    method OnDeleted(payload: JsValue)
      requires Valid()
      modifies this
      ensures Valid()
      ensures IsNullish(payload) || !IsFinite(ToNumber(Get(payload, "_id"))) ==> rows == old(rows)
      ensures !IsNullish(payload) && IsFinite(ToNumber(Get(payload, "_id"))) ==>
        rows == DeletedRows(old(rows), ToNumber(Get(payload, "_id")))
      ensures loading == old(loading) && errorMsg == old(errorMsg) && successMsg == old(successMsg)
      ensures Dialogs() == old(Dialogs())
    {
      if IsNullish(payload) {
        return;
      }
      var id := ToNumber(Get(payload, "_id"));
      if !IsFinite(id) {
        return;
      }
      FilteredRowsAreNormal(rows, DeletedRows(rows, id));
      rows := DeletedRows(rows, id);
    }

    /** `handleCreateClick` */
    method HandleCreateClick()
      modifies this
      ensures rows == old(rows) && errorMsg == old(errorMsg) && successMsg == old(successMsg)
      ensures loading == old(loading)
      ensures Dialogs() == (true, Null, old(confirmOpen), old(confirmProduct))
    {
      editing := Null;
      openForm := true;
    }

    /** `handleEdit(p)` */
    method HandleEdit(p: JsValue)
      modifies this
      ensures rows == old(rows) && errorMsg == old(errorMsg) && successMsg == old(successMsg)
      ensures loading == old(loading)
      ensures Dialogs() == (true, p, old(confirmOpen), old(confirmProduct))
    {
      editing := p;
      openForm := true;
    }

    /** `handleDelete(p)`: opens the confirmation for `p`. */
    method HandleDelete(p: JsValue)
      modifies this
      ensures rows == old(rows) && errorMsg == old(errorMsg) && successMsg == old(successMsg)
      ensures loading == old(loading)
      ensures Dialogs() == (old(openForm), old(editing), true, p)
    {
      confirmOpen := true;
      confirmProduct := p;
    }

    /** `handleSubmit(payload)`, given the reply to the PATCH (editing) or the
        POST (creating): on success the record is reconciled into the rows,
        the success message set and the form closed; on failure only the
        error message changes and the form stays open. */
    method HandleSubmit(reply: HttpReply)
      requires Valid()
      modifies this
      ensures Valid()
      ensures var r := SubmitOutcome(old(editing), reply);
        && (r.Success? ==>
          && rows == ReplaceById(old(rows), ToValue(r.value))
          && successMsg == SuccessMessage(old(editing))
          && !openForm && errorMsg == old(errorMsg))
        && (r.Failure? ==>
          && rows == old(rows) && errorMsg == r.error
          && openForm == old(openForm) && successMsg == old(successMsg))
      ensures loading == old(loading) && editing == old(editing)
      ensures confirmOpen == old(confirmOpen) && confirmProduct == old(confirmProduct)
    {
      var r := SubmitOutcome(editing, reply);
      if r.Success? {
        var next := ReconciledRows(rows, r.value);
        rows := next;
        successMsg := SuccessMessage(editing);
        openForm := false;
      } else {
        errorMsg := r.error;
      }
    }

    /** `confirmDelete`, given the reply to the DELETE: reading `_id` of a
        missing product throws before the request; a success removes the
        rows whose `_id` is strictly the product's; the confirmation is closed
        in every case. */
    method ConfirmDelete(reply: HttpReply)
      requires Valid()
      modifies this
      ensures Valid()
      ensures !confirmOpen && confirmProduct == Null
      ensures IsNullish(old(confirmProduct)) ==>
        errorMsg == ReadIdError(old(confirmProduct)) && rows == old(rows) && successMsg == old(successMsg)
      ensures !IsNullish(old(confirmProduct)) && reply.HttpError? ==>
        errorMsg == reply.message && rows == old(rows) && successMsg == old(successMsg)
      ensures !IsNullish(old(confirmProduct)) && reply.Reply? ==>
        && rows == ConfirmedRows(old(rows), Get(old(confirmProduct), "_id"))
        && successMsg == DeletedMessage && errorMsg == old(errorMsg)
      ensures loading == old(loading) && openForm == old(openForm) && editing == old(editing)
    {
      var p := confirmProduct;
      if IsNullish(p) {
        errorMsg := ReadIdError(p);
      } else if reply.HttpError? {
        errorMsg := reply.message;
      } else {
        var pid := Get(p, "_id");
        ConfirmedRowsAreNormal(rows, pid);
        rows, successMsg := ConfirmedRows(rows, pid), DeletedMessage;
      }
      confirmOpen, confirmProduct := false, Null;
    }
  }

  /** Against the real server, an edit reply without `_id` still reports
      success and closes the form, but leaves the rows as they were. */
  lemma EditWithoutIdKeepsRows(rows: seq<JsValue>, editing: JsValue, reply: HttpReply)
    requires NormalRows(rows) && Truthy(editing)
    requires SubmitOutcome(editing, reply).Success? && SubmitOutcome(editing, reply).value.id.None?
    ensures ReplaceById(rows, ToValue(SubmitOutcome(editing, reply).value)) == rows
  {
    ReplaceByIdKeepsNormalRows(rows, SubmitOutcome(editing, reply).value);
  }

  /** The push handler and the slice pick the deleted id differently: for a
      record payload they agree, but a bare number payload is removed by the
      slice and ignored by the page. */
  lemma PushDeleteIds(payload: JsValue, x: real)
    ensures payload.Object? && !IsNullish(Get(payload, "_id")) ==>
      DeletedKey(payload) == ToNumber(Get(payload, "_id"))
    ensures DeletedKey(Num(Finite(x))) == Finite(x) && !IsFinite(ToNumber(Get(Num(Finite(x)), "_id")))
  {
  }
}
