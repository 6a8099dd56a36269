/** The Redux products slice of frontend/src/features/products/productsSlice.jsx:
    the entity table kept by Redux Toolkit's entity adapter (ids selected by
    `Number(_id)`, sorted by `Number(a._id) - Number(b._id)`), the fetch
    status machine, the checks the async thunks make on HTTP replies, and the
    reducers for the REST and push-event actions.

    The adapter is a library; its operations are modelled after their
    documented behaviour as functions on a `Table` value, and the slice's
    reducers are methods that replace the table fields with those results. */
module ProductsSlice {
  import opened Wrappers
  import opened JsValues
  import opened Normalize

  /** A stored entity: the plain object the adapter keeps. */
  type Fields = map<string, JsValue>

  /** `selectId: (p) => Number(p._id)` */
  function KeyOf(e: Fields): JsNumber {
    ToNumber(Get(Object(e), "_id"))
  }

  /** The order the sort comparer `Number(a._id) - Number(b._id)` accepts: it
      never ranks an earlier id above a later one. A NaN id compares as
      neither above nor below any other. */
  predicate SortedByComparer(ids: seq<JsNumber>) {
    forall i, j :: 0 <= i < j < |ids| ==> !Greater(ids[i], ids[j])
  }

  predicate NoDuplicates(ids: seq<JsNumber>) {
    forall i, j :: 0 <= i < j < |ids| ==> ids[i] != ids[j]
  }

  /** The adapter's normalised state: `ids` and `entities`. */
  datatype Table = Table(ids: seq<JsNumber>, entities: map<JsNumber, Fields>)

  const EmptyTable := Table([], map[])

  /** The adapter's invariant: one id per entity, each stored under its own
      selected id, ids in comparer order. */
  ghost predicate TableValid(t: Table) {
    && NoDuplicates(t.ids)
    && (forall k :: k in t.ids <==> k in t.entities)
    && SortedByComparer(t.ids)
    && (forall k :: k in t.entities ==> KeyOf(t.entities[k]) == k)
  }

  /** Inserts `k` before the first id the comparer ranks above it. */
  function InsertSorted(ids: seq<JsNumber>, k: JsNumber): (r: seq<JsNumber>)
    ensures |r| == |ids| + 1
    ensures forall x :: x in r <==> x in ids || x == k
  {
    if ids == [] then [k]
    else if Greater(ids[0], k) then [k] + ids
    else [ids[0]] + InsertSorted(ids[1..], k)
  }

  lemma {:induction false} InsertSortedNoDuplicates(ids: seq<JsNumber>, k: JsNumber)
    requires NoDuplicates(ids) && k !in ids
    ensures NoDuplicates(InsertSorted(ids, k))
  {
    if ids != [] && !Greater(ids[0], k) {
      var tail := ids[1..];
      InsertSortedNoDuplicates(tail, k);
      assert ids[0] !in tail;
    }
  }

  lemma {:induction false} InsertSortedKeepsOrder(ids: seq<JsNumber>, k: JsNumber)
    requires SortedByComparer(ids)
    ensures SortedByComparer(InsertSorted(ids, k))
  {
    if ids != [] {
      if Greater(ids[0], k) {
        var r := [k] + ids;
        forall j | 1 <= j < |r| ensures !Greater(k, r[j]) {
          GreaterIsStrictOrder(ids[0], k, r[j]);
        }
      } else {
        var tail := ids[1..];
        InsertSortedKeepsOrder(tail, k);
        var r := [ids[0]] + InsertSorted(tail, k);
        forall j | 1 <= j < |r| ensures !Greater(ids[0], r[j]) {
          assert r[j] in InsertSorted(tail, k);
          if r[j] != k {
            var m :| 0 <= m < |tail| && tail[m] == r[j];
            assert ids[m + 1] == r[j];
          }
        }
      }
    }
  }

  /** Every id of `ids` except `k`, in order. */
  function Without(ids: seq<JsNumber>, k: JsNumber): seq<JsNumber> {
    Filter(ids, x => x != k)
  }

  lemma WithoutKeepsInvariant(ids: seq<JsNumber>, k: JsNumber)
    requires NoDuplicates(ids) && SortedByComparer(ids)
    ensures NoDuplicates(Without(ids, k)) && SortedByComparer(Without(ids, k))
    ensures forall x :: x in Without(ids, k) <==> x in ids && x != k
  {
    FilterKeepsPairwise(ids, x => x != k, (a, b) => a != b);
    FilterKeepsPairwise(ids, x => x != k, (a, b) => !Greater(a, b));
    forall x | x in ids && x != k ensures x in Without(ids, k) {
      var i :| 0 <= i < |ids| && ids[i] == x;
    }
  }

  /** `upsertOne`: a new id is inserted at its sorted place; an existing
      entity is shallow-merged with the incoming fields
      (`Object.assign(existing, entity)`). */
  function UpsertOne(t: Table, e: Fields): Table {
    var k := KeyOf(e);
    if k in t.entities then Table(t.ids, t.entities[k := t.entities[k] + e])
    else Table(InsertSorted(t.ids, k), t.entities[k := e])
  }

  /** The replacing insert `setAll` performs for each of its entities. */
  function SetOne(t: Table, e: Fields): Table {
    var k := KeyOf(e);
    if k in t.entities then Table(t.ids, t.entities[k := e])
    else Table(InsertSorted(t.ids, k), t.entities[k := e])
  }

  /** `removeOne`: deletes the entity if present, otherwise changes nothing. */
  function RemoveOne(t: Table, k: JsNumber): Table {
    if k in t.entities then Table(Without(t.ids, k), t.entities - {k}) else t
  }

  function SetMany(t: Table, es: seq<Fields>): Table
    decreases |es|
  {
    if es == [] then t else SetMany(SetOne(t, es[0]), es[1..])
  }

  /** `setAll`: the table afterwards holds exactly the given entities; when two
      of them share an id the later one wins. */
  function SetAll(es: seq<Fields>): Table {
    SetMany(EmptyTable, es)
  }

  lemma UpsertOneKeepsValid(t: Table, e: Fields)
    requires TableValid(t)
    ensures TableValid(UpsertOne(t, e))
  {
    var k := KeyOf(e);
    if k in t.entities {
      assert KeyOf(t.entities[k] + e) == k;
    } else {
      assert k !in t.ids;
      InsertSortedKeepsOrder(t.ids, k);
      InsertSortedNoDuplicates(t.ids, k);
    }
  }

  /** Upsert of an existing id merges into that one entry and adds no id;
      upsert of a new id adds exactly that id; no other entity changes. */
  lemma UpsertOneEffect(t: Table, e: Fields)
    ensures var u := UpsertOne(t, e); var k := KeyOf(e);
      && u.entities.Keys == t.entities.Keys + {k}
      && (k in t.entities ==> u.ids == t.ids && u.entities[k] == t.entities[k] + e)
      && (k !in t.entities ==> |u.ids| == |t.ids| + 1 && u.entities[k] == e)
      && forall x :: x in t.entities && x != k ==> u.entities[x] == t.entities[x]
  {
    var k := KeyOf(e);
    if k in t.entities {
      assert UpsertOne(t, e) == Table(t.ids, t.entities[k := t.entities[k] + e]);
    } else {
      assert UpsertOne(t, e) == Table(InsertSorted(t.ids, k), t.entities[k := e]);
    }
  }

  lemma SetOneKeepsValid(t: Table, e: Fields)
    requires TableValid(t)
    ensures TableValid(SetOne(t, e))
  {
    var k := KeyOf(e);
    if k !in t.entities {
      assert k !in t.ids;
      InsertSortedKeepsOrder(t.ids, k);
      InsertSortedNoDuplicates(t.ids, k);
    }
  }

  lemma RemoveOneKeepsValid(t: Table, k: JsNumber)
    requires TableValid(t)
    ensures TableValid(RemoveOne(t, k))
    ensures k !in RemoveOne(t, k).entities && k !in RemoveOne(t, k).ids
    ensures RemoveOne(t, k).entities == t.entities - {k}
  {
    if k in t.entities {
      WithoutKeepsInvariant(t.ids, k);
    }
  }

  /** Removing twice is removing once. */
  lemma RemoveOneIdempotent(t: Table, k: JsNumber)
    requires TableValid(t)
    ensures RemoveOne(RemoveOne(t, k), k) == RemoveOne(t, k)
  {
    RemoveOneKeepsValid(t, k);
  }

  /** No later entity of `es` carries the id of `es[i]`. */
  predicate LastWithKey(es: seq<Fields>, i: int)
    requires 0 <= i < |es|
  {
    forall j :: i < j < |es| ==> KeyOf(es[j]) != KeyOf(es[i])
  }

  /** The ids carried by a list of entities. */
  function KeySet(es: seq<Fields>): set<JsNumber> {
    set i | 0 <= i < |es| :: KeyOf(es[i])
  }

  lemma KeySetCons(es: seq<Fields>)
    requires es != []
    ensures KeySet(es) == {KeyOf(es[0])} + KeySet(es[1..])
  {
    forall x | x in KeySet(es) ensures x in {KeyOf(es[0])} + KeySet(es[1..]) {
      var i :| 0 <= i < |es| && KeyOf(es[i]) == x;
      if i > 0 { assert KeyOf(es[1..][i - 1]) == x; }
    }
    forall x | x in KeySet(es[1..]) ensures x in KeySet(es) {
      var i :| 0 <= i < |es[1..]| && KeyOf(es[1..][i]) == x;
      assert KeyOf(es[i + 1]) == x;
    }
  }

  lemma {:induction false} SetManyKeepsValid(t: Table, es: seq<Fields>)
    requires TableValid(t)
    ensures TableValid(SetMany(t, es))
    decreases |es|
  {
    if es != [] {
      SetOneKeepsValid(t, es[0]);
      SetManyKeepsValid(SetOne(t, es[0]), es[1..]);
    }
  }

  lemma {:induction false} SetManyKeys(t: Table, es: seq<Fields>)
    ensures SetMany(t, es).entities.Keys == t.entities.Keys + KeySet(es)
    ensures forall x :: x in t.entities && x !in KeySet(es) ==> SetMany(t, es).entities[x] == t.entities[x]
    decreases |es|
  {
    if es != [] {
      KeySetCons(es);
      SetManyKeys(SetOne(t, es[0]), es[1..]);
    }
  }

  lemma {:induction false} SetManyLastWins(t: Table, es: seq<Fields>)
    ensures forall i :: 0 <= i < |es| && LastWithKey(es, i) ==>
      KeyOf(es[i]) in SetMany(t, es).entities && SetMany(t, es).entities[KeyOf(es[i])] == es[i]
    decreases |es|
  {
    if es != [] {
      var t1 := SetOne(t, es[0]);
      var tail := es[1..];
      SetManyLastWins(t1, tail);
      SetManyKeys(t1, tail);
      forall i | 0 <= i < |es| && LastWithKey(es, i)
        ensures KeyOf(es[i]) in SetMany(t, es).entities && SetMany(t, es).entities[KeyOf(es[i])] == es[i]
      {
        if i == 0 {
          assert forall j :: 0 <= j < |tail| ==> tail[j] == es[j + 1];
          assert KeyOf(es[0]) !in KeySet(tail);
        } else {
          assert tail[i - 1] == es[i];
          assert LastWithKey(tail, i - 1) by {
            forall j | i - 1 < j < |tail| ensures KeyOf(tail[j]) != KeyOf(tail[i - 1]) {
              assert tail[j] == es[j + 1];
            }
          }
        }
      }
    }
  }

  /** After `setAll` the table is valid, holds exactly the ids of the given
      entities, and each id holds the last entity that carried it. */
  lemma SetAllEffect(es: seq<Fields>)
    ensures TableValid(SetAll(es))
    ensures SetAll(es).entities.Keys == KeySet(es)
    ensures forall i :: 0 <= i < |es| && LastWithKey(es, i) ==> SetAll(es).entities[KeyOf(es[i])] == es[i]
  {
    SetManyKeepsValid(EmptyTable, es);
    SetManyKeys(EmptyTable, es);
    SetManyLastWins(EmptyTable, es);
  }

  /** Without NaN ids, the comparer order is strictly ascending by id. */
  lemma AscendingWithoutNaN(t: Table)
    requires TableValid(t)
    requires forall k :: k in t.ids ==> !k.NaN?
    ensures forall i, j :: 0 <= i < j < |t.ids| ==> Greater(t.ids[j], t.ids[i])
  {
    forall i, j | 0 <= i < j < |t.ids| ensures Greater(t.ids[j], t.ids[i]) {
      GreaterIsStrictOrder(t.ids[i], t.ids[j], t.ids[j]);
    }
  }

  /** Merge law: after storing a record and then upserting only its id and a
      new price, the entity is the stored one with just the price replaced. */
  lemma MergeLaw(t: Table, full: Fields, price: JsNumber)
    requires TableValid(t) && "_id" in full
    ensures var once := UpsertOne(t, full);
      var k := KeyOf(full);
      var twice := UpsertOne(once, map["_id" := full["_id"], "price" := Num(price)]);
      twice.entities[k] == once.entities[k]["price" := Num(price)]
  {
    var k := KeyOf(full);
    var patch := map["_id" := full["_id"], "price" := Num(price)];
    var once := UpsertOne(t, full);
    assert KeyOf(patch) == k;
    assert once.entities[k]["_id"] == full["_id"];
    assert once.entities[k] + patch == once.entities[k]["price" := Num(price)];
  }

  /** Upsert of a normalised record, then lookup by its id, gives back that
      record: all seven fields overwrite whatever the entity held. */
  lemma UpsertThenGet(t: Table, n: Product)
    requires TableValid(t) && WellFormed(n)
    ensures var u := UpsertOne(t, ToValue(n).fields);
      var k := KeyOf(ToValue(n).fields);
      k in u.entities && NormalizeProduct(Object(u.entities[k])) == n
  {
    var e := ToValue(n).fields;
    var k := KeyOf(e);
    var u := UpsertOne(t, e);
    assert forall key :: key in ProductKeys ==> Get(Object(u.entities[k]), key) == Get(Object(e), key);
    NormalizeRoundTrip(n);
  }

  // ---------------------------------------------------------------- thunks

  /** A JSON reply body: an array, or any other JSON value. */
  datatype Body = Json(value: JsValue) | JsonArray(items: seq<JsValue>)

  /** The outcome of an HTTP call: a reply body, or the message of the Error
      the HTTP client rejected with. */
  datatype HttpReply = Reply(body: Body) | HttpError(message: string)

  const NullRecordMessage := "Cannot read properties of null (reading '_id')"
  const PostWithoutIdMessage := "POST: API n’a pas renvoyé _id"
  const PatchWithoutIdMessage := "PATCH: API n’a pas renvoyé _id"

  /** `normalizeProduct(data)` on a reply body: it throws on null, and an array
      has none of the record's keys. */
  function NormalizeBody(b: Body): Result<Product> {
    match b
    case Json(Null) => Failure(NullRecordMessage)
    case Json(v) => Success(NormalizeProduct(v))
    case JsonArray(_) => Success(NormalizeProduct(Object(map[])))
  }

  /** `fetchProducts`: an array reply is normalised element by element (a null
      element throws), anything else gives an empty list. */
  function FetchAllThunk(reply: HttpReply): (r: Result<seq<Product>>)
    ensures reply.HttpError? ==> r == Failure(reply.message)
    ensures reply.Reply? && reply.body.Json? ==> r == Success([])
    ensures r.Success? && reply.Reply? && reply.body.JsonArray? ==>
      |r.value| == |reply.body.items|
      && forall i :: 0 <= i < |r.value| ==>
        !reply.body.items[i].Null? && r.value[i] == NormalizeProduct(reply.body.items[i])
    ensures reply.Reply? && reply.body.JsonArray? ==>
      (r.Failure? <==> exists i :: 0 <= i < |reply.body.items| && reply.body.items[i].Null?)
  {
    match reply
    case HttpError(m) => Failure(m)
    case Reply(Json(_)) => Success([])
    case Reply(JsonArray(items)) =>
      if exists i :: 0 <= i < |items| && items[i].Null? then Failure(NullRecordMessage)
      else Success(seq(|items|, i requires 0 <= i < |items| => NormalizeProduct(items[i])))
  }

  /** The common check of `createProduct` and `updateProduct`: the normalised
      reply must carry an `_id` (a NaN id passes, since NaN is not null). */
  function RecordThunk(reply: HttpReply, missingId: string): (r: Result<Product>)
    ensures r.Success? ==> r.value.id.Some? && WellFormed(r.value)
    ensures r.Success? ==> reply.Reply? && NormalizeBody(reply.body) == Success(r.value)
    ensures reply.Reply? && reply.body.Json? && !reply.body.value.Null?
      ==> (r.Success? <==> !IsNullish(Get(reply.body.value, "_id")))
    ensures reply.Reply? && r.Failure? && NormalizeBody(reply.body).Success? ==> r.error == missingId
    ensures reply.HttpError? ==> r == Failure(reply.message)
    ensures reply.Reply? && reply.body == Json(Null) ==> r == Failure(NullRecordMessage)
    ensures reply.Reply? && reply.body.JsonArray? ==> r == Failure(missingId)
  {
    match reply
    case HttpError(m) => Failure(m)
    case Reply(b) =>
      match NormalizeBody(b)
      case Failure(m) => Failure(m)
      case Success(prod) => if prod.id.None? then Failure(missingId) else Success(prod)
  }

  function CreateThunk(reply: HttpReply): Result<Product> {
    RecordThunk(reply, PostWithoutIdMessage)
  }

  function UpdateThunk(reply: HttpReply): Result<Product> {
    RecordThunk(reply, PatchWithoutIdMessage)
  }

  /** `deleteProduct(id)`: on success the payload is `Number(id)`. */
  function DeleteThunk(id: JsValue, reply: HttpReply): (r: Result<JsNumber>)
    ensures r.Success? <==> reply.Reply?
    ensures r.Success? ==> r.value == ToNumber(id)
  {
    if reply.HttpError? then Failure(reply.message) else Success(ToNumber(id))
  }

  /** `action.error.message` of a rejected thunk: the thrown Error's message. */
  function RejectionMessage<T>(r: Result<T>): Option<string> {
    if r.Failure? then Some(r.error) else None
  }

  /** The key `wsDeleted` removes: `Number(payload?._id ?? payload)`. */
  function DeletedKey(payload: JsValue): JsNumber {
    ToNumber(Coalesce(Get(payload, "_id"), payload))
  }

  function Entities(ps: seq<Product>): seq<Fields> {
    seq(|ps|, i requires 0 <= i < |ps| => ToValue(ps[i]).fields)
  }

  // ---------------------------------------------------------------- slice

  datatype Status = Idle | Loading | Succeeded | Failed

  class ProductsState {
    var ids: seq<JsNumber>
    var entities: map<JsNumber, Fields>
    var status: Status
    /** null, undefined (a rejection without message) or a message string */
    var error: JsValue

    function Snapshot(): Table
      reads this
    {
      Table(ids, entities)
    }

    ghost predicate Valid()
      reads this
    {
      TableValid(Snapshot()) && (error.Null? || error.Undefined? || error.Str?)
    }

    /** `initialState`: no entities, idle, no error. */
    constructor ()
      ensures Valid() && Snapshot() == EmptyTable && status == Idle && error == Null
    {
      ids := [];
      entities := map[];
      status := Idle;
      error := Null;
    }

    /** `fetchProducts.pending` */
    method FetchPending()
      requires Valid()
      modifies this
      ensures Valid() && status == Loading && error == Null && Snapshot() == old(Snapshot())
    {
      status := Loading;
      error := Null;
    }

    /** `fetchProducts.fulfilled`: `setAll` with the normalised list. */
    method FetchFulfilled(payload: seq<Product>)
      requires Valid()
      modifies this
      ensures Valid() && status == Succeeded && error == old(error)
      ensures Snapshot() == SetAll(Entities(payload))
    {
      status := Succeeded;
      SetAllEffect(Entities(payload));
      var t := SetAll(Entities(payload));
      ids, entities := t.ids, t.entities;
    }

    /** `fetchProducts.rejected`: the message, or 'Failed to load' when it is
        missing or empty. */
    method FetchRejected(message: Option<string>)
      requires Valid()
      modifies this
      ensures Valid() && status == Failed && Snapshot() == old(Snapshot())
      ensures error == Str(if message.None? || message.value == "" then "Failed to load" else message.value)
    {
      status := Failed;
      error := Str(if message.None? || message.value == "" then "Failed to load" else message.value);
    }

    /** `createProduct.fulfilled` and `updateProduct.fulfilled`: `upsertOne`. */
    method UpsertFulfilled(p: Product)
      requires Valid()
      modifies this
      ensures Valid() && status == old(status) && error == old(error)
      ensures Snapshot() == UpsertOne(old(Snapshot()), ToValue(p).fields)
    {
      UpsertOneKeepsValid(Snapshot(), ToValue(p).fields);
      var t := UpsertOne(Snapshot(), ToValue(p).fields);
      ids, entities := t.ids, t.entities;
    }

    /** `deleteProduct.fulfilled`: `removeOne` of the payload id. */
    method DeleteFulfilled(key: JsNumber)
      requires Valid()
      modifies this
      ensures Valid() && status == old(status) && error == old(error)
      ensures Snapshot() == RemoveOne(old(Snapshot()), key)
    {
      RemoveOneKeepsValid(Snapshot(), key);
      var t := RemoveOne(Snapshot(), key);
      ids, entities := t.ids, t.entities;
    }

    /** `createProduct.rejected`, `updateProduct.rejected`,
        `deleteProduct.rejected`: only `error` changes. */
    method MutationRejected(message: Option<string>)
      requires Valid()
      modifies this
      ensures Valid() && status == old(status) && Snapshot() == old(Snapshot())
      ensures error == (if message.Some? then Str(message.value) else Undefined)
    {
      error := if message.Some? then Str(message.value) else Undefined;
    }

    /** `products/wsCreated` and `products/wsUpdated`: normalise, then upsert
        when `_id != null`. A null payload makes `normalizeProduct` throw
        inside the reducer, so the state stays as it was. */
    method WsUpsert(payload: JsValue)
      requires Valid()
      modifies this
      ensures Valid() && status == old(status) && error == old(error)
      ensures payload.Null? || NormalizeProduct(payload).id.None? ==> Snapshot() == old(Snapshot())
      ensures !payload.Null? && NormalizeProduct(payload).id.Some? ==>
        Snapshot() == UpsertOne(old(Snapshot()), ToValue(NormalizeProduct(payload)).fields)
    {
      if payload.Null? {
        return;
      }
      var n := NormalizeProduct(payload);
      if n.id.Some? {
        UpsertFulfilled(n);
      }
    }

    /** `products/wsDeleted`: removes `Number(payload?._id ?? payload)` when
        that is finite. */
    method WsDeleted(payload: JsValue)
      requires Valid()
      modifies this
      ensures Valid() && status == old(status) && error == old(error)
      ensures !IsFinite(DeletedKey(payload)) ==> Snapshot() == old(Snapshot())
      ensures IsFinite(DeletedKey(payload)) ==> Snapshot() == RemoveOne(old(Snapshot()), DeletedKey(payload))
    {
      var key := DeletedKey(payload);
      if IsFinite(key) {
        DeleteFulfilled(key);
      }
    }

    /** Dispatching `fetchProducts`: pending, then fulfilled or rejected. */
    method Fetch(reply: HttpReply)
      requires Valid()
      modifies this
      ensures Valid()
      ensures FetchAllThunk(reply).Success? ==>
        status == Succeeded && error == Null && Snapshot() == SetAll(Entities(FetchAllThunk(reply).value))
      ensures FetchAllThunk(reply).Failure? ==>
        status == Failed && Snapshot() == old(Snapshot())
        && error == Str(if FetchAllThunk(reply).error == "" then "Failed to load" else FetchAllThunk(reply).error)
    {
      FetchPending();
      var r := FetchAllThunk(reply);
      if r.Success? {
        FetchFulfilled(r.value);
      } else {
        FetchRejected(Some(r.error));
      }
    }

    /** Dispatching `createProduct` or `updateProduct` with the given reply
        check: a reply without `_id` rejects and leaves entities and status. */
    method Save(reply: HttpReply, missingId: string)
      requires Valid()
      modifies this
      ensures Valid() && status == old(status)
      ensures RecordThunk(reply, missingId).Success? ==>
        error == old(error)
        && Snapshot() == UpsertOne(old(Snapshot()), ToValue(RecordThunk(reply, missingId).value).fields)
      ensures RecordThunk(reply, missingId).Failure? ==>
        error == Str(RecordThunk(reply, missingId).error) && Snapshot() == old(Snapshot())
    {
      var r := RecordThunk(reply, missingId);
      if r.Success? {
        UpsertFulfilled(r.value);
      } else {
        MutationRejected(Some(r.error));
      }
    }

    /** Dispatching `deleteProduct(id)`. */
    method Delete(id: JsValue, reply: HttpReply)
      requires Valid()
      modifies this
      ensures Valid() && status == old(status)
      ensures reply.Reply? ==> error == old(error) && Snapshot() == RemoveOne(old(Snapshot()), ToNumber(id))
      ensures reply.HttpError? ==> error == Str(reply.message) && Snapshot() == old(Snapshot())
    {
      var r := DeleteThunk(id, reply);
      if r.Success? {
        DeleteFulfilled(r.value);
      } else {
        MutationRejected(Some(r.error));
      }
    }
  }
}
