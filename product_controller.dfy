/** The product handlers of backend/controllers/product.controller.js: how
    `createProduct` and `editProduct` build a record from the request body,
    coerce and validate price, rating, warranty and availability in a fixed
    order, and write it; and the path-id checks of `getProductById`,
    `editProduct` and `deleteProduct`.

    The `products` collection is an in-memory map from document id to
    document. Every reply is a status code and a JSON body; a handler that
    answers with a MongoDB driver result answers with that result object. */
module ProductController {
  import opened Wrappers
  import opened JsValues

  type Fields = map<string, JsValue>

  /** A document's `_id`: the value the client sent, or one the driver
      generated because the client sent none (`_id == null`). */
  datatype DocId = ClientId(value: JsValue) | GeneratedId(serial: nat)

  datatype Response = Response(status: int, body: JsValue)

  const PriceMessage := "price must be a number"
  const RatingNaNMessage := "rating must be a number"
  const RatingRangeMessage := "rating must be between 0 and 5"
  const WarrantyMessage := "warranty_years must be a non-negative integer"
  const InvalidIdMessage := "Invalid id (must be a number)"
  /** The message `editProduct` sends, with its closing parenthesis missing. */
  const InvalidEditIdMessage := "Invalid id (must be a number"
  const NotFoundMessage := "Not found"
  /** Stands for the driver's duplicate-key error message. */
  const DuplicateKeyMessage := "E11000 duplicate key error"

  /** `res.status(status).json({ error: message })` */
  function ErrorReply(status: int, message: string): Response {
    Response(status, Object(map["error" := Str(message)]))
  }

  /** `next(err)` into the JSON error middleware: status 500 (the errors
      reaching it carry no status) and `{ error: { message } }`. */
  function NextError(message: string): Response {
    Response(500, Object(map["error" := Object(map["message" :=
      Str(if message == "" then "Internal Server Error" else message)])]))
  }

  // ------------------------------------------------------------ driver results

  /** How a document id appears in JSON: the client's value, or a generated
      ObjectId as 24 hex digits (here the serial stands for the id). */
  function IdJson(k: DocId): JsValue {
    match k
    case ClientId(v) => v
    case GeneratedId(n) => Str(ObjectIdText(n))
  }

  /** `insertOne`'s result: `{ acknowledged, insertedId }`. */
  function InsertReply(k: DocId): JsValue {
    Object(map["acknowledged" := Bool(true), "insertedId" := IdJson(k)])
  }

  function Count(b: bool): JsValue {
    Num(Finite(if b then 1.0 else 0.0))
  }

  /** `updateOne`'s result. */
  function UpdateReply(matched: bool, modified: bool): JsValue {
    Object(map[
      "acknowledged" := Bool(true),
      "matchedCount" := Count(matched),
      "modifiedCount" := Count(modified),
      "upsertedCount" := Count(false),
      "upsertedId" := Null])
  }

  /** `deleteOne`'s result. */
  function DeleteReply(deleted: bool): JsValue {
    Object(map["acknowledged" := Bool(true), "deletedCount" := Count(deleted)])
  }

  /** None of the three driver results has an `_id`, so a client reading one
      as a product finds none. */
  lemma DriverRepliesHaveNoId(k: DocId, matched: bool, modified: bool, deleted: bool)
    ensures IsNullish(Get(InsertReply(k), "_id"))
    ensures IsNullish(Get(UpdateReply(matched, modified), "_id"))
    ensures IsNullish(Get(DeleteReply(deleted), "_id"))
  {
  }

  // ------------------------------------------------------------ validation

  /** Numbers the rating check accepts: not below 0 and not above 5. */
  predicate InRatingRange(n: JsNumber) {
    n.Finite? && 0.0 <= n.value <= 5.0
  }

  predicate WholeNonNegative(n: JsNumber) {
    n.Finite? && n.value >= 0.0 && n.value == n.value.Floor as real
  }

  // The four rejections, read straight off the raw record.

  predicate PriceInvalid(rec: Fields) {
    var v := Get(Object(rec), "price");
    !IsNullish(v) && ToNumber(v).NaN?
  }

  predicate RatingNotNumber(rec: Fields) {
    var v := Get(Object(rec), "rating");
    !IsNullish(v) && ToNumber(v).NaN?
  }

  predicate RatingOutOfRange(rec: Fields) {
    var v := Get(Object(rec), "rating");
    !IsNullish(v) && !ToNumber(v).NaN? && !InRatingRange(ToNumber(v))
  }

  predicate WarrantyInvalid(rec: Fields) {
    var v := Get(Object(rec), "warranty_years");
    !IsNullish(v) && !WholeNonNegative(ParseInt(v))
  }

  /** `x === true || x === "true"` */
  function AvailableFlag(v: JsValue): bool {
    v == Bool(true) || v == Str("true")
  }

  /** What a stored field may hold once it passed the checks. */
  predicate FieldOk(k: string, v: JsValue) {
    IsNullish(v) ||
      ((k == "price" ==> v.Num? && !v.n.NaN?)
       && (k == "rating" ==> v.Num? && InRatingRange(v.n))
       && (k == "warranty_years" ==> v.Num? && WholeNonNegative(v.n))
       && (k == "available" ==> v.Bool?))
  }

  predicate FieldsOk(rec: Fields) {
    forall k :: k in rec ==> FieldOk(k, rec[k])
  }

  /** The price step: a present price becomes `Number(price)`, NaN rejected. */
  function CheckPrice(rec: Fields): Result<Fields> {
    var v := Get(Object(rec), "price");
    if IsNullish(v) then Success(rec)
    else if ToNumber(v).NaN? then Failure(PriceMessage)
    else Success(rec["price" := Num(ToNumber(v))])
  }

  /** The rating step: `Number(rating)`, NaN rejected, then the range. */
  function CheckRating(rec: Fields): Result<Fields> {
    var v := Get(Object(rec), "rating");
    if IsNullish(v) then Success(rec)
    else if ToNumber(v).NaN? then Failure(RatingNaNMessage)
    else if !InRatingRange(ToNumber(v)) then Failure(RatingRangeMessage)
    else Success(rec["rating" := Num(ToNumber(v))])
  }

  /** The warranty step: `parseInt(warranty_years, 10)`, NaN or negative
      rejected. */
  function CheckWarranty(rec: Fields): Result<Fields> {
    var v := Get(Object(rec), "warranty_years");
    if IsNullish(v) then Success(rec)
    else if !WholeNonNegative(ParseInt(v)) then Failure(WarrantyMessage)
    else Success(rec["warranty_years" := Num(ParseInt(v))])
  }

  /** The availability step, which never rejects. */
  function CoerceAvailable(rec: Fields): Fields {
    var v := Get(Object(rec), "available");
    if IsNullish(v) then rec else rec["available" := Bool(AvailableFlag(v))]
  }

  /** The checks in source order; the first failure is the answer. */
  function Validate(rec: Fields): Result<Fields> {
    match CheckPrice(rec)
    case Failure(m) => Failure(m)
    case Success(r1) =>
      match CheckRating(r1)
      case Failure(m) => Failure(m)
      case Success(r2) =>
        match CheckWarranty(r2)
        case Failure(m) => Failure(m)
        case Success(r3) => Success(CoerceAvailable(r3))
  }

  /** Validation rejects exactly the records with a bad field, and names the
      first bad field in the order price, rating, warranty. */
  lemma ValidateRejects(rec: Fields)
    ensures Validate(rec).Failure? <==>
      PriceInvalid(rec) || RatingNotNumber(rec) || RatingOutOfRange(rec) || WarrantyInvalid(rec)
    ensures PriceInvalid(rec) ==> Validate(rec) == Failure(PriceMessage)
    ensures !PriceInvalid(rec) && RatingNotNumber(rec) ==> Validate(rec) == Failure(RatingNaNMessage)
    ensures !PriceInvalid(rec) && RatingOutOfRange(rec) ==> Validate(rec) == Failure(RatingRangeMessage)
    ensures !PriceInvalid(rec) && !RatingNotNumber(rec) && !RatingOutOfRange(rec) && WarrantyInvalid(rec) ==>
      Validate(rec) == Failure(WarrantyMessage)
  {
    var r1 := CheckPrice(rec);
    if r1.Success? {
      assert Get(Object(r1.value), "rating") == Get(Object(rec), "rating");
      assert Get(Object(r1.value), "warranty_years") == Get(Object(rec), "warranty_years");
      var r2 := CheckRating(r1.value);
      if r2.Success? {
        assert Get(Object(r2.value), "warranty_years") == Get(Object(rec), "warranty_years");
      }
    }
  }

  const CheckedKeys: set<string> := {"price", "rating", "warranty_years", "available"}

  /** `before` and `after` differ at most in field `k`, and only when it is
      present and not null. */
  predicate ChangesOnly(before: Fields, after: Fields, k: string) {
    && after.Keys == before.Keys
    && (forall f :: f in before && f != k ==> after[f] == before[f])
    && (IsNullish(Get(Object(before), k)) ==> after == before)
  }

  lemma StepsChangeOnlyTheirField(rec: Fields)
    ensures CheckPrice(rec).Success? ==> ChangesOnly(rec, CheckPrice(rec).value, "price")
    ensures CheckRating(rec).Success? ==> ChangesOnly(rec, CheckRating(rec).value, "rating")
    ensures CheckWarranty(rec).Success? ==> ChangesOnly(rec, CheckWarranty(rec).value, "warranty_years")
    ensures ChangesOnly(rec, CoerceAvailable(rec), "available")
  {
  }

  lemma ChangesOnlyChain(r0: Fields, r1: Fields, r2: Fields, r3: Fields, r4: Fields)
    requires ChangesOnly(r0, r1, "price") && ChangesOnly(r1, r2, "rating")
    requires ChangesOnly(r2, r3, "warranty_years") && ChangesOnly(r3, r4, "available")
    ensures r4.Keys == r0.Keys
    ensures forall k :: k in r0 && k !in CheckedKeys ==> r4[k] == r0[k]
    ensures forall k :: k in CheckedKeys && IsNullish(Get(Object(r0), k)) ==> Get(Object(r4), k) == Get(Object(r0), k)
  {
    forall k | k in CheckedKeys && IsNullish(Get(Object(r0), k))
      ensures Get(Object(r4), k) == Get(Object(r0), k)
    {
      assert Get(Object(r1), k) == Get(Object(r0), k);
      assert Get(Object(r2), k) == Get(Object(r1), k);
      assert Get(Object(r3), k) == Get(Object(r2), k);
    }
  }

  /** An accepted record keeps its keys, and only the four checked fields can
      differ; a null or missing one is left as it is. */
  lemma ValidateKeepsOthers(rec: Fields)
    requires Validate(rec).Success?
    ensures Validate(rec).value.Keys == rec.Keys
    ensures forall k :: k in rec && k !in CheckedKeys ==> Validate(rec).value[k] == rec[k]
    ensures forall k :: k in CheckedKeys && IsNullish(Get(Object(rec), k)) ==>
      Get(Object(Validate(rec).value), k) == Get(Object(rec), k)
  {
    var r1 := CheckPrice(rec).value;
    var r2 := CheckRating(r1).value;
    var r3 := CheckWarranty(r2).value;
    assert Validate(rec).value == CoerceAvailable(r3);
    StepsChangeOnlyTheirField(rec);
    StepsChangeOnlyTheirField(r1);
    StepsChangeOnlyTheirField(r2);
    StepsChangeOnlyTheirField(r3);
    ChangesOnlyChain(rec, r1, r2, r3, CoerceAvailable(r3));
  }

  /** The intermediate records of an accepted validation. */
  lemma ValidateSteps(rec: Fields)
    requires Validate(rec).Success?
    ensures CheckPrice(rec).Success?
    ensures CheckRating(CheckPrice(rec).value).Success?
    ensures CheckWarranty(CheckRating(CheckPrice(rec).value).value).Success?
    ensures Validate(rec).value == CoerceAvailable(CheckWarranty(CheckRating(CheckPrice(rec).value).value).value)
  {
  }

  // One lemma per checked field: the value the step for that field wrote is
  // the one the accepted record holds.

  lemma CoercedPrice(rec: Fields)
    requires Validate(rec).Success? && !IsNullish(Get(Object(rec), "price"))
    ensures "price" in Validate(rec).value
    ensures Validate(rec).value["price"] == Num(ToNumber(Get(Object(rec), "price")))
  {
    ValidateSteps(rec);
    var r1 := CheckPrice(rec).value;
    var r2 := CheckRating(r1).value;
    var r3 := CheckWarranty(r2).value;
    StepsChangeOnlyTheirField(r1);
    StepsChangeOnlyTheirField(r2);
    StepsChangeOnlyTheirField(r3);
    assert r1["price"] == Num(ToNumber(Get(Object(rec), "price")));
  }

  lemma CoercedRating(rec: Fields)
    requires Validate(rec).Success? && !IsNullish(Get(Object(rec), "rating"))
    ensures "rating" in Validate(rec).value
    ensures Validate(rec).value["rating"] == Num(ToNumber(Get(Object(rec), "rating")))
    ensures InRatingRange(ToNumber(Get(Object(rec), "rating")))
  {
    ValidateSteps(rec);
    var r1 := CheckPrice(rec).value;
    var r2 := CheckRating(r1).value;
    var r3 := CheckWarranty(r2).value;
    StepsChangeOnlyTheirField(rec);
    assert Get(Object(r1), "rating") == Get(Object(rec), "rating");
    StepsChangeOnlyTheirField(r2);
    StepsChangeOnlyTheirField(r3);
    assert r2["rating"] == Num(ToNumber(Get(Object(rec), "rating")));
  }

  lemma CoercedWarranty(rec: Fields)
    requires Validate(rec).Success? && !IsNullish(Get(Object(rec), "warranty_years"))
    ensures "warranty_years" in Validate(rec).value
    ensures Validate(rec).value["warranty_years"] == Num(ParseInt(Get(Object(rec), "warranty_years")))
    ensures WholeNonNegative(ParseInt(Get(Object(rec), "warranty_years")))
  {
    ValidateSteps(rec);
    var r1 := CheckPrice(rec).value;
    var r2 := CheckRating(r1).value;
    var r3 := CheckWarranty(r2).value;
    StepsChangeOnlyTheirField(rec);
    StepsChangeOnlyTheirField(r1);
    assert Get(Object(r2), "warranty_years") == Get(Object(rec), "warranty_years");
    StepsChangeOnlyTheirField(r3);
    assert r3["warranty_years"] == Num(ParseInt(Get(Object(rec), "warranty_years")));
  }

  lemma CoercedAvailable(rec: Fields)
    requires Validate(rec).Success? && !IsNullish(Get(Object(rec), "available"))
    ensures "available" in Validate(rec).value
    ensures Validate(rec).value["available"] == Bool(AvailableFlag(Get(Object(rec), "available")))
  {
    ValidateSteps(rec);
    var r1 := CheckPrice(rec).value;
    var r2 := CheckRating(r1).value;
    var r3 := CheckWarranty(r2).value;
    StepsChangeOnlyTheirField(rec);
    StepsChangeOnlyTheirField(r1);
    StepsChangeOnlyTheirField(r2);
    assert Get(Object(r3), "available") == Get(Object(rec), "available");
  }

  /** In an accepted record each present checked field holds its coerced
      value: `Number(price)`, `Number(rating)` within [0, 5],
      `parseInt(warranty_years, 10)` and the availability flag. */
  lemma ValidateCoerces(rec: Fields)
    requires Validate(rec).Success?
    ensures var out := Validate(rec).value; var f := Object(rec);
      && (!IsNullish(Get(f, "price")) ==> "price" in out && out["price"] == Num(ToNumber(Get(f, "price"))))
      && (!IsNullish(Get(f, "rating")) ==>
            "rating" in out && out["rating"] == Num(ToNumber(Get(f, "rating")))
            && InRatingRange(ToNumber(Get(f, "rating"))))
      && (!IsNullish(Get(f, "warranty_years")) ==>
            "warranty_years" in out && out["warranty_years"] == Num(ParseInt(Get(f, "warranty_years")))
            && WholeNonNegative(ParseInt(Get(f, "warranty_years"))))
      && (!IsNullish(Get(f, "available")) ==>
            "available" in out && out["available"] == Bool(AvailableFlag(Get(f, "available"))))
  {
    var f := Object(rec);
    if !IsNullish(Get(f, "price")) {
      CoercedPrice(rec);
    }
    if !IsNullish(Get(f, "rating")) {
      CoercedRating(rec);
    }
    if !IsNullish(Get(f, "warranty_years")) {
      CoercedWarranty(rec);
    }
    if !IsNullish(Get(f, "available")) {
      CoercedAvailable(rec);
    }
  }

  /** The rating is accepted exactly when it lies in [0, 5], both ends
      included, whatever it is written as. */
  lemma RatingBounds(rec: Fields)
    requires !PriceInvalid(rec) && !IsNullish(Get(Object(rec), "rating"))
    ensures Validate(rec) != Failure(RatingNaNMessage) && Validate(rec) != Failure(RatingRangeMessage)
      <==> InRatingRange(ToNumber(Get(Object(rec), "rating")))
  {
    ValidateRejects(rec);
  }

  /** Whatever passes validation satisfies the field checks. */
  lemma ValidatedFieldsOk(rec: Fields)
    requires Validate(rec).Success?
    ensures FieldsOk(Validate(rec).value)
  {
    ValidateKeepsOthers(rec);
    ValidateCoerces(rec);
    var out := Validate(rec).value;
    forall k | k in out ensures FieldOk(k, out[k]) {
      if k in CheckedKeys && IsNullish(Get(Object(rec), k)) {
        assert Get(Object(out), k) == out[k];
      }
    }
  }

  /** A shallow `$set` of checked fields keeps a document's id and its field
      checks. */
  lemma SetKeepsFieldsOk(doc: Fields, updates: Fields)
    requires FieldsOk(doc) && FieldsOk(updates) && "_id" !in updates && "_id" in doc
    ensures FieldsOk(doc + updates) && (doc + updates)["_id"] == doc["_id"]
  {
  }

  /** The record `createProduct` builds: the seven fields read from the body,
      `undefined` where the body has none; nothing else of the body. */
  function NewProduct(body: Fields): (rec: Fields)
    ensures rec.Keys == {"_id", "name", "type", "price", "rating", "warranty_years", "available"}
    ensures forall k :: k in rec ==> rec[k] == Get(Object(body), k)
  {
    map k | k in {"_id", "name", "type", "price", "rating", "warranty_years", "available"} :: Get(Object(body), k)
  }

  /** The keys `editProduct` copies from the body. */
  const Allowed: seq<string> := ["name", "type", "price", "rating", "warranty_years", "available"]

  /** The own properties of the body among the allowed keys. */
  function AllowedUpdates(body: Fields): (u: Fields)
    ensures "_id" !in u
    ensures forall k :: k in u <==> k in body && k in Allowed
    ensures forall k :: k in u ==> u[k] == body[k]
  {
    map k | k in body && k in Allowed :: body[k]
  }

  /** The fields as the driver writes them, on insert and in `$set` alike:
      `undefined` is serialised as null, every other value as it is. */
  function Written(rec: Fields): (w: Fields)
    ensures w.Keys == rec.Keys
    ensures forall f :: f in w ==> !w[f].Undefined?
    ensures forall f :: f in rec && !rec[f].Undefined? ==> w[f] == rec[f]
    ensures forall f :: f in rec && rec[f].Undefined? ==> w[f] == Null
  {
    map f | f in rec :: if rec[f].Undefined? then Null else rec[f]
  }

  /** Writing keeps checked fields checked, and a written record is written
      as it is. */
  lemma WrittenKeepsFieldsOk(rec: Fields)
    ensures FieldsOk(rec) ==> FieldsOk(Written(rec))
    ensures Written(Written(rec)) == Written(rec)
  {
  }

  /** The document stored for a record: the record as written, with `_id`
      set. */
  function StoredDoc(rec: Fields, k: DocId): (d: Fields)
    ensures "_id" in d && d["_id"] == IdJson(k)
    ensures d.Keys == rec.Keys + {"_id"}
    ensures forall f :: f in rec && f != "_id" ==> d[f] == Written(rec)[f]
  {
    Written(rec)["_id" := IdJson(k)]
  }

  /** The key a created record is stored under. */
  function NewKey(body: Fields, serial: nat): DocId {
    var id := Get(Object(body), "_id");
    if IsNullish(id) then GeneratedId(serial) else ClientId(id)
  }

  // ------------------------------------------------------------ the collection

  /** Every document carries its own id and passed the field checks, and no
      generated id is handed out twice. */
  predicate StoreValid(docs: map<DocId, Fields>, nextSerial: nat) {
    forall k :: k in docs ==>
      && "_id" in docs[k] && docs[k]["_id"] == IdJson(k)
      && FieldsOk(docs[k])
      && (k.GeneratedId? ==> k.serial < nextSerial)
  }

  /** Inserting a checked record under a fresh key keeps the store valid. */
  lemma InsertKeepsStoreValid(docs: map<DocId, Fields>, nextSerial: nat, k: DocId, rec: Fields)
    requires StoreValid(docs, nextSerial) && FieldsOk(rec) && k !in docs
    requires k.GeneratedId? ==> k.serial == nextSerial
    ensures StoreValid(docs[k := StoredDoc(rec, k)], if k.GeneratedId? then nextSerial + 1 else nextSerial)
  {
    var doc := StoredDoc(rec, k);
    forall f | f in doc ensures FieldOk(f, doc[f]) {
      if f != "_id" {
        assert FieldOk(f, rec[f]);
      }
    }
  }

  /** A `$set` of checked fields without `_id` keeps the store valid. */
  lemma SetKeepsStoreValid(docs: map<DocId, Fields>, nextSerial: nat, k: DocId, updates: Fields)
    requires StoreValid(docs, nextSerial) && k in docs && FieldsOk(updates) && "_id" !in updates
    ensures StoreValid(docs[k := docs[k] + updates], nextSerial)
  {
    SetKeepsFieldsOk(docs[k], updates);
  }

  /** An accepted record inserted under a fresh key keeps the store valid. */
  lemma ValidatedInsertKeepsStoreValid(docs: map<DocId, Fields>, nextSerial: nat, k: DocId, rec: Fields)
    requires StoreValid(docs, nextSerial) && Validate(rec).Success? && k !in docs
    requires k.GeneratedId? ==> k.serial == nextSerial
    ensures StoreValid(docs[k := StoredDoc(Validate(rec).value, k)], if k.GeneratedId? then nextSerial + 1 else nextSerial)
  {
    ValidatedFieldsOk(rec);
    InsertKeepsStoreValid(docs, nextSerial, k, Validate(rec).value);
  }

  /** Accepted updates without `_id` written into a document keep the store
      valid. */
  lemma ValidatedSetKeepsStoreValid(docs: map<DocId, Fields>, nextSerial: nat, k: DocId, updates: Fields)
    requires StoreValid(docs, nextSerial) && k in docs && Validate(updates).Success? && "_id" !in updates
    ensures StoreValid(docs[k := docs[k] + Written(Validate(updates).value)], nextSerial)
  {
    ValidatedFieldsOk(updates);
    ValidateKeepsOthers(updates);
    WrittenKeepsFieldsOk(Validate(updates).value);
    SetKeepsStoreValid(docs, nextSerial, k, Written(Validate(updates).value));
  }

  class ProductStore {
    var docs: map<DocId, Fields>
    var nextSerial: nat

    ghost predicate Valid()
      reads this
    {
      StoreValid(docs, nextSerial)
    }

    constructor ()
      ensures Valid() && docs == map[] && nextSerial == 0
    {
      docs := map[];
      nextSerial := 0;
    }

    /** The checks of `createProduct` and `editProduct`, step by step on the
        record being built; the first failing check ends the handler. */
    static method CheckFields(rec: Fields) returns (r: Result<Fields>)
      ensures r == Validate(rec)
    {
      var out := rec;
      var price := Get(Object(out), "price");
      if !IsNullish(price) {
        out := out["price" := Num(ToNumber(price))];
        if ToNumber(price).NaN? {
          return Failure(PriceMessage);
        }
      }
      var rating := Get(Object(out), "rating");
      if !IsNullish(rating) {
        out := out["rating" := Num(ToNumber(rating))];
        if ToNumber(rating).NaN? {
          return Failure(RatingNaNMessage);
        }
        if !InRatingRange(ToNumber(rating)) {
          return Failure(RatingRangeMessage);
        }
      }
      var warranty := Get(Object(out), "warranty_years");
      if !IsNullish(warranty) {
        out := out["warranty_years" := Num(ParseInt(warranty))];
        if !WholeNonNegative(ParseInt(warranty)) {
          return Failure(WarrantyMessage);
        }
      }
      var available := Get(Object(out), "available");
      if !IsNullish(available) {
        out := out["available" := Bool(AvailableFlag(available))];
      }
      return Success(out);
    }

    /** `createProduct`: a record failing a check is answered 400 with its
        message and not inserted; an `_id` already used is a duplicate-key
        error (500); otherwise the record is stored and the reply is the
        driver's insert result. */
    method CreateProduct(body: Fields) returns (res: Response)
      requires Valid()
      modifies this
      ensures Valid()
      ensures var v := Validate(NewProduct(body)); var k := NewKey(body, old(nextSerial));
        && (v.Failure? ==> res == ErrorReply(400, v.error) && docs == old(docs))
        && (v.Success? && k in old(docs) ==> res == NextError(DuplicateKeyMessage) && docs == old(docs))
        && (v.Success? && k !in old(docs) ==>
              res == Response(200, InsertReply(k)) && docs == old(docs)[k := StoredDoc(v.value, k)])
      ensures nextSerial >= old(nextSerial)
    {
      var rec := NewProduct(body);
      var checked := CheckFields(rec);
      if checked.Failure? {
        return ErrorReply(400, checked.error);
      }
      var k := NewKey(body, nextSerial);
      if k in docs {
        return NextError(DuplicateKeyMessage);
      }
      ValidatedInsertKeepsStoreValid(docs, nextSerial, k, rec);
      docs := docs[k := StoredDoc(checked.value, k)];
      if k.GeneratedId? {
        nextSerial := nextSerial + 1;
      }
      return Response(200, InsertReply(k));
    }

    /** Building `updates`: one pass over the allow-list, copying each key the
        body owns. */
    static method BuildUpdates(body: Fields) returns (updates: Fields)
      ensures updates == AllowedUpdates(body)
    {
      updates := map[];
      for i := 0 to |Allowed|
        invariant updates == map k | k in body && k in Allowed[..i] :: body[k]
      {
        var key := Allowed[i];
        if key in body {
          updates := updates[key := body[key]];
        }
      }
      assert Allowed[..|Allowed|] == Allowed;
    }

    /** `editProduct`: a path id that is not a number is answered 400 before
        any write; failing checks are answered 400; otherwise `$set` writes
        the coerced updates into the document with that numeric id, if any,
        and the reply is the driver's update result. */
    method EditProduct(pathId: string, body: Fields) returns (res: Response)
      requires Valid()
      modifies this
      ensures Valid() && nextSerial == old(nextSerial)
      ensures var id := StringToNumber(pathId); var v := Validate(AllowedUpdates(body)); var k := ClientId(Num(id));
        && (id.NaN? ==> res == ErrorReply(400, InvalidEditIdMessage) && docs == old(docs))
        && (!id.NaN? && v.Failure? ==> res == ErrorReply(400, v.error) && docs == old(docs))
        && (!id.NaN? && v.Success? && k !in old(docs) ==>
              res == Response(200, UpdateReply(false, false)) && docs == old(docs))
        && (!id.NaN? && v.Success? && k in old(docs) ==>
              && docs == old(docs)[k := old(docs)[k] + Written(v.value)]
              && res == Response(200, UpdateReply(true, old(docs)[k] + Written(v.value) != old(docs)[k])))
    {
      var id := StringToNumber(pathId);
      var updates := BuildUpdates(body);
      if id.NaN? {
        return ErrorReply(400, InvalidEditIdMessage);
      }
      var checked := CheckFields(updates);
      if checked.Failure? {
        return ErrorReply(400, checked.error);
      }
      res := UpdateOne(ClientId(Num(id)), updates);
    }

    /** `updateOne({ _id: k }, { $set })` with updates that passed the checks:
        no document matched leaves the store as it was; otherwise the coerced
        fields, as the driver writes them, go over the document's, and the
        reply says whether that changed it. */
    method UpdateOne(k: DocId, updates: Fields) returns (res: Response)
      requires Valid() && Validate(updates).Success? && "_id" !in updates
      modifies this
      ensures Valid() && nextSerial == old(nextSerial)
      ensures k !in old(docs) ==> res == Response(200, UpdateReply(false, false)) && docs == old(docs)
      ensures k in old(docs) ==>
        && docs == old(docs)[k := old(docs)[k] + Written(Validate(updates).value)]
        && res == Response(200, UpdateReply(true, old(docs)[k] + Written(Validate(updates).value) != old(docs)[k]))
    {
      if k !in docs {
        return Response(200, UpdateReply(false, false));
      }
      var checked := CheckFields(updates);
      ValidatedSetKeepsStoreValid(docs, nextSerial, k, updates);
      var merged := docs[k] + Written(checked.value);
      var changed := merged != docs[k];
      docs := docs[k := merged];
      return Response(200, UpdateReply(true, changed));
    }

    /** `getProductById`: 400 for a path id that is not a number, 404 when no
        document has that numeric id, otherwise the document. */
    method GetProductById(pathId: string) returns (res: Response)
      ensures var id := StringToNumber(pathId); var k := ClientId(Num(id));
        && (id.NaN? ==> res == ErrorReply(400, InvalidIdMessage))
        && (!id.NaN? && k !in docs ==> res == ErrorReply(404, NotFoundMessage))
        && (!id.NaN? && k in docs ==> res == Response(200, Object(docs[k])))
    {
      var id := StringToNumber(pathId);
      if id.NaN? {
        return ErrorReply(400, InvalidIdMessage);
      }
      var k := ClientId(Num(id));
      if k !in docs {
        return ErrorReply(404, NotFoundMessage);
      }
      return Response(200, Object(docs[k]));
    }

    /** `deleteProduct`: 400 for a path id that is not a number; otherwise the
        document with that numeric id, if any, is removed and the reply is the
        driver's delete result (so deleting twice also answers 200). */
    method DeleteProduct(pathId: string) returns (res: Response)
      requires Valid()
      modifies this
      ensures Valid() && nextSerial == old(nextSerial)
      ensures var id := StringToNumber(pathId); var k := ClientId(Num(id));
        && (id.NaN? ==> res == ErrorReply(400, InvalidIdMessage) && docs == old(docs))
        && (!id.NaN? ==> res == Response(200, DeleteReply(k in old(docs))) && docs == old(docs) - {k})
    {
      var id := StringToNumber(pathId);
      if id.NaN? {
        return ErrorReply(400, InvalidIdMessage);
      }
      var k := ClientId(Num(id));
      var found := k in docs;
      docs := docs - {k};
      return Response(200, DeleteReply(found));
    }
  }
}
