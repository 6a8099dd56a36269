/** Where the pieces meet: what the client makes of the server's replies
    (through the response interceptor of frontend/src/api/http.jsx), what the
    server makes of the form's payload, and how the slice and the page treat
    the same pushed record. */
module Pipeline {
  import opened Wrappers
  import opened JsValues
  import opened Normalize
  import opened ProductsSlice
  import opened ProductsPage
  import opened ProductForm
  import opened ProductController

  // ------------------------------------------------------------ the wire

  /** The message the response interceptor rejects with:
      `data?.error?.message || err.message || "Network error"`, where
      `transportMessage` is the HTTP client's own text for the failure. */
  function InterceptedMessage(data: JsValue, transportMessage: string): (m: string)
    ensures Truthy(Get(Get(data, "error"), "message")) ==> m == JsString(Get(Get(data, "error"), "message"))
    ensures !Truthy(Get(Get(data, "error"), "message")) ==>
      m == (if transportMessage != "" then transportMessage else "Network error")
  {
    var detail := Get(Get(data, "error"), "message");
    if Truthy(detail) then JsString(detail)
    else if transportMessage != "" then transportMessage
    else "Network error"
  }

  /** A server response as the client's HTTP call sees it: `res.json` writes
      the body as JSON and the HTTP client parses it back, so a 2xx reply
      carries the encoded body and any other status is a rejection with the
      message intercepted from it. */
  function Delivered(res: Response, transportMessage: string): (r: HttpReply)
    ensures 200 <= res.status < 300 <==> r.Reply?
    ensures r.Reply? ==> r.body == Json(OnWire(res.body)) && JsonSafe(r.body.value)
    ensures r.HttpError? ==> r.message == InterceptedMessage(OnWire(res.body), transportMessage)
  {
    OnWireIsJsonSafe(res.body);
    if 200 <= res.status < 300 then Reply(Json(OnWire(res.body)))
    else HttpError(InterceptedMessage(OnWire(res.body), transportMessage))
  }

  /** The body a handler receives for a payload the client sends: the HTTP
      client writes it with `JSON.stringify` and `express.json()` parses it.
      A key holding `undefined` is not sent, and a number JSON cannot write
      arrives as null. */
  function Sent(payload: Fields): (body: Fields)
    ensures forall k :: k in body <==> k in payload && !payload[k].Undefined?
    ensures forall k :: Get(Object(body), k) == OnWire(Get(Object(payload), k))
    ensures JsonSafe(Object(body))
  {
    OnWireIsJsonSafe(Object(payload));
    OnWire(Object(payload)).fields
  }

  /** The controller's own checks answer `{ error: "<text>" }`, which has no
      `error.message`: the client shows the transport's text instead. Errors
      passed to `next` answer `{ error: { message } }` and are shown. */
  lemma ErrorMessagesAsDelivered(status: int, message: string, transportMessage: string)
    requires !(200 <= status < 300)
    ensures Delivered(ErrorReply(status, message), transportMessage) ==
      HttpError(if transportMessage != "" then transportMessage else "Network error")
    ensures Delivered(NextError(message), transportMessage) ==
      HttpError(if message == "" then "Internal Server Error" else message)
  {
    var b := NextError(message).body;
    GetOnWire(b, "error");
    GetOnWire(Get(b, "error"), "message");
  }

  /** The interceptor as the controller's replies need it: a string `error`
      is itself the message. */
  function CorrectedInterceptedMessage(data: JsValue, transportMessage: string): (m: string)
    ensures Get(data, "error").Str? && Get(data, "error").s != "" ==> m == Get(data, "error").s
    ensures !Get(data, "error").Str? ==> m == InterceptedMessage(data, transportMessage)
  {
    var e := Get(data, "error");
    if e.Str? && e.s != "" then e.s else InterceptedMessage(data, transportMessage)
  }

  /** With the corrected interceptor both kinds of error reply surface the
      server's own message. */
  lemma CorrectedMessagesShown(status: int, message: string, transportMessage: string)
    requires message != ""
    ensures CorrectedInterceptedMessage(ErrorReply(status, message).body, transportMessage) == message
    ensures CorrectedInterceptedMessage(NextError(message).body, transportMessage) == message
  {
  }

  // ------------------------------------------------- create and edit replies

  /** `createProduct` answers 200 with the driver's insert result, which has
      no `_id`: the slice's thunk and the page's create path both turn the
      stored product into the error "POST: API n’a pas renvoyé _id". */
  lemma CreateReplyRejected(k: DocId, editing: JsValue, transportMessage: string)
    requires !Truthy(editing)
    ensures var reply := Delivered(Response(200, InsertReply(k)), transportMessage);
      && CreateThunk(reply) == Failure(PostWithoutIdMessage)
      && SubmitOutcome(editing, reply) == Failure(PostWithoutIdMessage)
  {
    DriverRepliesHaveNoId(k, false, false, false);
  }

  /** `editProduct` answers 200 with the driver's update result: the slice's
      thunk rejects it, and the page reports success but its rows stay as
      they were. */
  lemma EditReplyIgnored(rows: seq<JsValue>, editing: JsValue, matched: bool, modified: bool, transportMessage: string)
    requires NormalRows(rows) && Truthy(editing)
    ensures var reply := Delivered(Response(200, UpdateReply(matched, modified)), transportMessage);
      && UpdateThunk(reply) == Failure(PatchWithoutIdMessage)
      && SubmitOutcome(editing, reply).Success?
      && SubmitOutcome(editing, reply).value.id.None?
      && ReconciledRows(rows, SubmitOutcome(editing, reply).value) == rows
  {
    var reply := Delivered(Response(200, UpdateReply(matched, modified)), transportMessage);
    DriverRepliesHaveNoId(GeneratedId(0), matched, modified, false);
    EditWithoutIdKeepsRows(rows, editing, reply);
  }

  /** The reply the client is written for: the stored document itself. */
  function RecordReply(doc: Fields): (res: Response)
    ensures res.status == 200 && res.body.Object? && Get(res.body, "_id") == Get(Object(doc), "_id")
  {
    Response(200, Object(doc))
  }

  /** Answered with the stored document, under a numeric id, both thunks and
      both paths of the page accept the record the client receives (the
      document after JSON), and afterwards the page's row for that id holds
      exactly it. */
  lemma RecordReplyAccepted(rows: seq<JsValue>, editing: JsValue, doc: Fields, x: real, transportMessage: string)
    requires NormalRows(rows)
    requires "_id" in doc && doc["_id"] == Num(Finite(x))
    ensures var reply := Delivered(RecordReply(doc), transportMessage);
      var prod := NormalizeProduct(OnWire(Object(doc)));
      && prod.id == Some(Finite(x))
      && CreateThunk(reply) == Success(prod)
      && UpdateThunk(reply) == Success(prod)
      && SubmitOutcome(editing, reply) == Success(prod)
      && var r := ReconciledRows(rows, prod);
         var k := FindIndex(r, Finite(x));
         k >= 0 && NormalizeProduct(r[k]) == prod
  {
    GetOnWire(Object(doc), "_id");
    var prod := NormalizeProduct(OnWire(Object(doc)));
    NormalizeRoundTrip(prod);
    ReplaceByIdThenFind(rows, ToValue(prod));
  }

  /** A price text "Infinity" passes the server's check and is stored as
      Infinity. */
  lemma InfinityTextPassesPriceCheck(rec: Fields)
    requires Get(Object(rec), "price") == Str("Infinity")
    ensures CheckPrice(rec) == Success(rec["price" := Num(PosInfinity)])
    ensures Validate(rec).Success? ==> "price" in Validate(rec).value && Validate(rec).value["price"] == Num(PosInfinity)
  {
    InfinityText();
    if Validate(rec).Success? {
      ValidateCoerces(rec);
    }
  }

  lemma InfinityText()
    ensures ToNumber(Str("Infinity")) == PosInfinity
  {
    assert TrimStart("Infinity") == "Infinity";
    assert TrimEnd("Infinity") == "Infinity";
  }

  /** A record stored with a price of Infinity reaches the client with the
      price written as null, which the client reads as 0. */
  lemma InfinitePriceReadAsZero(rec: Fields, x: real, transportMessage: string)
    requires "price" in rec && rec["price"] == Num(PosInfinity)
    ensures var doc := StoredDoc(rec, ClientId(Num(Finite(x))));
      var reply := Delivered(RecordReply(doc), transportMessage);
      && Get(reply.body.value, "price") == Null
      && CreateThunk(reply).Success? && CreateThunk(reply).value.price == Finite(0.0)
  {
    var doc := StoredDoc(rec, ClientId(Num(Finite(x))));
    assert doc["price"] == Num(PosInfinity);
    GetOnWire(Object(doc), "price");
    RecordReplyAccepted([], Null, doc, x, transportMessage);
  }

  /** A client-chosen numeric id is what the stored document carries, so a
      create answered with its document is accepted. */
  lemma StoredDocReplyAccepted(rows: seq<JsValue>, rec: Fields, x: real, transportMessage: string)
    requires NormalRows(rows)
    ensures var doc := StoredDoc(rec, ClientId(Num(Finite(x))));
      var reply := Delivered(RecordReply(doc), transportMessage);
      && CreateThunk(reply).Success?
      && CreateThunk(reply).value.id == Some(Finite(x))
  {
    var doc := StoredDoc(rec, ClientId(Num(Finite(x))));
    RecordReplyAccepted(rows, Null, doc, x, transportMessage);
  }

  // --------------------------------------------------- form to validation

  /** An empty warranty field is sent as `''`, which `parseInt` makes NaN:
      neither create nor edit accepts the payload, whatever else it holds. */
  lemma BlankWarrantyRejected(form: Form, showId: bool)
    requires Get(Object(form), "warranty_years") == Str("")
    ensures Validate(NewProduct(Sent(Payload(form, showId)))).Failure?
    ensures Validate(AllowedUpdates(Sent(Payload(form, showId)))).Failure?
  {
    var b := Sent(Payload(form, showId));
    assert Get(Object(b), "warranty_years") == Str("");
    assert "warranty_years" in Allowed;
    BlankWarrantyFails(NewProduct(b));
    BlankWarrantyFails(AllowedUpdates(b));
  }

  lemma BlankWarrantyFails(u: Fields)
    requires Get(Object(u), "warranty_years") == Str("")
    ensures Validate(u).Failure?
  {
    assert ParseInt(Str("")) == NaN;
    assert WarrantyInvalid(u);
    ValidateRejects(u);
  }

  /** A warranty text `parseInt` cannot read (".5", "abc") becomes NaN in the
      payload, which JSON sends as null: the server's warranty check lets it
      through, and an accepted record keeps no warranty. */
  lemma UnparsableWarrantySentAsNull(form: Form, showId: bool)
    requires Get(Object(form), "warranty_years") != Str("")
    requires ParseInt(Get(Object(form), "warranty_years")).NaN?
    ensures var b := Sent(Payload(form, showId));
      && Payload(form, showId)["warranty_years"] == Num(NaN)
      && "warranty_years" in b && b["warranty_years"] == Null
      && !WarrantyInvalid(NewProduct(b)) && !WarrantyInvalid(AllowedUpdates(b))
      && (Validate(AllowedUpdates(b)).Success? ==>
            Get(Object(Validate(AllowedUpdates(b)).value), "warranty_years") == Null)
  {
    var b := Sent(Payload(form, showId));
    assert Get(Object(b), "warranty_years") == Null;
    assert "warranty_years" in Allowed;
    NullWarrantyPasses(NewProduct(b));
    NullWarrantyPasses(AllowedUpdates(b));
  }

  lemma NullWarrantyPasses(u: Fields)
    requires Get(Object(u), "warranty_years") == Null
    ensures !WarrantyInvalid(u)
    ensures Validate(u).Success? ==> Get(Object(Validate(u).value), "warranty_years") == Null
  {
    if Validate(u).Success? {
      ValidateKeepsOthers(u);
    }
  }

  /** The untouched edit form of a product without a warranty: the payload
      holds its price and rating and `''` for the warranty, and the server
      receives them as JSON carries them. */
  lemma UntouchedPayload(n: Product)
    requires WellFormed(n) && (n.warrantyYears.Null? || n.warrantyYears == Str(""))
    ensures var p := Payload(InitialForm(ToValue(n)), false);
      && "price" in p && p["price"] == Num(n.price)
      && "rating" in p && p["rating"] == Num(n.rating)
      && "warranty_years" in p && p["warranty_years"] == Str("")
    ensures var b := Sent(Payload(InitialForm(ToValue(n)), false));
      && Get(Object(b), "price") == OnWire(Num(n.price))
      && Get(Object(b), "rating") == OnWire(Num(n.rating))
      && Get(Object(b), "warranty_years") == Str("")
  {
    UntouchedForm(n);
  }

  lemma UntouchedForm(n: Product)
    requires WellFormed(n) && (n.warrantyYears.Null? || n.warrantyYears == Str(""))
    ensures var p := Payload(InitialForm(ToValue(n)), false);
      && "price" in p && p["price"] == Num(n.price)
      && "rating" in p && p["rating"] == Num(n.rating)
      && "warranty_years" in p && p["warranty_years"] == Str("")
  {
    var v := ToValue(n);
    var form := InitialForm(v);
    assert Get(v, "price") == Num(n.price) && Get(v, "rating") == Num(n.rating);
    assert form["price"] == Num(n.price) && form["rating"] == Num(n.rating);
    assert IsNullish(Get(v, "warranty_years")) || Get(v, "warranty_years") == Str("");
    assert form["warranty_years"] == Str("");
  }

  /** A record whose price and rating pass their checks unchanged is judged
      by the warranty step alone. */
  lemma OnlyWarrantyDecides(u: Fields)
    requires CheckPrice(u) == Success(u) && CheckRating(u) == Success(u)
    ensures var w := Get(Object(u), "warranty_years");
      && (w == Str("") ==> Validate(u) == Failure(WarrantyMessage))
      && (IsNullish(w) ==> Validate(u).Success? && Get(Object(Validate(u).value), "warranty_years") == w)
  {
    var w := Get(Object(u), "warranty_years");
    if w == Str("") {
      assert ParseInt(w) == NaN;
      assert CheckWarranty(u) == Failure(WarrantyMessage);
    } else if IsNullish(w) {
      assert CheckWarranty(u) == Success(u);
      assert Get(Object(CoerceAvailable(u)), "warranty_years") == w;
    }
  }

  /** A price and rating that crossed the wire pass their checks unchanged,
      unless the rating is a finite number out of range: a NaN or infinite
      one arrives as null. */
  lemma SentPriceAndRatingPass(u: Fields, price: JsNumber, rating: JsNumber)
    requires Get(Object(u), "price") == OnWire(Num(price))
    requires Get(Object(u), "rating") == OnWire(Num(rating))
    requires rating.Finite? ==> InRatingRange(rating)
    ensures CheckPrice(u) == Success(u) && CheckRating(u) == Success(u)
  {
    if price.Finite? {
      assert u["price" := Num(price)] == u;
    }
    if rating.Finite? {
      assert u["rating" := Num(rating)] == u;
    }
  }

  /** Editing a product that has no warranty and submitting the untouched
      form is refused with the warranty message. */
  lemma UntouchedEditWithoutWarrantyRejected(n: Product)
    requires WellFormed(n) && (n.warrantyYears.Null? || n.warrantyYears == Str(""))
    requires n.rating.Finite? ==> InRatingRange(n.rating)
    ensures Validate(AllowedUpdates(Sent(Payload(InitialForm(ToValue(n)), false)))) == Failure(WarrantyMessage)
  {
    UntouchedPayload(n);
    var b := Sent(Payload(InitialForm(ToValue(n)), false));
    var u := AllowedUpdates(b);
    assert "price" in Allowed && "rating" in Allowed && "warranty_years" in Allowed;
    assert Get(Object(u), "price") == Get(Object(b), "price");
    assert Get(Object(u), "rating") == Get(Object(b), "rating");
    assert Get(Object(u), "warranty_years") == Str("");
    SentPriceAndRatingPass(u, n.price, n.rating);
    OnlyWarrantyDecides(u);
  }

  /** The payload with an empty warranty sent as null, which the server
      leaves as "no warranty". */
  function CorrectedPayload(form: Form, showId: bool): (p: map<string, JsValue>)
    ensures p.Keys == Payload(form, showId).Keys
    ensures Get(Object(form), "warranty_years") == Str("") ==> "warranty_years" in p && p["warranty_years"] == Null
    ensures forall k :: k in p && k != "warranty_years" ==> p[k] == Payload(form, showId)[k]
  {
    var p := Payload(form, showId);
    if Get(Object(form), "warranty_years") == Str("") then p["warranty_years" := Null] else p
  }

  /** With the corrected payload, the untouched edit of a product without a
      warranty passes validation and keeps the warranty absent. */
  lemma CorrectedBlankWarrantyAccepted(n: Product)
    requires WellFormed(n) && (n.warrantyYears.Null? || n.warrantyYears == Str(""))
    requires n.rating.Finite? ==> InRatingRange(n.rating)
    ensures var v := Validate(AllowedUpdates(Sent(CorrectedPayload(InitialForm(ToValue(n)), false))));
      v.Success? && Get(Object(v.value), "warranty_years") == Null
  {
    UntouchedPayload(n);
    var form := InitialForm(ToValue(n));
    assert Get(Object(form), "warranty_years") == Str("");
    var c := CorrectedPayload(form, false);
    assert c["price"] == Num(n.price) && c["rating"] == Num(n.rating);
    assert c["warranty_years"] == Null;
    var b := Sent(c);
    assert Get(Object(b), "price") == OnWire(Num(n.price));
    assert Get(Object(b), "rating") == OnWire(Num(n.rating));
    assert Get(Object(b), "warranty_years") == Null;
    var u := AllowedUpdates(b);
    assert "price" in Allowed && "rating" in Allowed && "warranty_years" in Allowed;
    assert Get(Object(u), "price") == Get(Object(b), "price");
    assert Get(Object(u), "rating") == Get(Object(b), "rating");
    assert Get(Object(u), "warranty_years") == Null;
    SentPriceAndRatingPass(u, n.price, n.rating);
    OnlyWarrantyDecides(u);
  }

  // --------------------------------------------------------- pushed records

  /** A pushed record whose `_id` is text that is not a number passes the
      slice's `_id != null` test and is upserted under the key NaN, while
      the page's `replaceById` drops it. */
  lemma NaNPushDiverges(payload: JsValue, t: Table, rows: seq<JsValue>)
    requires payload.Object? && !IsNullish(Get(payload, "_id")) && ToNumber(Get(payload, "_id")).NaN?
    ensures var n := NormalizeProduct(payload);
      && n.id == Some(NaN)
      && NaN in UpsertOne(t, ToValue(n).fields).entities
      && ReplaceById(rows, ToValue(n)) == Compact(rows)
  {
    var n := NormalizeProduct(payload);
    NormalizeRoundTrip(n);
    assert KeyOf(ToValue(n).fields) == NaN;
  }

  /** `wsCreated`/`wsUpdated` with the same id test as `replaceById`. */
  function GuardedWsUpsert(t: Table, payload: JsValue): Table
    requires !payload.Null?
  {
    var n := NormalizeProduct(payload);
    if HasUsableId(n) then UpsertOne(t, ToValue(n).fields) else t
  }

  /** The guarded upsert keeps the table valid and free of NaN keys, and
      accepts exactly the records the page's `replaceById` accepts. */
  lemma GuardedWsUpsertKeepsNaNOut(t: Table, payload: JsValue, rows: seq<JsValue>)
    requires TableValid(t) && NaN !in t.entities && !payload.Null?
    ensures var g := GuardedWsUpsert(t, payload); var n := NormalizeProduct(payload);
      && TableValid(g) && NaN !in g.entities
      && (HasUsableId(n) ==> n.id.value in g.entities && g == UpsertOne(t, ToValue(n).fields))
      && (!HasUsableId(n) ==> g == t && ReplaceById(rows, ToValue(n)) == Compact(rows))
  {
    var n := NormalizeProduct(payload);
    if HasUsableId(n) {
      NormalizeRoundTrip(n);
      assert KeyOf(ToValue(n).fields) == n.id.value;
      UpsertOneKeepsValid(t, ToValue(n).fields);
      UpsertOneEffect(t, ToValue(n).fields);
    } else {
      NormalizeRoundTrip(n);
    }
  }
}
