# Product catalogue: record pipeline model

This project is a Dafny model of the product-record pipeline of a small
catalogue application. The backend is Express and MongoDB; the frontend is
React and Redux. The model covers how a product record travels through it:

- The server builds a record from a request body, coerces and validates
  price, rating, warranty and availability in a fixed order, and writes it
  to the `products` collection. It checks path ids of `getProductById`,
  `editProduct` and `deleteProduct`.
- The client's `normalizeProduct` gives every record the same seven fields.
  `replaceById` inserts or merges one record into a list of rows.
- The Redux products slice keeps an entity table sorted by numeric id. It has
  a fetch status machine, the checks its async thunks make on replies, and
  reducers for REST results and pushed events.
- `ProductsPage` keeps its own `rows` next to the slice. It reconciles them
  on fetch, on the three push events, and when a create, edit or delete
  completes.
- `ProductFormDialog` holds the form state, its three change handlers and
  the payload it submits.
- The auth controller has `register` and `login` over the `users`
  collection, and the claims `signToken` puts in a token.

JavaScript values are modelled by `JsValues.JsValue`. It has undefined, null,
booleans, numbers (finite, ±Infinity, NaN), strings and plain objects. The
coercions the code relies on are written out: `Number`, `parseInt(…, 10)`,
truthiness, `== null`, `??`, `===` and `String`. Every body that crosses
between client and server is written by `JSON.stringify` and parsed back:
`JsValues.OnWire` is that round trip, which turns NaN and ±Infinity into null
and drops keys holding undefined. `Pipeline.Delivered` applies it to replies
and `Pipeline.Sent` to request bodies.

Stateful code becomes classes whose methods update fields. This covers:

- the slice state (`ProductsSlice.ProductsState`);
- the page's state cells (`ProductsPage.Page`);
- the form (`ProductForm.ProductFormDialog`);
- the `products` collection (`ProductController.ProductStore`, a map from
  document id to document);
- the `users` collection (`AuthController.UserStore`, a sequence in insertion
  order).

Each method's contract ties the new state to pure functions. The properties
of those functions are proved as lemmas.

Everything outside the program is a parameter:

- the reply an HTTP call receives;
- the bcrypt salt;
- the clock;
- the configured token expiry.

bcrypt is modelled by a value holding the salt and the first 72 characters of
the password. A JWT is modelled by its claims and its expiry.

Files:

- wrappers.dfy: `Option` and `Result`.
- js_values.dfy: the value model and its coercions.
- normalize.dfy: `normalizeProduct` and `replaceById`.
- products_slice.dfy: the entity adapter, the thunks and the slice.
- products_page.dfy: the page's row handling.
- product_form.dfy: the form dialog.
- product_controller.dfy: the product handlers and the collection.
- auth_controller.dfy: the user registry.
- pipeline.dfy: properties that span the server, the wire and the client.

## Model

| member | source | states |
|---|---|---|
| JsValues.GreaterIsStrictOrder | frontend/src/features/products/productsSlice.jsx:8 | the comparer's "ranks above" relation is asymmetric and transitive, and ranks any two distinct ids that are not NaN |
| JsValues.ParseIntString | backend/controllers/product.controller.js:74 | `parseInt(s, 10)` of a string is NaN or a whole number |
| JsValues.ParseIntNumber | backend/controllers/product.controller.js:151 | `parseInt(x, 10)` of a finite number truncates it when `String(x)` has no exponent, and otherwise gives its signed leading digit |
| JsValues.ParseInt | backend/controllers/product.controller.js:151 | `parseInt(v, 10)` is NaN or a whole number, for every kind of value |
| JsValues.ParseIntWholeNumber | backend/controllers/product.controller.js:151 | a whole number parses to itself exactly when its magnitude is below 10^21 |
| JsValues.ParseIntIdempotent | frontend/src/components/ProductFormDialog.jsx:58 | parsing an already parsed warranty again changes it exactly when the first result is 10^21 or more in magnitude |
| JsValues.ParseIntTwiceOfHugeText | frontend/src/components/ProductFormDialog.jsx:58 | "1" followed by 21 or more zeros parses to 10^n, and parsing that number again gives 1 |
| JsValues.NumberIgnoresLeadingSpace | backend/controllers/product.controller.js:52 | for every text, a leading white-space character (Unicode space separators such as U+3000 included) changes neither `Number` nor `parseInt` |
| JsValues.NumberIgnoresTrailingSpace | backend/controllers/product.controller.js:52 | for every text, a trailing white-space character does not change `Number` |
| JsValues.OnWire | frontend/src/api/http.jsx:14-17 | after the JSON round trip an object is an object keeping exactly its keys that do not hold undefined, a number is a number or null, and any other value is unchanged |
| JsValues.OnWireIsJsonSafe | backend/server.js:9 | the round trip yields a JSON-safe value (no NaN, no infinity, no undefined key), leaves a value unchanged exactly when it is JSON-safe, and applied twice is applied once |
| JsValues.GetOnWire | frontend/src/api/http.jsx:14-17 | reading a key of the value received is encoding the key's value as sent |
| JsValues.ObjectIdTextInjective | backend/controllers/auth.controller.js:38 | two generated ids below 16^24 never share their 24-hex-digit text |
| Normalize.ToValue | frontend/src/utils/normalize.jsx:2-10 | a normalised record is an object with exactly the seven product keys; its `_id` is the number or undefined |
| Normalize.NormalizeProduct | frontend/src/utils/normalize.jsx:2-10 | `_id` is undefined exactly when the input `_id` is null or undefined, else `Number(_id)`; missing price and rating become 0; `available` is the input's truthiness; defaults are always applied |
| Normalize.NormalizeRoundTrip | frontend/src/utils/normalize.jsx:2-10 | normalising the object form of a normalised record gives the same record |
| Normalize.NormalizeIdempotent | frontend/src/utils/normalize.jsx:2-10 | normalising twice equals normalising once |
| Normalize.NormalizePassThrough | frontend/src/utils/normalize.jsx:4-9 | present name, type and warranty pass through uncoerced; the string "false" gives `available` true; `normalizeProduct()` gives the all-defaults record |
| Normalize.Compact | frontend/src/utils/normalize.jsx:19 | `filter(Boolean)` keeps exactly the truthy entries of the list |
| Normalize.FindIndex | frontend/src/utils/normalize.jsx:20 | the result is -1 when no entry matches the id, else the first matching position |
| Normalize.FindIndexIsFirst | frontend/src/utils/normalize.jsx:20 | a first matching position is the one `findIndex` returns |
| Normalize.ReplaceById | frontend/src/utils/normalize.jsx:13-25 | the result has no falsy entries; its length is the compacted length or one more, and one more exactly when the id is usable and new |
| Normalize.ReplaceByIdPrepends | frontend/src/utils/normalize.jsx:18-21 | a usable new id puts the normalised record in front of the compacted list |
| Normalize.ReplaceByIdMergesFirstMatch | frontend/src/utils/normalize.jsx:20-24 | a known id replaces only the first matching row, with `{...old, ...item, _id: id}`; length and every other row stay |
| Normalize.ReplaceByIdRejects | frontend/src/utils/normalize.jsx:14-17 | a null, undefined or NaN id only compacts the list |
| Normalize.MergeRowNormalizes | frontend/src/utils/normalize.jsx:23 | a merged row normalises to the incoming record, and its numeric id is the record's id |
| Normalize.CompactKeepsDistinctIds | frontend/src/utils/normalize.jsx:19 | compacting keeps the ids pairwise distinct |
| Normalize.ReplaceByIdKeepsIdsDistinct | frontend/src/utils/normalize.jsx:13-25 | if no two input rows share a numeric id, no two output rows do |
| Normalize.ReplaceByIdIdempotent | frontend/src/utils/normalize.jsx:13-25 | reconciling the same record twice is reconciling it once |
| Normalize.ReplayAfterInsert | frontend/src/utils/normalize.jsx:18-21 | replaying a record that was just prepended changes nothing |
| Normalize.ReplayAfterMerge | frontend/src/utils/normalize.jsx:20-24 | replaying a record that was just merged changes nothing |
| Normalize.MergeRowTwice | frontend/src/utils/normalize.jsx:23 | merging the same record twice is merging it once |
| Normalize.ReplaceByIdThenFind | frontend/src/utils/normalize.jsx:18-24 | after reconciling a usable id, the row found for it normalises to exactly the record |
| ProductsSlice.InsertSorted | frontend/src/features/products/productsSlice.jsx:8 | inserting an id adds exactly that id and keeps the others |
| ProductsSlice.InsertSortedNoDuplicates | frontend/src/features/products/productsSlice.jsx:6-9 | inserting a new id keeps the ids duplicate-free |
| ProductsSlice.InsertSortedKeepsOrder | frontend/src/features/products/productsSlice.jsx:8 | inserting keeps the ids in comparer order |
| ProductsSlice.WithoutKeepsInvariant | frontend/src/features/products/productsSlice.jsx:90 | removing an id keeps the ids distinct and sorted, and removes exactly that id |
| ProductsSlice.UpsertOneKeepsValid | frontend/src/features/products/productsSlice.jsx:72 | `upsertOne` keeps one entry per id, each stored under its own `Number(_id)`, with ids sorted |
| ProductsSlice.UpsertOneEffect | frontend/src/features/products/productsSlice.jsx:72 | an existing id is shallow-merged and gains no second entry; a new id adds exactly one; other entities are unchanged |
| ProductsSlice.SetOneKeepsValid | frontend/src/features/products/productsSlice.jsx:62 | each replacing insert of `setAll` keeps the table valid |
| ProductsSlice.RemoveOneKeepsValid | frontend/src/features/products/productsSlice.jsx:90 | `removeOne` keeps the table valid and deletes exactly that id; an absent id changes nothing |
| ProductsSlice.RemoveOneIdempotent | frontend/src/features/products/productsSlice.jsx:90 | removing twice is removing once |
| ProductsSlice.SetManyKeepsValid | frontend/src/features/products/productsSlice.jsx:62 | a run of replacing inserts keeps the table valid |
| ProductsSlice.SetManyKeys | frontend/src/features/products/productsSlice.jsx:62 | afterwards the keys are the old keys plus the entities' ids; ids not among them keep their entity |
| ProductsSlice.SetManyLastWins | frontend/src/features/products/productsSlice.jsx:62 | the last entity carrying an id is the one stored for it |
| ProductsSlice.SetAllEffect | frontend/src/features/products/productsSlice.jsx:60-63 | after `setAll` the table is valid and holds exactly the payload's ids, each with the last entity carrying it |
| ProductsSlice.AscendingWithoutNaN | frontend/src/features/products/productsSlice.jsx:6-9 | without NaN ids, the ids are strictly ascending whatever the arrival order |
| ProductsSlice.MergeLaw | frontend/src/features/products/productsSlice.jsx:80-82 | upserting just an id and a price into a stored record replaces only the price |
| ProductsSlice.UpsertThenGet | frontend/src/features/products/productsSlice.jsx:72 | after upserting a normalised record, the entity under its id normalises back to it |
| ProductsSlice.FetchAllThunk | frontend/src/features/products/productsSlice.jsx:12-15 | an array reply gives one normalised record per item and fails exactly when an item is null; any other body gives []; HTTP errors pass through |
| ProductsSlice.RecordThunk | frontend/src/features/products/productsSlice.jsx:17-29 | the thunk succeeds on a non-null body exactly when its `_id` is not null, and then with `normalizeProduct(data)`; an HTTP error rejects with its own message, a null body with the TypeError message, and an array body or a missing id with the thunk's message |
| ProductsSlice.DeleteThunk | frontend/src/features/products/productsSlice.jsx:31-34 | a delete succeeds exactly when the request does, with payload `Number(id)` |
| ProductsSlice.ProductsState.constructor | frontend/src/features/products/productsSlice.jsx:44-47 | the initial state is an empty table, `status` idle and `error` null |
| ProductsSlice.ProductsState.FetchPending | frontend/src/features/products/productsSlice.jsx:56-59 | status becomes loading, error is cleared, entities are kept |
| ProductsSlice.ProductsState.FetchFulfilled | frontend/src/features/products/productsSlice.jsx:60-63 | status becomes succeeded and the table becomes `setAll` of the payload |
| ProductsSlice.ProductsState.FetchRejected | frontend/src/features/products/productsSlice.jsx:64-67 | status becomes failed, with the message or 'Failed to load' |
| ProductsSlice.ProductsState.UpsertFulfilled | frontend/src/features/products/productsSlice.jsx:71-73 | a fulfilled create or update upserts the record and changes nothing else |
| ProductsSlice.ProductsState.DeleteFulfilled | frontend/src/features/products/productsSlice.jsx:89-91 | a fulfilled delete removes the id and changes nothing else |
| ProductsSlice.ProductsState.MutationRejected | frontend/src/features/products/productsSlice.jsx:74-76 | a rejected mutation sets only `error`; entities and status are kept |
| ProductsSlice.ProductsState.WsUpsert | frontend/src/features/products/productsSlice.jsx:98-105 | a pushed record is upserted when its normalised `_id` is not null, and is otherwise ignored |
| ProductsSlice.ProductsState.WsDeleted | frontend/src/features/products/productsSlice.jsx:106-108 | `Number(payload?._id ?? payload)` is removed when finite; otherwise nothing changes |
| ProductsSlice.ProductsState.Fetch | frontend/src/features/products/productsSlice.jsx:54-67 | dispatching a fetch ends succeeded with the normalised list, or failed with the message and the entities kept |
| ProductsSlice.ProductsState.Save | frontend/src/features/products/productsSlice.jsx:69-85 | a create or update either upserts the returned record, or sets only the error; status is kept |
| ProductsSlice.ProductsState.Delete | frontend/src/features/products/productsSlice.jsx:87-94 | a delete removes `Number(id)` or sets only the error |
| ProductsPage.ToValueIsNormalRow | frontend/src/pages/ProductsPage.jsx:26 | the object form of a normalised record is a normal row |
| ProductsPage.ReadIdError | frontend/src/pages/ProductsPage.jsx:111-114 | reading `_id` of null raises the null-record TypeError message |
| ProductsPage.FetchedRowsSpec | frontend/src/pages/ProductsPage.jsx:25-26 | fetched rows are normal, one per truthy item in order, each the normalised item |
| ProductsPage.FetchedRowsAgreeWithSlice | frontend/src/pages/ProductsPage.jsx:25-26 | without falsy items, the page's rows are the object forms of the slice's records; a null item fails the slice's fetch but is only dropped by the page |
| ProductsPage.DeletedRows | frontend/src/pages/ProductsPage.jsx:64 | the push-delete filter keeps exactly the truthy rows whose `Number(_id)` differs from the id |
| ProductsPage.ConfirmedRows | frontend/src/pages/ProductsPage.jsx:115 | the confirmed-delete filter keeps exactly the truthy rows whose `_id` is not strictly equal to the product's |
| ProductsPage.DeleteRulesAgree | frontend/src/pages/ProductsPage.jsx:115 | on rows with numeric ids the two deletion filters leave the same rows |
| ProductsPage.DeleteRulesDifferOnStringIds | frontend/src/pages/ProductsPage.jsx:115 | a row with `_id` "7" is removed by the push handler for id 7 but kept by the confirmed delete of id 7 |
| ProductsPage.NormalRowsHaveNumberIds | frontend/src/pages/ProductsPage.jsx:26 | every normal row's `_id` is a number or absent |
| ProductsPage.FilteredRowsAreNormal | frontend/src/pages/ProductsPage.jsx:64 | filtering normal rows keeps them normal |
| ProductsPage.MergeIntoNormalRow | frontend/src/pages/ProductsPage.jsx:52 | merging a record into a normal row yields exactly the record's object form |
| ProductsPage.ReplaceByIdKeepsNormalRows | frontend/src/pages/ProductsPage.jsx:52 | reconciling a normalised record keeps the rows normal; a record without a usable id leaves them as they are |
| ProductsPage.SubmitOutcome | frontend/src/pages/ProductsPage.jsx:85-100 | a successful submission yields a well-formed record, and on the create path one with an id |
| ProductsPage.SubmitMatchesSliceThunks | frontend/src/pages/ProductsPage.jsx:95-97 | the create path makes the slice's `createProduct` check; the edit path accepts any normalised reply, even one without `_id` |
| ProductsPage.ReconciledRows | frontend/src/pages/ProductsPage.jsx:92 | `replaceById` of a normalised record keeps the rows normal |
| ProductsPage.Page.constructor | frontend/src/pages/ProductsPage.jsx:14-20 | no rows, not loading, empty messages, form and confirmation closed |
| ProductsPage.Page.FetchProducts | frontend/src/pages/ProductsPage.jsx:22-32 | an array reply replaces the rows with the fetched rows; another body empties them; an error only sets the message; loading ends off |
| ProductsPage.Page.OnUpserted | frontend/src/pages/ProductsPage.jsx:49-59 | a pushed record without `_id` is ignored, otherwise it is reconciled into the rows; nothing else changes |
| ProductsPage.Page.OnDeleted | frontend/src/pages/ProductsPage.jsx:61-65 | a non-finite id is ignored, otherwise the rows with that numeric id and all falsy rows go |
| ProductsPage.Page.HandleCreateClick | frontend/src/pages/ProductsPage.jsx:83 | opens the form with nothing being edited |
| ProductsPage.Page.HandleEdit | frontend/src/pages/ProductsPage.jsx:107 | opens the form on the given product |
| ProductsPage.Page.HandleDelete | frontend/src/pages/ProductsPage.jsx:109 | opens the confirmation for the given product |
| ProductsPage.Page.HandleSubmit | frontend/src/pages/ProductsPage.jsx:85-105 | on success the record is reconciled, the notice set and the form closed; on failure only the error message changes |
| ProductsPage.Page.ConfirmDelete | frontend/src/pages/ProductsPage.jsx:111-122 | a success removes rows whose `_id` is strictly the product's; an error sets the message; the confirmation is reset in every case |
| ProductsPage.EditWithoutIdKeepsRows | frontend/src/pages/ProductsPage.jsx:87-93 | an edit reply without `_id` leaves the rows as they were |
| ProductsPage.PushDeleteIds | frontend/src/pages/ProductsPage.jsx:61-62 | for a record payload the page and the slice delete the same id; a bare number is removed by the slice and ignored by the page |
| ProductForm.InitialForm | frontend/src/components/ProductFormDialog.jsx:17-25 | the form has the seven keys; present fields are kept; missing ones become '' (rating 0, available true) |
| ProductForm.Payload | frontend/src/components/ProductFormDialog.jsx:52-60 | price and warranty stay '' when empty, else `Number` and `parseInt`; rating is always `Number`; `_id` is converted exactly when shown and filled in; the other fields are copied |
| ProductForm.IsEditFollowsPage | frontend/src/components/ProductFormDialog.jsx:64 | with the page passing `editing \|\| {}`, the dialog is in edit mode exactly when a record is being edited |
| ProductForm.UnchangedEditRoundTrip | frontend/src/components/ProductFormDialog.jsx:52-60 | the payload of an untouched edit form normalises back to the record being edited, for a record with an id and a finite whole-number warranty below 10^21 |
| ProductForm.PayloadWarrantyIsParsed | frontend/src/components/ProductFormDialog.jsx:58 | the warranty in the payload is a whole number or NaN; a NaN is sent as null, and a whole number is sent as it is and kept by the server's `parseInt` exactly when it is below 10^21 in magnitude |
| ProductForm.ProductFormDialog.constructor | frontend/src/components/ProductFormDialog.jsx:17-25 | the form starts at the defaults applied to `initial` |
| ProductForm.ProductFormDialog.Reset | frontend/src/components/ProductFormDialog.jsx:27-37 | the effect resets the form to the same defaults |
| ProductForm.ProductFormDialog.HandleChange | frontend/src/components/ProductFormDialog.jsx:39-42 | only the named field changes |
| ProductForm.ProductFormDialog.HandleSwitch | frontend/src/components/ProductFormDialog.jsx:44-46 | only `available` changes |
| ProductForm.ProductFormDialog.HandleRating | frontend/src/components/ProductFormDialog.jsx:48-50 | only `rating` changes, and a cleared rating becomes 0 |
| ProductForm.ProductFormDialog.Submit | frontend/src/components/ProductFormDialog.jsx:52-62 | the submitted payload is `Payload` of the current form and carries every form key |
| ProductController.DriverRepliesHaveNoId | backend/controllers/product.controller.js:91-94 | the insert, update and delete results carry no `_id` |
| ProductController.ValidateRejects | backend/controllers/product.controller.js:51-83 | validation fails exactly when a field is bad, with the first failure in the order price, rating NaN, rating range, warranty |
| ProductController.StepsChangeOnlyTheirField | backend/controllers/product.controller.js:51-89 | each step changes at most its own field, and only when present |
| ProductController.ChangesOnlyChain | backend/controllers/product.controller.js:51-89 | after the four steps the keys are the same, unchecked fields are unchanged and absent checked fields stay absent |
| ProductController.ValidateKeepsOthers | backend/controllers/product.controller.js:51-89 | a validated record has the same keys; fields outside price, rating, warranty and availability are untouched; null and undefined are left as they are |
| ProductController.ValidateSteps | backend/controllers/product.controller.js:51-89 | a successful validation passed each of the four steps in order |
| ProductController.ValidateCoerces | backend/controllers/product.controller.js:51-89 | a present price becomes `Number(price)`, rating `Number(rating)` in [0, 5], warranty a whole non-negative `parseInt`; `available` becomes true exactly for `true` or "true" |
| ProductController.RatingBounds | backend/controllers/product.controller.js:63-67 | a present rating passes exactly when it is a number in [0, 5], inclusive |
| ProductController.ValidatedFieldsOk | backend/controllers/product.controller.js:51-89 | every field of a validated record is what the checks allow |
| ProductController.SetKeepsFieldsOk | backend/controllers/product.controller.js:165-167 | `$set` of checked fields keeps the document checked and its `_id` |
| ProductController.NewProduct | backend/controllers/product.controller.js:37-45 | the record has exactly the seven product keys, read from the body; other body keys are discarded |
| ProductController.AllowedUpdates | backend/controllers/product.controller.js:105-118 | the updates are exactly the allow-listed own keys of the body, never `_id` |
| ProductController.Written | backend/controllers/product.controller.js:91 | the driver writes every field, undefined as null and any other value as it is |
| ProductController.WrittenKeepsFieldsOk | backend/controllers/product.controller.js:165-167 | writing keeps checked fields checked, and writing twice is writing once |
| ProductController.StoredDoc | backend/controllers/product.controller.js:91 | the stored document has the record's keys plus `_id`, with the record's fields as the driver writes them |
| ProductController.InsertKeepsStoreValid | backend/controllers/product.controller.js:91 | inserting a checked record under a fresh key keeps every document checked and under its own id |
| ProductController.SetKeepsStoreValid | backend/controllers/product.controller.js:165-167 | updating a document with checked fields keeps the store valid |
| ProductController.ProductStore.CheckFields | backend/controllers/product.controller.js:51-89 | the step-by-step checks compute `Validate` |
| ProductController.ProductStore.CreateProduct | backend/controllers/product.controller.js:34-98 | a failed check answers 400 with its message and writes nothing; a taken id answers 500 with the duplicate-key error; otherwise the document is stored and the insert result returned |
| ProductController.ProductStore.BuildUpdates | backend/controllers/product.controller.js:113-118 | the loop over the allow-list computes `AllowedUpdates` |
| ProductController.ProductStore.EditProduct | backend/controllers/product.controller.js:101-174 | a non-numeric path id answers 400 before any write; a failed check answers 400; otherwise `$set` merges the coerced fields, as the driver writes them, into the matching document and the update result reports matched and modified |
| ProductController.ProductStore.UpdateOne | backend/controllers/product.controller.js:165-170 | with accepted updates, no matching document leaves the store unchanged and reports nothing matched; otherwise the coerced fields, written as on insert (undefined as null), overwrite the document's, the store stays valid, and `modified` is whether the document changed |
| ProductController.ProductStore.GetProductById | backend/controllers/product.controller.js:15-31 | a non-numeric id answers 400, an unknown id 404, otherwise the document |
| ProductController.ProductStore.DeleteProduct | backend/controllers/product.controller.js:177-193 | a non-numeric id answers 400 and deletes nothing; otherwise the document is removed and the delete result reports whether one existed |
| AuthController.Digest | backend/controllers/auth.controller.js:31 | the hashed part of a password is exactly its first min(72, length) characters |
| AuthController.CompareHash | backend/controllers/auth.controller.js:63 | a password matches a hash exactly when the first 72 characters agree; every password matches its own hash |
| AuthController.Public | backend/controllers/auth.controller.js:45 | the public user is `{ id, name, email }`, with no password |
| AuthController.ExpiresIn | backend/controllers/auth.controller.js:13 | the expiry is the configured one, or "1h" when unset or empty |
| AuthController.SignToken | backend/controllers/auth.controller.js:5-15 | the claims are exactly the user's id (the hex text of its ObjectId), email and name |
| AuthController.SignTokenTellsUsersApart | backend/controllers/auth.controller.js:5-10 | tokens of two different stored users carry different `id` claims |
| AuthController.FindByEmail | backend/controllers/auth.controller.js:26 | the lookup finds a user with that email exactly when one exists |
| AuthController.AppendKeepsEmailsUnique | backend/controllers/auth.controller.js:26-38 | storing a user whose email is free keeps emails unique, and that user is then found by it |
| AuthController.FindIsUnique | backend/controllers/auth.controller.js:59 | with unique emails, the user found for an email is the one stored with it |
| AuthController.UserStore.Register | backend/controllers/auth.controller.js:17-50 | a missing field or a taken email answers 400 and stores nothing; a non-string password throws in bcrypt; otherwise the hashed user is stored and answered 201 with a token and the public user |
| AuthController.UserStore.Login | backend/controllers/auth.controller.js:52-75 | missing fields answer 400; an unknown email and a wrong password give the same 400; a match answers 200 with a token and the public user |
| AuthController.RegisteredUserCanLogIn | backend/controllers/auth.controller.js:59-66 | a user registered with a string email and password is found by login and their password matches |
| AuthController.NonStringEmailNeverFound | backend/controllers/auth.controller.js:59 | login looks up `String(email)`, so a user stored with a non-string email is never found |
| Pipeline.InterceptedMessage | frontend/src/api/http.jsx:30-31 | the message is `error.message` when truthy, else the transport's text, else "Network error" |
| Pipeline.Delivered | frontend/src/api/http.jsx:14-40 | a 2xx response reaches the caller as its body after the JSON round trip, which is JSON-safe; any other is a rejection with the message read from the encoded body |
| Pipeline.Sent | backend/server.js:9 | the handler receives the payload's keys that do not hold undefined, each value as JSON carries it, and the body is JSON-safe |
| Pipeline.ErrorMessagesAsDelivered | backend/controllers/product.controller.js:51-55 | the controller's `{ error: "<text>" }` replies reach the client as the transport's text; errors passed to `next` keep their message |
| Pipeline.CorrectedInterceptedMessage | frontend/src/api/http.jsx:30-31 | a string `error` is taken as the message; otherwise as the interceptor does |
| Pipeline.CorrectedMessagesShown | frontend/src/api/http.jsx:30-31 | with the corrected reading, both kinds of error reply surface the server's message |
| Pipeline.CreateReplyRejected | backend/controllers/product.controller.js:91-94 | the insert result fails the slice's create thunk and the page's create path with "POST: API n’a pas renvoyé _id" |
| Pipeline.EditReplyIgnored | backend/controllers/product.controller.js:165-170 | the update result fails the slice's update thunk; the page accepts it but its rows stay as they were |
| Pipeline.RecordReply | backend/controllers/product.controller.js:94 | the corrected reply carries the stored document and its `_id` |
| Pipeline.RecordReplyAccepted | frontend/src/pages/ProductsPage.jsx:85-99 | a reply carrying the document with a numeric id is accepted by both thunks and both page paths as the normalised document JSON delivers, and the page's row for that id holds it |
| Pipeline.InfinityTextPassesPriceCheck | backend/controllers/product.controller.js:51-55 | a price "Infinity" passes the price check and is stored as Infinity |
| Pipeline.InfinitePriceReadAsZero | frontend/src/utils/normalize.jsx:6 | a stored price of Infinity reaches the client as null, and the record it accepts has price 0 |
| Pipeline.StoredDocReplyAccepted | backend/controllers/product.controller.js:91-94 | a document stored under a client-chosen numeric id, once sent back, is accepted with that id |
| Pipeline.BlankWarrantyRejected | frontend/src/components/ProductFormDialog.jsx:58 | a form with an empty warranty, as the server receives it, is refused by create and by edit, whatever its other fields |
| Pipeline.UnparsableWarrantySentAsNull | frontend/src/components/ProductFormDialog.jsx:58 | a warranty text `parseInt` cannot read becomes NaN in the payload, arrives as null, passes the warranty check, and an accepted record keeps no warranty |
| Pipeline.UntouchedPayload | frontend/src/components/ProductFormDialog.jsx:17-25 | the untouched edit form's payload holds the product's price and rating and '' for a missing warranty; the server receives them as JSON carries them |
| Pipeline.OnlyWarrantyDecides | backend/controllers/product.controller.js:147-157 | with price and rating passing their checks unchanged, a '' warranty fails with the warranty message and a null one passes untouched |
| Pipeline.SentPriceAndRatingPass | backend/controllers/product.controller.js:51-67 | a price and a rating that crossed the wire pass their checks unchanged, unless the rating is a finite number out of range |
| Pipeline.UntouchedEditWithoutWarrantyRejected | frontend/src/components/ProductFormDialog.jsx:23 | re-submitting the edit form of a product without a warranty is refused with the warranty message |
| Pipeline.CorrectedPayload | frontend/src/components/ProductFormDialog.jsx:58 | an empty warranty is sent as null; every other field is as in the payload |
| Pipeline.CorrectedBlankWarrantyAccepted | backend/controllers/product.controller.js:147-150 | with the corrected payload, as the server receives it, that edit passes and the warranty stays absent |
| Pipeline.NaNPushDiverges | frontend/src/features/products/productsSlice.jsx:98-101 | a pushed `_id` that is non-numeric text is stored by the slice under NaN but dropped by `replaceById` |
| Pipeline.GuardedWsUpsertKeepsNaNOut | frontend/src/features/products/productsSlice.jsx:98-105 | with `replaceById`'s id test, the push upsert keeps the table valid and free of NaN and accepts exactly what the page accepts |

## Left out

- Network, sockets, React rendering and lifecycles are not modelled. The socket subscription effect, `ProductTable`, `ConfirmDialog` and `LoginDialog` fall under this. Each HTTP reply and each pushed payload is a parameter instead. The slice, the page and the thunks take it as the client receives it, after JSON. Only `Pipeline` starts from what the server sends.
- JsValues.OnWire: a finite number reads back as the same value, since numbers are exact reals here rather than doubles. String escaping, `toJSON` and arrays are not modelled. A top-level undefined stays undefined, because every body the pipeline sends is an object.
- The request interceptor, `localStorage` and the 401 redirect of frontend/src/api/http.jsx are not modelled. They are browser plumbing. Only the response interceptor's message chain is modelled.
- `getAllProduct` (backend/controllers/product.controller.js:4-12) is not modelled. It only reads the collection.
- MongoDB is modelled as an in-memory map. Generated ObjectIds stand for a serial number written as 24 hex digits. Distinct ids have distinct text only below 16^24 serials.
- The duplicate-key error's full driver text is not modelled. It stands for `DuplicateKeyMessage`.
- The guards `!newProduct`, `!updates` and `!result` are never taken, because an object literal and a driver result are always truthy. The model has no such branch.
- The second reply in `getProductById` after a 404 is not modelled. The client sees the 404, and that is what the model returns.
- Register and login treat an object email as a plain value. MongoDB's query-operator reading of an object in `findOne({ email })` is not modelled.
- Register: the insert and re-read of the new user are one step. The re-read returns the stored user.
- AuthController.Digest: bcrypt reads 72 bytes, but the model reads 72 characters. Multi-byte characters are not modelled.
- JWT signing with `JWT_SECRET` and token verification are not modelled. A token is its claims and expiry. The `iat` and `exp` claims the library adds are not modelled.
- JsValues.ParseIntString: the digit run's value is an exact integer. JavaScript rounds it to a double, so 21 nines give 10^21 and 309 or more digits give Infinity, which the model does not reproduce.
- JsValues.StringToNumber: decimal text only. Exponent, hexadecimal, binary and octal forms give NaN here, where JavaScript gives a number. Number text is a decimal, not an IEEE double.
- JsValues.JsString: a number with a fractional part is written as its integer part and a point. JavaScript's shortest round-trip digits and its exponent form (magnitudes of 10^21 or more, or below 10^-6) are not modelled.
- JsValues.ParseIntNumber: in exponent form the leading digit is that of the exact value. For a double just below a power of ten, JavaScript's shortest round-trip text can round up to the next digit. Negative zero is not modelled.
- ProductForm.UnchangedEditRoundTrip: holds only for a record with an id and a finite whole-number warranty below 10^21. A null warranty is refused (`Pipeline.UntouchedEditWithoutWarrantyRejected`). A fractional one is sent truncated. A warranty of 10^21 or more is sent as its leading digit, as `ProductForm.PayloadWarrantyIsParsed` states. The lemma is about the payload the form builds, before JSON.
- ProductsSlice.InsertSorted: a NaN id is placed by linear insertion before the first id the comparer ranks above it. With a NaN id the comparer gives NaN, and Redux Toolkit leaves the resulting order to its own sort or binary search. The sorted-order invariant says nothing about NaN pairs.
- AuthController.UserStore.Register: handlers are modelled as running one after another. The source awaits between `findOne`, `bcrypt.hash` and `insertOne`, and no unique index exists on `email`. Two concurrent registrations with one email can both be stored, so `EmailsUnique` holds only for serialised requests.
- JsValues.JsValue has no arrays. An array can only appear as a whole reply body (`ProductsSlice.Body`). Pushed payloads and record fields that hold arrays are not modelled.
- Object identity is not modelled. `===` on two objects is false.
- The slice's comparer is modelled as the order it induces. `Number(a._id) - Number(b._id)` on doubles is not computed.
- The entity adapter is a library. `setAll`, `upsertOne` and `removeOne` follow Redux Toolkit's documented behaviour. `setAll` is a run of replacing inserts.
- Login, GetProductById and the form's Submit change nothing. Their contracts carry no `modifies`.
- The handlers accept more than their intended contract in several places; the model follows the code:
  - A negative price is accepted, because only NaN is rejected.
  - An empty price `''` becomes `Number('') = 0`.
  - Create and edit answer with the driver result, not the persisted record.
  - The slice's push upsert admits a NaN id.
  - A price "Infinity" is accepted and stored, and the client then reads it as 0 (`Pipeline.InfinitePriceReadAsZero`).
  - A warranty text `parseInt` cannot read, such as ".5", is sent as null and stored as no warranty (`Pipeline.UnparsableWarrantySentAsNull`).

## Findings

The handlers themselves are modelled as written. Each corrected definition
and its proved property lives in `Pipeline` next to the as-written lemma.

| source | as written | input that shows it | evidently intended | confidence | as-written member | corrected member |
|---|---|---|---|---|---|---|
| backend/controllers/product.controller.js:94 | a create is answered with `insertOne`'s result, which has no `_id` | POST `{ _id: 7, name: "a" }` is stored, yet the page shows "POST: API n’a pas renvoyé _id" and the slice rejects it | answer with the stored document | high, not executed | Pipeline.CreateReplyRejected | Pipeline.RecordReplyAccepted |
| backend/controllers/product.controller.js:170 | an edit is answered with `updateOne`'s result | PATCH `/product/7` `{ price: 3 }` is stored, yet the page's row keeps the old price and the slice rejects it | answer with the updated document | high, not executed | Pipeline.EditReplyIgnored | Pipeline.RecordReplyAccepted |
| frontend/src/components/ProductFormDialog.jsx:58 | an empty warranty is sent as `''`, which the server's `parseInt` rejects | edit a product whose `warranty_years` is null and submit without changes: 400 "warranty_years must be a non-negative integer" | send an empty warranty as absent (null) | medium, not executed | Pipeline.UntouchedEditWithoutWarrantyRejected | Pipeline.CorrectedBlankWarrantyAccepted |
| frontend/src/features/products/productsSlice.jsx:100 | `n._id != null` admits a NaN id | pushed `{ _id: "abc" }` creates an entity under NaN in the slice while the page ignores it | the same test as `replaceById`: null, undefined and NaN rejected | medium, not executed | Pipeline.NaNPushDiverges | Pipeline.GuardedWsUpsertKeepsNaNOut |
| frontend/src/api/http.jsx:31 | only `error.message` is read, while the controller answers `{ error: "<text>" }` | POST with price "abc": the user sees the transport's "Request failed with status code 400", not "price must be a number" | read a string `error` as the message | medium, not executed | Pipeline.ErrorMessagesAsDelivered | Pipeline.CorrectedMessagesShown |
