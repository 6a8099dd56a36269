/** The client's canonical product record (`normalizeProduct`) and the list
    reconciler that inserts or merges one record into a list of rows
    (`replaceById`), both in frontend/src/utils/normalize.jsx. */
module Normalize {
  import opened Wrappers
  import opened JsValues

  /** What `normalizeProduct` returns: always exactly these seven fields.
      `id` is `_id`, absent (`undefined`) or a number that may be NaN;
      `productType` is the field the source calls `type`. */
  datatype Product = Product(
    id: Option<JsNumber>,
    name: JsValue,
    productType: JsValue,
    price: JsNumber,
    rating: JsNumber,
    warrantyYears: JsValue,
    available: bool)

  const ProductKeys: set<string> :=
    {"_id", "name", "type", "price", "rating", "warranty_years", "available"}

  function IdValue(id: Option<JsNumber>): JsValue {
    if id.Some? then Num(id.value) else Undefined
  }

  /** The product as the plain object the client keeps in its rows. */
  function ToValue(n: Product): (v: JsValue)
    ensures v.Object? && v.fields.Keys == ProductKeys
    ensures Get(v, "_id") == IdValue(n.id)
  {
    Object(map[
      "_id" := IdValue(n.id),
      "name" := n.name,
      "type" := n.productType,
      "price" := Num(n.price),
      "rating" := Num(n.rating),
      "warranty_years" := n.warrantyYears,
      "available" := Bool(n.available)])
  }

  /** What every normalised record satisfies: the defaults have been applied. */
  predicate WellFormed(n: Product) {
    !IsNullish(n.name) && !IsNullish(n.productType) && !n.warrantyYears.Undefined?
  }

  /** `normalizeProduct(p = {})`. Reading `_id` of null throws, so the source
      cannot be called with null; undefined takes the default `{}`. */
  function NormalizeProduct(p: JsValue): (n: Product)
    requires !p.Null?
    ensures WellFormed(n)
    ensures n.id.None? <==> IsNullish(Get(p, "_id"))
    ensures n.id.Some? ==> n.id.value == ToNumber(Get(p, "_id"))
    ensures IsNullish(Get(p, "price")) ==> n.price == Finite(0.0)
    ensures IsNullish(Get(p, "rating")) ==> n.rating == Finite(0.0)
    ensures n.available <==> Truthy(Get(p, "available"))
  {
    var id := Get(p, "_id");
    var price := Get(p, "price");
    var rating := Get(p, "rating");
    Product(
      if IsNullish(id) then None else Some(ToNumber(id)),
      Coalesce(Get(p, "name"), Str("")),
      Coalesce(Get(p, "type"), Str("")),
      if IsNullish(price) then Finite(0.0) else ToNumber(price),
      if IsNullish(rating) then Finite(0.0) else ToNumber(rating),
      Coalesce(Get(p, "warranty_years"), Null),
      Truthy(Get(p, "available")))
  }

  /** Normalising the object form of a normalised record gives it back. */
  lemma NormalizeRoundTrip(n: Product)
    requires WellFormed(n)
    ensures NormalizeProduct(ToValue(n)) == n
  {
  }

  /** `normalizeProduct` is idempotent. */
  lemma NormalizeIdempotent(p: JsValue)
    requires !p.Null?
    ensures NormalizeProduct(ToValue(NormalizeProduct(p))) == NormalizeProduct(p)
  {
    NormalizeRoundTrip(NormalizeProduct(p));
  }

  /** Fields that are present pass through unchanged, only null and undefined
      take defaults, and `available` is plain truthiness, so the string
      "false" normalises to true. */
  lemma NormalizePassThrough(name: JsValue, kind: JsValue, warranty: JsValue)
    requires !IsNullish(name) && !IsNullish(kind) && !IsNullish(warranty)
    ensures var n := NormalizeProduct(Object(map[
        "name" := name, "type" := kind, "warranty_years" := warranty,
        "available" := Str("false")]));
      n.name == name && n.productType == kind && n.warrantyYears == warranty
      && n.available && n.id.None?
    ensures NormalizeProduct(Undefined)
      == Product(None, Str(""), Str(""), Finite(0.0), Finite(0.0), Null, false)
  {
  }

  // ------------------------------------------------------------ replaceById

  /** `list.filter(Boolean)` */
  function Compact(list: seq<JsValue>): (r: seq<JsValue>)
    ensures forall i :: 0 <= i < |r| ==> Truthy(r[i]) && r[i] in list
    ensures forall i :: 0 <= i < |list| && Truthy(list[i]) ==> list[i] in r
  {
    Filter(list, Truthy)
  }

  /** `Number(x._id)` */
  function IdOf(x: JsValue): JsNumber {
    ToNumber(Get(x, "_id"))
  }

  /** The `findIndex` test: `x && Number(x._id) === id`. */
  predicate Matches(x: JsValue, id: JsNumber) {
    Truthy(x) && NumEq(IdOf(x), id)
  }

  /** `arr.findIndex(x => Matches(x, id))`: the first matching position, or -1. */
  function FindIndex(arr: seq<JsValue>, id: JsNumber): (r: int)
    ensures -1 <= r < |arr|
    ensures r == -1 ==> forall i :: 0 <= i < |arr| ==> !Matches(arr[i], id)
    ensures r >= 0 ==> Matches(arr[r], id) && forall i :: 0 <= i < r ==> !Matches(arr[i], id)
  {
    if arr == [] then -1
    else if Matches(arr[0], id) then 0
    else
      var k := FindIndex(arr[1..], id);
      if k == -1 then -1 else k + 1
  }

  /** A first matching position is the one `FindIndex` returns. */
  lemma FindIndexIsFirst(arr: seq<JsValue>, id: JsNumber, k: int)
    requires 0 <= k < |arr| && Matches(arr[k], id)
    requires forall i :: 0 <= i < k ==> !Matches(arr[i], id)
    ensures FindIndex(arr, id) == k
  {
    var r := FindIndex(arr, id);
    assert r != -1;
    assert r <= k;
  }

  /** `replaceById` accepts a record only when its normalised `_id` is a
      number that is not NaN. */
  predicate HasUsableId(item: Product) {
    item.id.Some? && !item.id.value.NaN?
  }

  /** `{ ...row, ...item, _id: id }` */
  function MergeRow(row: JsValue, item: Product): JsValue
    requires HasUsableId(item)
  {
    Object(Spread(row) + ToValue(item).fields + map["_id" := Num(item.id.value)])
  }

  /** `replaceById(list, raw)` */
  function ReplaceById(list: seq<JsValue>, raw: JsValue): (r: seq<JsValue>)
    requires !raw.Null?
    ensures forall i :: 0 <= i < |r| ==> Truthy(r[i])
    ensures |r| == |Compact(list)| || |r| == |Compact(list)| + 1
    ensures |r| == |Compact(list)| + 1 <==>
      HasUsableId(NormalizeProduct(raw))
      && forall i :: 0 <= i < |list| ==> !Matches(list[i], NormalizeProduct(raw).id.value)
  {
    var item := NormalizeProduct(raw);
    var arr := Compact(list);
    if !HasUsableId(item) then arr
    else
      var id := item.id.value;
      var idx := FindIndex(arr, id);
      if idx == -1 then
        assert forall i :: 0 <= i < |list| ==> !Matches(list[i], id) by {
          forall i | 0 <= i < |list| && Truthy(list[i]) ensures !Matches(list[i], id) {
            assert list[i] in arr;
          }
        }
        [ToValue(item)] + arr
      else
        assert arr[idx] in list;
        arr[idx := MergeRow(arr[idx], item)]
  }

  /** A new id: the normalised record is prepended to the compacted list. */
  lemma ReplaceByIdPrepends(list: seq<JsValue>, raw: JsValue)
    requires !raw.Null? && HasUsableId(NormalizeProduct(raw))
    requires forall i :: 0 <= i < |list| ==> !Matches(list[i], NormalizeProduct(raw).id.value)
    ensures ReplaceById(list, raw) == [ToValue(NormalizeProduct(raw))] + Compact(list)
  {
    var id := NormalizeProduct(raw).id.value;
    var arr := Compact(list);
    forall i | 0 <= i < |arr| ensures !Matches(arr[i], id) {
      assert arr[i] in list;
    }
  }

  /** A known id: only the first matching row changes, into the shallow merge
      of the old row and the record; length and order stay. */
  lemma ReplaceByIdMergesFirstMatch(list: seq<JsValue>, raw: JsValue, k: int)
    requires !raw.Null? && HasUsableId(NormalizeProduct(raw))
    requires 0 <= k < |Compact(list)| && Matches(Compact(list)[k], NormalizeProduct(raw).id.value)
    requires forall i :: 0 <= i < k ==> !Matches(Compact(list)[i], NormalizeProduct(raw).id.value)
    ensures var r := ReplaceById(list, raw);
      && |r| == |Compact(list)|
      && r[k] == MergeRow(Compact(list)[k], NormalizeProduct(raw))
      && forall i :: 0 <= i < |r| && i != k ==> r[i] == Compact(list)[i]
  {
    FindIndexIsFirst(Compact(list), NormalizeProduct(raw).id.value, k);
  }

  /** With an unusable id the list is only compacted. */
  lemma ReplaceByIdRejects(list: seq<JsValue>, raw: JsValue)
    requires !raw.Null? && !HasUsableId(NormalizeProduct(raw))
    ensures ReplaceById(list, raw) == Compact(list)
  {
  }

  /** A merged row normalises to the incoming record: every one of the seven
      fields comes from the record, only extra keys survive from the old row. */
  lemma MergeRowNormalizes(row: JsValue, item: Product)
    requires HasUsableId(item) && WellFormed(item)
    ensures NormalizeProduct(MergeRow(row, item)) == item
    ensures IdOf(MergeRow(row, item)) == item.id.value
  {
    var m := MergeRow(row, item);
    var f := ToValue(item).fields;
    assert forall key :: key in ProductKeys ==> Get(m, key) == Get(ToValue(item), key);
  }

  /** No two entries with the same `Number(_id)`. */
  predicate DistinctIds(list: seq<JsValue>) {
    forall i, j :: 0 <= i < j < |list| ==> !NumEq(IdOf(list[i]), IdOf(list[j]))
  }

  lemma CompactKeepsDistinctIds(list: seq<JsValue>)
    requires DistinctIds(list)
    ensures DistinctIds(Compact(list))
  {
    FilterKeepsPairwise(list, Truthy, (a, b) => !NumEq(IdOf(a), IdOf(b)));
  }

  /** Putting a row in front of rows with other ids keeps the ids distinct. */
  lemma PrependKeepsDistinctIds(arr: seq<JsValue>, row: JsValue, id: JsNumber)
    requires DistinctIds(arr) && IdOf(row) == id
    requires forall i :: 0 <= i < |arr| ==> Truthy(arr[i]) && !Matches(arr[i], id)
    ensures DistinctIds([row] + arr)
  {
    var r := [row] + arr;
    forall i, j | 0 <= i < j < |r| ensures !NumEq(IdOf(r[i]), IdOf(r[j])) {
      if i == 0 {
        assert r[j] == arr[j - 1];
      } else {
        assert r[i] == arr[i - 1] && r[j] == arr[j - 1];
      }
    }
  }

  /** Rows with the same ids position by position have distinct ids together. */
  lemma SameIdsKeepDistinctIds(a: seq<JsValue>, b: seq<JsValue>)
    requires |a| == |b| && DistinctIds(a)
    requires forall i :: 0 <= i < |a| ==> IdOf(b[i]) == IdOf(a[i])
    ensures DistinctIds(b)
  {
  }

  /** `replaceById` never creates a second row for an id. */
  lemma ReplaceByIdKeepsIdsDistinct(list: seq<JsValue>, raw: JsValue)
    requires !raw.Null? && DistinctIds(list)
    ensures DistinctIds(ReplaceById(list, raw))
  {
    CompactKeepsDistinctIds(list);
    var item := NormalizeProduct(raw);
    var arr := Compact(list);
    if HasUsableId(item) {
      var id := item.id.value;
      var idx := FindIndex(arr, id);
      if idx == -1 {
        PrependKeepsDistinctIds(arr, ToValue(item), id);
      } else {
        MergeRowNormalizes(arr[idx], item);
        var r := arr[idx := MergeRow(arr[idx], item)];
        assert IdOf(r[idx]) == IdOf(arr[idx]);
        SameIdsKeepDistinctIds(arr, r);
      }
    }
  }

  /** Replaying the same record is harmless: a second `replaceById` with the
      same record changes nothing. */
  lemma ReplaceByIdIdempotent(list: seq<JsValue>, raw: JsValue)
    requires !raw.Null?
    ensures ReplaceById(ReplaceById(list, raw), raw) == ReplaceById(list, raw)
  {
    var item := NormalizeProduct(raw);
    var r1 := ReplaceById(list, raw);
    FilterAllPass(r1, Truthy);
    if !HasUsableId(item) {
      FilterIdempotent(list, Truthy);
    } else if FindIndex(Compact(list), item.id.value) == -1 {
      ReplayAfterInsert(list, raw);
    } else {
      ReplayAfterMerge(list, raw);
    }
  }

  lemma ReplayAfterInsert(list: seq<JsValue>, raw: JsValue)
    requires !raw.Null? && HasUsableId(NormalizeProduct(raw))
    requires FindIndex(Compact(list), NormalizeProduct(raw).id.value) == -1
    requires Compact(ReplaceById(list, raw)) == ReplaceById(list, raw)
    ensures ReplaceById(ReplaceById(list, raw), raw) == ReplaceById(list, raw)
  {
    var item := NormalizeProduct(raw);
    var id := item.id.value;
    var r1 := ReplaceById(list, raw);
    assert r1 == [ToValue(item)] + Compact(list);
    MergeOwnRow(item);
    FindIndexIsFirst(r1, id, 0);
    assert r1[0 := MergeRow(r1[0], item)] == r1;
  }

  /** Merging a record into its own row leaves the row as it is. */
  lemma MergeOwnRow(item: Product)
    requires HasUsableId(item)
    ensures MergeRow(ToValue(item), item) == ToValue(item)
    ensures Matches(ToValue(item), item.id.value)
  {
    var f := ToValue(item).fields;
    assert f + f + map["_id" := Num(item.id.value)] == f;
  }

  lemma ReplayAfterMerge(list: seq<JsValue>, raw: JsValue)
    requires !raw.Null? && HasUsableId(NormalizeProduct(raw))
    requires FindIndex(Compact(list), NormalizeProduct(raw).id.value) != -1
    requires Compact(ReplaceById(list, raw)) == ReplaceById(list, raw)
    ensures ReplaceById(ReplaceById(list, raw), raw) == ReplaceById(list, raw)
  {
    var item := NormalizeProduct(raw);
    var id := item.id.value;
    var arr := Compact(list);
    var idx := FindIndex(arr, id);
    var r1 := ReplaceById(list, raw);
    assert r1 == arr[idx := MergeRow(arr[idx], item)];
    MergeRowNormalizes(arr[idx], item);
    FindIndexIsFirst(r1, id, idx);
    MergeRowTwice(arr[idx], item);
  }

  /** Merging the same record twice is merging it once. */
  lemma MergeRowTwice(row: JsValue, item: Product)
    requires HasUsableId(item)
    ensures MergeRow(MergeRow(row, item), item) == MergeRow(row, item)
  {
    var f := ToValue(item).fields;
    var d := map["_id" := Num(item.id.value)];
    var once := Spread(row) + f + d;
    assert Spread(MergeRow(row, item)) == once;
    assert once + f + d == once;
  }

  /** After `replaceById` with a usable id, the row found for that id holds
      exactly the normalised record. */
  lemma ReplaceByIdThenFind(list: seq<JsValue>, raw: JsValue)
    requires !raw.Null? && HasUsableId(NormalizeProduct(raw))
    ensures var r := ReplaceById(list, raw);
      var k := FindIndex(r, NormalizeProduct(raw).id.value);
      k >= 0 && NormalizeProduct(r[k]) == NormalizeProduct(raw)
  {
    var item := NormalizeProduct(raw);
    var id := item.id.value;
    var arr := Compact(list);
    var r := ReplaceById(list, raw);
    var idx := FindIndex(arr, id);
    if idx == -1 {
      FindIndexIsFirst(r, id, 0);
      NormalizeRoundTrip(item);
    } else {
      MergeRowNormalizes(arr[idx], item);
      FindIndexIsFirst(r, id, idx);
    }
  }
}
