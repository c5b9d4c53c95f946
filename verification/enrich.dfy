/**
  The input check and product cleaning of the enrich route
  (app/api/enrich/route.ts:10-22): the request's `products` must be an
  array, and each product loses its null values and the two keys the
  route writes itself before the list is sent on.
 */
module Enrich {
  import opened Values
  import opened Wrappers

  /** The `products` field of the request body: absent or falsy, present
      but not an array, or an array of product objects. */
  datatype Products = Missing | NotAnArray | Items(products: seq<Record>)

  /** The HTTP status of a rejected request. */
  const BadRequest: nat := 400

  /** The keys the route produces and therefore never forwards. */
  const EnrichedKey: string := "enriched_description"
  const ImageKey: string := "image"

  /** An entry the cleaning keeps. */
  predicate Forwarded(k: string, v: Value) {
    v != Null && k != EnrichedKey && k != ImageKey
  }

  /** One product with every null value and the keys `enriched_description`
      and `image` removed. Every other entry is kept with its value, so the
      keys of the result are a subset of the product's keys. */
  function CleanProduct(p: Record): (clean: Record)
    ensures EnrichedKey !in clean && ImageKey !in clean
    ensures forall k :: k in clean ==> clean[k] != Null
    ensures clean.Keys <= p.Keys
    ensures forall k :: k in p ==> (k in clean <==> Forwarded(k, p[k]))
    ensures forall k :: k in clean ==> clean[k] == p[k]
  {
    map k | k in p && Forwarded(k, p[k]) :: p[k]
  }

  /** `products.map(...)`: one cleaned product per input, in input order. */
  function CleanProducts(products: seq<Record>): (clean: seq<Record>)
    ensures |clean| == |products|
    ensures forall i :: 0 <= i < |products| ==> clean[i] == CleanProduct(products[i])
  {
    if |products| == 0 then [] else CleanProducts(products[..|products| - 1]) + [CleanProduct(products[|products| - 1])]
  }

  /** The route up to the model call: a 400 unless `products` is an array,
      otherwise the cleaned list. */
  function Prepare(body: Products): (r: Result<seq<Record>, nat>)
    ensures r.Failure? <==> !body.Items?
    ensures r.Failure? ==> r.error == BadRequest
    ensures r.Success? ==> |r.value| == |body.products|
    ensures r.Success? ==> forall i :: 0 <= i < |r.value| ==> r.value[i] == CleanProduct(body.products[i])
  {
    match body
    case Items(products) => Success(CleanProducts(products))
    case _ => Failure(BadRequest)
  }

  /** Cleaning a cleaned product changes nothing. */
  lemma CleanProductIdempotent(p: Record)
    ensures CleanProduct(CleanProduct(p)) == CleanProduct(p)
  {
  }

  /** A product is left as it is exactly when it holds no null and neither
      of the two route-owned keys. */
  lemma CleanProductFixed(p: Record)
    ensures CleanProduct(p) == p <==> forall k :: k in p ==> Forwarded(k, p[k])
  {
    if CleanProduct(p) == p {
      assert forall k :: k in p ==> k in CleanProduct(p);
    }
  }

  /** Cleaning the whole list twice is cleaning it once. */
  lemma {:induction false} CleanProductsIdempotent(products: seq<Record>)
    ensures CleanProducts(CleanProducts(products)) == CleanProducts(products)
  {
    var once := CleanProducts(products);
    forall i | 0 <= i < |once| ensures CleanProducts(once)[i] == once[i] {
      CleanProductIdempotent(products[i]);
    }
  }
}
