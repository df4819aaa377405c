/** The WooCommerce REST API as the bot sees it (`src/services/woo.js`):
    each GET is one call whose answer comes from an oracle, each PUT is one
    call whose success the oracle decides, and neither is retried. */
module Upstream {
  import opened Wrappers
  import opened JsValue

  /** An entry of a `meta_data` array. */
  datatype MetaEntry = MetaEntry(key: Value, value: Value)

  /** The fields of a product the bot reads; `kind` is the product `type`. */
  datatype Product = Product(id: Value, name: Value, price: Value, kind: Value)

  datatype Variation = Variation(id: Value, sku: Value, price: Value)

  /** `meta` is `None` when `meta_data` is absent. */
  datatype Customer = Customer(id: Value, meta: Option<seq<MetaEntry>>)

  /** `hasBilling` says whether the `billing` object is present. */
  datatype Order = Order(id: Value, status: Value, meta: Option<seq<MetaEntry>>, hasBilling: bool)

  /** A row of a mail-log search. */
  datatype MailRow = MailRow(mailId: Value)

  /** A stored mail: its HTML body and subject. */
  datatype MailLog = MailLog(html: Value, subject: Value)

  /** A GET either throws (HTTP error or network failure) or yields data. */
  datatype Fetch<T> = Failed | Got(data: T)

  /** The API resources the bot addresses, relative to `/wp-json/wc/v3`. */
  datatype Resource =
    | ProductsBySku(sku: string)                         // GET /products?sku=
    | Variations(productId: Value)                       // GET /products/{id}/variations
    | CustomersByEmail(email: string)                    // GET /customers?email=&per_page=1
    | OrdersPage(page: nat)                              // GET /orders?per_page=100&page=&orderby=date&order=desc
    | OrderById(orderId: string)                         // GET, PUT /orders/{id}
    | MailSearch(subject: string)                        // GET /mail-log/search?subject=&limit=10&days=30
    | MailLogById(mailId: int)                           // GET /mail-log/{id}
    | ProductById(productId: Value)                      // PUT /products/{id}
    | VariationById(productId: Value, variationId: Value) // PUT /products/{id}/variations/{vid}
    | CustomerById(customerId: Value)                    // PUT /customers/{id}

  /** The JSON bodies of the PUTs. */
  datatype Body =
    | StatusBody(status: string)                         // { status }
    | CustomerMetaBody(code: string, customerClass: string) // { meta_data: [customer_code, customer_class] }
    | DraftBody                                          // { status: 'draft' }
    | PriceBody(regularPrice: string)                    // { regular_price }

  /** An observable call to the outside world. */
  datatype Effect =
    | Get(resource: Resource)
    | Put(resource: Resource, body: Body)
    | Upload(filename: string)

  /** Everything the model does not compute itself: the API's answers, whether
      a PUT, a PDF rendering or a file upload succeeds, and `parseFloat`
      followed by `toString` on a price (`None` is NaN). */
  datatype Oracle = Oracle(
    products: string -> Fetch<seq<Product>>,
    variations: Value -> Fetch<seq<Variation>>,
    customers: string -> Fetch<Option<seq<Customer>>>,
    ordersPage: nat -> Fetch<seq<Order>>,
    order: string -> Fetch<Order>,
    mailSearch: string -> Fetch<seq<MailRow>>,
    mailLog: int -> Fetch<MailLog>,
    putSucceeds: (Resource, Body) -> bool,
    renders: Value -> bool,
    uploads: string -> bool,
    parsePrice: string -> Option<string>)

  /** The number of PUTs among the effects. */
  function PutCount(effects: seq<Effect>): nat
    decreases |effects|
  {
    if effects == [] then 0
    else (if effects[0].Put? then 1 else 0) + PutCount(effects[1..])
  }

  predicate NoPut(effects: seq<Effect>) {
    forall i | 0 <= i < |effects| :: !effects[i].Put?
  }

  lemma {:induction false} NoPutCount(effects: seq<Effect>)
    ensures NoPut(effects) <==> PutCount(effects) == 0
    decreases |effects|
  {
    if effects != [] {
      NoPutCount(effects[1..]);
      if NoPut(effects[1..]) && !effects[0].Put? {
        forall i | 0 <= i < |effects|
          ensures !effects[i].Put?
        {
          if i > 0 {
            assert effects[i] == effects[1..][i - 1];
          }
        }
      }
      if NoPut(effects) {
        forall i | 0 <= i < |effects[1..]|
          ensures !effects[1..][i].Put?
        {
          assert effects[1..][i] == effects[i + 1];
        }
      }
    }
  }
}
