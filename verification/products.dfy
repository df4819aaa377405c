/** The product commands (`src/routes/commands/products.js`): `/draftproduct`
    stages a product for drafting, `/priceupdate` stages a price change. Both
    look a product up by SKU, merge what the confirmation needs into the
    requester's session, and offer a confirm and a cancel button. */
module Products {
  import opened Wrappers
  import opened JsText
  import opened JsValue
  import opened Sessions
  import opened Upstream
  import opened Chat
  import opened Lookup

  function DraftButtons(userId: UserId): seq<Button> {
    [Button(ConfirmDraftId, userId, Primary), Button(CancelDraftId, userId, Danger)]
  }

  function PriceButtons(userId: UserId): seq<Button> {
    [Button(ConfirmPriceId, userId, Primary), Button(CancelPriceId, userId, Danger)]
  }

  /** What `/draftproduct` merges into the session. */
  function DraftPatch(p: Product): Record {
    map["productId" := p.id, "productName" := p.name]
  }

  /** The lookup half of `/draftproduct` for a non-empty SKU: the first
      product with that SKU is staged; no product, or a failed GET, ends the
      flow with the session store untouched. */
  function StageDraft(sku: string, userId: UserId, store: Store, o: Oracle): (st: Staged)
    ensures st.gets == [ProductsBySku(sku)]
    ensures st.result.Prompt? <==> o.products(sku).Got? && o.products(sku).data != []
    ensures st.result.Problem? ==> st.store == store
    ensures o.products(sku).Failed? ==> st.result == Problem(ErrorRetrievingProduct)
    ensures o.products(sku) == Got([]) ==> st.result == Problem(NoProductWithSku(sku))
    ensures st.result.Prompt? ==>
      var p := o.products(sku).data[0];
      && Patched(store, st.store, userId, DraftPatch(p))
      && st.result.buttons == DraftButtons(userId)
      && st.result.notice == ConfirmDraftPrompt(p.name, p.price)
  {
    var gets := [ProductsBySku(sku)];
    match o.products(sku)
    case Failed => Staged(gets, Problem(ErrorRetrievingProduct), store)
    case Got(ps) =>
      if ps == [] then Staged(gets, Problem(NoProductWithSku(sku)), store)
      else
        var p := ps[0];
        UpdatePatches(store, userId, DraftPatch(p));
        Staged(gets, Prompt(ConfirmDraftPrompt(p.name, p.price), DraftButtons(userId)),
               UpdateSession(store, userId, DraftPatch(p)).store)
  }

  /** `/draftproduct`: an empty SKU is refused in the response before any
      lookup; otherwise the command acknowledges and posts the outcome. */
  function DraftProduct(text: Option<string>, userId: UserId, store: Store, o: Oracle): (r: CommandOutcome)
    ensures r.reply == Refused(ProvideSku) <==> Trim(text.GetOr("")) == ""
    ensures Trim(text.GetOr("")) == "" ==> r.gets == [] && r.notices == [] && r.store == store
    ensures Trim(text.GetOr("")) != "" ==> r.reply == Acked && r.gets == [ProductsBySku(Trim(text.GetOr("")))]
    ensures r.store != store ==> r.buttons == DraftButtons(userId)
  {
    var sku := Trim(text.GetOr(""));
    if sku == "" then Stopped(Refused(ProvideSku), [], store)
    else Posted(StageDraft(sku, userId, store, o))
  }

  /** `(v) => v.sku === sku` */
  function SkuIs(sku: string): Variation -> bool {
    (v: Variation) => v.sku == Str(sku)
  }

  /** What `/priceupdate` merges into the session: the SKU, the product, the
      variation (`variant?.id || null`), whether there is one, and the price
      currently shown. */
  function PricePatch(sku: string, p: Product, variant: Option<Variation>): Record {
    map[
      "sku" := Str(sku),
      "productId" := p.id,
      "variationId" := (if variant.Some? && Truthy(variant.value.id) then variant.value.id else Null),
      "isVariation" := Bool(variant.Some?),
      "originalPrice" := (if variant.Some? then variant.value.price else p.price)
    ]
  }

  function IsVariable(p: Product): bool {
    p.kind == Str("variable")
  }

  /** Stage a price change of `p` (or of its variation `variant`). */
  function OfferPrice(sku: string, userId: UserId, store: Store, p: Product, variant: Option<Variation>,
                      gets: seq<Resource>): (st: Staged)
    ensures st.gets == gets
    ensures Patched(store, st.store, userId, PricePatch(sku, p, variant))
    ensures userId in st.store
    ensures Field(st.store[userId], "sku") == Str(sku) && Field(st.store[userId], "productId") == p.id
    ensures Field(st.store[userId], "isVariation") == Bool(variant.Some?)
    ensures Field(st.store[userId], "variationId") == PricePatch(sku, p, variant)["variationId"]
    ensures Field(st.store[userId], "originalPrice") == PricePatch(sku, p, variant)["originalPrice"]
    ensures st.result == Prompt(CurrentPricePrompt(sku, PricePatch(sku, p, variant)["originalPrice"]), PriceButtons(userId))
  {
    var patch := PricePatch(sku, p, variant);
    UpdatePatches(store, userId, patch);
    Staged(gets, Prompt(CurrentPricePrompt(sku, patch["originalPrice"]), PriceButtons(userId)),
           UpdateSession(store, userId, patch).store)
  }

  /** The lookup half of `/priceupdate` for a non-empty SKU. A variable
      product needs a variation carrying the SKU itself; every problem leaves
      the session store untouched; a staged change records whether it is a
      variation exactly when the product is variable. */
  function StagePrice(sku: string, userId: UserId, store: Store, o: Oracle): (st: Staged)
    ensures 1 <= |st.gets| <= 2 && st.gets[0] == ProductsBySku(sku)
    ensures |st.gets| == 2 <==> o.products(sku).Got? && o.products(sku).data != [] && IsVariable(o.products(sku).data[0])
    ensures |st.gets| == 2 ==> st.gets[1] == Variations(o.products(sku).data[0].id)
    ensures st.result.Problem? ==> st.store == store
    ensures st.result.Problem? ==> st.result.notice in {FailedToFindProduct, NoProductWithSku(sku), NoMatchingVariation(sku)}
    ensures st.result.Prompt? ==>
      && o.products(sku).Got? && o.products(sku).data != []
      && st.result.buttons == PriceButtons(userId)
      && userId in st.store
      && Field(st.store[userId], "sku") == Str(sku)
      && Field(st.store[userId], "productId") == o.products(sku).data[0].id
      && (Field(st.store[userId], "isVariation") == Bool(true) <==> IsVariable(o.products(sku).data[0]))
  {
    var first := [ProductsBySku(sku)];
    match o.products(sku)
    case Failed => Staged(first, Problem(FailedToFindProduct), store)
    case Got(ps) =>
      if ps == [] then Staged(first, Problem(NoProductWithSku(sku)), store)
      else
        var p := ps[0];
        if !IsVariable(p) then OfferPrice(sku, userId, store, p, None, first)
        else
          var gets := [ProductsBySku(sku), Variations(p.id)];
          match o.variations(p.id)
          case Failed => Staged(gets, Problem(FailedToFindProduct), store)
          case Got(vs) =>
            match Find(vs, SkuIs(sku))
            case None => Staged(gets, Problem(NoMatchingVariation(sku)), store)
            case Some(v) => OfferPrice(sku, userId, store, p, Some(v), gets)
  }

  /** For a variable product the staged variation is the first one carrying
      the SKU: the change is staged exactly when one exists, and the session
      then holds that variation's id (or `null` for a falsy id) and price. */
  lemma StagePriceFirstVariation(sku: string, userId: UserId, store: Store, o: Oracle)
    requires o.products(sku).Got? && o.products(sku).data != []
    requires IsVariable(o.products(sku).data[0])
    requires o.variations(o.products(sku).data[0].id).Got?
    ensures var vs := o.variations(o.products(sku).data[0].id).data;
      var st := StagePrice(sku, userId, store, o);
      && (st.result.Prompt? <==> exists k | 0 <= k < |vs| :: vs[k].sku == Str(sku))
      && (st.result.Problem? ==> st.result.notice == NoMatchingVariation(sku))
      && (forall k | 0 <= k < |vs| && vs[k].sku == Str(sku) && (forall j | 0 <= j < k :: vs[j].sku != Str(sku)) ::
            && Field(st.store[userId], "originalPrice") == vs[k].price
            && Field(st.store[userId], "variationId") == (if Truthy(vs[k].id) then vs[k].id else Null)
            && st.result.notice == CurrentPricePrompt(sku, vs[k].price))
  {
    var p := o.products(sku).data[0];
    var vs := o.variations(p.id).data;
    var st := StagePrice(sku, userId, store, o);
    var gets := [ProductsBySku(sku), Variations(p.id)];
    match Find(vs, SkuIs(sku))
    case None =>
      assert st == Staged(gets, Problem(NoMatchingVariation(sku)), store);
    case Some(found) =>
      assert st == OfferPrice(sku, userId, store, p, Some(found), gets);
      forall k | 0 <= k < |vs| && vs[k].sku == Str(sku) && (forall j | 0 <= j < k :: vs[j].sku != Str(sku))
        ensures Field(st.store[userId], "originalPrice") == vs[k].price
        ensures Field(st.store[userId], "variationId") == (if Truthy(vs[k].id) then vs[k].id else Null)
        ensures st.result.notice == CurrentPricePrompt(sku, vs[k].price)
      {
        FindIsFirst(vs, SkuIs(sku), k);
      }
  }

  /** A product that is not variable is staged with one GET, no variation,
      and its own price. */
  lemma StagePriceSimpleProduct(sku: string, userId: UserId, store: Store, o: Oracle)
    requires o.products(sku).Got? && o.products(sku).data != []
    requires !IsVariable(o.products(sku).data[0])
    ensures var p := o.products(sku).data[0];
      var st := StagePrice(sku, userId, store, o);
      && st.gets == [ProductsBySku(sku)]
      && st.result == Prompt(CurrentPricePrompt(sku, p.price), PriceButtons(userId))
      && Field(st.store[userId], "isVariation") == Bool(false)
      && Field(st.store[userId], "variationId") == Null
      && Field(st.store[userId], "originalPrice") == p.price
  {
  }

  /** `/priceupdate`: like `/draftproduct`, an empty SKU is refused in the
      response; otherwise the command acknowledges and posts the outcome. */
  function PriceUpdate(text: Option<string>, userId: UserId, store: Store, o: Oracle): (r: CommandOutcome)
    ensures r.reply == Refused(ProvideSku) <==> Trim(text.GetOr("")) == ""
    ensures Trim(text.GetOr("")) == "" ==> r.gets == [] && r.notices == [] && r.store == store
    ensures Trim(text.GetOr("")) != "" ==> r.reply == Acked && |r.notices| == 1
    ensures r.store != store ==> r.buttons == PriceButtons(userId)
  {
    var sku := Trim(text.GetOr(""));
    if sku == "" then Stopped(Refused(ProvideSku), [], store)
    else Posted(StagePrice(sku, userId, store, o))
  }
}
