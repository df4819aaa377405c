/** The two-step workflows end to end: a command stages something and posts
    buttons, and a click on one of those buttons reaches the interaction
    endpoint. These lemmas follow a button from the command that made it to
    the call its click makes. */
module Workflows {
  import opened Wrappers
  import opened JsText
  import opened JsNumber
  import opened JsValue
  import opened Sessions
  import opened Upstream
  import opened Chat
  import opened Orders
  import opened Products
  import opened Customers
  import opened MailPdf
  import opened Interactions
  import opened Legacy

  /** A click on button `b` in an otherwise well-formed payload. */
  predicate ClickOn(p: Payload, b: Button) {
    Accepted(p) && Clicked(p) == Action(b.actionId, b.value)
  }

  // ---------------------------------------------------------------------
  // Mail-log PDFs

  /** A PDF button names its requester and its mail id (a number, or the
      digit string the plugin returns): the requester's own
      click fetches that mail log, anyone else's is refused without a call.
      The single-file server fetches the log whoever clicks. */
  lemma PdfButtonClick(userId: UserId, rows: seq<MailRow>, i: nat, n: int, p: Payload, store: Store, o: Oracle)
    requires userId != "" && '|' !in userId
    requires i < |rows| && i < MaxPdfButtons && MailIdOf(rows[i].mailId, n) && n != 0
    requires ClickOn(p, PdfButtons(userId, rows)[i])
    ensures var r := Interact(Some(p), store, o);
      && r.http == Acknowledged && r.store == store
      && (p.user == Some(userId) ==>
            |r.effects| > 0 && r.effects[0] == Effect.Get(MailLogById(n)) && |r.notices| > 0 && r.notices[0] == GeneratingPdf(n))
      && (p.user != Some(userId) ==> r.effects == [] && r.notices == [NotRequester])
    ensures var l := LegacyInteract(Some(p), store, o);
      |l.effects| > 0 && l.effects[0] == Effect.Get(MailLogById(n))
  {
    var b := PdfButtons(userId, rows)[i];
    assert b == PdfButton(userId, rows[i]);
    var a := Clicked(p);
    assert a.actionId == PdfGenerateId && a.value == b.value;
    PdfButtonDecodes(userId, rows[i].mailId, n);
    assert ReadPdfValue(a.value) == PdfRequest(userId, Some(n));
    ReceiveDispatches(p, false, store, o);
    assert Route(a.actionId) == PdfHandler;
    assert Dispatch(PdfHandler, a, p, store, o) == GeneratePdf(a.value, p.user, true, store, o);
    LegacyPdfDispatch(p, store, o);
  }

  // ---------------------------------------------------------------------
  // Order status buttons

  lemma StatusButtonHead(b: Button)
    requires StartsWith(b.actionId, StatusButtonPrefix)
    ensures |b.actionId| > 0 && b.actionId[0] == 'e'
  {
    assert b.actionId[0] == StatusButtonPrefix[0];
  }

  /** As written, the endpoint dispatches on the exact id
      `edit_order_status`, while every status button carries
      `edit_order_status_<status>`: a click on one never reaches the status
      handler, reads no order and writes nothing, and is answered as an
      unknown action (or as a missing session). */
  lemma StatusButtonUnreachable(userId: string, orderId: Value, current: string, i: nat, p: Payload, store: Store, o: Oracle)
    requires i < MaxStatusButtons
    requires ClickOn(p, BuildStatusButtons(userId, orderId, current)[i])
    ensures var r := Interact(Some(p), store, o);
      && r.http == Acknowledged && r.effects == [] && r.store == store
      && r.notices == (if SessionHolder(p.user, store) then [UnsupportedAction] else [NoSessionFound])
  {
    var b := BuildStatusButtons(userId, orderId, current)[i];
    var a := Clicked(p);
    StatusButtonHead(b);
    assert a.actionId[0] == 'e';
    assert a.actionId != PdfGenerateId by { assert PdfGenerateId[0] == 'o'; }
    assert Route(a.actionId) == SessionHandler;
    ReceiveDispatches(p, false, store, o);
    if SessionHolder(p.user, store) {
      assert a.actionId !in {CancelCustomerMetaId, SaveCustomerMetaId, ConfirmDraftId, CancelDraftId,
                             CancelPriceId, ConfirmPriceId} by {
        assert CancelCustomerMetaId[0] == 's' || CancelCustomerMetaId[0] == 'c';
        assert SaveCustomerMetaId[0] == 's' && ConfirmDraftId[0] == 'c' && CancelDraftId[0] == 'c';
        assert CancelPriceId[0] == 'c' && ConfirmPriceId[0] == 'c';
      }
    }
  }

  /** A status the bot offers is its own normalised target. */
  lemma CandidateIsTarget(s: string)
    requires s in Candidates
    ensures Lower(Trim(s)) == s
  {
    CandidatesPlain();
    var k :| 0 <= k < |Candidates| && Candidates[k] == s;
    assert NoSpace(s) && NoUpper(s);
    TrimNoSpace(s);
    LowerNoUpper(s);
  }

  /** A numeric order id passes the status handler's id check. */
  lemma NumericIdValid(n: int)
    ensures ValidOrderId(IntToString(n))
  {
    ToNumberOfIntToString(n);
  }

  /** A status button's value splits into its requester, the order's id
      and the status it offers. */
  lemma StatusButtonParts(userId: string, n: int, current: string, i: nat)
    requires '|' !in userId
    requires i < MaxStatusButtons
    ensures var s := OfferedStatuses(NormalizeStatus(current))[i];
      && Split(BuildStatusButtons(userId, Num(n), current)[i].value, '|') == [userId, IntToString(n), s]
      && s in Candidates && s != NormalizeStatus(current)
  {
    assert ToStr(Num(n)) == IntToString(n);
    assert '|' !in IntToString(n);
    StatusButtonsDecode(userId, Num(n), current, i);
  }

  /** A status button reads back as a request from its requester, for the
      order it was made for, to move it to the status it offers. */
  lemma StatusButtonRequest(userId: string, n: int, current: string, i: nat)
    requires userId != "" && '|' !in userId
    requires i < MaxStatusButtons
    ensures var s := OfferedStatuses(NormalizeStatus(current))[i];
      && ReadStatusValue(BuildStatusButtons(userId, Num(n), current)[i].value) == StatusRequest(userId, IntToString(n), true, s)
      && s in Candidates && s != NormalizeStatus(current)
  {
    var s := OfferedStatuses(NormalizeStatus(current))[i];
    StatusButtonParts(userId, n, current, i);
    ReadStatusOfParts(BuildStatusButtons(userId, Num(n), current)[i].value, userId, IntToString(n), s);
    CandidateIsTarget(s);
    NumericIdValid(n);
  }

  /** Under the intended dispatch, a click on an `edit_order_status_` button
      whose value reads as a valid request from `requester` runs the status
      handler: the requester's click reads the order and PUTs the target
      status exactly when the order's status differs from it; anyone else is
      refused without a call. */
  lemma StatusClickIntended(p: Payload, store: Store, o: Oracle, requester: string, id: string, target: string)
    requires Accepted(p) && StartsWith(Clicked(p).actionId, StatusButtonPrefix)
    requires requester != "" && target != ""
    requires ReadStatusValue(Clicked(p).value) == StatusRequest(requester, id, true, target)
    ensures var r := InteractIntended(Some(p), store, o);
      && r.http == Acknowledged && r.store == store
      && (p.user == Some(requester) ==>
            && r.effects == ApplyStatus(StatusRequest(requester, id, true, target), store, o).effects
            && |r.effects| > 0 && r.effects[0] == Effect.Get(OrderById(id))
            && (PutCount(r.effects) == 1 <==> o.order(id).Got? && CurrentStatus(o.order(id).data) != target)
            && (PutCount(r.effects) == 1 ==> |r.effects| == 2 && r.effects[1] == Put(OrderById(id), StatusBody(target))))
      && (p.user != Some(requester) ==> r.effects == [] && r.notices == [NotRequester])
  {
    var a := Clicked(p);
    var q := ReadStatusValue(a.value);
    assert RouteIntended(a.actionId) == StatusHandler;
    ReceiveDispatches(p, true, store, o);
    var r := InteractIntended(Some(p), store, o);
    var step := ChangeStatus(a.value, p.user, store, o);
    assert r.effects == step.effects && r.notices == step.notices && r.store == step.store;
    if p.user == Some(requester) {
      assert !StatusRefused(q, p.user) && StatusRequestValid(q);
      var st := ApplyStatus(q, store, o);
      assert step == st;
      GetFirstPutCount(st.effects);
    }
  }

  /** A click on a status button reads as the request the button was made
      for. */
  lemma StatusButtonClickRead(userId: string, n: int, current: string, i: nat, p: Payload)
    requires userId != "" && '|' !in userId
    requires i < MaxStatusButtons
    requires ClickOn(p, BuildStatusButtons(userId, Num(n), current)[i])
    ensures var s := OfferedStatuses(NormalizeStatus(current))[i];
      && StartsWith(Clicked(p).actionId, StatusButtonPrefix) && s != ""
      && ReadStatusValue(Clicked(p).value) == StatusRequest(userId, IntToString(n), true, s)
  {
    var b := BuildStatusButtons(userId, Num(n), current)[i];
    var s := OfferedStatuses(NormalizeStatus(current))[i];
    StatusButtonRequest(userId, n, current, i);
    assert s != "" by { assert s in Candidates; }
    ClickReadsAs(p, b, StatusRequest(userId, IntToString(n), true, s));
  }

  /** A click carries the button's id and reads as the button's value does. */
  lemma ClickReadsAs(p: Payload, b: Button, q: StatusRequest)
    requires ClickOn(p, b) && StartsWith(b.actionId, StatusButtonPrefix) && ReadStatusValue(b.value) == q
    ensures StartsWith(Clicked(p).actionId, StatusButtonPrefix) && ReadStatusValue(Clicked(p).value) == q
  {
  }

  /** With the status buttons routed to the status handler, a click by the
      requester reads the order the button names and, at most, PUTs the
      status the button offers, a status other than the one the order had
      when the buttons were made; a PUT happens exactly when the order's
      status now differs from it. */
  lemma StatusButtonIntended(userId: string, n: int, current: string, i: nat, p: Payload, store: Store, o: Oracle)
    requires userId != "" && '|' !in userId
    requires i < MaxStatusButtons
    requires ClickOn(p, BuildStatusButtons(userId, Num(n), current)[i]) && p.user == Some(userId)
    ensures var s := OfferedStatuses(NormalizeStatus(current))[i];
      var r := InteractIntended(Some(p), store, o);
      && r.store == store
      && r.effects == ApplyStatus(StatusRequest(userId, IntToString(n), true, s), store, o).effects
      && |r.effects| > 0 && r.effects[0] == Effect.Get(OrderById(IntToString(n)))
      && (PutCount(r.effects) == 1 ==> |r.effects| == 2 && r.effects[1] == Put(OrderById(IntToString(n)), StatusBody(s)))
  {
    StatusButtonClickRead(userId, n, current, i, p);
    StatusClickIntended(p, store, o, userId, IntToString(n), OfferedStatuses(NormalizeStatus(current))[i]);
  }

  /** Under the same routing, anyone but the requester is refused without a
      call. */
  lemma StatusButtonOthersRefused(userId: string, n: int, current: string, i: nat, p: Payload, store: Store, o: Oracle)
    requires userId != "" && '|' !in userId
    requires i < MaxStatusButtons
    requires ClickOn(p, BuildStatusButtons(userId, Num(n), current)[i]) && p.user != Some(userId)
    ensures var r := InteractIntended(Some(p), store, o);
      r.effects == [] && r.notices == [NotRequester] && r.store == store
  {
    StatusButtonClickRead(userId, n, current, i, p);
    StatusClickIntended(p, store, o, userId, IntToString(n), OfferedStatuses(NormalizeStatus(current))[i]);
  }

  // ---------------------------------------------------------------------
  // Session-backed confirmations

  /** Confirming a draft drafts exactly the product `/draftproduct` staged,
      and ends the session whatever the outcome. */
  lemma DraftConfirmTargetsStaged(sku: string, userId: UserId, store: Store, o: Oracle, p: Payload)
    requires userId != "" && StageDraft(sku, userId, store, o).result.Prompt?
    requires ClickOn(p, DraftButtons(userId)[0]) && p.user == Some(userId)
    ensures var st := StageDraft(sku, userId, store, o);
      var product := o.products(sku).data[0];
      var r := Interact(Some(p), st.store, o);
      && r.effects == [Put(ProductById(product.id), DraftBody)]
      && r.store == DeleteSession(st.store, userId)
      && r.notices == [if o.putSucceeds(ProductById(product.id), DraftBody) then ProductRemoved(product.name) else RemoveFailed]
  {
    var st := StageDraft(sku, userId, store, o);
    var product := o.products(sku).data[0];
    assert Field(st.store[userId], "productId") == product.id;
    assert Field(st.store[userId], "productName") == product.name;
    ConfirmDraftClick(p, userId, st.store, o);
  }

  /** A confirmed draft removal PUTs the draft body to the session's
      product and ends the session whatever the PUT's outcome. */
  lemma ConfirmDraftClick(p: Payload, userId: UserId, store: Store, o: Oracle)
    requires Accepted(p) && p.user == Some(userId) && userId != "" && userId in store
    requires Clicked(p).actionId == ConfirmDraftId
    ensures var r := Interact(Some(p), store, o);
      var target := ProductById(Field(store[userId], "productId"));
      && r.effects == [Put(target, DraftBody)]
      && r.store == DeleteSession(store, userId)
      && r.notices == [if o.putSucceeds(target, DraftBody) then ProductRemoved(Field(store[userId], "productName")) else RemoveFailed]
  {
    SessionActionDispatch(p, store, o);
    assert SessionAction(ConfirmDraftId, userId, p.state, store, o) == Some(ConfirmDraft(userId, store, o));
  }

  /** Confirming a price PUTs the entered price to exactly what
      `/priceupdate` staged: the variation of a variable product, the
      product itself otherwise. The session ends only when the PUT
      succeeds. */
  lemma PriceConfirmTargetsStaged(sku: string, userId: UserId, store: Store, o: Oracle, p: Payload, price: string)
    requires userId != "" && StagePrice(sku, userId, store, o).result.Prompt?
    requires ClickOn(p, PriceButtons(userId)[0]) && p.user == Some(userId)
    requires p.state.Values? && FirstFilled(p.state.blocks).Some?
    requires o.parsePrice(FirstFilled(p.state.blocks).value) == Some(price)
    ensures var st := StagePrice(sku, userId, store, o);
      var product := o.products(sku).data[0];
      var r := Interact(Some(p), st.store, o);
      && |r.effects| == 1 && r.effects[0].Put? && r.effects[0].body == PriceBody(price)
      && (IsVariable(product) ==> r.effects[0].resource.VariationById? && r.effects[0].resource.productId == product.id)
      && (!IsVariable(product) ==> r.effects[0].resource == ProductById(product.id))
      && (r.store == DeleteSession(st.store, userId) <==> o.putSucceeds(r.effects[0].resource, PriceBody(price)))
      && (r.store != DeleteSession(st.store, userId) ==> r.store == st.store)
  {
    var st := StagePrice(sku, userId, store, o);
    var product := o.products(sku).data[0];
    assert userId in st.store;
    assert st.store != DeleteSession(st.store, userId);
    ConfirmPriceClick(p, userId, st.store, o, price);
    var target := PriceTarget(st.store[userId]);
    assert IsVariable(product) ==> target.VariationById? && target.productId == product.id;
    assert !IsVariable(product) ==> target == ProductById(product.id);
  }

  /** A confirmed price is PUT to the session's target; the session ends
      exactly when the PUT succeeds. */
  lemma ConfirmPriceClick(p: Payload, userId: UserId, store: Store, o: Oracle, price: string)
    requires Accepted(p) && p.user == Some(userId) && userId != "" && userId in store
    requires Clicked(p).actionId == ConfirmPriceId
    requires p.state.Values? && FirstFilled(p.state.blocks).Some?
    requires o.parsePrice(FirstFilled(p.state.blocks).value) == Some(price)
    ensures var r := Interact(Some(p), store, o);
      && r.effects == [Put(PriceTarget(store[userId]), PriceBody(price))]
      && (r.store != store <==> o.putSucceeds(PriceTarget(store[userId]), PriceBody(price)))
      && (r.store != store ==> r.store == DeleteSession(store, userId))
  {
    var s := ConfirmPrice(userId, p.state, store, o);
    SessionActionDispatch(p, store, o);
    assert SessionAction(ConfirmPriceId, userId, p.state, store, o) == Some(s);
  }

  /** Saving customer meta PUTs the two entered values to exactly the
      customer `/customermeta` staged; the session ends only when the PUT
      succeeds. */
  lemma CustomerSaveTargetsStaged(email: string, userId: UserId, store: Store, o: Oracle, p: Payload)
    requires userId != "" && StageCustomerMeta(email, userId, store, o).result.Prompt?
    requires Truthy(o.customers(email).data.value[0].id)
    requires ClickOn(p, CustomerButtons(userId)[0]) && p.user == Some(userId) && p.state.Values?
    ensures var st := StageCustomerMeta(email, userId, store, o);
      var customer := o.customers(email).data.value[0];
      var code := InputText(p.state.blocks, "customer_code_block", "customer_code");
      var cls := InputText(p.state.blocks, "customer_class_block", "customer_class");
      var r := Interact(Some(p), st.store, o);
      && r.effects == [Put(CustomerById(customer.id), CustomerMetaBody(code, cls))]
      && (r.store == DeleteSession(st.store, userId) <==> o.putSucceeds(CustomerById(customer.id), CustomerMetaBody(code, cls)))
  {
    var st := StageCustomerMeta(email, userId, store, o);
    var customer := o.customers(email).data.value[0];
    assert Field(st.store[userId], "customerId") == customer.id;
    SessionActionDispatch(p, st.store, o);
    assert SessionAction(SaveCustomerMetaId, userId, p.state, st.store, o) == Some(SaveCustomerMeta(userId, p.state, st.store, o));
  }

  /** Every write the endpoint makes is made for a user who holds a session,
      or, through the status handler, for the requester named in the
      button. */
  lemma WritesAreAuthorized(p: Payload, store: Store, o: Oracle)
    requires Accepted(p) && PutCount(Interact(Some(p), store, o).effects) > 0
    ensures SessionHolder(p.user, store) ||
      (Route(Clicked(p).actionId) == StatusHandler && p.user == Some(ReadStatusValue(Clicked(p).value).requester))
  {
    var a := Clicked(p);
    match Route(a.actionId)
    case PdfHandler =>
      var s := GeneratePdf(a.value, p.user, true, store, o);
      NoPutCount(s.effects);
    case StatusHandler =>
    case SessionHandler =>
  }
}
