/** The single-file server (`app.js`), the predecessor of the modular one.
    Its product commands answer problems in the HTTP response instead of
    posting them, and its interaction endpoint validates nothing before
    acknowledging, never checks who clicked a PDF button, and has no status
    branch. The lookups, the session handling and the session-backed
    actions are the modular server's. */
module Legacy {
  import opened Wrappers
  import opened JsText
  import opened JsValue
  import opened Sessions
  import opened Upstream
  import opened Chat
  import opened Products
  import opened Interactions

  /** `/draftproduct` of the single-file server. */
  function LegacyDraftProduct(text: Option<string>, userId: UserId, store: Store, o: Oracle): (r: CommandOutcome)
    ensures r.reply == Refused(ProvideSku) <==> Trim(text.GetOr("")) == ""
    ensures r.reply.Refused? ==> r.notices == [] && r.buttons == []
    ensures r.reply.Acked? ==> r.notices != [] && r.buttons == DraftButtons(userId)
  {
    var sku := Trim(text.GetOr(""));
    if sku == "" then Stopped(Refused(ProvideSku), [], store)
    else Answered(StageDraft(sku, userId, store, o))
  }

  /** `/priceupdate` of the single-file server. */
  function LegacyPriceUpdate(text: Option<string>, userId: UserId, store: Store, o: Oracle): (r: CommandOutcome)
    ensures r.reply == Refused(ProvideSku) <==> Trim(text.GetOr("")) == ""
    ensures r.reply.Refused? ==> r.notices == [] && r.buttons == []
    ensures r.reply.Acked? ==> r.notices != [] && r.buttons == PriceButtons(userId)
  {
    var sku := Trim(text.GetOr(""));
    if sku == "" then Stopped(Refused(ProvideSku), [], store)
    else Answered(StagePrice(sku, userId, store, o))
  }

  /** Answering a staged result and posting it differ only in where a
      problem goes: the same lookups, buttons and sessions, and a refusal
      carries exactly the notice the modular server posts. */
  lemma AnsweredMatchesPosted(st: Staged)
    ensures Answered(st).gets == Posted(st).gets && Answered(st).store == Posted(st).store
    ensures Answered(st).buttons == Posted(st).buttons
    ensures Answered(st).reply.Refused? ==> Posted(st).notices == [Answered(st).reply.notice]
    ensures Answered(st).reply.Acked? ==> Answered(st).notices == Posted(st).notices
  {
  }

  /** Both servers' `/draftproduct` make the same lookup and leave the same
      session; a problem is answered with the notice the modular server
      posts. */
  lemma LegacyDraftAgrees(text: Option<string>, userId: UserId, store: Store, o: Oracle)
    ensures var l := LegacyDraftProduct(text, userId, store, o);
      var m := DraftProduct(text, userId, store, o);
      && l.gets == m.gets && l.store == m.store && l.buttons == m.buttons
      && (l.reply.Refused? && Trim(text.GetOr("")) != "" ==> m.notices == [l.reply.notice])
      && (l.reply.Acked? ==> l.notices == m.notices)
  {
    var sku := Trim(text.GetOr(""));
    if sku != "" {
      AnsweredMatchesPosted(StageDraft(sku, userId, store, o));
    }
  }

  /** The same for `/priceupdate`. */
  lemma LegacyPriceAgrees(text: Option<string>, userId: UserId, store: Store, o: Oracle)
    ensures var l := LegacyPriceUpdate(text, userId, store, o);
      var m := PriceUpdate(text, userId, store, o);
      && l.gets == m.gets && l.store == m.store && l.buttons == m.buttons
      && (l.reply.Refused? && Trim(text.GetOr("")) != "" ==> m.notices == [l.reply.notice])
      && (l.reply.Acked? ==> l.notices == m.notices)
  {
    var sku := Trim(text.GetOr(""));
    if sku != "" {
      AnsweredMatchesPosted(StagePrice(sku, userId, store, o));
    }
  }

  /** The single-file interaction endpoint. It acknowledges as soon as the
      payload parses and has an action list and a channel (a missing one
      throws first and no answer is sent); an empty action list or an
      unknown action id then does nothing at all. */
  function LegacyInteract(payload: Option<Payload>, store: Store, o: Oracle): (r: Outcome)
    ensures !r.http.Rejected?
    ensures r.http == NoResponse <==> payload.None? || payload.value.actions.None? || payload.value.channel.None?
    ensures r.http == NoResponse ==> r.effects == [] && r.notices == [] && r.store == store
    ensures payload.Some? && payload.value.actions == Some([]) ==> r.effects == [] && r.notices == [] && r.store == store
    ensures PutCount(r.effects) <= 1
    ensures r.store == store ||
      (payload.Some? && SessionHolder(payload.value.user, store) && r.store == DeleteSession(store, payload.value.user.value))
  {
    match payload
    case None => Outcome(NoResponse, [], [], store)
    case Some(p) =>
      if p.actions.None? || p.channel.None? then Outcome(NoResponse, [], [], store)
      else if p.actions.value == [] then Outcome(Acknowledged, [], [], store)
      else
        var a := p.actions.value[0];
        if a.actionId == PdfGenerateId then
          var s := GeneratePdf(a.value, p.user, false, store, o);
          NoPutCount(s.effects);
          Outcome(Acknowledged, s.effects, s.notices, s.store)
        else if !SessionHolder(p.user, store) then Outcome(Acknowledged, [], [NoSessionFound], store)
        else match SessionAction(a.actionId, p.user.value, p.state, store, o)
          case Some(s) => Outcome(Acknowledged, s.effects, s.notices, s.store)
          case None => Outcome(Acknowledged, [], [], store)
  }

  /** On an accepted payload, a PDF click runs the PDF handler without the
      requester check. */
  lemma LegacyPdfDispatch(p: Payload, store: Store, o: Oracle)
    requires Accepted(p) && Clicked(p).actionId == PdfGenerateId
    ensures var s := GeneratePdf(Clicked(p).value, p.user, false, store, o);
      LegacyInteract(Some(p), store, o) == Outcome(Acknowledged, s.effects, s.notices, s.store)
  {
  }

  /** On a payload both servers accept, every session-backed action has the
      same effect on both. */
  lemma SessionActionsAgree(p: Payload, store: Store, o: Oracle)
    requires Accepted(p)
    requires Clicked(p).actionId in {CancelCustomerMetaId, SaveCustomerMetaId, ConfirmDraftId, CancelDraftId,
                                     CancelPriceId, ConfirmPriceId}
    ensures var l := LegacyInteract(Some(p), store, o);
      var m := Interact(Some(p), store, o);
      && l.http == m.http == Acknowledged
      && l.effects == m.effects && l.notices == m.notices && l.store == m.store
  {
  }

  /** The single-file server lets anyone use a PDF button: a click by someone
      other than the requester named in the button still fetches the mail
      log, where the modular server refuses it without a call. */
  lemma PdfRequesterUnchecked(p: Payload, store: Store, o: Oracle)
    requires Accepted(p) && Clicked(p).actionId == PdfGenerateId
    requires PdfRefused(ReadPdfValue(Clicked(p).value), p.user) && UsableMailId(ReadPdfValue(Clicked(p).value))
    ensures var id := ReadPdfValue(Clicked(p).value).mailId.value;
      && LegacyInteract(Some(p), store, o).effects[0] == Effect.Get(MailLogById(id))
      && Interact(Some(p), store, o).effects == []
      && Interact(Some(p), store, o).notices == [NotRequester]
  {
  }

  /** A button neither server knows is silently ignored by the single-file
      server and answered by the modular one. */
  lemma UnknownActionIgnored(p: Payload, store: Store, o: Oracle)
    requires Accepted(p) && SessionHolder(p.user, store)
    requires Clicked(p).actionId !in {PdfGenerateId, StatusActionId, CancelCustomerMetaId, SaveCustomerMetaId,
                                      ConfirmDraftId, CancelDraftId, CancelPriceId, ConfirmPriceId}
    ensures LegacyInteract(Some(p), store, o) == Outcome(Acknowledged, [], [], store)
    ensures Interact(Some(p), store, o) == Outcome(Acknowledged, [], [UnsupportedAction], store)
  {
  }
}
