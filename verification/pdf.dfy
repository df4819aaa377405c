/** The `/orderpdf` command (`src/routes/commands/pdf.js`): search the mail
    log by subject and offer one "Generate PDF" button per result, each
    carrying the requester and the mail id. */
module MailPdf {
  import opened Wrappers
  import opened JsText
  import opened JsNumber
  import opened JsValue
  import opened Sessions
  import opened Upstream
  import opened Chat

  /** At most this many results get a button. */
  const MaxPdfButtons := 10

  /** The button for one search result: value `<requester>|<mail id>`. */
  function PdfButton(userId: UserId, row: MailRow): Button {
    Button(PdfGenerateId, userId + "|" + ToStr(row.mailId), Primary)
  }

  /** One button per result, for the first ten results, in result order. */
  function PdfButtons(userId: UserId, rows: seq<MailRow>): (r: seq<Button>)
    ensures |r| == if |rows| < MaxPdfButtons then |rows| else MaxPdfButtons
    ensures forall i | 0 <= i < |r| :: r[i] == PdfButton(userId, rows[i])
  {
    var shown := rows[..if |rows| < MaxPdfButtons then |rows| else MaxPdfButtons];
    seq(|shown|, i requires 0 <= i < |shown| => PdfButton(userId, shown[i]))
  }

  /** What `/orderpdf` merges into the session. */
  function PdfPatch(query: string): Record {
    map["orderPdf" := Obj(map["query" := Str(query)])]
  }

  /** The lookup half of `/orderpdf` for a non-empty query. */
  function StageOrderPdf(query: string, userId: UserId, store: Store, o: Oracle): (st: Staged)
    ensures st.gets == [MailSearch(query)]
    ensures st.result.Prompt? <==> o.mailSearch(query).Got? && o.mailSearch(query).data != []
    ensures st.result.Problem? ==> st.store == store
    ensures o.mailSearch(query).Failed? ==> st.result == Problem(FailedToSearchMailLogs)
    ensures o.mailSearch(query) == Got([]) ==> st.result == Problem(NoMailLogs(query))
    ensures st.result.Prompt? ==>
      var rows := o.mailSearch(query).data;
      && Patched(store, st.store, userId, PdfPatch(query))
      && st.result.notice == MailLogsPrompt(query, |rows|)
      && 1 <= |st.result.buttons| <= MaxPdfButtons && |st.result.buttons| <= |rows|
      && forall i | 0 <= i < |st.result.buttons| :: st.result.buttons[i] == PdfButton(userId, rows[i])
  {
    var gets := [MailSearch(query)];
    match o.mailSearch(query)
    case Failed => Staged(gets, Problem(FailedToSearchMailLogs), store)
    case Got(rows) =>
      if rows == [] then Staged(gets, Problem(NoMailLogs(query)), store)
      else
        UpdatePatches(store, userId, PdfPatch(query));
        Staged(gets, Prompt(MailLogsPrompt(query, |rows|), PdfButtons(userId, rows)),
               UpdateSession(store, userId, PdfPatch(query)).store)
  }

  /** `/orderpdf`: always acknowledged first; an empty query is answered in
      the channel without any lookup. */
  function OrderPdf(text: Option<string>, userId: UserId, store: Store, o: Oracle): (r: CommandOutcome)
    ensures r.reply == Acked && |r.notices| == 1
    ensures Trim(text.GetOr("")) == "" <==> r.notices == [ProvideSubject]
    ensures Trim(text.GetOr("")) == "" ==> r.gets == [] && r.store == store
    ensures Trim(text.GetOr("")) != "" ==> r.gets == [MailSearch(Trim(text.GetOr("")))]
    ensures |r.buttons| <= MaxPdfButtons
  {
    var query := Trim(text.GetOr(""));
    if query == "" then Stopped(Acked, [ProvideSubject], store)
    else Posted(StageOrderPdf(query, userId, store, o))
  }

  /** The mail log's `id` spells the integer `n`: the number itself, or
      (as the plugin's `ARRAY_A` rows carry it) a string of its decimal
      digits. */
  predicate MailIdOf(v: Value, n: int) {
    v == Num(n) || (v.Str? && |v.s| >= 1 && AllDigits(v.s) && DigitsValue(v.s) == n)
  }

  /** A button for a mail id, numeric or a digit string, splits back into
      the requester and the id's text, which parses to the id. */
  lemma PdfButtonDecodes(userId: UserId, v: Value, n: int)
    requires '|' !in userId
    requires MailIdOf(v, n)
    ensures var b := PdfButton(userId, MailRow(v)).value;
      && Split(b, '|') == [userId, ToStr(v)]
      && ParseInt(ToStr(v)) == Some(n)
  {
    var s := ToStr(v);
    if v.Num? {
      ParseIntOfIntToString(n);
    } else {
      ParseIntOfDigits(v.s);
    }
    assert '|' !in s;
    SplitTwo(userId, s, '|');
  }
}
