/** What the bot exchanges with Slack: the interaction payload it receives,
    the buttons it offers, and the messages it posts (as their meaning, not
    their Markdown text). */
module Chat {
  import opened Wrappers
  import opened JsValue
  import opened Sessions
  import opened Upstream

  /** The clicked element of an interaction: its `action_id` and `value`
      (`""` when absent, which every consumer treats alike). */
  datatype Action = Action(actionId: string, value: string)

  /** One input element of `state.values[block_id]`. */
  datatype Element = Element(actionId: string, value: Option<string>)

  /** One entry of `state.values`, in the order `Object.values` yields it. */
  datatype Block = Block(blockId: string, elements: seq<Element>)

  /** `payload.state`: absent, present without `values`, or its values. */
  datatype FormState = NoState | NoValues | Values(blocks: seq<Block>)

  /** A parsed interaction payload. `user` is `payload.user.id` (`None` when
      either is absent); `channel` is `None` when `payload.channel` is absent
      and `Some("")` when it has no id; `actions` is `None` when absent. */
  datatype Payload = Payload(
    user: Option<string>,
    channel: Option<string>,
    actions: Option<seq<Action>>,
    state: FormState)

  datatype Style = Plain | Primary | Danger

  // The `action_id`s the bot puts on its buttons and dispatches on.
  const ConfirmDraftId := "confirm_draft"
  const CancelDraftId := "cancel_draft"
  const ConfirmPriceId := "confirm_price"
  const CancelPriceId := "cancel_price"
  const SaveCustomerMetaId := "save_customer_meta"
  const CancelCustomerMetaId := "cancel_customer_meta"
  const PdfGenerateId := "orderpdf_generate"
  /** The literal the status branch of the modular dispatcher compares with. */
  const StatusActionId := "edit_order_status"
  /** What every status button's `action_id` starts with. */
  const StatusButtonPrefix := "edit_order_status_"

  /** A button the bot posts. */
  datatype Button = Button(actionId: string, value: string, style: Style)

  /** The messages the bot posts, one constructor per distinct text. */
  datatype Notice =
    // products
    | ProvideSku
    | NoProductWithSku(sku: string)
    | ErrorRetrievingProduct
    | ConfirmDraftPrompt(productName: Value, listPrice: Value)
    | NoMatchingVariation(sku: string)
    | FailedToFindProduct
    | CurrentPricePrompt(sku: string, currentPrice: Value)
    // customers
    | ProvideEmail
    | NoCustomerWithEmail(email: string)
    | CustomerMetaPrompt(customerId: Value, storedCode: Value, storedClass: Value)
    | FailedToRetrieveCustomerMeta
    // mail-log PDFs
    | ProvideSubject
    | NoMailLogs(query: string)
    | MailLogsPrompt(query: string, count: nat)
    | FailedToSearchMailLogs
    // orders
    | ProvideOrderNumber
    | NoOrderWithCustomNumber(number: string)
    | OrderFound(foundId: Value)
    | FailedToRetrieveOrder
    | InvalidOrderId
    | NoOrderWithId(orderId: string)
    | OrderFoundById(orderId: string, foundId: Value)
    | EditOrderLink(orderId: string)
    | InvalidWooOrderId
    | NoCustomNumber(orderId: string)
    | CustomNumberFound(orderId: string, number: string)
    | CouldNotFindOrder(orderId: string)
    | OrderDetails(foundId: Value, statusLabel: string, stripe: string)
    | CouldNotLoadOrder(orderId: string)
    // interactions
    | NotRequester
    | InvalidMailSelection
    | GeneratingPdf(mailId: int)
    | NoHtml
    | PdfUploaded(filename: string)
    | PdfFailed
    | InvalidStatusRequest
    | AlreadyInStatus(orderId: string, status: string)
    | StatusChanged(orderId: string, from: string, to: string)
    | StatusUpdateFailed
    | NoSessionFound
    | CustomerMetaCanceled
    | SessionExpired
    | CustomerMetaUpdated(code: string, customerClass: string)
    | CustomerMetaSaveFailed
    | ProductRemoved(productName: Value)
    | RemoveFailed
    | RemovalCanceled
    | PriceUpdateCanceled
    | InvalidPrice
    | PriceUpdated(sessionSku: Value, newPrice: string)
    | PriceUpdateFailed
    | UnsupportedAction

  /** The synchronous answer to a slash command: an empty or progress 200
      (`Acked`), or a refusal text sent as the response body. */
  datatype Reply = Acked | Refused(notice: Notice)

  /** A slash command's complete effect: its reply, the GETs it made in
      order, what it posted to the channel afterwards, the buttons of that
      post, and the session store after it. */
  datatype CommandOutcome = CommandOutcome(
    reply: Reply,
    gets: seq<Resource>,
    notices: seq<Notice>,
    buttons: seq<Button>,
    store: Store)

  /** The lookup half of a multi-step command, shared by both servers. */
  datatype Staged = Staged(gets: seq<Resource>, result: StageResult, store: Store)

  /** Either a prompt with its buttons, or the message that ends the flow. */
  datatype StageResult = Prompt(notice: Notice, buttons: seq<Button>) | Problem(notice: Notice)

  /** The modular server posts the staged result after acknowledging. */
  function Posted(st: Staged): (r: CommandOutcome)
    ensures r.reply == Acked && r.gets == st.gets && r.store == st.store
    ensures r.notices == [st.result.notice]
    ensures r.buttons == if st.result.Prompt? then st.result.buttons else []
  {
    match st.result
    case Prompt(n, bs) => CommandOutcome(Acked, st.gets, [n], bs, st.store)
    case Problem(n) => CommandOutcome(Acked, st.gets, [n], [], st.store)
  }

  /** The single-file server answers a problem in the response itself and
      posts only the prompt. */
  function Answered(st: Staged): (r: CommandOutcome)
    ensures r.gets == st.gets && r.store == st.store
    ensures r.reply == (if st.result.Problem? then Refused(st.result.notice) else Acked)
    ensures r.notices == (if st.result.Prompt? then [st.result.notice] else [])
    ensures r.buttons == if st.result.Prompt? then st.result.buttons else []
  {
    match st.result
    case Prompt(n, bs) => CommandOutcome(Acked, st.gets, [n], bs, st.store)
    case Problem(n) => CommandOutcome(Refused(n), st.gets, [], [], st.store)
  }

  /** The outcome of a command that stops before any lookup. */
  function Stopped(reply: Reply, notices: seq<Notice>, store: Store): (r: CommandOutcome)
    ensures r.gets == [] && r.buttons == [] && r.store == store
  {
    CommandOutcome(reply, [], notices, [], store)
  }
}
