/** The interaction endpoint of the modular server
    (`src/routes/interactions.js`): it validates the payload, acknowledges,
    and runs the handler the clicked button's `action_id` selects: the PDF
    generator, the status changer, or one of the session-backed
    confirmations and cancellations. */
module Interactions {
  import opened Wrappers
  import opened JsText
  import opened JsNumber
  import opened JsValue
  import opened Sessions
  import opened Upstream
  import opened Chat
  import opened Lookup
  import Orders

  /** Why the endpoint answers 400 (before any acknowledgement). */
  datatype BadRequest = InvalidPayload | InvalidAction | InvalidChannel

  /** The HTTP answer: a 400, an empty 200, or none at all (the handler
      threw before answering). */
  datatype Http = Rejected(reason: BadRequest) | Acknowledged | NoResponse

  /** What a handler does after the acknowledgement. */
  datatype Step = Step(effects: seq<Effect>, notices: seq<Notice>, store: Store)

  /** The whole effect of one interaction request. */
  datatype Outcome = Outcome(http: Http, effects: seq<Effect>, notices: seq<Notice>, store: Store)

  // ---------------------------------------------------------------------
  // PDF generation

  const MaxNameLength := 60

  /** The characters `/[^\w\- ]+/g` does not remove. */
  predicate IsFileNameChar(c: char) {
    IsWordChar(c) || c == '-' || c == ' '
  }

  predicate AllFileNameChars(s: string) {
    forall i | 0 <= i < |s| :: IsFileNameChar(s[i])
  }

  /** `s.replace(/[^\w\- ]+/g, '')`: an in-order filter that keeps exactly
      the file-name characters (see `KeepAppend` and `KeepSingle`). */
  function KeepFileNameChars(s: string): (r: string)
    ensures AllFileNameChars(r)
    ensures |r| <= |s|
    ensures forall c :: c in r <==> c in s && IsFileNameChar(c)
  {
    if s == [] then []
    else if IsFileNameChar(s[0]) then [s[0]] + KeepFileNameChars(s[1..])
    else KeepFileNameChars(s[1..])
  }

  lemma {:induction false} KeepClean(s: string)
    requires AllFileNameChars(s)
    ensures KeepFileNameChars(s) == s
  {
    if s != [] {
      assert IsFileNameChar(s[0]);
      KeepClean(s[1..]);
      assert [s[0]] + s[1..] == s;
    }
  }

  /** Removing characters from two pieces one after the other is removing
      them from the whole: the characters that stay keep their order. */
  lemma {:induction false} KeepAppend(a: string, b: string)
    ensures KeepFileNameChars(a + b) == KeepFileNameChars(a) + KeepFileNameChars(b)
    decreases |a|
  {
    if a == [] {
      assert a + b == b;
    } else {
      assert (a + b)[1..] == a[1..] + b;
      KeepAppend(a[1..], b);
    }
  }

  /** On one character the filter keeps it exactly when it is a file-name
      character. */
  lemma KeepSingle(c: char)
    ensures KeepFileNameChars([c]) == if IsFileNameChar(c) then [c] else []
  {
    assert [c][1..] == [];
  }

  function MailFallbackName(mailId: int): string {
    "mail-" + IntToString(mailId)
  }

  /** The file name stem: the subject stripped to word characters, `-` and
      spaces, cut to 60 characters and trimmed, or `mail-<id>` when nothing
      is left. */
  function SafeName(subject: string, mailId: int): (r: string)
    ensures r == MailFallbackName(mailId) ||
      (1 <= |r| <= MaxNameLength && AllFileNameChars(r) && r[0] != ' ' && r[|r| - 1] != ' ')
    ensures var stem := CleanStem(KeepFileNameChars(subject));
      && (stem != "" ==> r == stem)
      && (stem == "" ==> r == MailFallbackName(mailId))
  {
    var t := CleanStem(KeepFileNameChars(subject));
    if t == "" then MailFallbackName(mailId) else t
  }

  /** The number of characters `.slice(0, 60)` keeps. */
  function CutLength(kept: string): nat {
    if |kept| < MaxNameLength then |kept| else MaxNameLength
  }

  /** The stripped subject cut and trimmed, before the fallback: a slice of
      its first 60 characters that neither starts nor ends with a space,
      empty exactly when those characters are all spaces. */
  function CleanStem(kept: string): (t: string)
    requires AllFileNameChars(kept)
    ensures |t| <= MaxNameLength && AllFileNameChars(t)
    ensures t == "" || (t[0] != ' ' && t[|t| - 1] != ' ')
    ensures StemOffset(kept) + |t| <= CutLength(kept)
    ensures t == kept[StemOffset(kept)..StemOffset(kept) + |t|]
    ensures forall i | 0 <= i < StemOffset(kept) :: kept[i] == ' '
    ensures forall i | StemOffset(kept) + |t| <= i < CutLength(kept) :: kept[i] == ' '
    ensures t == "" <==> forall i | 0 <= i < CutLength(kept) :: kept[i] == ' '
  {
    var cut := kept[..CutLength(kept)];
    PrefixKeepsFileNameChars(kept, |cut|);
    TrimKeepsFileNameChars(cut);
    TrimIsSlice(cut);
    FileNameSpaces(cut);
    Trim(cut)
  }

  /** Where the stem starts in the stripped subject: after the leading
      spaces of its first 60 characters. */
  function StemOffset(kept: string): nat {
    TrimOffset(kept[..CutLength(kept)])
  }

  /** Among file-name characters the only whitespace is the space. */
  lemma FileNameSpaces(s: string)
    requires AllFileNameChars(s)
    ensures forall i | 0 <= i < |s| :: IsSpace(s[i]) <==> s[i] == ' '
  {
    assert IsSpace(' ');
  }

  lemma PrefixKeepsFileNameChars(s: string, n: nat)
    requires AllFileNameChars(s) && n <= |s|
    ensures AllFileNameChars(s[..n])
  {
    forall i | 0 <= i < n
      ensures IsFileNameChar(s[..n][i])
    {
      assert s[..n][i] == s[i];
    }
  }

  /** Trimming only removes characters, so it keeps a clean name clean, and
      leaves no space at either end. */
  lemma TrimKeepsFileNameChars(s: string)
    requires AllFileNameChars(s)
    ensures AllFileNameChars(Trim(s))
    ensures Trim(s) == "" || (Trim(s)[0] != ' ' && Trim(s)[|Trim(s)| - 1] != ' ')
  {
    TrimIsSlice(s);
    var t := Trim(s);
    forall i | 0 <= i < |t|
      ensures IsFileNameChar(t[i])
    {
      assert t[i] == s[TrimOffset(s) + i];
    }
    assert IsSpace(' ');
  }

  /** A subject that is already a clean file name is used as it is. */
  lemma SafeNameKeepsCleanSubject(subject: string, mailId: int)
    requires 1 <= |subject| <= MaxNameLength && AllFileNameChars(subject)
    requires subject[0] != ' ' && subject[|subject| - 1] != ' '
    ensures SafeName(subject, mailId) == subject
  {
    KeepClean(subject);
    assert IsFileNameChar(subject[0]) && IsFileNameChar(subject[|subject| - 1]);
    TrimClean(subject);
  }

  /** A subject with nothing but spaces among its file-name characters
      (an emoji-only subject, say) gives the `mail-<id>` fallback. */
  lemma SafeNameFallsBack(subject: string, mailId: int)
    requires forall i | 0 <= i < |subject| :: !IsFileNameChar(subject[i]) || subject[i] == ' '
    ensures SafeName(subject, mailId) == MailFallbackName(mailId)
  {
    var kept := KeepFileNameChars(subject);
    forall i | 0 <= i < |kept|
      ensures kept[i] == ' '
    {
      assert kept[i] in kept;
    }
  }

  /** A PDF button's value, read as `<requester>|<mail id>` or `<mail id>`;
      the requester is `""` when the value has a single part. */
  datatype PdfRequest = PdfRequest(requester: string, mailId: Option<int>)

  function ReadPdfValue(value: string): (q: PdfRequest)
    ensures var parts := Split(value, '|');
      && (|parts| == 1 ==> q.requester == "" && q.mailId == ParseInt(parts[0]))
      && (|parts| >= 2 ==> q.requester == parts[0] && q.mailId == ParseInt(parts[1]))
    ensures '|' !in value ==> q == PdfRequest("", ParseInt(value))
  {
    var parts := Split(value, '|');
    var q := PdfRequest(if |parts| > 1 then parts[0] else "",
                        ParseInt(if |parts| > 1 then parts[1] else parts[0]));
    if '|' in value then q
    else
      SplitNoSeparator(value, '|');
      q
  }

  /** The requester check: a non-empty requester must be the clicking user. */
  predicate PdfRefused(q: PdfRequest, user: Option<string>) {
    q.requester != "" && user != Some(q.requester)
  }

  /** `!mailId || Number.isNaN(mailId)` fails. */
  predicate UsableMailId(q: PdfRequest) {
    q.mailId.Some? && q.mailId.value != 0
  }

  /** The work after a usable click: fetch the mail log, render its HTML,
      upload the PDF under its safe name. Nothing is PUT and the store is
      not touched. */
  function RenderAndUpload(id: int, store: Store, o: Oracle): (s: Step)
    ensures s.store == store && NoPut(s.effects) && 1 <= |s.effects| <= 2
    ensures s.effects[0] == Effect.Get(MailLogById(id))
    ensures |s.notices| == 2 && s.notices[0] == GeneratingPdf(id)
    ensures |s.effects| == 2 ==>
      && o.mailLog(id).Got? && Truthy(o.mailLog(id).data.html) && o.renders(o.mailLog(id).data.html)
      && var subject := Or(o.mailLog(id).data.subject, Str(MailFallbackName(id)));
      && subject.Str?
      && s.effects[1] == Upload(SafeName(subject.s, id) + ".pdf")
    ensures forall f :: PdfUploaded(f) in s.notices ==> Upload(f) in s.effects && o.uploads(f)
  {
    var get := Effect.Get(MailLogById(id));
    var started := GeneratingPdf(id);
    match o.mailLog(id)
    case Failed => Step([get], [started, PdfFailed], store)
    case Got(log) =>
      var subject := Or(log.subject, Str(MailFallbackName(id)));
      if !Truthy(log.html) then Step([get], [started, NoHtml], store)
      else if !o.renders(log.html) then Step([get], [started, PdfFailed], store)
      else if !subject.Str? then Step([get], [started, PdfFailed], store)
      else
        var stem := SafeName(subject.s, id);
        var filename := stem + ".pdf";
        if o.uploads(filename) then Step([get, Upload(filename)], [started, PdfUploaded(filename)], store)
        else Step([get, Upload(filename)], [started, PdfFailed], store)
  }

  /** The PDF handler for a request already read from the button. */
  function PdfStep(q: PdfRequest, user: Option<string>, checkRequester: bool, store: Store, o: Oracle): (s: Step)
    ensures s.store == store && NoPut(s.effects) && |s.effects| <= 2
    ensures checkRequester && PdfRefused(q, user) ==> s == Step([], [NotRequester], store)
    ensures !(checkRequester && PdfRefused(q, user)) && !UsableMailId(q) ==> s == Step([], [InvalidMailSelection], store)
    ensures s.effects != [] <==> !(checkRequester && PdfRefused(q, user)) && UsableMailId(q)
    ensures s.effects != [] ==> s == RenderAndUpload(q.mailId.value, store, o)
  {
    if checkRequester && PdfRefused(q, user) then Step([], [NotRequester], store)
    else if !UsableMailId(q) then Step([], [InvalidMailSelection], store)
    else RenderAndUpload(q.mailId.value, store, o)
  }

  /** The PDF handler. `checkRequester` is the requester check the modular
      server performs and the single-file server lacks. The store is never
      touched and nothing is PUT; a refused or unusable click calls nothing;
      otherwise the mail log is fetched first, and a file is uploaded only
      under its safe name after the HTML rendered. */
  function GeneratePdf(value: string, user: Option<string>, checkRequester: bool, store: Store, o: Oracle): (s: Step)
    ensures s.store == store && NoPut(s.effects) && |s.effects| <= 2
    ensures checkRequester && PdfRefused(ReadPdfValue(value), user) ==> s == Step([], [NotRequester], store)
    ensures !(checkRequester && PdfRefused(ReadPdfValue(value), user)) && !UsableMailId(ReadPdfValue(value)) ==>
      s == Step([], [InvalidMailSelection], store)
    ensures s.effects != [] <==>
      !(checkRequester && PdfRefused(ReadPdfValue(value), user)) && UsableMailId(ReadPdfValue(value))
    ensures s.effects != [] ==> s == RenderAndUpload(ReadPdfValue(value).mailId.value, store, o)
  {
    PdfStep(ReadPdfValue(value), user, checkRequester, store, o)
  }

  // ---------------------------------------------------------------------
  // Order status change

  /** A status button's value, read as `<requester>|<order id>|<status>`;
      missing parts read as `""`, the status is trimmed and lower-cased.
      `numericId` records whether the order id passes the handler's
      `Number()` test. */
  datatype StatusRequest = StatusRequest(requester: string, orderId: string, numericId: bool, target: string)

  function ReadStatusValue(value: string): (q: StatusRequest)
    ensures q.numericId == Orders.ValidOrderId(q.orderId)
  {
    var parts := Split(value, '|');
    var orderId := if |parts| > 1 then parts[1] else "";
    StatusRequest(parts[0], orderId, Orders.ValidOrderId(orderId),
                  Lower(Trim(if |parts| > 2 then parts[2] else "")))
  }

  /** A value with three parts reads as those parts. */
  lemma ReadStatusOfParts(value: string, requester: string, orderId: string, status: string)
    requires Split(value, '|') == [requester, orderId, status]
    ensures ReadStatusValue(value) == StatusRequest(requester, orderId, Orders.ValidOrderId(orderId), Lower(Trim(status)))
  {
  }

  predicate StatusRefused(q: StatusRequest, user: Option<string>) {
    q.requester == "" || user != Some(q.requester)
  }

  predicate StatusRequestValid(q: StatusRequest) {
    q.numericId && q.target != ""
  }

  /** The status currently recorded on an order, as the handler compares it. */
  function CurrentStatus(order: Order): string {
    Lower(Trim(Orders.TextOf(order.status)))
  }

  /** The effects of a validated status request: the order GET, then the
      status PUT only when the order was read and its status differs. A
      failed read or a failed PUT posts the failure message. */
  function ApplyStatus(q: StatusRequest, store: Store, o: Oracle): (s: Step)
    ensures s.store == store && 1 <= |s.effects| <= 2
    ensures s.effects[0] == Effect.Get(OrderById(q.orderId))
    ensures |s.effects| == 2 <==> o.order(q.orderId).Got? && CurrentStatus(o.order(q.orderId).data) != q.target
    ensures |s.effects| == 2 ==> s.effects[1] == Put(OrderById(q.orderId), StatusBody(q.target))
    ensures o.order(q.orderId).Got? && CurrentStatus(o.order(q.orderId).data) == q.target ==>
      s.notices == [AlreadyInStatus(q.orderId, q.target)]
    ensures o.order(q.orderId).Failed? ==> s.notices == [StatusUpdateFailed]
    ensures |s.effects| == 2 ==>
      s.notices == (if o.putSucceeds(OrderById(q.orderId), StatusBody(q.target))
                    then [StatusChanged(q.orderId, CurrentStatus(o.order(q.orderId).data), q.target)]
                    else [StatusUpdateFailed])
    ensures PutCount(s.effects) <= 1 && (PutCount(s.effects) == 1 <==> |s.effects| == 2)
  {
    var get := Effect.Get(OrderById(q.orderId));
    match o.order(q.orderId)
    case Failed => Step([get], [StatusUpdateFailed], store)
    case Got(order) =>
      var current := CurrentStatus(order);
      if current == q.target then Step([get], [AlreadyInStatus(q.orderId, q.target)], store)
      else
        var put := Put(OrderById(q.orderId), StatusBody(q.target));
        GetFirstPutCount([get, put]);
        if o.putSucceeds(OrderById(q.orderId), StatusBody(q.target))
        then Step([get, put], [StatusChanged(q.orderId, current, q.target)], store)
        else Step([get, put], [StatusUpdateFailed], store)
  }

  /** A GET followed by at most one more effect holds at most one PUT. */
  lemma GetFirstPutCount(effects: seq<Effect>)
    requires 1 <= |effects| <= 2 && effects[0].Get?
    ensures PutCount(effects) <= 1
    ensures PutCount(effects) == 1 <==> |effects| == 2 && effects[1].Put?
  {
    assert PutCount(effects) == PutCount(effects[1..]);
    if |effects| == 2 {
      assert effects[1..][1..] == [];
    }
  }

  /** The status handler for a request already read from the button. */
  function StatusStep(q: StatusRequest, user: Option<string>, store: Store, o: Oracle): (s: Step)
    ensures s.store == store && PutCount(s.effects) <= 1 && |s.effects| <= 2
    ensures StatusRefused(q, user) ==> s == Step([], [NotRequester], store)
    ensures !StatusRefused(q, user) && !StatusRequestValid(q) ==> s == Step([], [InvalidStatusRequest], store)
    ensures s.effects != [] <==> !StatusRefused(q, user) && StatusRequestValid(q)
    ensures s.effects != [] ==> s.effects[0] == Effect.Get(OrderById(q.orderId))
    ensures !StatusRefused(q, user) && StatusRequestValid(q) ==> s == ApplyStatus(q, store, o)
    ensures PutCount(s.effects) == 1 ==>
      && o.order(q.orderId).Got?
      && CurrentStatus(o.order(q.orderId).data) != q.target
      && s.effects == [Effect.Get(OrderById(q.orderId)), Put(OrderById(q.orderId), StatusBody(q.target))]
  {
    if StatusRefused(q, user) then Step([], [NotRequester], store)
    else if !StatusRequestValid(q) then Step([], [InvalidStatusRequest], store)
    else
      ApplyStatus(q, store, o)
  }

  /** The status handler: only the requester named in the value may use it,
      the order id must be numeric and the target non-empty; the order is
      read first, and a PUT of the target status follows only when it
      differs from the current one. The store is never touched. */
  function ChangeStatus(value: string, user: Option<string>, store: Store, o: Oracle): (s: Step)
    ensures s.store == store && PutCount(s.effects) <= 1 && |s.effects| <= 2
    ensures StatusRefused(ReadStatusValue(value), user) ==> s == Step([], [NotRequester], store)
    ensures !StatusRefused(ReadStatusValue(value), user) && !StatusRequestValid(ReadStatusValue(value)) ==>
      s == Step([], [InvalidStatusRequest], store)
    ensures s.effects != [] <==> !StatusRefused(ReadStatusValue(value), user) && StatusRequestValid(ReadStatusValue(value))
    ensures s.effects != [] ==> s.effects[0] == Effect.Get(OrderById(ReadStatusValue(value).orderId))
    ensures !StatusRefused(ReadStatusValue(value), user) && StatusRequestValid(ReadStatusValue(value)) ==>
      s == ApplyStatus(ReadStatusValue(value), store, o)
    ensures PutCount(s.effects) == 1 ==>
      var q := ReadStatusValue(value);
      && o.order(q.orderId).Got?
      && CurrentStatus(o.order(q.orderId).data) != q.target
      && s.effects == [Effect.Get(OrderById(q.orderId)), Put(OrderById(q.orderId), StatusBody(q.target))]
  {
    StatusStep(ReadStatusValue(value), user, store, o)
  }

  // ---------------------------------------------------------------------
  // Session-backed actions

  /** `(b) => b.blockId === blockId`: `values[blockId]` picks this block. */
  function BlockIs(blockId: string): Block -> bool {
    (b: Block) => b.blockId == blockId
  }

  /** `(e) => e.actionId === actionId`: `block[actionId]` picks this element. */
  function ElementIs(actionId: string): Element -> bool {
    (e: Element) => e.actionId == actionId
  }

  /** `values[blockId]?.[actionId]?.value || ''`: the value of the input
      `actionId` in block `blockId`, or `""` when either is missing or the
      input is empty. */
  function InputText(blocks: seq<Block>, blockId: string, actionId: string): (r: string)
    ensures (forall i | 0 <= i < |blocks| :: blocks[i].blockId != blockId) ==> r == ""
    ensures r != "" ==>
      exists i | 0 <= i < |blocks| ::
        && blocks[i].blockId == blockId
        && exists j | 0 <= j < |blocks[i].elements| ::
             blocks[i].elements[j].actionId == actionId && blocks[i].elements[j].value == Some(r)
  {
    match Find(blocks, BlockIs(blockId))
    case None => ""
    case Some(b) =>
      match Find(b.elements, ElementIs(actionId))
      case None => ""
      case Some(e) => e.value.GetOr("")
  }

  /** The input read is the one in the FIRST block with the id, and in it the
      FIRST element with the action id: present means found. */
  lemma InputTextFirst(blocks: seq<Block>, blockId: string, actionId: string, i: nat, j: nat)
    requires i < |blocks| && blocks[i].blockId == blockId
    requires forall k | 0 <= k < i :: blocks[k].blockId != blockId
    requires j < |blocks[i].elements| && blocks[i].elements[j].actionId == actionId
    requires forall k | 0 <= k < j :: blocks[i].elements[k].actionId != actionId
    ensures InputText(blocks, blockId, actionId) == blocks[i].elements[j].value.GetOr("")
  {
    FindIsFirst(blocks, BlockIs(blockId), i);
    FindIsFirst(blocks[i].elements, ElementIs(actionId), j);
  }

  /** `input && input.value`: the block's first input holds a non-empty value. */
  predicate Filled(b: Block) {
    b.elements != [] && b.elements[0].value.GetOr("") != ""
  }

  /** The loop over `Object.values(state)`: the value of the first input of
      the first filled block, in block order; none iff no block is filled. */
  function FirstFilled(blocks: seq<Block>): (r: Option<string>)
    ensures r.None? <==> forall i | 0 <= i < |blocks| :: !Filled(blocks[i])
    ensures r.Some? ==> exists i | 0 <= i < |blocks| ::
      && Filled(blocks[i]) && blocks[i].elements[0].value == Some(r.value)
      && forall k | 0 <= k < i :: !Filled(blocks[k])
  {
    match Find(blocks, Filled)
    case None => None
    case Some(b) => Some(b.elements[0].value.value)
  }

  /** The price read is the first filled block's: an earlier empty block is
      skipped and a later filled one is never read. */
  lemma FirstFilledIsFirst(blocks: seq<Block>, i: nat)
    requires i < |blocks| && Filled(blocks[i])
    requires forall k | 0 <= k < i :: !Filled(blocks[k])
    ensures FirstFilled(blocks) == blocks[i].elements[0].value
  {
    FindIsFirst(blocks, Filled, i);
  }

  /** `save_customer_meta`: PUT the two meta values to the staged customer;
      the session goes only when the PUT succeeds. */
  function SaveCustomerMeta(u: UserId, state: FormState, store: Store, o: Oracle): (s: Step)
    requires u in store
    ensures PutCount(s.effects) <= 1 && |s.effects| <= 1
    ensures s.store != store ==> s.store == DeleteSession(store, u)
    ensures s.store != store <==> s.effects != [] && s.effects[0].Put? && o.putSucceeds(s.effects[0].resource, s.effects[0].body)
    ensures s.effects != [] ==>
      state.Values? && Truthy(Field(store[u], "customerId")) &&
      s.effects[0] == Put(CustomerById(Field(store[u], "customerId")),
                          CustomerMetaBody(InputText(state.blocks, "customer_code_block", "customer_code"),
                                           InputText(state.blocks, "customer_class_block", "customer_class")))
  {
    match state
    case NoState => Step([], [CustomerMetaSaveFailed], store)
    case NoValues => Step([], [CustomerMetaSaveFailed], store)
    case Values(blocks) =>
      var code := InputText(blocks, "customer_code_block", "customer_code");
      var cls := InputText(blocks, "customer_class_block", "customer_class");
      var customerId := Field(store[u], "customerId");
      if !Truthy(customerId) then Step([], [SessionExpired], store)
      else
        var resource := CustomerById(customerId);
        var body := CustomerMetaBody(code, cls);
        if o.putSucceeds(resource, body)
        then Step([Put(resource, body)], [CustomerMetaUpdated(code, cls)], DeleteSession(store, u))
        else Step([Put(resource, body)], [CustomerMetaSaveFailed], store)
  }

  /** `confirm_draft`: PUT `status: draft` to the staged product; the session
      goes whether or not the PUT succeeds. */
  function ConfirmDraft(u: UserId, store: Store, o: Oracle): (s: Step)
    requires u in store
    ensures s.store == DeleteSession(store, u)
    ensures s.effects == [Put(ProductById(Field(store[u], "productId")), DraftBody)]
    ensures s.notices == [if o.putSucceeds(ProductById(Field(store[u], "productId")), DraftBody)
                          then ProductRemoved(Field(store[u], "productName")) else RemoveFailed]
  {
    var resource := ProductById(Field(store[u], "productId"));
    var notice := if o.putSucceeds(resource, DraftBody) then ProductRemoved(Field(store[u], "productName")) else RemoveFailed;
    Step([Put(resource, DraftBody)], [notice], DeleteSession(store, u))
  }

  /** Where a price is PUT: the staged variation when the session says it is
      one, else the staged product. */
  function PriceTarget(rec: Record): (r: Resource)
    ensures r.VariationById? <==> Truthy(Field(rec, "isVariation"))
    ensures r.VariationById? || r.ProductById?
    ensures r.productId == Field(rec, "productId")
    ensures r.VariationById? ==> r.variationId == Field(rec, "variationId")
  {
    if Truthy(Field(rec, "isVariation"))
    then VariationById(Field(rec, "productId"), Field(rec, "variationId"))
    else ProductById(Field(rec, "productId"))
  }

  /** `confirm_price`: read the first filled input, parse it, and PUT it to
      the staged product or variation; the session goes only when the PUT
      succeeds. Without `payload.state` the handler throws before its
      `try` and posts nothing. */
  function ConfirmPrice(u: UserId, state: FormState, store: Store, o: Oracle): (s: Step)
    requires u in store
    ensures PutCount(s.effects) <= 1 && |s.effects| <= 1
    ensures s.store == store || s.store == DeleteSession(store, u)
    ensures s.store != store <==> s.effects != [] && s.effects[0].Put? && o.putSucceeds(s.effects[0].resource, s.effects[0].body)
    ensures state.NoState? ==> s == Step([], [], store)
    ensures s.effects != [] ==>
      && state.Values? && FirstFilled(state.blocks).Some?
      && o.parsePrice(FirstFilled(state.blocks).value).Some?
      && s.effects[0] == Put(PriceTarget(store[u]), PriceBody(o.parsePrice(FirstFilled(state.blocks).value).value))
    ensures state.Values? && FirstFilled(state.blocks).Some? && o.parsePrice(FirstFilled(state.blocks).value).None? ==>
      s == Step([], [InvalidPrice], store)
  {
    match state
    case NoState => Step([], [], store)
    case NoValues => Step([], [PriceUpdateFailed], store)
    case Values(blocks) =>
      match FirstFilled(blocks)
      case None => Step([], [PriceUpdateFailed], store)
      case Some(text) =>
        match o.parsePrice(text)
        case None => Step([], [InvalidPrice], store)
        case Some(price) =>
          var resource := PriceTarget(store[u]);
          var body := PriceBody(price);
          if o.putSucceeds(resource, body)
          then Step([Put(resource, body)], [PriceUpdated(Field(store[u], "sku"), price)], DeleteSession(store, u))
          else Step([Put(resource, body)], [PriceUpdateFailed], store)
  }

  /** The session-backed actions, for a user who has a session; `None` when
      the action id is none of them. */
  function SessionAction(actionId: string, u: UserId, state: FormState, store: Store, o: Oracle): (r: Option<Step>)
    requires u in store
    ensures r.Some? <==> actionId in {CancelCustomerMetaId, SaveCustomerMetaId, ConfirmDraftId, CancelDraftId,
                                      CancelPriceId, ConfirmPriceId}
    ensures r.Some? ==> PutCount(r.value.effects) <= 1
    ensures r.Some? ==> r.value.store == store || r.value.store == DeleteSession(store, u)
    ensures r.Some? && actionId in {CancelCustomerMetaId, CancelDraftId, CancelPriceId} ==>
      r.value.effects == [] && r.value.store == DeleteSession(store, u)
  {
    if actionId == CancelCustomerMetaId then Some(Step([], [CustomerMetaCanceled], DeleteSession(store, u)))
    else if actionId == SaveCustomerMetaId then Some(SaveCustomerMeta(u, state, store, o))
    else if actionId == ConfirmDraftId then Some(ConfirmDraft(u, store, o))
    else if actionId == CancelDraftId then Some(Step([], [RemovalCanceled], DeleteSession(store, u)))
    else if actionId == CancelPriceId then Some(Step([], [PriceUpdateCanceled], DeleteSession(store, u)))
    else if actionId == ConfirmPriceId then Some(ConfirmPrice(u, state, store, o))
    else None
  }

  // ---------------------------------------------------------------------
  // Dispatch

  datatype Handler = PdfHandler | StatusHandler | SessionHandler

  /** The dispatch as written: exact comparison with `edit_order_status`. */
  function Route(actionId: string): (h: Handler)
    ensures h == PdfHandler <==> actionId == PdfGenerateId
    ensures h == StatusHandler <==> actionId == StatusActionId
    ensures h == SessionHandler <==> actionId != PdfGenerateId && actionId != StatusActionId
  {
    if actionId == PdfGenerateId then PdfHandler
    else if actionId == StatusActionId then StatusHandler
    else SessionHandler
  }

  /** The dispatch the status buttons need: any id starting with
      `edit_order_status` selects the status handler. */
  function RouteIntended(actionId: string): (h: Handler)
    ensures actionId == StatusActionId ==> h == StatusHandler
    ensures StartsWith(actionId, StatusButtonPrefix) ==> h == StatusHandler
  {
    if actionId == PdfGenerateId then PdfHandler
    else if StartsWith(actionId, StatusActionId) then StatusHandler
    else SessionHandler
  }

  /** A user with a session: `slackUserId && hasSession(slackUserId)`. */
  predicate SessionHolder(user: Option<string>, store: Store) {
    user.Some? && user.value != "" && user.value in store
  }

  /** Run the handler `h` for the clicked action. */
  function Dispatch(h: Handler, a: Action, p: Payload, store: Store, o: Oracle): (s: Step)
    ensures PutCount(s.effects) <= 1
    ensures s.store == store || (SessionHolder(p.user, store) && s.store == DeleteSession(store, p.user.value))
    ensures h.SessionHandler? && !SessionHolder(p.user, store) ==> s == Step([], [NoSessionFound], store)
    ensures h.SessionHandler? && SessionHolder(p.user, store) && SessionAction(a.actionId, p.user.value, p.state, store, o).None? ==>
      s == Step([], [UnsupportedAction], store)
    ensures h.PdfHandler? ==> s == GeneratePdf(a.value, p.user, true, store, o)
    ensures h.StatusHandler? ==> s == ChangeStatus(a.value, p.user, store, o)
  {
    match h
    case PdfHandler =>
      var s := GeneratePdf(a.value, p.user, true, store, o);
      NoPutCount(s.effects);
      s
    case StatusHandler => ChangeStatus(a.value, p.user, store, o)
    case SessionHandler =>
      if !SessionHolder(p.user, store) then Step([], [NoSessionFound], store)
      else match SessionAction(a.actionId, p.user.value, p.state, store, o)
        case Some(s) => s
        case None => Step([], [UnsupportedAction], store)
  }

  /** The payload passes the three 400 checks. */
  predicate Accepted(p: Payload) {
    p.actions.Some? && p.actions.value != [] && p.actions.value[0].actionId != ""
    && p.channel.Some? && p.channel.value != ""
  }

  function Clicked(p: Payload): Action
    requires Accepted(p)
  {
    p.actions.value[0]
  }

  /** The endpoint with a given dispatch. */
  function Receive(payload: Option<Payload>, intended: bool, store: Store, o: Oracle): (r: Outcome)
    ensures r.http.Rejected? ==> r.effects == [] && r.notices == [] && r.store == store
    ensures r.http == Rejected(InvalidPayload) <==> payload.None?
    ensures r.http == Acknowledged <==> payload.Some? && Accepted(payload.value)
    ensures r.http.Rejected? || r.http == Acknowledged
    ensures PutCount(r.effects) <= 1
    ensures r.store == store ||
      (payload.Some? && SessionHolder(payload.value.user, store) && r.store == DeleteSession(store, payload.value.user.value))
  {
    match payload
    case None => Outcome(Rejected(InvalidPayload), [], [], store)
    case Some(p) =>
      if p.actions.None? || p.actions.value == [] || p.actions.value[0].actionId == "" then
        Outcome(Rejected(InvalidAction), [], [], store)
      else if p.channel.None? || p.channel.value == "" then
        Outcome(Rejected(InvalidChannel), [], [], store)
      else
        Handle(p, if intended then RouteIntended(Clicked(p).actionId) else Route(Clicked(p).actionId), store, o)
  }

  /** What an accepted payload gets: the acknowledgement, then handler `h`. */
  function Handle(p: Payload, h: Handler, store: Store, o: Oracle): (r: Outcome)
    requires Accepted(p)
    ensures r.http == Acknowledged
    ensures var s := Dispatch(h, Clicked(p), p, store, o);
      r.effects == s.effects && r.notices == s.notices && r.store == s.store
  {
    var s := Dispatch(h, Clicked(p), p, store, o);
    Outcome(Acknowledged, s.effects, s.notices, s.store)
  }

  /** `POST /slack/interact` as written. `None` is a payload that does not
      parse as JSON. At most one PUT per request, and the only store change
      is the deletion of the clicking user's own session. */
  function Interact(payload: Option<Payload>, store: Store, o: Oracle): (r: Outcome)
    ensures r.http.Rejected? ==> r.effects == [] && r.notices == [] && r.store == store
    ensures r.http == Rejected(InvalidPayload) <==> payload.None?
    ensures r.http == Acknowledged <==> payload.Some? && Accepted(payload.value)
    ensures PutCount(r.effects) <= 1
    ensures r.store == store ||
      (payload.Some? && SessionHolder(payload.value.user, store) && r.store == DeleteSession(store, payload.value.user.value))
  {
    Receive(payload, false, store, o)
  }

  /** An accepted payload is acknowledged and handled by the handler its
      action id selects, under either dispatch. */
  lemma ReceiveDispatches(p: Payload, intended: bool, store: Store, o: Oracle)
    requires Accepted(p)
    ensures Receive(Some(p), intended, store, o)
      == Handle(p, if intended then RouteIntended(Clicked(p).actionId) else Route(Clicked(p).actionId), store, o)
  {
    assert !(p.actions.None? || p.actions.value == [] || p.actions.value[0].actionId == "");
    assert !(p.channel.None? || p.channel.value == "");
  }

  /** A session-backed button clicked by a session holder runs its action on
      the holder's session. */
  lemma SessionActionDispatch(p: Payload, store: Store, o: Oracle)
    requires Accepted(p) && SessionHolder(p.user, store)
    requires Clicked(p).actionId in {CancelCustomerMetaId, SaveCustomerMetaId, ConfirmDraftId, CancelDraftId,
                                     CancelPriceId, ConfirmPriceId}
    ensures var s := SessionAction(Clicked(p).actionId, p.user.value, p.state, store, o).value;
      Interact(Some(p), store, o) == Outcome(Acknowledged, s.effects, s.notices, s.store)
  {
    ReceiveDispatches(p, false, store, o);
    assert Route(Clicked(p).actionId) == SessionHandler;
  }

  /** The endpoint with the status buttons routed to the status handler. */
  function InteractIntended(payload: Option<Payload>, store: Store, o: Oracle): (r: Outcome)
    ensures r.http == Acknowledged <==> payload.Some? && Accepted(payload.value)
    ensures PutCount(r.effects) <= 1
    ensures r.store == store ||
      (payload.Some? && SessionHolder(payload.value.user, store) && r.store == DeleteSession(store, payload.value.user.value))
  {
    Receive(payload, true, store, o)
  }
}
