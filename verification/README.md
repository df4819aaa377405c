# Slack store bot: interaction orchestration in Dafny

This project models the core of a Slack bot that runs a WooCommerce shop.
Slash commands look something up in the shop's REST API. They merge what a
follow-up needs into the requesting user's session, then post buttons. A click
on one of those buttons reaches a single interaction endpoint. That endpoint
reads the session or the button's value and makes at most one write (PUT) to
the shop. A separate middleware admits or refuses requests signed with Slack's
`v0` scheme.

The model is functional. Every handler is a pure step function. Its inputs are:
- the request;
- the session store, a `map` from user id to record;
- an `Oracle` for everything outside the bot: the API's answers, whether a PUT,
  a PDF rendering or an upload succeeds, and `parseFloat` on a price.

Its result is an outcome with four parts:
- the HTTP reply;
- the GETs and PUTs made, in order;
- the kinds of message posted;
- the store afterwards.

The HMAC-SHA-256 digest of the signing scheme (RFC 2104 over FIPS 180-4, hex
encoded) is a function parameter. JavaScript's own semantics are modelled
concretely where the bot depends on them:
- truthiness and `String(v)`;
- `trim` over the full JavaScript whitespace set;
- ASCII `toLowerCase`/`toUpperCase`;
- `split` on one character;
- `parseInt(s, 10)`;
- `Number(s)`, including hex/octal/binary literals and exponents, as exact
  reals.

| file | module | models |
|---|---|---|
| `wrappers.dfy` | `Wrappers` | `Option` |
| `js_text.dfy` | `JsText` | trim, case mapping, `\s+` collapse, split/join |
| `js_number.dfy` | `JsNumber` | `String(n)`, `parseInt`, `Number()` |
| `js_value.dfy` | `JsValue` | JSON-like values, truthiness, `String(v)`, `v || w` |
| `sessions.dfy` | `Sessions` | `src/store/sessions.js` |
| `upstream.dfy` | `Upstream` | API resources, PUT bodies, effects, the oracle |
| `chat.dfy` | `Chat` | payloads, buttons, posted messages, command outcomes |
| `slack_auth.dfy` | `SlackAuth` | `src/middleware/slackAuth.js` |
| `orders.dfy` | `Orders` | `src/routes/commands/orders.js` |
| `products.dfy` | `Products` | `src/routes/commands/products.js` |
| `customers.dfy` | `Customers` | `src/routes/commands/customers.js` |
| `pdf.dfy` | `MailPdf` | `src/routes/commands/pdf.js` |
| `interactions.dfy` | `Interactions` | `src/routes/interactions.js` |
| `legacy.dfy` | `Legacy` | the single-file server `app.js` |
| `workflows.dfy` | `Workflows` | button round trips from command to click |

The single-file server `app.js` is an older copy of the same commands and
endpoint. Most of its commands behave exactly like the modular ones in this
model: `/findorder`, `/findidorder`, `/editorder`, `/customermeta` and
`/orderpdf`. So `Orders`, `Customers` and `MailPdf` model both servers (the
single-file search loop is app.js:124-143; its session merges are app.js:355-359
and app.js:433-436). `Legacy` models where the two differ:
- `/draftproduct` and `/priceupdate` answer a problem in the HTTP response
  instead of posting it;
- its interaction endpoint validates nothing before acknowledging;
- it never checks who clicked a PDF button;
- it has no status branch;
- it ignores unknown actions in silence.

The status buttons and the dispatcher do not agree:
- `buildStatusButtons` gives each button its own id, `edit_order_status_<status>`
  (src/routes/commands/orders.js:39);
- the dispatcher compares `action.action_id === 'edit_order_status'`, the bare
  literal (src/routes/interactions.js:87).

The model follows the code. The consequence is recorded under "Findings".

## Model

| member | source | states |
|---|---|---|
| Sessions.SetSession | src/store/sessions.js:17-20 | after `setSession(u, v)`, `getSession(u)` is `v` and the call returns `v`; every other user's entry is as before |
| Sessions.UpdateSession | src/store/sessions.js:22-27 | the stored and returned record is the shallow merge: its keys are the patch's plus the old record's, patch values win, old values not in the patch are kept, an absent record merges over `{}` so exactly the patch is stored; other users untouched |
| Sessions.UpdatePatches | src/store/sessions.js:22-27 | `updateSession` establishes the `Patched` relation that the command contracts use |
| Sessions.UpdateTwice | src/store/sessions.js:22-27 | two successive updates of one user equal one update with the merged patch, the later one winning |
| Sessions.DeleteSession | src/store/sessions.js:29-31 | afterwards `hasSession(u)` is false and every other entry is unchanged |
| Sessions.NoExpiry | src/store/sessions.js:7-31 | there is no expiry: after any sequence of store operations, an entry none of them deletes is still present |
| Sessions.OthersUntouched | src/store/sessions.js:17-31 | operations on other users leave `u`'s entry exactly as it was |
| SlackAuth.Verify | src/middleware/slackAuth.js:8-38 | `next()` is called iff all three inputs are present, the timestamp is within 300 s of now, and the signature equals `"v0=" + hex(HMAC(secret, "v0:" + header + ":" + body))`; a missing input is refused iff one is missing; a NaN timestamp is refused iff it is NaN; a stale one is refused iff it is outside the window; a thrown key error happens only without a secret |
| SlackAuth.VerifyParsed | src/middleware/slackAuth.js:16-37 | the checks after the presence test, in source order: NaN, then the window, then the key, then length before content |
| SlackAuth.LengthCheckedFirst | src/middleware/slackAuth.js:30-35 | a signature whose UTF-8 byte length differs from the expected one is refused on length |
| SlackAuth.SignedRequestAdmitted | src/middleware/slackAuth.js:21-37 | a correctly signed request with an integer timestamp at most 300 s away, the boundary included, is admitted |
| SlackAuth.StaleRequestRefused | src/middleware/slackAuth.js:21-24 | a timestamp more than 300 s away is refused as stale even with a valid signature |
| JsText.Trim | src/routes/commands/orders.js:14 | the result has no whitespace at either end, is no longer than the input, and is empty iff the input is all whitespace |
| JsText.TrimIsSlice | src/routes/commands/orders.js:14 | the trimmed string is a contiguous slice of the input, and everything before and after that slice is whitespace |
| JsText.TrimStart | src/routes/commands/orders.js:14 | drops exactly a leading run of whitespace, leaving a suffix that starts with a non-space |
| JsText.TrimEnd | src/routes/commands/orders.js:14 | drops exactly a trailing run of whitespace, leaving a prefix that ends with a non-space |
| JsText.TrimEmptyIffAllSpace | src/routes/commands/products.js:14-16 | the trimmed argument is empty iff the argument is all whitespace |
| JsText.TrimClean | src/routes/interactions.js:93-95 | a string with no whitespace at either end is its own trim |
| JsText.Lower | src/routes/commands/orders.js:15 | `toLowerCase` maps each character by itself and keeps the length |
| JsText.LowerKeepsSpaces | src/routes/commands/orders.js:14-16 | lower-casing keeps whitespace where it was and is idempotent |
| JsText.LowerNoUpper | src/routes/interactions.js:94-95 | a string without upper-case letters is unchanged by `toLowerCase` |
| JsText.CollapseNoSpace | src/routes/commands/orders.js:16 | a string without whitespace is unchanged by the collapse |
| JsText.ReplaceChar | src/routes/commands/orders.js:24 | `replace(/_/g, ' ')` changes exactly the `_` characters and keeps the length |
| JsText.Split | src/routes/interactions.js:40 | `split('|')` yields at least one piece, none containing the separator |
| JsText.SplitNoSeparator | src/routes/interactions.js:40-42 | a value without `|` splits into itself alone |
| JsText.SplitAtFirst | src/routes/interactions.js:89 | splitting at the first separator gives the first piece, then the split of the rest |
| JsText.CollapseSpaces | src/routes/commands/orders.js:16 | `replace(/\s+/g, '_')` leaves no whitespace, does not lengthen the string, every character is `_` or one of the input's, and the result is empty iff the input is |
| JsText.CollapseRun | src/routes/commands/orders.js:16 | a whitespace-free prefix is kept, the maximal whitespace run after it becomes one `_`, and the rest is collapsed on its own; with `CollapseNoSpace` this fixes the collapse of every string |
| JsText.TrimStartRun | src/routes/commands/orders.js:14 | `trimStart` removes exactly a leading whitespace run up to the first non-space character |
| JsText.SplitJoin | src/routes/interactions.js:89-92 | splitting the join of separator-free pieces gives the pieces back |
| JsText.JoinSplit | src/routes/interactions.js:89 | joining the pieces of a split gives the string back |
| JsText.SplitThree | src/routes/commands/orders.js:38 | `a|b|c` with `|`-free parts splits into exactly `[a, b, c]` |
| JsText.SplitTwo | src/routes/commands/pdf.js:64 | `a|b` with `|`-free parts splits into exactly `[a, b]` |
| JsNumber.ParseInt | src/routes/interactions.js:43 | `parseInt(s, 10)` is a number iff, after leading whitespace and an optional sign, a decimal digit follows |
| JsNumber.ParseIntOfIntToString | src/routes/interactions.js:42-43 | `parseInt(String(i), 10) == i` for every integer |
| JsNumber.NatToString | src/routes/commands/pdf.js:64 | `String(n)` of a non-negative integer is a non-empty run of digits with no leading zero |
| JsNumber.NatToStringValue | src/routes/commands/pdf.js:64 | the digits of `String(n)` spell `n` |
| JsNumber.IntToString | src/routes/commands/orders.js:38 | `String(i)` is non-empty and holds only digits and `-` |
| JsNumber.DigitPrefix | src/routes/interactions.js:43 | the longest run of digits at the start of a string |
| JsNumber.ParseIntOfDigits | src/routes/interactions.js:43 | `parseInt` of a run of digits is the number they spell |
| JsNumber.ParseIntOfNegative | src/routes/interactions.js:43 | `parseInt` of `-` followed by digits is the negated value |
| JsNumber.NatToStringInjective | src/routes/commands/pdf.js:64 | distinct ids have distinct decimal renderings |
| JsNumber.ToNumberOfIntToString | src/routes/interactions.js:102 | `Number(String(i))` is exactly `i`, so a numeric id is never NaN |
| JsNumber.ToNumberOfDigits | src/middleware/slackAuth.js:16 | a non-empty run of decimal digits converts to the number it spells |
| JsNumber.ToNumberOfNegative | src/routes/interactions.js:102 | `Number` of `-` followed by digits is the negated value |
| JsNumber.SignedDecimalOfDigits | src/middleware/slackAuth.js:16 | a run of digits, with no sign, reads as the finite number it spells |
| JsNumber.UnsignedDecimalOfDigits | src/middleware/slackAuth.js:16 | the unsigned decimal-literal reading of a run of digits is the value they spell |
| JsNumber.IndexOf | src/middleware/slackAuth.js:16 | the index of the first occurrence of a character, or the length when there is none |
| JsNumber.ExponentAt | src/middleware/slackAuth.js:16 | the index of the first exponent marker `e`/`E`, or the length when there is none |
| Orders.NormalizeStatus | src/routes/commands/orders.js:12-18 | the result has no whitespace, no upper-case letter and is never one of the two aliases, is no longer than the input, and is empty iff the status is blank |
| Orders.Raw | src/routes/commands/orders.js:13-16 | the text before the alias lookup has no whitespace and no upper-case letter, is no longer than the status, and is empty iff the status is blank |
| Orders.RawOfPlain | src/routes/commands/orders.js:13-16 | text without whitespace or upper case is its own raw form |
| Orders.NormalizeTrimsAndLowers | src/routes/commands/orders.js:12-18 | the normal form of a status equals that of its trimmed lower case: surrounding whitespace and letter case never matter |
| Orders.RawRun | src/routes/commands/orders.js:14-16 | two whitespace-free lower-case words separated by a whitespace run have the raw form `a_b` |
| Orders.NormalizeRun | src/routes/commands/orders.js:12-18 | `a <whitespace run> b` normalises like `a_b` |
| Orders.NormalizeAlias | src/routes/commands/orders.js:7-17 | `pendingpayment` and `pending_payment` normalise to `pending` |
| Orders.NormalizeAliasSpelling | src/routes/commands/orders.js:7-17 | any status whose trimmed lower case is an alias normalises to `pending`, whatever its case and surrounding whitespace |
| Orders.NormalizeTwoWords | src/routes/commands/orders.js:7-18 | a status whose trimmed lower case is two words around a whitespace run normalises like the words joined by `_`, and to `pending` when that join is `pending_payment` |
| Orders.PendingPaymentSpelling | src/routes/commands/orders.js:13-15 | `Pending payment` trims and lower-cases to `pending payment` |
| Orders.PendingPaymentNormalizes | src/routes/commands/orders.js:7-18 | `Pending payment` normalises to `pending` |
| Orders.PendingPaymentWords | src/routes/commands/orders.js:7-18 | any status that trims and lower-cases to `pending payment` normalises to `pending` |
| Orders.PlainWord | src/routes/commands/orders.js:30 | a word of lower-case letters, `-` and `_` holds no whitespace and no upper case |
| Orders.NormalizeFixed | src/routes/commands/orders.js:12-18 | a status already without whitespace, upper case or alias spelling is returned unchanged |
| Orders.NormalizeIdempotent | src/routes/commands/orders.js:12-18 | normalising twice equals normalising once |
| Orders.CandidatesNormal | src/routes/commands/orders.js:29-30 | every offered status is its own normal form |
| Orders.StatusLabel | src/routes/commands/orders.js:20-26 | `Pending payment` exactly for what normalises to `pending`; otherwise the label has the status's length, lower-cases back to the status with `_` shown as space, keeps every character that is not a word start (with `_` as space), and no word start is lower case |
| Orders.LabelOf | src/routes/commands/orders.js:22-25 | the same, for a status already normalised |
| Orders.TitleCase | src/routes/commands/orders.js:25 | `replace(/\b\w/g, toUpperCase)` keeps the length, leaves every character that is not a word start unchanged, and turns each word start into a character that is not lower case and equals the original up to case |
| Orders.TitleCaseLowers | src/routes/commands/orders.js:23-25 | capitalising word starts is undone by lower-casing |
| Orders.ActionSuffix | src/routes/commands/orders.js:39 | the suffix has the status's length; each `[a-z0-9]` character is kept in place and every other character becomes `_` |
| Orders.StatusButton | src/routes/commands/orders.js:34-40 | the action id starts with `edit_order_status_` and so never equals `edit_order_status`; the style is primary iff the status is `completed` |
| Orders.Without | src/routes/commands/orders.js:31-32 | the filter keeps exactly the elements different from the excluded one |
| Orders.OfferedByRank | src/routes/commands/orders.js:30-33 | the `i`-th offered status is the candidate at index `i`, shifted past the current status's index |
| Orders.Rank | src/routes/commands/orders.js:30 | a status's position among the seven candidates, seven exactly when it is none of them |
| Orders.RankOfCandidates | src/routes/commands/orders.js:30 | each candidate's position is its index |
| Orders.CandidatesDistinct | src/routes/commands/orders.js:30 | the seven candidates are pairwise different |
| Orders.WithoutAbsent | src/routes/commands/orders.js:31-32 | filtering out a status that is not a candidate keeps all seven |
| Orders.WithoutDistinct | src/routes/commands/orders.js:31-32 | filtering a list of distinct statuses by one of them removes exactly that index |
| Orders.WithoutByRank | src/routes/commands/orders.js:31-32 | filtering the candidates by the current status removes exactly its position, or nothing when it is not a candidate |
| Orders.OfferedStatuses | src/routes/commands/orders.js:31-33 | the filtered list cut at five always has five entries, since at most one candidate is removed |
| Orders.OfferedRanks | src/routes/commands/orders.js:30-33 | every offered status is a candidate, and its position skips the current status's |
| Orders.OfferedNotCurrent | src/routes/commands/orders.js:32 | no offered status is the current one |
| Orders.OfferedNoGap | src/routes/commands/orders.js:31-33 | every candidate before the last offered one, other than the current status, is offered |
| Orders.OfferedStatusesSpec | src/routes/commands/orders.js:29-33 | five statuses, never the current one, all candidates, in candidate order, with no candidate skipped before the last one offered |
| Orders.CompletedOffered | src/routes/commands/orders.js:30-37 | `completed` is offered iff it is not the current status |
| Orders.ButtonsFor | src/routes/commands/orders.js:34-40 | one button per offered status, in the same order |
| Orders.PrimaryIffCompleted | src/routes/commands/orders.js:37 | some button is primary iff `completed` is among the offered statuses |
| Orders.BuildStatusButtons | src/routes/commands/orders.js:28-43 | exactly five buttons, each with an `edit_order_status_` id, and one is primary iff the normalised current status is not `completed` |
| Orders.StatusButtonsDecode | src/routes/commands/orders.js:38 | a button's value splits back into the user id, the order id and an offered status different from the current one |
| Orders.StripeEntries | src/routes/commands/orders.js:47-48 | the in-order filter: an entry is in the result iff it is in the metadata and is a Stripe entry (string key containing `stripe` in any case); one element per Stripe entry |
| Orders.StripeEntriesAppend | src/routes/commands/orders.js:47-48 | filtering a concatenation is concatenating the filtered pieces, so the Stripe entries keep their order |
| Orders.StripeEntriesSingle | src/routes/commands/orders.js:47-48 | a single entry is kept iff it is a Stripe entry |
| Orders.StripeLines | src/routes/commands/orders.js:46-50 | one line per Stripe entry, cut at eight, the `i`-th line being the `i`-th Stripe entry's line; absent metadata counts as none |
| Orders.StripeLine | src/routes/commands/orders.js:50 | the line is `• `, the key and `: `, followed by exactly the value as `String(value ?? '')`, empty for `null` and `undefined` |
| Orders.StripeMeta | src/routes/commands/orders.js:45-53 | the fallback text iff there is no Stripe entry, otherwise the lines joined by newlines |
| Orders.SearchFrom | src/routes/commands/orders.js:72-93 | the reference search: its GETs are consecutive pages from the start page, at most up to page 3; every page before the last one read was read and held no match; a found order carries the number; "not found" means every page to 3 was read and none matched |
| Orders.SearchDecidedByLastPage | src/routes/commands/orders.js:74-91 | the last page read decides: an error iff its read failed, found iff it holds a match, and then the order found is that page's FIRST matching order; "not found" ends on page 3 |
| Orders.SearchFindsFirstMatch | src/routes/commands/orders.js:74-91 | when pages before `p` hold no match and order `k` is the first match on page `p`, the search reads exactly pages 1 to `p` and finds order `k` |
| Orders.SearchOrders | src/routes/commands/orders.js:72-93 | the loop makes exactly the reference search's GETs and reaches its conclusion |
| Orders.FindOrder | src/routes/commands/orders.js:59-130 | an empty number is answered with no GET; otherwise pages 1.. are read in order, at most three; "no order found" is posted only when every page was read and none matched; "found" names the first matching order of the first page holding one, and only if it has billing data |
| Orders.SearchNotice | src/routes/commands/orders.js:95-119 | "not found" iff the search found nothing; "found" iff it found an order with billing data |
| Orders.FindIdOrder | src/routes/commands/orders.js:135-178 | an empty or non-numeric id makes no GET; otherwise exactly one GET; "found" iff the GET succeeded on an order with billing |
| Orders.EditOrder | src/routes/commands/orders.js:183-204 | an invalid id is refused in the response; a valid one gets the edit link; never an API call |
| Orders.CustomNumberOf | src/routes/commands/orders.js:228-238 | the FIRST entry with the custom-number key decides: none when there is none or its value is `null`/`undefined`, otherwise `String(value)`; no meta means none |
| Orders.FindCustomId | src/routes/commands/orders.js:209-269 | an invalid id makes no GET; "found `n`" is posted iff the order was read and its custom number is `n` |
| Orders.EditOrderStatus | src/routes/commands/orders.js:274-340 | an invalid id makes no GET; buttons are posted iff the order was read, and then they are the five status buttons for the caller, the order's id and its normalised status, with details showing that order's id, the label of that status and its Stripe section, which is the fallback iff the order has no Stripe entry |
| Orders.EditOrderStatusButtons | src/routes/commands/orders.js:291-292 | every posted button's value splits back into the caller, the order's id and a candidate status other than the order's own, whose label the details show |
| Lookup.FirstIndex | src/routes/commands/orders.js:82-90 | the index of the first element from the start index on that satisfies the predicate; none iff no such element |
| Lookup.Find | src/routes/commands/products.js:97 | `find` gives an element that satisfies the predicate with none before it; none iff no element does |
| Lookup.FindIsFirst | src/routes/commands/orders.js:228 | an element satisfying the predicate with none before it is exactly what `find` returns |
| Products.StageDraft | src/routes/commands/products.js:19-68 | one GET by SKU; the flow continues iff a product came back; only then is exactly `{productId, productName}` of the first result merged into the caller's session; otherwise the store is untouched |
| Products.DraftProduct | src/routes/commands/products.js:12-71 | an empty SKU is refused before any lookup and writes nothing; a session change comes with the confirm/cancel buttons |
| Products.OfferPrice | src/routes/commands/products.js:104-112 | merges `sku`, `productId`, `isVariation` (true iff a variant), `variationId` and `originalPrice` into the caller's session |
| Products.StagePrice | src/routes/commands/products.js:83-150 | a second GET happens iff the first product is variable; every problem leaves the store untouched; a staged change records `isVariation` true iff the product is variable |
| Products.StagePriceFirstVariation | src/routes/commands/products.js:95-112 | a variable product is staged iff some variation carries the SKU, and then with the first such variation's id (or `null`) and price |
| Products.StagePriceSimpleProduct | src/routes/commands/products.js:104-112 | a simple product is staged with one GET, no variation and its own price |
| Products.PriceUpdate | src/routes/commands/products.js:76-153 | an empty SKU is refused before any lookup and writes nothing; otherwise exactly one message is posted; a session change comes with the confirm/cancel buttons |
| Customers.MetaMapLastWins | src/routes/commands/customers.js:37-40 | a key is in the meta map iff some entry with a truthy key writes it, and its value is the last such entry's |
| Customers.MetaMapHas | src/routes/commands/customers.js:37-40 | membership half of the above, by induction |
| Customers.MetaMapLast | src/routes/commands/customers.js:37-40 | value half of the above, by induction |
| Customers.StageCustomerMeta | src/routes/commands/customers.js:24-48 | one GET; a non-array or empty result and a failed GET write nothing; otherwise exactly `{customerId, email}` is merged and the first customer's id is shown |
| Customers.ShownCodeIsLastEntry | src/routes/commands/customers.js:37-43 | the code shown is the last `customer_code` entry's value, or `""` when that value is falsy or absent |
| Customers.CustomerMeta | src/routes/commands/customers.js:11-112 | an empty e-mail makes no lookup and writes nothing; a session change comes with the save/cancel buttons |
| MailPdf.PdfButtons | src/routes/commands/pdf.js:54-67 | one button per result, at most ten, in result order |
| MailPdf.StageOrderPdf | src/routes/commands/pdf.js:27-74 | one search GET; no results writes nothing; otherwise `{orderPdf: {query}}` is merged and 1 to 10 buttons are offered |
| MailPdf.OrderPdf | src/routes/commands/pdf.js:11-82 | an empty query makes no search; at most ten buttons |
| MailPdf.PdfButtonDecodes | src/routes/commands/pdf.js:64 | for a numeric id or a digit-string id, the button value splits back into the user id and the id's text, which `parseInt` reads as the id |
| Interactions.KeepFileNameChars | src/routes/interactions.js:68 | `replace(/[^\w\- ]+/g, '')` leaves only word characters, `-` and spaces: a character occurs in the result iff it occurs in the input and is allowed |
| Interactions.KeepAppend | src/routes/interactions.js:68 | removing characters from a concatenation is removing them from each piece: what stays keeps its order |
| Interactions.KeepSingle | src/routes/interactions.js:68 | one character is kept iff it is allowed |
| Interactions.KeepClean | src/routes/interactions.js:68 | a string of allowed characters passes through unchanged |
| Interactions.CleanStem | src/routes/interactions.js:68 | cut to 60 and trimmed: the slice of the first 60 characters that starts after their leading spaces, at most 60 allowed characters with no space at either end, empty iff those characters are all spaces, and every one of them outside the slice is a space |
| Interactions.FileNameSpaces | src/routes/interactions.js:68 | among allowed characters the only whitespace `trim` removes is the space |
| Interactions.SafeName | src/routes/interactions.js:68 | the stripped, cut and trimmed subject when that is non-empty, `mail-<id>` when it is empty; so either `mail-<id>` or 1 to 60 allowed characters with no space at either end |
| Interactions.PrefixKeepsFileNameChars | src/routes/interactions.js:68 | cutting a clean name to a prefix keeps it clean |
| Interactions.TrimKeepsFileNameChars | src/routes/interactions.js:68 | trimming a clean name keeps it clean and leaves no space at either end |
| Interactions.SafeNameKeepsCleanSubject | src/routes/interactions.js:68 | a subject that is already a clean name is used unchanged |
| Interactions.SafeNameFallsBack | src/routes/interactions.js:68 | a subject whose only allowed characters are spaces gives `mail-<id>` |
| Interactions.ReadPdfValue | src/routes/interactions.js:40-43 | with two or more parts the requester is the first and the mail id is `parseInt` of the second; with one part there is no requester and the id is parsed from it; a value without `|` is read as the id alone |
| Interactions.PdfStep | src/routes/interactions.js:45-53 | a mismatched requester is refused with no call; a mail id of 0 or NaN is refused with no call; a call happens iff neither |
| Interactions.RenderAndUpload | src/routes/interactions.js:55-84 | the mail log is fetched first; an upload happens only after the HTML rendered, with the file name `SafeName(subject, id) + ".pdf"` where the subject defaults to `mail-<id>`; "uploaded" is posted only for an upload that succeeded; no PUT and no store change |
| Interactions.GeneratePdf | src/routes/interactions.js:38-85 | the PDF handler never touches the store and never PUTs; it calls out iff the requester check (when enabled) and the mail id pass |
| Interactions.ReadStatusValue | src/routes/interactions.js:89-95 | the request's numeric flag is exactly the order id's validity |
| Interactions.ReadStatusOfParts | src/routes/interactions.js:89-95 | a three-part value reads as its parts, the status trimmed and lower-cased |
| Interactions.ApplyStatus | src/routes/interactions.js:107-130 | the order is read first; a PUT of `{status: target}` follows iff the read succeeded and the current status differs; "already in status" when the read succeeded and the status equals the target; a failed read or a failed PUT posts the update failure; a successful PUT posts the change from the current status to the target |
| Interactions.StatusStep | src/routes/interactions.js:97-105 | an empty or mismatched requester is refused with no GET; a non-numeric id or empty target is refused with no GET; a call happens iff neither |
| Interactions.ChangeStatus | src/routes/interactions.js:87-132 | the status handler: at most one PUT, never a store change, a PUT only after reading a different current status |
| Interactions.InputText | src/routes/interactions.js:150-151 | `""` when no block has the id; a non-empty result is the value of an element with the action id inside a block with the block id |
| Interactions.InputTextFirst | src/routes/interactions.js:150-151 | the value read is that of the first element with the action id in the first block with the block id |
| Interactions.FirstFilled | src/routes/interactions.js:217-223 | the value of the first filled block in block order, with no filled block before it; none iff no block is filled |
| Interactions.FirstFilledIsFirst | src/routes/interactions.js:217-223 | a filled block with no filled block before it is the one whose price is read |
| Interactions.PriceTarget | src/routes/interactions.js:231-235 | the staged variation iff the session's `isVariation` is truthy, else the staged product, with the session's ids |
| Interactions.SaveCustomerMeta | src/routes/interactions.js:147-181 | a PUT only with a truthy staged `customerId`, of the two entered values to that customer; the session goes iff the PUT succeeded |
| Interactions.ConfirmDraft | src/routes/interactions.js:184-197 | one PUT of `status: draft` to the staged product; the session goes whatever the outcome |
| Interactions.ConfirmPrice | src/routes/interactions.js:212-251 | a NaN price makes no PUT and keeps the session; a PUT is made only for the first filled input that parses, of that price to the session's target; the session goes iff the PUT succeeded; no `state` posts nothing |
| Interactions.SessionAction | src/routes/interactions.js:140-251 | exactly the six session actions are handled; each PUTs at most once and either keeps the store or deletes only the caller's session; the three cancels PUT nothing and delete the session |
| Interactions.Route | src/routes/interactions.js:38-87 | the dispatch as written: the PDF handler iff the id is `orderpdf_generate`, the status handler iff it is exactly `edit_order_status`, a session handler otherwise |
| Interactions.RouteIntended | src/routes/interactions.js:87 | the corrected dispatch sends every `edit_order_status_` id to the status handler |
| Interactions.Dispatch | src/routes/interactions.js:37-253 | no session means "No session found", no PUT and no store change; an unknown action with a session is "unsupported" |
| Interactions.Receive | src/routes/interactions.js:15-35 | an unparsable payload, a missing action id or a missing channel gets 400 with no call, message or store change; the rest is acknowledged |
| Interactions.Handle | src/routes/interactions.js:35-253 | an accepted payload is acknowledged and then has exactly the effects, messages and store change of its handler |
| Interactions.Interact | src/routes/interactions.js:15-254 | the endpoint as written: 400 exactly on bad input, at most one PUT per request, and the only store change is deleting the clicking user's own session |
| Interactions.ReceiveDispatches | src/routes/interactions.js:23-35 | an accepted payload is handled by the handler its action id selects |
| Interactions.SessionActionDispatch | src/routes/interactions.js:134-251 | a session action clicked by a session holder runs on that session |
| Interactions.InteractIntended | src/routes/interactions.js:87 | the corrected endpoint keeps the one-PUT and own-session-only guarantees |
| Legacy.LegacyDraftProduct | app.js:52-109 | an empty SKU is refused; a problem is refused in the response with nothing posted; a prompt carries the draft buttons |
| Legacy.LegacyPriceUpdate | app.js:180-254 | the same for `/priceupdate` |
| Legacy.AnsweredMatchesPosted | app.js:56-107 | answering and posting make the same GETs and session change; a refusal carries exactly the notice the modular server posts |
| Legacy.LegacyDraftAgrees | app.js:52-109 | both servers' `/draftproduct` make the same lookup and leave the same session |
| Legacy.LegacyPriceAgrees | app.js:180-254 | both servers' `/priceupdate` make the same lookups and leave the same session |
| Legacy.LegacyInteract | app.js:474-655 | no answer at all iff the payload, action list or channel is missing; never a 400; at most one PUT; only the caller's session is deleted |
| Legacy.LegacyPdfDispatch | app.js:483-527 | the PDF branch runs without the requester check |
| Legacy.SessionActionsAgree | app.js:530-654 | on a payload both servers accept, every session action has the same effect on both |
| Legacy.PdfRequesterUnchecked | app.js:483-491 | a PDF click by someone other than the named requester still fetches the log, where the modular server refuses it with no call |
| Legacy.UnknownActionIgnored | app.js:530-655 | an unknown action with a session does nothing in the single-file server and is answered "unsupported" by the modular one |
| Workflows.PdfButtonClick | src/routes/interactions.js:38-57 | for a numeric or digit-string mail id, a PDF button's own requester fetches that button's mail log; anyone else is refused with no call; the single-file server fetches it for anyone |
| Workflows.StatusButtonUnreachable | src/routes/interactions.js:87 | as written, a click on any generated status button reaches no status handler, reads nothing, writes nothing and is answered "unsupported" or "no session" |
| Workflows.CandidateIsTarget | src/routes/interactions.js:93-95 | an offered status is unchanged by the handler's trim and lower-casing |
| Workflows.NumericIdValid | src/routes/interactions.js:102 | a numeric order id passes the handler's id check |
| Workflows.StatusButtonParts | src/routes/interactions.js:89-92 | a status button's value splits into requester, order id and offered status |
| Workflows.StatusButtonRequest | src/routes/interactions.js:89-95 | a status button reads back as a valid request from its requester for its order and status |
| Workflows.StatusButtonClickRead | src/routes/interactions.js:89-95 | a click on a status button reads as the request the button was made for |
| Workflows.StatusClickIntended | src/routes/interactions.js:97-126 | with the corrected routing, the requester's click reads the order and PUTs the target iff it differs; anyone else is refused with no call |
| Workflows.StatusButtonIntended | src/routes/interactions.js:87-126 | with the corrected routing, a generated button's requester reads the button's order and at most PUTs the button's status |
| Workflows.StatusButtonOthersRefused | src/routes/interactions.js:97-100 | with the corrected routing, anyone but the requester is refused with no call |
| Workflows.DraftConfirmTargetsStaged | src/routes/interactions.js:184-197 | confirming a draft PUTs to exactly the product `/draftproduct` staged and ends the session |
| Workflows.ConfirmDraftClick | src/routes/interactions.js:184-197 | a draft confirmation PUTs to the session's product and ends the session |
| Workflows.PriceConfirmTargetsStaged | src/routes/interactions.js:212-251 | confirming a price PUTs to exactly the variation or product `/priceupdate` staged; the session ends only on success |
| Workflows.ConfirmPriceClick | src/routes/interactions.js:212-251 | a price confirmation PUTs to the session's target; the session ends iff the PUT succeeded |
| Workflows.CustomerSaveTargetsStaged | src/routes/interactions.js:147-181 | saving PUTs the entered values to exactly the customer `/customermeta` staged; the session ends iff the PUT succeeded |
| Workflows.WritesAreAuthorized | src/routes/interactions.js:134-138 | every PUT the endpoint makes is made for a session holder or, in the status branch, for the requester named in the button |

Definitions without a row are helpers whose contracts, if any, only restate
their bodies:
- `Orders.Carrier`, `Orders.Keyed`, `Products.SkuIs`, `Interactions.BlockIs`,
  `Interactions.ElementIs`: the callbacks of the `find` calls at
  src/routes/commands/orders.js:83, orders.js:228, src/routes/commands/products.js:97
  and the property reads at src/routes/interactions.js:150-151;
- `Orders.NoMatchOn`, `Orders.IsStripeEntry`, `Orders.Shown`,
  `Orders.CountStripe`, `Orders.IsCustomNumberEntry`, `Orders.CarriesNumber`,
  `Orders.ValidOrderId`, `Orders.Argument`, `Orders.TextOf`: predicates and
  small expressions of src/routes/commands/orders.js (lines 48, 50, 83-85, 143
  and 61);
- `Interactions.Filled`, `Interactions.CutLength`, `Interactions.StemOffset`,
  `Interactions.MailFallbackName`: src/routes/interactions.js:218-219 and 68;
- `MailPdf.PdfButton`, `MailPdf.MailIdOf`: the button literal at
  src/routes/commands/pdf.js:60-66;
- `Products.DraftPatch`, `Products.PricePatch`: the session patches of
  src/routes/commands/products.js:30-33 and 106-112;
- `Customers.MetaMap`: the loop at src/routes/commands/customers.js:37-40,
  characterised by `Customers.MetaMapLastWins`;
- `Sessions.GetSession`, `Sessions.HasSession`: src/store/sessions.js:9-15;
- `JsNumber.ToNumber`: `Number(s)`, characterised by the `ToNumberOf…` lemmas;
- `Chat.Posted`, `Chat.Answered`, `Chat.Stopped`: how a command outcome is
  assembled from a staged result;
- `Workflows.ClickReadsAs`, `Workflows.StatusButtonHead`: steps inside the
  button round-trip proofs;
- character and digit facts and other proof steps used only inside the
  lemmas above: `JsText.LowerChar`, `JsText.UpperChar`, `JsText.TrimNoSpace`,
  `JsText.JoinStartsWithFirst`, `JsText.CollapseAtWord`, `JsText.CollapseAtSpace`,
  `Orders.PendingPaymentParts`, `Orders.JoinPlain`, `JsNumber.DigitChar`, `JsNumber.DigitValue`,
  `JsNumber.DigitPrefixAll`, `JsNumber.DigitNotSpace`, `JsNumber.DigitsNotSpace`,
  `JsNumber.IntToStringNoSpace`, `JsNumber.TrimStartUnchanged`,
  `JsNumber.NegativeIntToString`, `JsNumber.ParseIntOfNegativeInt`,
  `JsNumber.ExponentAtDigits`, `JsNumber.IndexOfAbsent`,
  `JsNumber.RadixPrefixOfDigits`, `JsNumber.SignedDecimalOfNegative`,
  `JsNumber.WithSignOfValue`, `JsNumber.ToNumberOfNegativeInt`,
  `Upstream.NoPutCount`, `Interactions.GetFirstPutCount`,
  `Orders.LowerNoUpperChars`, `Orders.CollapseKeepsNoUpper`,
  `Orders.CandidatesPlain`, `Orders.CandidatesNoBar`, `Orders.OfferedCount`,
  `Orders.RemoveAt`.

## Left out

- Slack and WooCommerce I/O: API answers, PUT outcomes, PDF rendering and uploads are oracle fields. `web.chat.postMessage` is assumed to succeed, so a failing post (which in several handlers would reach a `catch` and post an error instead) is not modelled.
- Message texts and Block Kit layout: each posted message is one `Notice` constructor carrying the values it shows. Button labels are not modelled either.
- Basic-auth header building (`src/services/woo.js:10-13`), the axios wrapper, express wiring, body parsing and configuration (`src/index.js`, `src/routes/commands.js`, `src/config/index.js`): process plumbing with no decision logic.
- HMAC-SHA-256, hex encoding and `timingSafeEqual`: a function parameter and string equality.
- SlackAuth.Verify: `KeyError` stands for the throw when `slackSigningSecret` is undefined. `src/config/index.js` defines no such key, and the middleware is not mounted in `src/index.js`. The verifier is modelled on its own.
- HTML-to-PDF rendering (`src/services/pdf.js`): an oracle field `renders`.
- Floating-point prices: `parseFloat`, `toString` and `toFixed(2)` in `confirm_price` are the oracle field `parsePrice`, and `None` stands for NaN.
- IEEE-754 rounding in `Number()`: values are exact reals. `Number()` results are only compared with NaN and with the 300 s window, and the window is a comparison on exact values.
- Unicode case mapping: `toLowerCase`/`toUpperCase` are ASCII only, and `\w`, `\b` and `[a-z0-9]` are ASCII in the source anyway.
- Async interleavings: each command or click is one atomic step. The acknowledgement and the fire-and-forget work are sequenced, not interleaved with other requests.
- Unhandled rejections: where a handler throws outside its `try`, the model posts nothing and changes nothing. Examples are `confirm_price` without `payload.state` and the single-file endpoint on an empty action list.
- Object key order: `Object.values(state)` is modelled as the order of `FormState.blocks`.
- Non-object JSON: a payload that parses to something other than an object is treated like one without the fields read.
- The single-file server's plain-object store: keys inherited from `Object.prototype` (such as `constructor`) are not modelled. The model treats its store like the modular `Map`.
- The single-file server's channel: a `channel` object without `id` is modelled like an absent id, although that server would go on to post with an undefined channel.
- `user_id` of slash commands is assumed present, since Slack always sends it. A command with no `user_id` would write a session under `"undefined"`.
- NormalizeStatus: `STATUS_ALIASES[raw]` is a plain-object lookup, so a raw status equal to an `Object.prototype` name (`constructor`, `__proto__`, `toString`, …) returns the inherited member, a function or an object, instead of falling back to `raw`. The model returns `raw` for those, and `NormalizeIdempotent` does not hold for the source on them.
- IntToString: numbers are unbounded integers. JavaScript's exponent form of `String(n)` for |n| ≥ 1e21 and the rounding of integers above 2^53 are not modelled.
- Value: `Num` holds an integer, so a non-integer id or amount from the API is not representable. The bot only prints such values or passes them through.
- Duplicate ids in `state.values`: `FormState` is a list of blocks, each a list of elements, so it can hold two blocks with one block id or two elements with one action id. A parsed JSON object cannot, because `JSON.parse` keeps the last duplicate key. `InputText` reads the first of such duplicates, and the model promises nothing about which one the source would read.
- Null meta entries: `MetaEntry` is a record and cannot be `null`. `customers.js:39` skips a `null` entry (`m && m.key`), while `orders.js:84` and `orders.js:228` read `meta.key` and would throw on one. Neither path is modelled.
- `/findorder` and `/findidorder` show billing fields: a found order without `billing` throws in the source, and the model posts the failure message for it. The billing fields themselves are not shown.

## Findings

| source | as written | input that shows it | evidently intended | confidence | as-written member | corrected member |
|---|---|---|---|---|---|---|
| src/routes/interactions.js:87 | the status branch runs only for the exact `action_id` `edit_order_status`, but `buildStatusButtons` (src/routes/commands/orders.js:39) gives every button `edit_order_status_<status>`, so no generated button reaches it; a click is answered "Unsupported action" (or "No session found") and the order is never changed | a click on the `Set Completed` button: `action_id` `edit_order_status_completed`, value `U1|42|completed`, by `U1` | every id starting with `edit_order_status` selects the status handler, so the requester's click reads order 42 and PUTs `completed` when its status differs | not executed | Workflows.StatusButtonUnreachable | Workflows.StatusButtonIntended |
