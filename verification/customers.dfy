/** The `/customermeta` command (`src/routes/commands/customers.js`): look a
    customer up by e-mail, show its `customer_code` and `customer_class`
    meta, and stage the customer in the requester's session for the save
    button. */
module Customers {
  import opened Wrappers
  import opened JsText
  import opened JsValue
  import opened Sessions
  import opened Upstream
  import opened Chat

  function CustomerButtons(userId: UserId): seq<Button> {
    [Button(SaveCustomerMetaId, userId, Primary), Button(CancelCustomerMetaId, userId, Danger)]
  }

  /** Entry `e` writes property `k` of the meta map: its key is truthy and
      converts to `k`. */
  predicate Writes(e: MetaEntry, k: string) {
    Truthy(e.key) && ToStr(e.key) == k
  }

  /** The meta map built by assigning each entry with a truthy key in array
      order, so a later entry overwrites an earlier one with the same key. */
  function MetaMap(es: seq<MetaEntry>): map<string, Value>
    decreases |es|
  {
    if es == [] then map[]
    else
      var m := MetaMap(es[..|es| - 1]);
      var e := es[|es| - 1];
      if Truthy(e.key) then m[ToStr(e.key) := e.value] else m
  }

  /** A property is in the meta map exactly when some entry writes it, and
      its value is the one of the last entry that does. */
  lemma MetaMapLastWins(es: seq<MetaEntry>, k: string)
    ensures k in MetaMap(es) <==> exists i | 0 <= i < |es| :: Writes(es[i], k)
    ensures forall i | 0 <= i < |es| && Writes(es[i], k) && (forall j | i < j < |es| :: !Writes(es[j], k)) ::
      k in MetaMap(es) && MetaMap(es)[k] == es[i].value
  {
    MetaMapHas(es, k);
    forall i | 0 <= i < |es| && Writes(es[i], k) && (forall j | i < j < |es| :: !Writes(es[j], k))
      ensures k in MetaMap(es) && MetaMap(es)[k] == es[i].value
    {
      MetaMapLast(es, k, i);
    }
  }

  lemma {:induction false} MetaMapHas(es: seq<MetaEntry>, k: string)
    ensures k in MetaMap(es) <==> exists i | 0 <= i < |es| :: Writes(es[i], k)
    decreases |es|
  {
    if es != [] {
      var init := es[..|es| - 1];
      MetaMapHas(init, k);
      if k in MetaMap(init) {
        var i :| 0 <= i < |init| && Writes(init[i], k);
        assert Writes(es[i], k);
      }
      if exists i | 0 <= i < |es| :: Writes(es[i], k) {
        var i :| 0 <= i < |es| && Writes(es[i], k);
        if i < |init| {
          assert Writes(init[i], k);
        }
      }
    }
  }

  lemma {:induction false} MetaMapLast(es: seq<MetaEntry>, k: string, i: nat)
    requires i < |es| && Writes(es[i], k)
    requires forall j | i < j < |es| :: !Writes(es[j], k)
    ensures k in MetaMap(es) && MetaMap(es)[k] == es[i].value
    decreases |es|
  {
    var init := es[..|es| - 1];
    if i < |es| - 1 {
      assert init[i] == es[i];
      assert forall j | i < j < |init| :: init[j] == es[j];
      MetaMapLast(init, k, i);
      assert !Writes(es[|es| - 1], k);
    }
  }

  /** What `/customermeta` merges into the session. */
  function CustomerPatch(c: Customer, email: string): Record {
    map["customerId" := c.id, "email" := Str(email)]
  }

  /** `metaMap[key] || ''` */
  function MetaOrEmpty(meta: map<string, Value>, key: string): Value {
    Or(Field(meta, key), Str(""))
  }

  /** The lookup half of `/customermeta` for a non-empty e-mail: the first
      customer returned is staged; a non-array or empty answer means no
      customer, a failed GET is reported, and both leave the store alone. */
  function StageCustomerMeta(email: string, userId: UserId, store: Store, o: Oracle): (st: Staged)
    ensures st.gets == [CustomersByEmail(email)]
    ensures st.result.Prompt? <==> o.customers(email).Got? && o.customers(email).data.Some? && o.customers(email).data.value != []
    ensures st.result.Problem? ==> st.store == store
    ensures o.customers(email).Failed? ==> st.result == Problem(FailedToRetrieveCustomerMeta)
    ensures o.customers(email) == Got(None) || o.customers(email) == Got(Some([])) ==>
      st.result == Problem(NoCustomerWithEmail(email))
    ensures st.result.Prompt? ==>
      var c := o.customers(email).data.value[0];
      && Patched(store, st.store, userId, CustomerPatch(c, email))
      && st.result.buttons == CustomerButtons(userId)
      && st.result.notice.CustomerMetaPrompt? && st.result.notice.customerId == c.id
  {
    var gets := [CustomersByEmail(email)];
    match o.customers(email)
    case Failed => Staged(gets, Problem(FailedToRetrieveCustomerMeta), store)
    case Got(None) => Staged(gets, Problem(NoCustomerWithEmail(email)), store)
    case Got(Some(cs)) =>
      if cs == [] then Staged(gets, Problem(NoCustomerWithEmail(email)), store)
      else
        var c := cs[0];
        var meta := MetaMap(c.meta.GetOr([]));
        var shown := CustomerMetaPrompt(c.id, MetaOrEmpty(meta, "customer_code"), MetaOrEmpty(meta, "customer_class"));
        UpdatePatches(store, userId, CustomerPatch(c, email));
        Staged(gets, Prompt(shown, CustomerButtons(userId)), UpdateSession(store, userId, CustomerPatch(c, email)).store)
  }

  /** The code shown is the value of the customer's last `customer_code`
      entry, `""` when that value is falsy or there is no such entry. */
  lemma ShownCodeIsLastEntry(email: string, userId: UserId, store: Store, o: Oracle)
    requires o.customers(email).Got? && o.customers(email).data.Some? && o.customers(email).data.value != []
    ensures var c := o.customers(email).data.value[0];
      var es := c.meta.GetOr([]);
      var shown := StageCustomerMeta(email, userId, store, o).result.notice;
      && (forall i | 0 <= i < |es| && Writes(es[i], "customer_code")
            && (forall j | i < j < |es| :: !Writes(es[j], "customer_code")) ::
            shown.storedCode == if Truthy(es[i].value) then es[i].value else Str(""))
      && ((forall i | 0 <= i < |es| :: !Writes(es[i], "customer_code")) ==> shown.storedCode == Str(""))
  {
    var c := o.customers(email).data.value[0];
    MetaMapLastWins(c.meta.GetOr([]), "customer_code");
  }

  /** `/customermeta`: always acknowledged first; an empty e-mail is
      answered in the channel without any lookup. */
  function CustomerMeta(text: Option<string>, userId: UserId, store: Store, o: Oracle): (r: CommandOutcome)
    ensures r.reply == Acked && |r.notices| == 1
    ensures Trim(text.GetOr("")) == "" <==> r.notices == [ProvideEmail]
    ensures Trim(text.GetOr("")) == "" ==> r.gets == [] && r.store == store
    ensures Trim(text.GetOr("")) != "" ==> r.gets == [CustomersByEmail(Trim(text.GetOr("")))]
    ensures r.store != store ==> r.buttons == CustomerButtons(userId)
  {
    var email := Trim(text.GetOr(""));
    if email == "" then Stopped(Acked, [ProvideEmail], store)
    else Posted(StageCustomerMeta(email, userId, store, o))
  }
}
