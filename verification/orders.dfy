/** The order commands (`src/routes/commands/orders.js`): status
    normalisation and labels, the status buttons, the Stripe meta summary,
    the paged custom-number search, and the five order slash commands. */
module Orders {
  import opened Wrappers
  import opened JsText
  import opened JsNumber
  import opened JsValue
  import opened Sessions
  import opened Upstream
  import opened Chat
  import opened Lookup

  /** The statuses a status button can set, in the order they are offered. */
  const Candidates: seq<string> :=
    ["pending", "processing", "completed", "on-hold", "cancelled", "refunded", "failed"]

  const MaxStatusButtons := 5
  const MaxStripeLines := 8
  /** `/findorder` reads at most this many pages of 100 orders. */
  const SearchPages := 3
  const CustomNumberKey := "_alg_wc_custom_order_number"
  const NoStripeText := "• No Stripe meta found"

  /** `String(v || '')` */
  function TextOf(v: Value): string {
    if Truthy(v) then ToStr(v) else ""
  }

  predicate NoUpper(s: string) {
    forall i | 0 <= i < |s| :: !IsUpperAscii(s[i])
  }

  predicate IsAlias(s: string) {
    s == "pendingpayment" || s == "pending_payment"
  }

  /** `String(status || '').trim().toLowerCase().replace(/\s+/g, '_')`:
      no whitespace, no upper-case letter, empty only for a blank status. */
  function Raw(status: string): (raw: string)
    ensures NoSpace(raw) && NoUpper(raw)
    ensures |raw| <= |status|
    ensures raw == [] <==> Trim(status) == []
  {
    var lowered := Lower(Trim(status));
    LowerNoUpperChars(Trim(status));
    CollapseKeepsNoUpper(lowered);
    CollapseSpaces(lowered, '_')
  }

  /** Trimmed, lower-cased, whitespace runs turned into `_`, and the two
      spellings of "pending payment" mapped to `pending`. */
  function NormalizeStatus(status: string): (r: string)
    ensures NoSpace(r) && NoUpper(r) && !IsAlias(r)
    ensures |r| <= |status|
    ensures r == [] <==> Trim(status) == []
  {
    var raw := Raw(status);
    if IsAlias(raw) then
      CandidatesPlain();
      assert Candidates[0] == "pending";
      "pending"
    else raw
  }

  lemma LowerNoUpperChars(s: string)
    ensures NoUpper(Lower(s))
  {
    var l := Lower(s);
    forall i | 0 <= i < |l|
      ensures !IsUpperAscii(l[i])
    {
      assert l[i] == LowerChar(s[i]);
    }
  }

  lemma CollapseKeepsNoUpper(s: string)
    requires NoUpper(s)
    ensures NoUpper(CollapseSpaces(s, '_'))
  {
    var raw := CollapseSpaces(s, '_');
    forall i | 0 <= i < |raw|
      ensures !IsUpperAscii(raw[i])
    {
      if raw[i] != '_' {
        var j :| 0 <= j < |s| && s[j] == raw[i];
      }
    }
  }

  /** Text without whitespace or upper-case letters is its own raw form. */
  lemma RawOfPlain(s: string)
    requires NoSpace(s) && NoUpper(s)
    ensures Raw(s) == s
  {
    TrimNoSpace(s);
    LowerNoUpper(s);
    CollapseNoSpace(s, '_');
  }

  /** A status already in normal form is left alone. */
  lemma NormalizeFixed(s: string)
    requires NoSpace(s) && NoUpper(s) && !IsAlias(s)
    ensures NormalizeStatus(s) == s
  {
    RawOfPlain(s);
  }

  /** Normalising twice is normalising once, so the command's own
      normalisation composes with the one inside the button builder and the
      label. */
  lemma NormalizeIdempotent(s: string)
    ensures NormalizeStatus(NormalizeStatus(s)) == NormalizeStatus(s)
  {
    NormalizeFixed(NormalizeStatus(s));
  }

  /** Only the trimmed, lower-cased text matters: surrounding whitespace
      and letter case never change the normal form. */
  lemma NormalizeTrimsAndLowers(s: string)
    ensures NormalizeStatus(s) == NormalizeStatus(Lower(Trim(s)))
  {
    var t := Trim(s);
    var l := Lower(t);
    LowerKeepsSpaces(t);
    if l != [] {
      TrimClean(l);
    }
    assert Raw(l) == Raw(s);
  }

  /** A whitespace run between two words becomes one underscore: the
      normal form of `a g b` is that of `a_b`. */
  lemma NormalizeRun(a: string, g: string, b: string)
    requires a != [] && b != []
    requires NoSpace(a) && NoSpace(b) && NoUpper(a) && NoUpper(b)
    requires g != [] && forall i | 0 <= i < |g| :: IsSpace(g[i])
    ensures NormalizeStatus(a + g + b) == NormalizeStatus(a + "_" + b)
  {
    var u := a + "_" + b;
    RawRun(a, g, b);
    JoinPlain(a, b);
    RawOfPlain(u);
    assert Raw(a + g + b) == Raw(u);
  }

  /** Joining two plain words by `_` gives a plain word. */
  lemma JoinPlain(a: string, b: string)
    requires NoSpace(a) && NoSpace(b) && NoUpper(a) && NoUpper(b)
    ensures NoSpace(a + "_" + b) && NoUpper(a + "_" + b)
  {
    var u := a + "_" + b;
    forall i | 0 <= i < |u|
      ensures !IsSpace(u[i]) && !IsUpperAscii(u[i])
    {
      if i < |a| {
        assert u[i] == a[i];
      } else if i > |a| {
        assert u[i] == b[i - |a| - 1];
      }
    }
  }

  /** The raw form of `a g b` is `a_b`. */
  lemma RawRun(a: string, g: string, b: string)
    requires a != [] && b != []
    requires NoSpace(a) && NoSpace(b) && NoUpper(a) && NoUpper(b)
    requires g != [] && forall i | 0 <= i < |g| :: IsSpace(g[i])
    ensures Raw(a + g + b) == a + "_" + b
  {
    var s := a + g + b;
    assert s[0] == a[0] && s[|s| - 1] == b[|b| - 1];
    TrimClean(s);
    var l := Lower(s);
    LowerNoUpper(a);
    LowerNoUpper(b);
    LowerKeepsSpaces(g);
    assert l == Lower(a) + Lower(g) + Lower(b);
    CollapseRun(a, Lower(g), b, '_');
    CollapseNoSpace(b, '_');
  }

  /** A status spelled as one of the two aliases reads as `pending`. */
  lemma NormalizeAlias(s: string)
    requires IsAlias(s)
    ensures NormalizeStatus(s) == "pending"
  {
    assert LowerWord(s) by {
      if s == "pendingpayment" {} else {}
    }
    PlainWord(s);
    RawOfPlain(s);
  }

  /** A word of lower-case letters, hyphens and underscores holds no
      whitespace and no upper-case letter. */
  lemma PlainWord(s: string)
    requires LowerWord(s)
    ensures NoSpace(s) && NoUpper(s)
  {
  }

  /** Any status whose trimmed lower case is one of the two aliases reads
      as `pending`, whatever its letter case and surrounding whitespace. */
  lemma NormalizeAliasSpelling(s: string)
    requires IsAlias(Lower(Trim(s)))
    ensures NormalizeStatus(s) == "pending"
  {
    NormalizeTrimsAndLowers(s);
    NormalizeAlias(Lower(Trim(s)));
  }

  /** Any status whose trimmed lower case is two words separated by
      whitespace normalises like the two words joined by `_`; in
      particular WooCommerce's display name "Pending payment" reads as
      `pending`. */
  lemma NormalizeTwoWords(s: string, a: string, g: string, b: string)
    requires Lower(Trim(s)) == a + g + b
    requires a != [] && b != [] && NoSpace(a) && NoSpace(b)
    requires g != [] && forall i | 0 <= i < |g| :: IsSpace(g[i])
    ensures NormalizeStatus(s) == NormalizeStatus(a + "_" + b)
    ensures a + "_" + b == "pending_payment" ==> NormalizeStatus(s) == "pending"
  {
    var l := Lower(Trim(s));
    LowerNoUpperChars(Trim(s));
    assert NoUpper(a) by {
      forall i | 0 <= i < |a| ensures !IsUpperAscii(a[i]) { assert a[i] == l[i]; }
    }
    assert NoUpper(b) by {
      forall i | 0 <= i < |b| ensures !IsUpperAscii(b[i]) { assert b[i] == l[|a| + |g| + i]; }
    }
    NormalizeTrimsAndLowers(s);
    NormalizeRun(a, g, b);
    if a + "_" + b == "pending_payment" {
      NormalizeAlias(a + "_" + b);
    }
  }

  /** The display name itself: "Pending payment" trims and lower-cases to
      `pending`, a space and `payment`. */
  lemma PendingPaymentSpelling(s: string)
    requires s == "Pending payment"
    ensures Lower(Trim(s)) == "pending" + " " + "payment"
  {
    TrimClean(s);
    var l := Lower(s);
    assert forall i | 0 <= i < |s| :: l[i] == LowerChar(s[i]);
  }

  /** "Pending payment", as WooCommerce displays the status, reads as
      `pending`. */
  lemma PendingPaymentNormalizes(s: string)
    requires s == "Pending payment"
    ensures NormalizeStatus(s) == "pending"
  {
    PendingPaymentSpelling(s);
    PendingPaymentWords(s);
  }

  /** A status that trims and lower-cases to `pending payment` reads as
      `pending`. */
  lemma PendingPaymentWords(s: string)
    requires Lower(Trim(s)) == "pending" + " " + "payment"
    ensures NormalizeStatus(s) == "pending"
  {
    var l := Lower(Trim(s));
    PendingPaymentParts(l);
    NormalizeTwoWords(s, l[..7], l[7..8], l[8..]);
  }

  /** `pending payment` is two plain words around one space, whose join by
      `_` is the alias `pending_payment`. */
  lemma PendingPaymentParts(l: string)
    requires l == "pending" + " " + "payment"
    ensures |l| == 15 && l == l[..7] + l[7..8] + l[8..]
    ensures NoSpace(l[..7]) && NoSpace(l[8..]) && IsSpace(l[7])
    ensures l[..7] + "_" + l[8..] == "pending_payment"
  {
    assert LowerWord(l[..7]) && LowerWord(l[8..]);
    PlainWord(l[..7]);
    PlainWord(l[8..]);
  }


  /** Lower-case ASCII letters, hyphens and underscores only. */
  predicate LowerWord(s: string) {
    forall k | 0 <= k < |s| :: IsLowerAscii(s[k]) || s[k] == '-' || s[k] == '_'
  }

  /** The offered statuses hold no whitespace and no upper-case letter. */
  lemma CandidatesPlain()
    ensures forall i | 0 <= i < |Candidates| :: NoSpace(Candidates[i]) && NoUpper(Candidates[i])
  {
    assert forall i | 0 <= i < |Candidates| :: LowerWord(Candidates[i]);
  }

  /** Every offered status is its own normal form. */
  lemma CandidatesNormal()
    ensures forall i | 0 <= i < |Candidates| :: NormalizeStatus(Candidates[i]) == Candidates[i]
  {
    CandidatesPlain();
    forall i | 0 <= i < |Candidates|
      ensures NormalizeStatus(Candidates[i]) == Candidates[i]
    {
      NormalizeFixed(Candidates[i]);
    }
  }

  /** Position `i` starts a word: `\b\w` matches there. */
  predicate WordStart(t: string, i: nat)
    requires i < |t|
  {
    IsWordChar(t[i]) && (i == 0 || !IsWordChar(t[i - 1]))
  }

  /** `t.replace(/\b\w/g, (c) => c.toUpperCase())` */
  function TitleCase(t: string): (r: string)
    ensures |r| == |t|
    ensures forall i | 0 <= i < |t| :: !WordStart(t, i) ==> r[i] == t[i]
    ensures forall i | 0 <= i < |t| :: WordStart(t, i) ==> !IsLowerAscii(r[i]) && LowerChar(r[i]) == LowerChar(t[i])
  {
    seq(|t|, i requires 0 <= i < |t| => if WordStart(t, i) then UpperChar(t[i]) else t[i])
  }

  /** The human label of a status: "Pending payment" for `pending`; otherwise
      the normalised status with underscores shown as spaces and each word
      capitalised, so that lower-casing the label gives the status back. */
  function StatusLabel(status: string): (r: string)
    ensures NormalizeStatus(status) == "pending" ==> r == "Pending payment"
    ensures NormalizeStatus(status) != "pending" ==>
      var v := NormalizeStatus(status);
      && |r| == |v|
      && (forall i | 0 <= i < |v| :: LowerChar(r[i]) == (if v[i] == '_' then ' ' else v[i]))
      && (forall i | 0 <= i < |v| :: WordStart(ReplaceChar(v, '_', ' '), i) ==> !IsLowerAscii(r[i]))
      && (forall i | 0 <= i < |v| :: !WordStart(ReplaceChar(v, '_', ' '), i) ==> r[i] == (if v[i] == '_' then ' ' else v[i]))
  {
    LabelOf(NormalizeStatus(status))
  }

  /** The label of a status already in normal form. */
  function LabelOf(value: string): (r: string)
    requires NoUpper(value)
    ensures value == "pending" ==> r == "Pending payment"
    ensures value != "pending" ==>
      && |r| == |value|
      && (forall i | 0 <= i < |value| :: LowerChar(r[i]) == (if value[i] == '_' then ' ' else value[i]))
      && (forall i | 0 <= i < |value| :: WordStart(ReplaceChar(value, '_', ' '), i) ==> !IsLowerAscii(r[i]))
      && (forall i | 0 <= i < |value| :: !WordStart(ReplaceChar(value, '_', ' '), i) ==> r[i] == (if value[i] == '_' then ' ' else value[i]))
  {
    if value == "pending" then "Pending payment"
    else
      var t := ReplaceChar(value, '_', ' ');
      TitleCaseLowers(t);
      TitleCase(t)
  }

  /** Capitalising word starts is undone by lower-casing. */
  lemma TitleCaseLowers(t: string)
    requires NoUpper(t)
    ensures forall i | 0 <= i < |t| :: LowerChar(TitleCase(t)[i]) == t[i]
  {
    var r := TitleCase(t);
    forall i | 0 <= i < |t|
      ensures LowerChar(r[i]) == t[i]
    {
      assert !IsUpperAscii(t[i]);
    }
  }

  /** `status.replace(/[^a-z0-9]/g, '_')` */
  function ActionSuffix(status: string): (r: string)
    ensures |r| == |status|
    ensures forall i | 0 <= i < |r| :: IsLowerAscii(r[i]) || IsDigit(r[i]) || r[i] == '_'
    ensures forall i | 0 <= i < |r| :: IsLowerAscii(status[i]) || IsDigit(status[i]) ==> r[i] == status[i]
    ensures forall i | 0 <= i < |r| :: !IsLowerAscii(status[i]) && !IsDigit(status[i]) ==> r[i] == '_'
  {
    seq(|status|, i requires 0 <= i < |status| =>
      if IsLowerAscii(status[i]) || IsDigit(status[i]) then status[i] else '_')
  }

  /** The button that sets `status`: its id is the prefix plus the sanitised
      status, so it never equals the bare status literal, and only
      `completed` is styled primary. */
  function StatusButton(userId: string, orderId: Value, status: string): (b: Button)
    ensures StartsWith(b.actionId, StatusButtonPrefix) && b.actionId != StatusActionId
    ensures b.style == Primary <==> status == "completed"
  {
    var b := Button(StatusButtonPrefix + ActionSuffix(status),
                    userId + "|" + ToStr(orderId) + "|" + status,
                    if status == "completed" then Primary else Plain);
    assert |b.actionId| > |StatusActionId|;
    b
  }

  /** All elements of `xs` except `x`, in order. */
  function Without(xs: seq<string>, x: string): (r: seq<string>)
    ensures forall y :: y in r <==> y in xs && y != x
    ensures |r| <= |xs|
  {
    if xs == [] then []
    else if xs[0] == x then Without(xs[1..], x)
    else [xs[0]] + Without(xs[1..], x)
  }

  lemma {:induction false} WithoutAbsent(xs: seq<string>, x: string)
    requires x !in xs
    ensures Without(xs, x) == xs
  {
    if xs != [] {
      WithoutAbsent(xs[1..], x);
      assert [xs[0]] + xs[1..] == xs;
    }
  }

  /** The rank of a status in the offering order (7 when not offered). */
  function Rank(s: string): (k: nat)
    ensures k <= |Candidates|
    ensures k < |Candidates| <==> s in Candidates
    ensures k < |Candidates| ==> Candidates[k] == s
  {
    if s == "pending" then 0 else if s == "processing" then 1
    else if s == "completed" then 2 else if s == "on-hold" then 3
    else if s == "cancelled" then 4 else if s == "refunded" then 5
    else if s == "failed" then 6 else 7
  }

  /** The statuses offered beside `current`: the first five candidates other
      than `current`. */
  function OfferedStatuses(current: string): (r: seq<string>)
    ensures |r| == MaxStatusButtons
  {
    WithoutByRank(current);
    var others := Without(Candidates, current);
    others[..if |others| < MaxStatusButtons then |others| else MaxStatusButtons]
  }

  /** The `i`-th index of a sequence from which index `k` was removed. */
  function Skip(i: nat, k: nat): nat { if i < k then i else i + 1 }

  lemma RankOfCandidates()
    ensures forall k | 0 <= k < |Candidates| :: Rank(Candidates[k]) == k
  {
  }

  lemma CandidatesDistinct()
    ensures forall i, j | 0 <= i < j < |Candidates| :: Candidates[i] != Candidates[j]
  {
  }

  /** Removing an element of a sequence without repetitions leaves the others in place. */
  lemma {:induction false} WithoutDistinct(xs: seq<string>, k: nat)
    requires k < |xs|
    requires forall i, j | 0 <= i < j < |xs| :: xs[i] != xs[j]
    ensures Without(xs, xs[k]) == xs[..k] + xs[k + 1..]
  {
    if k == 0 {
      WithoutAbsent(xs[1..], xs[0]);
    } else {
      WithoutDistinct(xs[1..], k - 1);
      assert xs[1..][k - 1] == xs[k];
      assert [xs[0]] + (xs[1..][..k - 1] + xs[1..][k..]) == xs[..k] + xs[k + 1..];
    }
  }

  lemma WithoutByRank(current: string)
    ensures var k := Rank(current);
      Without(Candidates, current) == if k < |Candidates| then Candidates[..k] + Candidates[k + 1..] else Candidates
  {
    var k := Rank(current);
    if k < |Candidates| {
      CandidatesDistinct();
      WithoutDistinct(Candidates, k);
    } else {
      WithoutAbsent(Candidates, current);
    }
  }

  lemma OfferedCount(current: string)
    ensures |OfferedStatuses(current)| == MaxStatusButtons
  {
    WithoutByRank(current);
  }

  /** No candidate contains the separator of button values. */
  lemma CandidatesNoBar()
    ensures forall k | 0 <= k < |Candidates| :: '|' !in Candidates[k]
  {
  }

  lemma OfferedByRank(current: string)
    ensures |OfferedStatuses(current)| == MaxStatusButtons
    ensures forall i | 0 <= i < MaxStatusButtons :: OfferedStatuses(current)[i] == Candidates[Skip(i, Rank(current))]
  {
    var k := Rank(current);
    WithoutByRank(current);
    if k < |Candidates| {
      RemoveAt(Candidates, k);
    }
  }

  /** The `i`-th element left after removing index `k` is the element at
      `Skip(i, k)`. */
  lemma RemoveAt(xs: seq<string>, k: nat)
    requires k < |xs|
    ensures forall i | 0 <= i < |xs| - 1 :: (xs[..k] + xs[k + 1..])[i] == xs[Skip(i, k)]
  {
    var ys := xs[..k] + xs[k + 1..];
    forall i | 0 <= i < |xs| - 1
      ensures ys[i] == xs[Skip(i, k)]
    {
      if i < k {
        assert ys[i] == xs[..k][i];
      } else {
        assert ys[i] == xs[k + 1..][i - k];
      }
    }
  }

  lemma OfferedRanks(current: string)
    ensures |OfferedStatuses(current)| == MaxStatusButtons
    ensures forall i | 0 <= i < MaxStatusButtons :: Rank(OfferedStatuses(current)[i]) == Skip(i, Rank(current))
    ensures forall i | 0 <= i < MaxStatusButtons :: OfferedStatuses(current)[i] in Candidates
  {
    OfferedByRank(current);
    RankOfCandidates();
  }

  lemma OfferedNotCurrent(current: string)
    ensures forall i | 0 <= i < MaxStatusButtons ::
      OfferedStatuses(current)[i] != current && OfferedStatuses(current)[i] in Candidates
  {
    var r := OfferedStatuses(current);
    var k := Rank(current);
    OfferedRanks(current);
    forall i | 0 <= i < MaxStatusButtons ensures r[i] != current {
      assert Rank(r[i]) == Skip(i, k) != k;
    }
  }

  lemma OfferedNoGap(current: string)
    ensures var r := OfferedStatuses(current);
      forall k | 0 <= k < Rank(r[MaxStatusButtons - 1]) && Candidates[k] != current :: Candidates[k] in r
  {
    var r := OfferedStatuses(current);
    var k := Rank(current);
    OfferedRanks(current);
    OfferedByRank(current);
    forall j | 0 <= j < Rank(r[MaxStatusButtons - 1]) && Candidates[j] != current
      ensures Candidates[j] in r
    {
      if j < k {
        assert r[j] == Candidates[Skip(j, k)];
      } else {
        assert j != k;
        assert r[j - 1] == Candidates[Skip(j - 1, k)];
      }
    }
  }

  /** Five statuses are offered, never the current one, all candidates, in
      candidate order, and no other candidate is skipped before the last one
      offered. */
  lemma OfferedStatusesSpec(current: string)
    ensures var r := OfferedStatuses(current);
      && |r| == MaxStatusButtons
      && (forall i | 0 <= i < |r| :: r[i] != current && r[i] in Candidates)
      && (forall i, j | 0 <= i < j < |r| :: Rank(r[i]) < Rank(r[j]))
      && (forall k | 0 <= k < Rank(r[|r| - 1]) && Candidates[k] != current :: Candidates[k] in r)
  {
    OfferedRanks(current);
    OfferedNotCurrent(current);
    OfferedNoGap(current);
  }

  /** The status buttons for an order whose status is `currentStatus`. */
  function BuildStatusButtons(userId: string, orderId: Value, currentStatus: string): (r: seq<Button>)
    ensures |r| == MaxStatusButtons
    ensures forall i | 0 <= i < |r| ::
      StartsWith(r[i].actionId, StatusButtonPrefix) && r[i].actionId != StatusActionId
    ensures (exists i | 0 <= i < |r| :: r[i].style == Primary) <==> NormalizeStatus(currentStatus) != "completed"
  {
    var current := NormalizeStatus(currentStatus);
    var offered := OfferedStatuses(current);
    OfferedCount(current);
    CompletedOffered(current);
    PrimaryIffCompleted(userId, orderId, offered);
    ButtonsFor(userId, orderId, offered)
  }

  /** One status button per status. */
  function ButtonsFor(userId: string, orderId: Value, statuses: seq<string>): (r: seq<Button>)
    ensures |r| == |statuses|
    ensures forall i | 0 <= i < |r| :: r[i] == StatusButton(userId, orderId, statuses[i])
  {
    seq(|statuses|, i requires 0 <= i < |statuses| => StatusButton(userId, orderId, statuses[i]))
  }

  lemma PrimaryIffCompleted(userId: string, orderId: Value, statuses: seq<string>)
    ensures (exists i | 0 <= i < |statuses| :: ButtonsFor(userId, orderId, statuses)[i].style == Primary)
        <==> "completed" in statuses
  {
    var r := ButtonsFor(userId, orderId, statuses);
    if "completed" in statuses {
      var k :| 0 <= k < |statuses| && statuses[k] == "completed";
      assert r[k].style == Primary;
    }
  }

  /** `completed` is among the offered statuses unless it is the current one. */
  lemma CompletedOffered(current: string)
    ensures "completed" in OfferedStatuses(current) <==> current != "completed"
  {
    var r := OfferedStatuses(current);
    OfferedStatusesSpec(current);
    OfferedByRank(current);
    if current != "completed" {
      assert Candidates[2] == "completed";
      if Rank(current) < 2 {
        assert r[1] == Candidates[2];
      } else {
        assert r[2] == Candidates[2];
      }
    }
  }

  /** A button's value carries the requester, the order id and one offered
      status that differs from the current one; it splits back into exactly
      those three when neither the user id nor the order id contains `|`. */
  lemma StatusButtonsDecode(userId: string, orderId: Value, currentStatus: string, i: nat)
    requires '|' !in userId && '|' !in ToStr(orderId)
    requires i < MaxStatusButtons
    ensures var b := BuildStatusButtons(userId, orderId, currentStatus)[i];
      var s := OfferedStatuses(NormalizeStatus(currentStatus))[i];
      && Split(b.value, '|') == [userId, ToStr(orderId), s]
      && s in Candidates && s != NormalizeStatus(currentStatus)
  {
    var current := NormalizeStatus(currentStatus);
    OfferedStatusesSpec(current);
    OfferedByRank(current);
    CandidatesNoBar();
    var s := OfferedStatuses(current)[i];
    assert s == Candidates[Skip(i, Rank(current))];
    assert '|' !in s;
    SplitThree(userId, ToStr(orderId), s, '|');
  }

  /** `item && typeof item.key === 'string' && item.key.toLowerCase().includes('stripe')` */
  predicate IsStripeEntry(e: MetaEntry) {
    e.key.Str? && Contains(Lower(e.key.s), "stripe")
  }

  /** `String(item.value ?? '')` */
  function Shown(v: Value): string {
    if v.Undefined? || v.Null? then "" else ToStr(v)
  }

  /** `• key: value`: the bullet and key up to the colon, then the value
      as shown, and nothing else. */
  function StripeLine(e: MetaEntry): (line: string)
    requires e.key.Str?
    ensures var head := "• " + e.key.s + ": ";
      && |line| == |head| + |Shown(e.value)|
      && line[..|head|] == head && line[|head|..] == Shown(e.value)
    ensures StartsWith(line, "• ") && ':' in line
  {
    var line := "• " + e.key.s + ": " + Shown(e.value);
    assert line[|"• " + e.key.s|] == ':';
    line
  }

  function CountStripe(es: seq<MetaEntry>): nat {
    if es == [] then 0 else (if IsStripeEntry(es[0]) then 1 else 0) + CountStripe(es[1..])
  }

  /** `meta.filter(...)`: the Stripe entries of `es`, in order. */
  function StripeEntries(es: seq<MetaEntry>): (r: seq<MetaEntry>)
    ensures |r| == CountStripe(es)
    ensures forall i | 0 <= i < |r| :: IsStripeEntry(r[i])
    ensures forall e :: e in r <==> e in es && IsStripeEntry(e)
  {
    if es == [] then []
    else if IsStripeEntry(es[0]) then [es[0]] + StripeEntries(es[1..])
    else StripeEntries(es[1..])
  }

  /** The filter is a homomorphism over concatenation: filtering two runs of
      meta entries one after the other keeps each run's Stripe entries in
      place, so the order of the entries on the order is the order shown. */
  lemma {:induction false} StripeEntriesAppend(a: seq<MetaEntry>, b: seq<MetaEntry>)
    ensures StripeEntries(a + b) == StripeEntries(a) + StripeEntries(b)
    decreases |a|
  {
    if a == [] {
      assert a + b == b;
    } else {
      assert (a + b)[1..] == a[1..] + b;
      StripeEntriesAppend(a[1..], b);
    }
  }

  /** On a single entry the filter keeps it exactly when it is a Stripe
      entry. */
  lemma StripeEntriesSingle(e: MetaEntry)
    ensures StripeEntries([e]) == if IsStripeEntry(e) then [e] else []
  {
    assert [e][1..] == [];
  }

  /** `.slice(0, 8).map(...)`: the first eight Stripe entries, in order,
      each turned into its line. */
  function StripeLines(meta: Option<seq<MetaEntry>>): (lines: seq<string>)
    ensures var n := CountStripe(meta.GetOr([]));
      |lines| == if n < MaxStripeLines then n else MaxStripeLines
    ensures forall i | 0 <= i < |lines| :: lines[i] == StripeLine(StripeEntries(meta.GetOr([]))[i])
    ensures forall i | 0 <= i < |lines| :: StartsWith(lines[i], "• ") && ':' in lines[i]
  {
    var entries := StripeEntries(meta.GetOr([]));
    var shown := entries[..if |entries| < MaxStripeLines then |entries| else MaxStripeLines];
    seq(|shown|, i requires 0 <= i < |shown| => StripeLine(shown[i]))
  }

  /** The Stripe section of `/editorderstatus`: the fallback text exactly
      when the order has no Stripe meta, otherwise the lines joined by
      newlines. */
  function StripeMeta(meta: Option<seq<MetaEntry>>): (r: string)
    ensures r == NoStripeText <==> CountStripe(meta.GetOr([])) == 0
    ensures CountStripe(meta.GetOr([])) > 0 ==> r == Join(StripeLines(meta), '\n')
  {
    var lines := StripeLines(meta);
    if lines == [] then NoStripeText
    else
      JoinStartsWithFirst(lines, '\n');
      var joined := Join(lines, '\n');
      assert ':' in lines[0];
      var k :| 0 <= k < |lines[0]| && lines[0][k] == ':';
      assert joined[k] == ':';
      assert ':' !in NoStripeText;
      joined
  }

  /** `meta.key === '_alg_wc_custom_order_number' && meta.value?.toString() === number` */
  predicate IsCustomNumberEntry(e: MetaEntry, number: string) {
    e.key == Str(CustomNumberKey) && !e.value.Undefined? && !e.value.Null? && ToStr(e.value) == number
  }

  predicate CarriesNumber(o: Order, number: string) {
    o.meta.Some? && exists i | 0 <= i < |o.meta.value| :: IsCustomNumberEntry(o.meta.value[i], number)
  }

  /** The predicate the page scan applies to each order. */
  function Carrier(number: string): Order -> bool {
    (order: Order) => CarriesNumber(order, number)
  }

  datatype Search = Found(order: Order) | NotFound | Errored

  /** Page `p` was read and none of its orders carries `number`. */
  predicate NoMatchOn(o: Oracle, number: string, p: nat) {
    o.ordersPage(p).Got? && forall k | 0 <= k < |o.ordersPage(p).data| :: !CarriesNumber(o.ordersPage(p).data[k], number)
  }

  /** The reference search from `page` on: the GETs it makes in order and
      what it concludes. Pages are read in order; every page before the last
      one read held no match; the last one read decides: a failed read is an
      error, and a page with a match gives its first matching order. */
  function SearchFrom(o: Oracle, number: string, page: nat): (r: (Search, seq<Resource>))
    requires page >= 1
    ensures forall i | 0 <= i < |r.1| :: r.1[i] == OrdersPage(page + i)
    ensures page > SearchPages ==> r == (NotFound, [])
    ensures page <= SearchPages ==> 1 <= |r.1| <= SearchPages + 1 - page
    ensures forall p | page <= p < page + |r.1| - 1 :: NoMatchOn(o, number, p)
    ensures r.0.Found? ==> CarriesNumber(r.0.order, number)
    ensures r.0.NotFound? ==> forall p | page <= p <= SearchPages :: NoMatchOn(o, number, p)
    decreases SearchPages + 1 - page
  {
    if page > SearchPages then (NotFound, [])
    else match o.ordersPage(page)
      case Failed => (Errored, [OrdersPage(page)])
      case Got(orders) =>
        match Find(orders, Carrier(number))
        case Some(order) => (Found(order), [OrdersPage(page)])
        case None =>
          var rest := SearchFrom(o, number, page + 1);
          (rest.0, [OrdersPage(page)] + rest.1)
  }

  /** The last page read decides the search: it is an error iff that read
      failed, and found iff that page holds a match, the order found being
      its FIRST matching order; "not found" ends on page 3. */
  lemma {:induction false} SearchDecidedByLastPage(o: Oracle, number: string, page: nat)
    requires 1 <= page <= SearchPages
    ensures var r := SearchFrom(o, number, page);
      var last := page + |r.1| - 1;
      && (r.0.Errored? <==> o.ordersPage(last).Failed?)
      && (r.0.Found? <==> o.ordersPage(last).Got? && Find(o.ordersPage(last).data, Carrier(number)).Some?)
      && (r.0.Found? ==> Find(o.ordersPage(last).data, Carrier(number)) == Some(r.0.order))
      && (r.0.NotFound? ==> last == SearchPages && NoMatchOn(o, number, last))
    decreases SearchPages + 1 - page
  {
    var r := SearchFrom(o, number, page);
    match o.ordersPage(page)
    case Failed =>
      assert r == (Errored, [OrdersPage(page)]);
    case Got(orders) =>
      match Find(orders, Carrier(number))
      case Some(order) =>
        assert r == (Found(order), [OrdersPage(page)]);
      case None =>
        var rest := SearchFrom(o, number, page + 1);
        assert r == (rest.0, [OrdersPage(page)] + rest.1);
        if page < SearchPages {
          SearchDecidedByLastPage(o, number, page + 1);
        } else {
          assert rest == (NotFound, []);
        }
  }

  /** The first page holding a match is the last page read, and its first
      matching order is the one found: `/findorder` never reports a later
      match on that page or on a later page. */
  lemma {:induction false} SearchFindsFirstMatch(o: Oracle, number: string, page: nat, p: nat, k: nat)
    requires 1 <= page <= p <= SearchPages
    requires forall q | page <= q < p :: NoMatchOn(o, number, q)
    requires o.ordersPage(p).Got? && k < |o.ordersPage(p).data|
    requires CarriesNumber(o.ordersPage(p).data[k], number)
    requires forall j | 0 <= j < k :: !CarriesNumber(o.ordersPage(p).data[j], number)
    ensures SearchFrom(o, number, page).0 == Found(o.ordersPage(p).data[k])
    ensures |SearchFrom(o, number, page).1| == p - page + 1
    decreases p - page
  {
    if page == p {
      FindIsFirst(o.ordersPage(p).data, Carrier(number), k);
      assert SearchFrom(o, number, page) == (Found(o.ordersPage(p).data[k]), [OrdersPage(page)]);
    } else {
      assert NoMatchOn(o, number, page);
      var orders := o.ordersPage(page).data;
      assert Find(orders, Carrier(number)).None?;
      SearchFindsFirstMatch(o, number, page + 1, p, k);
      var rest := SearchFrom(o, number, page + 1);
      assert SearchFrom(o, number, page) == (rest.0, [OrdersPage(page)] + rest.1);
    }
  }

  /** The search loop of `/findorder`: pages 1 to 3, orders in page order,
      stopping at the first match or the first failed page. */
  method SearchOrders(o: Oracle, number: string) returns (result: Search, gets: seq<Resource>)
    ensures (result, gets) == SearchFrom(o, number, 1)
  {
    gets := [];
    var page := 1;
    assert gets + SearchFrom(o, number, page).1 == SearchFrom(o, number, 1).1;
    while page <= SearchPages
      invariant 1 <= page <= SearchPages + 1
      invariant SearchFrom(o, number, 1) == (SearchFrom(o, number, page).0, gets + SearchFrom(o, number, page).1)
      decreases SearchPages + 1 - page
    {
      ghost var before := gets;
      gets := gets + [OrdersPage(page)];
      var fetched := o.ordersPage(page);
      if fetched.Failed? {
        return Errored, gets;
      }
      var orders := fetched.data;
      var i := 0;
      while i < |orders|
        invariant 0 <= i <= |orders|
        invariant FirstIndex(orders, Carrier(number), 0) == FirstIndex(orders, Carrier(number), i)
      {
        if CarriesNumber(orders[i], number) {
          return Found(orders[i]), gets;
        }
        i := i + 1;
      }
      var rest := SearchFrom(o, number, page + 1);
      assert SearchFrom(o, number, page) == (rest.0, [OrdersPage(page)] + rest.1);
      assert before + ([OrdersPage(page)] + rest.1) == gets + rest.1;
      page := page + 1;
    }
    assert SearchFrom(o, number, page) == (NotFound, []);
    assert gets + [] == gets;
    return NotFound, gets;
  }

  /** `!orderId || Number.isNaN(Number(orderId))` fails. */
  predicate ValidOrderId(id: string) {
    id != "" && IsNumeric(id)
  }

  /** A command's argument: `(text || '').trim()`. */
  function Argument(text: Option<string>): string {
    Trim(text.GetOr(""))
  }

  /** `/findorder`: an order found by custom order number. */
  function FindOrder(text: Option<string>, store: Store, o: Oracle): (r: CommandOutcome)
    ensures r.reply == Acked && r.store == store && r.buttons == [] && |r.notices| == 1
    ensures Argument(text) == "" <==> r.notices == [ProvideOrderNumber]
    ensures Argument(text) == "" ==> r.gets == []
    ensures Argument(text) != "" ==> 1 <= |r.gets| <= SearchPages
    ensures forall i | 0 <= i < |r.gets| :: r.gets[i] == OrdersPage(i + 1)
    ensures r.notices == [NoOrderWithCustomNumber(Argument(text))] ==>
      forall p | 1 <= p <= SearchPages :: NoMatchOn(o, Argument(text), p)
    ensures r.notices[0].OrderFound? ==>
      var last := |r.gets|;
      && (forall p | 1 <= p < last :: NoMatchOn(o, Argument(text), p))
      && o.ordersPage(last).Got?
      && var first := Find(o.ordersPage(last).data, Carrier(Argument(text)));
      && first.Some? && first.value.hasBilling && r.notices[0].foundId == first.value.id
  {
    var number := Argument(text);
    if number == "" then Stopped(Acked, [ProvideOrderNumber], store)
    else
      SearchDecidedByLastPage(o, number, 1);
      var search := SearchFrom(o, number, 1);
      CommandOutcome(Acked, search.1, [SearchNotice(search.0, number)], [], store)
  }

  /** What `/findorder` posts once the search has concluded. */
  function SearchNotice(found: Search, number: string): (n: Notice)
    ensures n == NoOrderWithCustomNumber(number) <==> found.NotFound?
    ensures n.OrderFound? <==> found.Found? && found.order.hasBilling
  {
    match found
    case Errored => FailedToRetrieveOrder
    case NotFound => NoOrderWithCustomNumber(number)
    case Found(order) => if order.hasBilling then OrderFound(order.id) else FailedToRetrieveOrder
  }

  /** `/findidorder`: an order looked up by its WooCommerce id; a failed
      GET and an order without billing data both read as "not found". */
  function FindIdOrder(text: Option<string>, store: Store, o: Oracle): (r: CommandOutcome)
    ensures r.reply == Acked && r.store == store && r.buttons == [] && |r.notices| == 1
    ensures !ValidOrderId(Argument(text)) <==> r.gets == []
    ensures !ValidOrderId(Argument(text)) ==> r.notices == [InvalidOrderId]
    ensures ValidOrderId(Argument(text)) ==> r.gets == [OrderById(Argument(text))]
    ensures r.notices[0].OrderFoundById? <==>
      ValidOrderId(Argument(text)) && o.order(Argument(text)).Got? && o.order(Argument(text)).data.hasBilling
  {
    var id := Argument(text);
    if !ValidOrderId(id) then Stopped(Acked, [InvalidOrderId], store)
    else
      var notice := match o.order(id)
        case Failed => NoOrderWithId(id)
        case Got(order) => if order.hasBilling then OrderFoundById(id, order.id) else NoOrderWithId(id);
      CommandOutcome(Acked, [OrderById(id)], [notice], [], store)
  }

  /** `/editorder`: an invalid id is refused in the response; a valid one is
      acknowledged and answered with the edit link. No API call is made. */
  function EditOrder(text: Option<string>, store: Store): (r: CommandOutcome)
    ensures r.gets == [] && r.buttons == [] && r.store == store
    ensures r.reply == Refused(InvalidOrderId) <==> !ValidOrderId(Argument(text))
    ensures ValidOrderId(Argument(text)) ==> r.reply == Acked && r.notices == [EditOrderLink(Argument(text))]
    ensures !ValidOrderId(Argument(text)) ==> r.notices == []
  {
    var id := Argument(text);
    if !ValidOrderId(id) then Stopped(Refused(InvalidOrderId), [], store)
    else Stopped(Acked, [EditOrderLink(id)], store)
  }

  /** `(m) => m.key === key` */
  function Keyed(key: string): MetaEntry -> bool {
    (e: MetaEntry) => e.key == Str(key)
  }

  /** The custom order number `/findcustomid` reports: the FIRST meta entry
      with the custom-number key decides; a `null` or `undefined` value
      there gives none, any other value its `String(...)` form. */
  function CustomNumberOf(order: Order): (r: Option<string>)
    ensures order.meta.None? ==> r.None?
    ensures order.meta.Some? ==> forall k | 0 <= k < |order.meta.value| && order.meta.value[k].key == Str(CustomNumberKey) &&
      (forall j | 0 <= j < k :: order.meta.value[j].key != Str(CustomNumberKey)) ::
        r == (if order.meta.value[k].value.Undefined? || order.meta.value[k].value.Null? then None
              else Some(ToStr(order.meta.value[k].value)))
    ensures order.meta.Some? && (forall k | 0 <= k < |order.meta.value| :: order.meta.value[k].key != Str(CustomNumberKey)) ==> r.None?
    ensures r.Some? ==> order.meta.Some? && exists k | 0 <= k < |order.meta.value| ::
      IsCustomNumberEntry(order.meta.value[k], r.value)
  {
    match order.meta
    case None => None
    case Some(es) =>
      match Find(es, Keyed(CustomNumberKey))
      case None => None
      case Some(e) =>
        if e.value.Undefined? || e.value.Null? then None
        else Some(ToStr(e.value))
  }

  /** `/findcustomid`: the custom number of an order given its id. */
  function FindCustomId(text: Option<string>, store: Store, o: Oracle): (r: CommandOutcome)
    ensures r.reply == Acked && r.store == store && r.buttons == [] && |r.notices| == 1
    ensures !ValidOrderId(Argument(text)) <==> r.gets == []
    ensures !ValidOrderId(Argument(text)) ==> r.notices == [InvalidWooOrderId]
    ensures ValidOrderId(Argument(text)) ==> r.gets == [OrderById(Argument(text))]
    ensures forall n :: r.notices == [CustomNumberFound(Argument(text), n)] <==>
      ValidOrderId(Argument(text)) && o.order(Argument(text)).Got? &&
      CustomNumberOf(o.order(Argument(text)).data) == Some(n)
  {
    var id := Argument(text);
    if !ValidOrderId(id) then Stopped(Acked, [InvalidWooOrderId], store)
    else
      var notice := match o.order(id)
        case Failed => CouldNotFindOrder(id)
        case Got(order) =>
          match CustomNumberOf(order)
          case None => NoCustomNumber(id)
          case Some(n) => CustomNumberFound(id, n);
      CommandOutcome(Acked, [OrderById(id)], [notice], [], store)
  }

  /** `/editorderstatus`: the order's details and its five status buttons. */
  function EditOrderStatus(text: Option<string>, userId: string, store: Store, o: Oracle): (r: CommandOutcome)
    ensures r.reply == Acked && r.store == store && |r.notices| == 1
    ensures !ValidOrderId(Argument(text)) <==> r.gets == []
    ensures !ValidOrderId(Argument(text)) ==> r.notices == [InvalidOrderId]
    ensures ValidOrderId(Argument(text)) ==> r.gets == [OrderById(Argument(text))]
    ensures r.buttons != [] <==> ValidOrderId(Argument(text)) && o.order(Argument(text)).Got?
    ensures r.buttons != [] ==>
      (var order := o.order(Argument(text)).data;
       var current := NormalizeStatus(TextOf(order.status));
       && |r.buttons| == MaxStatusButtons
       && r.buttons == BuildStatusButtons(userId, order.id, current)
       && r.notices[0] == OrderDetails(order.id, StatusLabel(current), StripeMeta(order.meta))
       && (r.notices[0].stripe == NoStripeText <==> CountStripe(order.meta.GetOr([])) == 0))
  {
    var id := Argument(text);
    if !ValidOrderId(id) then Stopped(Acked, [InvalidOrderId], store)
    else match o.order(id)
      case Failed => CommandOutcome(Acked, [OrderById(id)], [CouldNotLoadOrder(id)], [], store)
      case Got(order) =>
        var status := NormalizeStatus(TextOf(order.status));
        var buttons := BuildStatusButtons(userId, order.id, status);
        var details := OrderDetails(order.id, StatusLabel(status), StripeMeta(order.meta));
        CommandOutcome(Acked, [OrderById(id)], [details], buttons, store)
  }

  /** The buttons `/editorderstatus` posts are addressed to the caller and
      to the order that was read: each one's value splits back into the
      caller, the order's id and a status other than the order's own, and
      the details show the label of that own status. */
  lemma EditOrderStatusButtons(text: Option<string>, userId: string, store: Store, o: Oracle, i: nat)
    requires '|' !in userId
    requires ValidOrderId(Argument(text)) && o.order(Argument(text)).Got?
    requires '|' !in ToStr(o.order(Argument(text)).data.id)
    requires i < MaxStatusButtons
    ensures var r := EditOrderStatus(text, userId, store, o);
      var order := o.order(Argument(text)).data;
      var current := NormalizeStatus(TextOf(order.status));
      var s := OfferedStatuses(current)[i];
      && i < |r.buttons|
      && Split(r.buttons[i].value, '|') == [userId, ToStr(order.id), s]
      && s in Candidates && s != current
      && r.notices[0].statusLabel == StatusLabel(current)
  {
    var order := o.order(Argument(text)).data;
    var current := NormalizeStatus(TextOf(order.status));
    StatusButtonsDecode(userId, order.id, current, i);
    NormalizeIdempotent(TextOf(order.status));
  }
}
