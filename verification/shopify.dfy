/** The Shopify order payload mapped to sheet rows, in its two versions:
    `api/lib/shopify.js` (phone numbers tidied for Lebanon and stored as
    text, line items mapped one for one) and the root `shopify.js` (order-id
    fallbacks, current quantities, removed lines dropped). The payload is
    modelled as far as the mapping reads it: `None` is `null` or
    `undefined`, and a scalar is a string or an integer. */
module Shopify {
  import opened Wrappers
  import opened Seqs
  import opened JsText
  import Decimal

  // ------------------------------------------------------------- values

  datatype Scalar = Text(s: string) | Num(n: int)

  /** `String(v)` */
  function ToStr(v: Scalar): string
  {
    match v
    case Text(s) => s
    case Num(n) => Decimal.IntToString(n)
  }

  /** `Boolean(v)`: "" and 0 are falsy. */
  predicate Truthy(v: Scalar)
  {
    match v
    case Text(s) => s != ""
    case Num(n) => n != 0
  }

  /** `Number(v)`; `None` is `NaN`. */
  function ToNum(v: Scalar): Option<int>
  {
    match v
    case Text(s) => Decimal.ToNumber(s)
    case Num(n) => Some(n)
  }

  /** `a ?? b` for an optional `b`. */
  function OrElse<T>(a: Option<T>, b: Option<T>): (r: Option<T>)
    ensures a.Some? ==> r == a
    ensures a.None? ==> r == b
  {
    if a.Some? then a else b
  }

  // -------------------------------------------------------------- phones

  /** The characters `/[^\d+]/g` keeps. */
  predicate PhoneChar(c: char) { IsDigit(c) || c == '+' }

  /** `s.replace(/[^\d+]/g, "")` */
  function Clean(s: string): (r: string)
    ensures forall i :: 0 <= i < |r| ==> PhoneChar(r[i])
  {
    Filter(s, PhoneChar)
  }

  /** `s.replace(/\D/g, "")` */
  function Digits(s: string): (r: string)
    ensures AllDigits(r)
  {
    Filter(s, IsDigit)
  }

  /** The first pass both versions share: trimmed, cleaned, and a leading
      "00" turned into "+". */
  function Tidy(raw: string): (r: string)
    ensures forall i :: 0 <= i < |r| ==> PhoneChar(r[i])
    ensures StartsWith(r, "+") <==> StartsWith(Clean(Trim(raw)), "+") || StartsWith(Clean(Trim(raw)), "00")
  {
    var c := Clean(Trim(raw));
    if StartsWith(c, "00") then "+" + c[2..] else c
  }

  /** `normalizePhone` of the root `shopify.js`. */
  function Phone(raw: string): (r: string)
    ensures Trim(raw) == "" ==> r == ""
    ensures forall i :: 0 <= i < |r| ==> PhoneChar(r[i])
    ensures '+' in r ==> r[0] == '+'
    ensures StartsWith(r, "+") <==> Trim(raw) != "" && StartsWith(Tidy(raw), "+")
    ensures !StartsWith(r, "+") ==> r == Digits(Tidy(raw))
  {
    if Trim(raw) == "" then ""
    else
      var t := Tidy(raw);
      if StartsWith(t, "+") then t else Digits(t)
  }

  predicate IsLebanon(country: string)
  {
    Lower(country) == "lebanon" || Lower(country) == "lb"
  }

  /** `normalizePhone(raw, country)` of `api/lib/shopify.js`. */
  function PhoneLb(raw: string, country: string): (r: string)
    ensures Trim(raw) == "" ==> r == ""
    ensures r == "" || AllDigits(r) || (|r| >= 2 && r[0] == '\'' && r[1] == '+' && forall i :: 1 <= i < |r| ==> PhoneChar(r[i]))
    ensures IsLebanon(country) ==> r == "" || StartsWith(r, "'+")
  {
    if Trim(raw) == "" then ""
    else
      var t := Tidy(raw);
      var u :=
        if !StartsWith(t, "+") && IsLebanon(country) then
          LbDigits(t)
        else t;
      var v := if !StartsWith(u, "+") then Digits(u) else u;
      if StartsWith(v, "+") then "'" + v else v
  }

  /** The Lebanese rewrite of a tidied number without "+". */
  function LbDigits(t: string): (u: string)
    requires forall i :: 0 <= i < |t| ==> PhoneChar(t[i])
    ensures forall i :: 0 <= i < |u| ==> PhoneChar(u[i])
    ensures Digits(t) != "" ==> StartsWith(u, "+")
    ensures Digits(t) == "" ==> u == t
  {
    var d := Digits(t);
    if StartsWith(d, "0") then "+961" + d[1..]
    else if d != "" then "+961" + d
    else t
  }

  /** The two versions agree up to the text marker, except that a Lebanese
      number without a country code gets "+961" in place of its leading
      0. */
  lemma PhoneLbOfPhone(raw: string, country: string)
    ensures var p := Phone(raw);
      PhoneLb(raw, country) ==
        if StartsWith(p, "+") then "'" + p
        else if IsLebanon(country) && p != "" then "'+961" + (if p[0] == '0' then p[1..] else p)
        else p
  {
    if Trim(raw) != "" {
      var t := Tidy(raw);
      var p := Phone(raw);
      if StartsWith(t, "+") {
        assert p == t;
      } else {
        assert p == Digits(t);
        FilterIdempotent(t, IsDigit);
        assert Digits(p) == p;
        if IsLebanon(country) {
          PhoneLbLebanon(raw, country);
        } else {
          assert PhoneLb(raw, country) == p;
        }
      }
    }
  }

  lemma PhoneLbLebanon(raw: string, country: string)
    requires Trim(raw) != "" && !StartsWith(Tidy(raw), "+") && IsLebanon(country)
    ensures var p := Digits(Tidy(raw));
      PhoneLb(raw, country) == if p != "" then "'+961" + (if p[0] == '0' then p[1..] else p) else p
  {
    LbOfTidy(Tidy(raw));
  }

  /** The Lebanese branch on a tidied number without "+". */
  lemma LbOfTidy(t: string)
    requires forall i :: 0 <= i < |t| ==> PhoneChar(t[i])
    requires !StartsWith(t, "+")
    ensures var u := LbDigits(t);
      var v := if !StartsWith(u, "+") then Digits(u) else u;
      var p := Digits(t);
      (if StartsWith(v, "+") then "'" + v else v) == if p != "" then "'+961" + (if p[0] == '0' then p[1..] else p) else p
  {
    var p := Digits(t);
    var u := LbDigits(t);
    if p == "" {
      assert u == t;
    } else {
      var x := if p[0] == '0' then p[1..] else p;
      assert u == "+961" + x;
      assert "'" + u == "'+961" + x;
    }
  }

  /** A text of phone characters that starts and ends without a space is
      its own cleaned trim. */
  lemma CleanTrimNoop(s: string)
    requires forall i :: 0 <= i < |s| ==> PhoneChar(s[i])
    ensures Trim(s) == s && Clean(Trim(s)) == s
  {
    if |s| > 0 {
      assert PhoneChar(s[0]) && PhoneChar(s[|s| - 1]);
      assert !IsSpace(s[0]) && !IsSpace(s[|s| - 1]);
    }
    assert IsTrimmed(s);
    TrimSpec(s);
    assert Trim(s) == s;
    FilterAll(s, PhoneChar);
    assert Filter(s, PhoneChar) == s;
  }

  /** Filtering a character in front of a text. */
  lemma FilterCons(c: char, t: string, p: char -> bool)
    ensures Filter([c] + t, p) == (if p(c) then [c] else []) + Filter(t, p)
  {
    assert ([c] + t)[1..] == t;
  }

  /** A "+" inside the cleaned text is dropped with the other non-digits. */
  lemma PhoneInnerPlus(d: string)
    requires AllDigits(d)
    ensures Phone("0+0" + d) == "00" + d
  {
    var a := "0+0" + d;
    assert forall i :: 0 <= i < |a| ==> PhoneChar(a[i]) by {
      forall i | 0 <= i < |a| ensures PhoneChar(a[i]) {
        if i >= 3 { assert a[i] == d[i - 3]; }
      }
    }
    CleanTrimNoop(a);
    assert !StartsWith(a, "00") by { assert a[1] == '+'; }
    assert Tidy(a) == a;
    DigitsInnerPlus(d);
  }

  lemma DigitsInnerPlus(d: string)
    requires AllDigits(d)
    ensures Digits("0+0" + d) == "00" + d
  {
    var a := "0+0" + d;
    var a1 := a[1..];
    var a2 := a1[1..];
    var a3 := a2[1..];
    assert a3 == d;
    FilterAll(d, IsDigit);
    assert Filter(a2, IsDigit) == ['0'] + d;
    assert Filter(a1, IsDigit) == ['0'] + d;
    assert Filter(a, IsDigit) == ['0'] + (['0'] + d);
  }

  /** A leading "00" is read as an international prefix. */
  lemma PhoneDoubleZero(d: string)
    requires AllDigits(d)
    ensures Phone("00" + d) == "+" + d
  {
    var b := "00" + d;
    assert forall i :: 0 <= i < |b| ==> PhoneChar(b[i]) by {
      forall i | 0 <= i < |b| ensures PhoneChar(b[i]) {
        if i >= 2 { assert b[i] == d[i - 2]; }
      }
    }
    CleanTrimNoop(b);
    assert b[2..] == d;
  }

  /** The root version is not idempotent: a "+" inside the cleaned text
      can leave a digits-only output that starts with "00", which a second
      pass reads as an international prefix. */
  lemma PhoneNotIdempotent(d: string)
    requires AllDigits(d)
    ensures Phone(Phone("0+0" + d)) == "+" + d != Phone("0+0" + d)
  {
    PhoneInnerPlus(d);
    PhoneDoubleZero(d);
    assert ("00" + d)[0] != ("+" + d)[0];
  }

  /** An output that does not start with "00" is its own normal form. */
  lemma PhoneStable(raw: string)
    requires !StartsWith(Phone(raw), "00")
    ensures Phone(Phone(raw)) == Phone(raw)
  {
    var r := Phone(raw);
    if r != "" {
      CleanTrimNoop(r);
      assert Tidy(r) == r;
      if !StartsWith(r, "+") {
        FilterAll(r, IsDigit);
      }
    }
  }

  // ------------------------------------------------------------- payload

  datatype Prop = Prop(name: Option<string>, value: Option<string>)

  datatype LineItem = LineItem(
    id: Option<Scalar>, title: Option<string>, variantTitle: Option<string>,
    quantity: Option<Scalar>, currentQuantity: Option<Scalar>, fulfillableQuantity: Option<Scalar>,
    sku: Option<string>, imageSrc: Option<string>, properties: Option<seq<Prop>>,
    productId: Option<Scalar>, variantId: Option<Scalar>)

  /** `shipping_address`; an absent address has every field `None`. */
  datatype Address = Address(
    firstName: Option<string>, lastName: Option<string>, address1: Option<string>,
    city: Option<string>, country: Option<string>, phone: Option<string>)

  /** `discountCodes` is `None` when `discount_codes` is not an array, and
      each entry is `d?.code`; `lineItems` is `None` when `line_items` is
      missing or not an array. */
  datatype Payload = Payload(
    id: Option<Scalar>, orderId: Option<Scalar>, adminGraphqlApiId: Option<string>,
    name: Option<string>, createdAt: Option<string>, updatedAt: Option<string>,
    tags: Option<string>, discountCodes: Option<seq<Option<string>>>,
    address: Address, lineItems: Option<seq<LineItem>>)

  datatype OrderRow = OrderRow(
    shopDomain: string, orderId: string, orderName: string, createdAt: string,
    updatedAt: string, tags: string, shipName: string, shipAddress1: string,
    shipCity: string, shipCountry: string, shipPhone: string, discountCodes: string,
    deliverBy: Option<string>, noteLocal: Option<string>)

  /** A line-item row; a quantity `None` is `NaN`. */
  datatype ItemRow = ItemRow(
    shopDomain: string, orderId: string, lineId: string, title: string,
    variantTitle: string, quantity: Option<int>, fulfillable: Option<int>,
    sku: string, image: string, productId: string, variantId: string)

  datatype Normalized = Normalized(order: OrderRow, items: seq<ItemRow>)

  /** `.filter(Boolean)` over optional texts. */
  function Present(xs: seq<Option<string>>): (r: seq<string>)
    ensures forall i :: 0 <= i < |r| ==> r[i] != ""
    ensures forall s :: s in r <==> s != "" && Some(s) in xs
  {
    if |xs| == 0 then []
    else if xs[0].Some? && xs[0].value != "" then [xs[0].value] + Present(xs[1..])
    else Present(xs[1..])
  }

  /** `[first_name, last_name].filter(Boolean).join(" ")` */
  function ShipName(a: Address): (r: string)
    ensures var f := a.firstName.GetOr(""); var l := a.lastName.GetOr("");
      r == if f != "" && l != "" then f + " " + l else if f != "" then f else l
  {
    var xs := [a.firstName, a.lastName];
    assert xs[1..] == [a.lastName] && xs[1..][1..] == [];
    var f := if a.firstName.GetOr("") != "" then [a.firstName.value] else [];
    var l := if a.lastName.GetOr("") != "" then [a.lastName.value] else [];
    assert Present(xs[1..][1..]) == [];
    assert Present(xs[1..]) == l;
    assert Present(xs) == f + l;
    assert |f + l| == 2 ==> (f + l)[1..] == l;
    assert Join(f + l, " ") == if |f| == 1 && |l| == 1 then f[0] + " " + l[0] else if |f| == 1 then f[0] else if |l| == 1 then l[0] else "";
    Join(Present(xs), " ")
  }

  /** `discount_codes.map(d => d?.code).filter(Boolean).join(",")`, or ""
      when not an array. */
  function DiscountCodes(p: Payload): (r: string)
    ensures p.discountCodes.None? ==> r == ""
  {
    match p.discountCodes
    case None => ""
    case Some(cs) => Join(Present(cs), ",")
  }

  /** Splitting the joined codes on "," gives the present codes back, as
      long as none contains a comma. */
  lemma DiscountCodesSplit(p: Payload)
    requires p.discountCodes.Some?
    requires var cs := Present(p.discountCodes.value); |cs| >= 1 && forall i :: 0 <= i < |cs| ==> ',' !in cs[i]
    ensures Split(DiscountCodes(p), ',') == Present(p.discountCodes.value)
  {
    SplitJoin(Present(p.discountCodes.value), ',');
  }

  // ------------------------------------------------ api/lib/shopify.js

  /** The first `_image` property's value (`?? ""`). */
  function PropImage(ps: Option<seq<Prop>>): (r: string)
  {
    match ps
    case None => ""
    case Some(xs) =>
      match FindFirst(xs, (q: Prop) => q.name == Some("_image"))
      case None => ""
      case Some(i) => xs[i].value.GetOr("")
  }

  /** Property `i` is the first named `_image`. */
  predicate FirstImageProp(xs: seq<Prop>, i: int)
  {
    0 <= i < |xs| && xs[i].name == Some("_image") && forall j :: 0 <= j < i ==> xs[j].name != Some("_image")
  }

  /** `IMAGE`: `image.src`, else the first `_image` property's value, else "". */
  function LibImage(li: LineItem): (r: string)
    ensures li.imageSrc.Some? ==> r == li.imageSrc.value
    ensures li.imageSrc.None? && (li.properties.None? || forall q :: q in li.properties.value ==> q.name != Some("_image")) ==> r == ""
    ensures li.imageSrc.None? && li.properties.Some? ==>
      forall i :: FirstImageProp(li.properties.value, i) ==> r == li.properties.value[i].value.GetOr("")
  {
    if li.imageSrc.Some? then li.imageSrc.value
    else
      if li.properties.Some? then
        var xs := li.properties.value;
        assert forall i :: FirstImageProp(xs, i) ==> FindFirst(xs, (q: Prop) => q.name == Some("_image")) == Some(i) by {
          forall i | FirstImageProp(xs, i)
            ensures FindFirst(xs, (q: Prop) => q.name == Some("_image")) == Some(i)
          {
            FindFirstAt(xs, (q: Prop) => q.name == Some("_image"), i);
          }
        }
        PropImage(li.properties)
      else ""
  }

  /** One line item as `api/lib/shopify.js` maps it. */
  function LibItem(li: LineItem, p: Payload, shopDomain: string): (r: ItemRow)
    ensures r.shopDomain == shopDomain
    ensures r.orderId == ToStr(p.id.GetOr(Text("")))
    ensures r.quantity == ToNum(li.quantity.GetOr(Num(0)))
    ensures r.fulfillable == ToNum(OrElse(li.fulfillableQuantity, li.quantity).GetOr(Num(0)))
    ensures r.image == LibImage(li)
  {
    ItemRow(shopDomain, ToStr(p.id.GetOr(Text(""))), ToStr(li.id.GetOr(Text(""))),
            li.title.GetOr(""), li.variantTitle.GetOr(""),
            ToNum(li.quantity.GetOr(Num(0))),
            ToNum(OrElse(li.fulfillableQuantity, li.quantity).GetOr(Num(0))),
            li.sku.GetOr(""), LibImage(li),
            ToStr(li.productId.GetOr(Text(""))), ToStr(li.variantId.GetOr(Text(""))))
  }

  /** `normalizeOrderPayload` of `api/lib/shopify.js`. The version writes no
      DELIVER_BY or NOTE_LOCAL key. */
  function LibNormalize(p: Payload, shopDomain: string): (r: Normalized)
    ensures r.order.shopDomain == shopDomain
    ensures r.order.orderId == ToStr(p.id.GetOr(Text("")))
    ensures r.order.shipName == ShipName(p.address)
    ensures r.order.shipPhone == PhoneLb(p.address.phone.GetOr(""), p.address.country.GetOr(""))
    ensures r.order.discountCodes == DiscountCodes(p)
    ensures r.order.deliverBy.None? && r.order.noteLocal.None?
    ensures var lines := p.lineItems.GetOr([]);
      && |r.items| == |lines|
      && forall i :: 0 <= i < |lines| ==> r.items[i] == LibItem(lines[i], p, shopDomain) && r.items[i].orderId == r.order.orderId
  {
    var a := p.address;
    var order := OrderRow(
      shopDomain, ToStr(p.id.GetOr(Text(""))), p.name.GetOr(""), p.createdAt.GetOr(""),
      p.updatedAt.GetOr(""), p.tags.GetOr(""), ShipName(a), a.address1.GetOr(""),
      a.city.GetOr(""), a.country.GetOr(""), PhoneLb(a.phone.GetOr(""), a.country.GetOr("")),
      DiscountCodes(p), None, None);
    Normalized(order, Map(p.lineItems.GetOr([]), (li: LineItem) => LibItem(li, p, shopDomain)))
  }

  // --------------------------------------------------------- shopify.js

  /** `o.id ?? o.order_id ?? admin_graphql_api_id.split("/").pop() ?? ""`,
      then `String(orderId || "")`. */
  function RootOrderId(p: Payload): (r: string)
    ensures p.id.Some? ==> r == (if Truthy(p.id.value) then ToStr(p.id.value) else "")
    ensures p.id.None? && p.orderId.Some? ==> r == (if Truthy(p.orderId.value) then ToStr(p.orderId.value) else "")
    ensures p.id.None? && p.orderId.None? && p.adminGraphqlApiId.Some? ==> r == LastSegment(p.adminGraphqlApiId.value, '/')
    ensures p.id.None? && p.orderId.None? && p.adminGraphqlApiId.None? ==> r == ""
  {
    var gql := if p.adminGraphqlApiId.Some? then Some(Text(LastSegment(p.adminGraphqlApiId.value, '/'))) else None;
    match OrElse(p.id, OrElse(p.orderId, gql))
    case None => ""
    case Some(v) => if Truthy(v) then ToStr(v) else ""
  }

  /** `String(li.id ?? "") || "no_line_id_" + String(variant_id ??
      product_id ?? title ?? "x").slice(0, 40)` */
  function RootLineId(li: LineItem): (r: string)
    ensures ToStr(li.id.GetOr(Text(""))) != "" ==> r == ToStr(li.id.GetOr(Text("")))
    ensures ToStr(li.id.GetOr(Text(""))) == "" ==>
      var src := ToStr(OrElse(li.variantId, OrElse(li.productId, if li.title.Some? then Some(Text(li.title.value)) else None)).GetOr(Text("x")));
      r == "no_line_id_" + src[..if |src| < 40 then |src| else 40]
  {
    var own := ToStr(li.id.GetOr(Text("")));
    if own != "" then own
    else
      var title := if li.title.Some? then Some(Text(li.title.value)) else None;
      "no_line_id_" + Take(ToStr(OrElse(li.variantId, OrElse(li.productId, title)).GetOr(Text("x"))), 40)
  }

  /** One line item as the root `shopify.js` maps it, under its order. */
  function RootItem(li: LineItem, order: OrderRow): (r: ItemRow)
    ensures r.shopDomain == order.shopDomain && r.orderId == order.orderId
    ensures r.quantity == ToNum(OrElse(li.currentQuantity, li.quantity).GetOr(Num(0)))
    ensures r.fulfillable == ToNum(OrElse(li.fulfillableQuantity, OrElse(li.currentQuantity, li.quantity)).GetOr(Num(0)))
    ensures r.lineId == RootLineId(li)
    ensures r.image == li.imageSrc.GetOr("")
  {
    ItemRow(order.shopDomain, order.orderId, RootLineId(li),
            li.title.GetOr(""), li.variantTitle.GetOr(""),
            ToNum(OrElse(li.currentQuantity, li.quantity).GetOr(Num(0))),
            ToNum(OrElse(li.fulfillableQuantity, OrElse(li.currentQuantity, li.quantity)).GetOr(Num(0))),
            li.sku.GetOr(""), li.imageSrc.GetOr(""),
            ToStr(li.productId.GetOr(Text(""))), ToStr(li.variantId.GetOr(Text(""))))
  }

  /** `Number(x.QUANTITY || 0) > 0`: `NaN` and 0 both fail. */
  predicate Kept(x: ItemRow)
  {
    x.quantity.Some? && x.quantity.value > 0
  }

  /** `normalizeOrderPayload` of the root `shopify.js`. */
  function RootNormalize(p: Payload, shopDomain: string): (r: Normalized)
    ensures r.order.shopDomain == Lower(shopDomain)
    ensures r.order.orderId == RootOrderId(p)
    ensures r.order.shipPhone == Phone(p.address.phone.GetOr(""))
    ensures r.order.deliverBy.None? && r.order.noteLocal.None?
    ensures forall i :: 0 <= i < |r.items| ==>
      && r.items[i].shopDomain == r.order.shopDomain && r.items[i].orderId == r.order.orderId
      && r.items[i].quantity.Some? && r.items[i].quantity.value > 0
    ensures |r.items| <= |p.lineItems.GetOr([])|
  {
    var a := p.address;
    var order := OrderRow(
      Lower(shopDomain), RootOrderId(p), p.name.GetOr(""), p.createdAt.GetOr(""),
      p.updatedAt.GetOr(""), p.tags.GetOr(""), ShipName(a), a.address1.GetOr(""),
      a.city.GetOr(""), a.country.GetOr(""), Phone(a.phone.GetOr("")),
      DiscountCodes(p), None, None);
    var mapped := Map(p.lineItems.GetOr([]), (li: LineItem) => RootItem(li, order));
    Normalized(order, Filter(mapped, Kept))
  }

  /** The rows kept are exactly the mapped lines with a positive quantity:
      no line with a positive quantity is lost. */
  lemma RootItemsExactly(p: Payload, shopDomain: string)
    ensures var r := RootNormalize(p, shopDomain);
      var lines := p.lineItems.GetOr([]);
      forall x :: x in r.items <==> exists i :: 0 <= i < |lines| && x == RootItem(lines[i], r.order) && Kept(x)
  {
    var r := RootNormalize(p, shopDomain);
    var lines := p.lineItems.GetOr([]);
    var mapped := Map(lines, (li: LineItem) => RootItem(li, r.order));
    forall x | x in r.items
      ensures exists i :: 0 <= i < |lines| && x == RootItem(lines[i], r.order) && Kept(x)
    {
      var i :| 0 <= i < |mapped| && mapped[i] == x;
    }
    forall x | exists i :: 0 <= i < |lines| && x == RootItem(lines[i], r.order) && Kept(x)
      ensures x in r.items
    {
      var i :| 0 <= i < |lines| && x == RootItem(lines[i], r.order) && Kept(x);
      assert mapped[i] == x;
    }
  }
}
