/**
 * The checkout rules of the storefront's place-order controller: the three
 * field validators, the delivery-information validator that chains them,
 * the shipping-fee calculator and the cart-to-order copy.
 */
module PlaceOrderController {
  import opened JavaText
  import opened OrderEntities

  // =====================================================================
  // createOrder
  // =====================================================================

  /**
   * Builds a new order holding, in cart order, a fresh order line for each
   * cart line, with the same product, quantity and unit price. The cart's
   * lines are only read.
   */
  method CreateOrder(cart: seq<CartMedia>) returns (order: Order)
    ensures fresh(order)
    ensures |order.lstOrderMedia| == |cart|
    ensures forall i :: 0 <= i < |cart| ==>
      order.lstOrderMedia[i] == OrderMedia(cart[i].media, cart[i].quantity, cart[i].price)
  {
    order := new Order();
    for i := 0 to |cart|
      invariant |order.lstOrderMedia| == i
      invariant forall k :: 0 <= k < i ==>
        order.lstOrderMedia[k] == OrderMedia(cart[k].media, cart[k].quantity, cart[k].price)
    {
      var cartMedia := cart[i];
      var orderMedia := OrderMedia(cartMedia.media, cartMedia.quantity, cartMedia.price);
      order.AddOrderMedia(orderMedia);
    }
  }

  // =====================================================================
  // calculateShippingFee
  // =====================================================================

  const BASE_FEE := 22000
  const PER_ITEM_FEE := 2500
  const FREE_SHIPPING_THRESHOLD := 100000
  const MAX_DISCOUNT := 25000

  /** The number of items in an order: the sum of its lines' quantities. */
  function TotalQuantity(items: seq<OrderMedia>): int {
    if items == [] then 0 else items[0].quantity + TotalQuantity(items[1..])
  }

  /** Splitting an order's lines splits its item count. */
  lemma {:induction false} TotalQuantityAppend(items: seq<OrderMedia>, more: seq<OrderMedia>)
    ensures TotalQuantity(items + more) == TotalQuantity(items) + TotalQuantity(more)
  {
    if items == [] {
      assert items + more == more;
    } else {
      assert (items + more)[1..] == items[1..] + more;
      TotalQuantityAppend(items[1..], more);
    }
  }

  /** Lines with non-negative quantities give a non-negative item count. */
  lemma {:induction false} TotalQuantityNonNegative(items: seq<OrderMedia>)
    requires forall i :: 0 <= i < |items| ==> items[i].quantity >= 0
    ensures TotalQuantity(items) >= 0
  {
    if items != [] {
      assert items[0].quantity >= 0;
      TotalQuantityNonNegative(items[1..]);
    }
  }

  /** The fee before any discount: the base fee plus a fee per item. */
  function UndiscountedFee(totalItems: int): int {
    BASE_FEE + totalItems * PER_ITEM_FEE
  }

  function Max(a: int, b: int): (m: int)
    ensures m >= a && m >= b && (m == a || m == b)
  {
    if a >= b then a else b
  }

  /**
   * The shipping fee for `totalItems` items on an order worth `amount`: the
   * undiscounted fee, reduced by at most MAX_DISCOUNT and never below zero
   * when the amount reaches the free-shipping threshold.
   */
  function ShippingFee(totalItems: int, amount: int): (fee: int)
    ensures amount < FREE_SHIPPING_THRESHOLD ==> fee == UndiscountedFee(totalItems)
    ensures amount >= FREE_SHIPPING_THRESHOLD ==> fee >= 0
    ensures 0 <= UndiscountedFee(totalItems) - fee <= MAX_DISCOUNT || UndiscountedFee(totalItems) < 0
    ensures totalItems >= 0 ==> 0 <= fee <= UndiscountedFee(totalItems)
  {
    var fee := UndiscountedFee(totalItems);
    if amount >= FREE_SHIPPING_THRESHOLD then Max(0, fee - MAX_DISCOUNT) else fee
  }

  /** `calculateShippingFee(order)`, with the order's amount passed in. */
  method CalculateShippingFee(order: Order, amount: int) returns (shippingFee: int)
    ensures shippingFee == ShippingFee(TotalQuantity(order.lstOrderMedia), amount)
  {
    var totalItems := 0;
    for i := 0 to |order.lstOrderMedia|
      invariant totalItems == TotalQuantity(order.lstOrderMedia[..i])
    {
      var media := order.lstOrderMedia[i];
      TotalQuantityAppend(order.lstOrderMedia[..i], [media]);
      assert order.lstOrderMedia[..i + 1] == order.lstOrderMedia[..i] + [media];
      totalItems := totalItems + media.quantity;
    }
    assert order.lstOrderMedia[..|order.lstOrderMedia|] == order.lstOrderMedia;

    shippingFee := BASE_FEE + (totalItems * PER_ITEM_FEE);
    if amount >= FREE_SHIPPING_THRESHOLD {
      shippingFee := Max(0, shippingFee - MAX_DISCOUNT);
    }
  }

  /** More items never make shipping cheaper, whatever the order amount. */
  lemma ShippingFeeMonotone(fewer: int, more: int, amount: int)
    requires fewer <= more
    ensures ShippingFee(fewer, amount) <= ShippingFee(more, amount)
  {
  }

  /** Adding a line to an order never lowers its shipping fee. */
  lemma AddingLineNeverLowersFee(items: seq<OrderMedia>, item: OrderMedia, amount: int)
    requires item.quantity >= 0
    ensures ShippingFee(TotalQuantity(items + [item]), amount) >= ShippingFee(TotalQuantity(items), amount)
  {
    TotalQuantityAppend(items, [item]);
    assert TotalQuantity([item]) == item.quantity by {
      assert [item][1..] == [];
    }
    ShippingFeeMonotone(TotalQuantity(items), TotalQuantity(items + [item]), amount);
  }

  /**
   * At or above the threshold (inclusive) shipping is free for at most one
   * item, and from two items on exactly MAX_DISCOUNT is taken off.
   */
  lemma FreeShippingDiscount(totalItems: int, amount: int)
    requires amount >= FREE_SHIPPING_THRESHOLD
    ensures ShippingFee(totalItems, amount) == 0 <==> totalItems <= 1
    ensures totalItems >= 2 ==> ShippingFee(totalItems, amount) == UndiscountedFee(totalItems) - MAX_DISCOUNT
  {
  }

  /** For a non-negative item count, reaching the threshold never raises the fee. */
  lemma ThresholdNeverRaisesFee(totalItems: int, below: int, atOrAbove: int)
    requires totalItems >= 0
    requires below < FREE_SHIPPING_THRESHOLD <= atOrAbove
    ensures ShippingFee(totalItems, atOrAbove) <= ShippingFee(totalItems, below)
  {
  }

  /** The fee of an order whose lines all have non-negative quantities is never negative. */
  lemma OrderShippingFeeNonNegative(items: seq<OrderMedia>, amount: int)
    requires forall i :: 0 <= i < |items| ==> items[i].quantity >= 0
    ensures ShippingFee(TotalQuantity(items), amount) >= 0
  {
    TotalQuantityNonNegative(items);
  }

  /**
   * The orders of the controller's shipping-fee unit tests. Each order's
   * amount is taken to be the sum of its lines' price times quantity.
   */
  lemma ShippingFeeScenarios(m1: Media, m2: Media)
    ensures ShippingFee(TotalQuantity([]), 0) == 22000
    ensures ShippingFee(TotalQuantity([OrderMedia(m1, 1, 50000)]), 50000) == 24500
    ensures ShippingFee(TotalQuantity([OrderMedia(m1, 1, 30000), OrderMedia(m2, 2, 20000)]), 70000) == 29500
    ensures ShippingFee(TotalQuantity([OrderMedia(m1, 1, 99999)]), 99999) == 24500
    ensures ShippingFee(TotalQuantity([OrderMedia(m1, 1, 150000)]), 150000) == 0
    ensures ShippingFee(TotalQuantity([OrderMedia(m1, 1, 100000)]), 100000) == 0
  {
    var two := [OrderMedia(m1, 1, 30000), OrderMedia(m2, 2, 20000)];
    assert two[1..][1..] == [];
  }

  /** Three items on an order of 150,000 VND: 29,500 before the discount, 4,500 after it. */
  lemma ThreeItemsAboveThreshold(m1: Media, m2: Media)
    ensures ShippingFee(TotalQuantity([OrderMedia(m1, 1, 50000), OrderMedia(m2, 2, 50000)]), 150000) == 4500
  {
    var three := [OrderMedia(m1, 1, 50000), OrderMedia(m2, 2, 50000)];
    assert three[1..][1..] == [];
    assert TotalQuantity(three[1..]) == 2;
  }

  // =====================================================================
  // validatePhoneNumber
  // =====================================================================

  const PHONE_LENGTH := 10
  /** The prefix list `validatePhoneNumber` searches with `contains`. */
  const VALID_PREFIXES := "03|05|07|08|09"
  /** The mobile prefixes the list stands for. */
  const PHONE_PREFIXES: set<string> := {"03", "05", "07", "08", "09"}

  /** `validatePhoneNumber`: its checks in the order it makes them, the first failing one deciding. */
  predicate ValidatePhoneNumber(phoneNumber: Nullable<string>) {
    if phoneNumber.Null? || phoneNumber.value == [] then false
    else if Utf16Length(phoneNumber.value) != PHONE_LENGTH then false
    else if !MatchesClassPlus(phoneNumber.value, IsAsciiDigit) then false
    else Contains(VALID_PREFIXES, phoneNumber.value[..2])
  }

  /** A Vietnamese mobile number: ten ASCII digits starting with one of the mobile prefixes. */
  predicate IsPhoneNumber(s: string) {
    && |s| == PHONE_LENGTH
    && (forall i :: 0 <= i < |s| ==> IsAsciiDigit(s[i]))
    && s[..2] in PHONE_PREFIXES
  }

  /** Two digits found in the prefix list are one of the listed prefixes: the separators keep other pairs out. */
  lemma DigitPairInPrefixList(p: string, i: int)
    requires |p| == 2 && IsAsciiDigit(p[0]) && IsAsciiDigit(p[1])
    requires OccursAt(VALID_PREFIXES, p, i)
    ensures p in PHONE_PREFIXES
  {
    var v := VALID_PREFIXES;
    if i == 0 { assert v[0..2] == "03"; }
    else if i == 3 { assert v[3..5] == "05"; }
    else if i == 6 { assert v[6..8] == "07"; }
    else if i == 9 { assert v[9..11] == "08"; }
    else if i == 12 { assert v[12..14] == "09"; }
  }

  /** For two digits, searching the prefix list is the same as membership in the prefix set. */
  lemma PrefixSearchIsMembership(p: string)
    requires |p| == 2 && IsAsciiDigit(p[0]) && IsAsciiDigit(p[1])
    ensures Contains(VALID_PREFIXES, p) <==> p in PHONE_PREFIXES
  {
    var v := VALID_PREFIXES;
    if Contains(v, p) {
      var i :| OccursAt(v, p, i);
      DigitPairInPrefixList(p, i);
    }
    assert OccursAt(v, "03", 0);
    assert OccursAt(v, "05", 3);
    assert OccursAt(v, "07", 6);
    assert OccursAt(v, "08", 9);
    assert OccursAt(v, "09", 12);
  }

  /** `validatePhoneNumber` accepts exactly the Vietnamese mobile numbers; `null` is rejected. */
  lemma PhoneNumberAccepted(phoneNumber: Nullable<string>)
    ensures ValidatePhoneNumber(phoneNumber) <==> phoneNumber.NonNull? && IsPhoneNumber(phoneNumber.value)
  {
    if phoneNumber.NonNull? {
      var s := phoneNumber.value;
      if forall i :: 0 <= i < |s| ==> IsAsciiDigit(s[i]) {
        Utf16LengthOfBmp(s);
        if |s| == PHONE_LENGTH {
          PrefixSearchIsMembership(s[..2]);
        }
      }
    }
  }

  // =====================================================================
  // validateName and validateAddress
  // =====================================================================

  /** A space at `i` followed by another at `i + 1`. */
  predicate DoubleSpaceAt(s: string, i: int)
    requires 0 <= i < |s| - 1
  {
    s[i] == ' ' && s[i + 1] == ' '
  }

  /** Non-empty, with no space at either end and no two spaces in a row. */
  predicate SinglySpaced(s: string) {
    && |s| > 0
    && s[0] != ' '
    && s[|s| - 1] != ' '
    && forall i :: 0 <= i < |s| - 1 ==> !DoubleSpaceAt(s, i)
  }

  /** The three spacing checks the name and address validators share say exactly that the text is singly spaced. */
  lemma SpacingChecks(s: string)
    requires |s| > 0
    ensures !StartsWith(s, " ") && !EndsWith(s, " ") && !Contains(s, "  ") <==> SinglySpaced(s)
  {
    assert StartsWith(s, " ") <==> s[0] == ' ' by {
      if s[0] == ' ' { assert s[..1] == " "; }
    }
    assert EndsWith(s, " ") <==> s[|s| - 1] == ' ' by {
      if s[|s| - 1] == ' ' { assert s[|s| - 1..] == " "; }
    }
    forall i ensures OccursAt(s, "  ", i) <==> 0 <= i < |s| - 1 && DoubleSpaceAt(s, i) {
      if 0 <= i < |s| - 1 && DoubleSpaceAt(s, i) {
        assert s[i..i + 2] == "  ";
      }
      if OccursAt(s, "  ", i) {
        assert s[i] == s[i..i + 2][0] && s[i + 1] == s[i..i + 2][1];
      }
    }
  }

  /**
   * A validator's `trim().isEmpty()` check is implied by its later ones: a
   * text whose first character is admitted and is not a space is not blank.
   */
  lemma NotBlank(s: string, admitted: char -> bool)
    requires forall c :: admitted(c) && c != ' ' ==> c > ' '
    requires |s| > 0 && s[0] != ' ' && admitted(s[0])
    ensures Trim(s) != []
  {
    TrimEmptyIffBlank(s);
  }

  /** A character the name pattern `[\p{L} ]` admits. */
  predicate IsNameChar(u: UnicodeCategories, c: char) {
    u.isLetter(c) || c == ' '
  }

  const MIN_NAME_LENGTH := 2
  const MAX_NAME_LENGTH := 50

  /** `validateName`: its checks in the order it makes them, the first failing one deciding. */
  predicate ValidateName(name: Nullable<string>, u: UnicodeCategories) {
    if name.Null? || Trim(name.value) == [] then false
    else if Utf16Length(name.value) < MIN_NAME_LENGTH || Utf16Length(name.value) > MAX_NAME_LENGTH then false
    else if StartsWith(name.value, " ") || EndsWith(name.value, " ") then false
    else if Contains(name.value, "  ") then false
    else MatchesClassPlus(name.value, c => IsNameChar(u, c))
  }

  /** A person's name: 2 to 50 UTF-16 units of letters and single inner spaces. */
  predicate IsName(s: string, u: UnicodeCategories) {
    && MIN_NAME_LENGTH <= Utf16Length(s) <= MAX_NAME_LENGTH
    && SinglySpaced(s)
    && forall i :: 0 <= i < |s| ==> IsNameChar(u, s[i])
  }

  /** `validateName` accepts exactly the names; the blank-after-trim check is implied by the others. */
  lemma NameAccepted(name: Nullable<string>, u: UnicodeCategories)
    requires AgreesWithUnicode(u)
    ensures ValidateName(name, u) <==> name.NonNull? && IsName(name.value, u)
  {
    if name.NonNull? && name.value != [] {
      var s := name.value;
      SpacingChecks(s);
      if IsName(s, u) {
        NotBlank(s, c => IsNameChar(u, c));
      }
    }
  }

  /** A character the address pattern `[\p{L}\p{N} ,./()-]` admits. */
  predicate IsAddressChar(u: UnicodeCategories, c: char) {
    u.isLetter(c) || u.isNumber(c) || c in " ,./()-"
  }

  const MIN_ADDRESS_LENGTH := 5
  const MAX_ADDRESS_LENGTH := 200

  /** `validateAddress`: its checks in the order it makes them, the first failing one deciding. */
  predicate ValidateAddress(address: Nullable<string>, u: UnicodeCategories) {
    if address.Null? || Trim(address.value) == [] then false
    else if Utf16Length(address.value) < MIN_ADDRESS_LENGTH || Utf16Length(address.value) > MAX_ADDRESS_LENGTH then false
    else if StartsWith(address.value, " ") || EndsWith(address.value, " ") then false
    else if Contains(address.value, "  ") then false
    else MatchesClassPlus(address.value, c => IsAddressChar(u, c))
  }

  /** A street address: 5 to 200 UTF-16 units of letters, numbers, `, . / ( ) -` and single inner spaces. */
  predicate IsAddress(s: string, u: UnicodeCategories) {
    && MIN_ADDRESS_LENGTH <= Utf16Length(s) <= MAX_ADDRESS_LENGTH
    && SinglySpaced(s)
    && forall i :: 0 <= i < |s| ==> IsAddressChar(u, s[i])
  }

  /** `validateAddress` accepts exactly the addresses; the blank-after-trim check is implied by the others. */
  lemma AddressAccepted(address: Nullable<string>, u: UnicodeCategories)
    requires AgreesWithUnicode(u)
    ensures ValidateAddress(address, u) <==> address.NonNull? && IsAddress(address.value, u)
  {
    if address.NonNull? && address.value != [] {
      var s := address.value;
      SpacingChecks(s);
      if IsAddress(s, u) {
        NotBlank(s, c => IsAddressChar(u, c));
      }
    }
  }

  // =====================================================================
  // validateDeliveryInfo
  // =====================================================================

  /** The delivery form: field name to value, where a value may itself be `null`. */
  type DeliveryInfo = map<string, Nullable<string>>

  /** `info.get(key)`: `null` for a missing key. */
  function Get(info: DeliveryInfo, key: string): Nullable<string> {
    if key in info then info[key] else Null
  }

  /** Normal completion, or the message of the exception thrown. */
  datatype Outcome = Pass | Fail(message: string)

  const INFO_NULL := "Delivery Info cannot be null"
  const INFO_EMPTY := "Delivery Info cannot be empty"
  const PHONE_REQUIRED := "Phone number is required"
  const PHONE_INVALID := "Invalid phone number format"
  const NAME_REQUIRED := "Name is required"
  const NAME_INVALID := "Invalid name format"
  const ADDRESS_REQUIRED := "Address is required"
  const ADDRESS_INVALID := "Invalid address format"

  /** `validateDeliveryInfo`: throws at the first failing check, in the order it makes them. */
  function ValidateDeliveryInfo(info: Nullable<DeliveryInfo>, u: UnicodeCategories): (r: Outcome)
    ensures r.Fail? ==> r.message in {INFO_NULL, INFO_EMPTY, PHONE_REQUIRED, PHONE_INVALID,
                                      NAME_REQUIRED, NAME_INVALID, ADDRESS_REQUIRED, ADDRESS_INVALID}
  {
    if info.Null? then Fail(INFO_NULL)
    else if |info.value| == 0 then Fail(INFO_EMPTY)
    else
      var phone := Get(info.value, "phone");
      if phone.Null? then Fail(PHONE_REQUIRED)
      else if !ValidatePhoneNumber(phone) then Fail(PHONE_INVALID)
      else
        var name := Get(info.value, "name");
        if name.Null? then Fail(NAME_REQUIRED)
        else if !ValidateName(name, u) then Fail(NAME_INVALID)
        else
          var address := Get(info.value, "address");
          if address.Null? then Fail(ADDRESS_REQUIRED)
          else if !ValidateAddress(address, u) then Fail(ADDRESS_INVALID)
          else Pass
  }

  /** A check that must hold, and the message reported when it does not. */
  datatype Check = Check(holds: bool, message: string)

  /** The outcome of running `checks` in order: the first failing one decides. */
  function FirstFailure(checks: seq<Check>): Outcome {
    if checks == [] then Pass
    else if !checks[0].holds then Fail(checks[0].message)
    else FirstFailure(checks[1..])
  }

  /** A run of checks fails with a message exactly when some check fails with it and every earlier one holds. */
  lemma {:induction false} FirstFailureIsFirst(checks: seq<Check>)
    ensures FirstFailure(checks) == Pass <==> forall k :: 0 <= k < |checks| ==> checks[k].holds
    ensures FirstFailure(checks).Fail? ==>
      exists k :: 0 <= k < |checks| && !checks[k].holds && checks[k].message == FirstFailure(checks).message
        && forall j :: 0 <= j < k ==> checks[j].holds
  {
    if checks != [] && checks[0].holds {
      FirstFailureIsFirst(checks[1..]);
      if FirstFailure(checks).Fail? {
        var k :| 0 <= k < |checks[1..]| && !checks[1..][k].holds
          && checks[1..][k].message == FirstFailure(checks).message
          && forall j :: 0 <= j < k ==> checks[1..][j].holds;
        assert forall j :: 0 <= j < k + 1 ==> checks[j].holds by {
          forall j | 0 <= j < k + 1 ensures checks[j].holds {
            if j > 0 { assert checks[j] == checks[1..][j - 1]; }
          }
        }
        assert !checks[k + 1].holds && checks[k + 1].message == FirstFailure(checks).message;
      }
    } else if checks != [] {
      assert !checks[0].holds;
    }
  }

  /** The checks of `validateDeliveryInfo` on a non-null form, in the order it makes them. */
  function DeliveryChecks(info: DeliveryInfo, u: UnicodeCategories): seq<Check> {
    [ Check(|info| > 0, INFO_EMPTY),
      Check(Get(info, "phone").NonNull?, PHONE_REQUIRED),
      Check(ValidatePhoneNumber(Get(info, "phone")), PHONE_INVALID),
      Check(Get(info, "name").NonNull?, NAME_REQUIRED),
      Check(ValidateName(Get(info, "name"), u), NAME_INVALID),
      Check(Get(info, "address").NonNull?, ADDRESS_REQUIRED),
      Check(ValidateAddress(Get(info, "address"), u), ADDRESS_INVALID) ]
  }

  /** Running checks from position `k` on: check `k` decides unless it holds. */
  lemma FirstFailureFrom(checks: seq<Check>, k: int)
    requires 0 <= k < |checks|
    ensures FirstFailure(checks[k..]) ==
      if checks[k].holds then FirstFailure(checks[k + 1..]) else Fail(checks[k].message)
  {
    assert checks[k..][1..] == checks[k + 1..];
  }

  /** `validateDeliveryInfo` on a non-null form reports the first of its checks that fails. */
  lemma DeliveryInfoFirstFailure(info: DeliveryInfo, u: UnicodeCategories)
    ensures ValidateDeliveryInfo(NonNull(info), u) == FirstFailure(DeliveryChecks(info, u))
  {
    var cs := DeliveryChecks(info, u);
    assert cs[0..] == cs && cs[7..] == [];
    FirstFailureFrom(cs, 6);
    FirstFailureFrom(cs, 5);
    FirstFailureFrom(cs, 4);
    FirstFailureFrom(cs, 3);
    FirstFailureFrom(cs, 2);
    FirstFailureFrom(cs, 1);
    FirstFailureFrom(cs, 0);
  }

  /**
   * A form passes exactly when it is non-null and non-empty and its phone,
   * name and address entries are present and well-formed.
   */
  lemma DeliveryInfoAccepted(info: Nullable<DeliveryInfo>, u: UnicodeCategories)
    requires AgreesWithUnicode(u)
    ensures ValidateDeliveryInfo(info, u) == Pass <==>
      && info.NonNull?
      && |info.value| > 0
      && Get(info.value, "phone").NonNull? && IsPhoneNumber(Get(info.value, "phone").value)
      && Get(info.value, "name").NonNull? && IsName(Get(info.value, "name").value, u)
      && Get(info.value, "address").NonNull? && IsAddress(Get(info.value, "address").value, u)
  {
    if info.NonNull? {
      PhoneNumberAccepted(Get(info.value, "phone"));
      NameAccepted(Get(info.value, "name"), u);
      AddressAccepted(Get(info.value, "address"), u);
    }
  }

  /** A missing or null required entry is reported before any format check of the entries after it. */
  lemma MissingFieldReportedFirst(info: DeliveryInfo, u: UnicodeCategories)
    requires |info| > 0
    ensures Get(info, "phone").Null? ==> ValidateDeliveryInfo(NonNull(info), u) == Fail(PHONE_REQUIRED)
    ensures ValidatePhoneNumber(Get(info, "phone")) && Get(info, "name").Null? ==>
      ValidateDeliveryInfo(NonNull(info), u) == Fail(NAME_REQUIRED)
    ensures ValidatePhoneNumber(Get(info, "phone")) && ValidateName(Get(info, "name"), u) && Get(info, "address").Null? ==>
      ValidateDeliveryInfo(NonNull(info), u) == Fail(ADDRESS_REQUIRED)
  {
  }

  /** Entries other than phone, name and address never change the outcome of a non-empty form. */
  lemma OtherKeysIgnored(info1: DeliveryInfo, info2: DeliveryInfo, u: UnicodeCategories)
    requires |info1| > 0 && |info2| > 0
    requires forall key :: key in {"phone", "name", "address"} ==> Get(info1, key) == Get(info2, key)
    ensures ValidateDeliveryInfo(NonNull(info1), u) == ValidateDeliveryInfo(NonNull(info2), u)
  {
    assert Get(info1, "phone") == Get(info2, "phone");
    assert Get(info1, "name") == Get(info2, "name");
    assert Get(info1, "address") == Get(info2, "address");
  }

  // =====================================================================
  // The validators' example inputs
  // =====================================================================

  /** The phone numbers the controller's unit tests expect to be accepted. */
  lemma PhoneNumberAcceptedExamples(s: string)
    requires s in {"0912345678", "0312345678", "0712345678", "0512345678", "0812345678"}
    ensures ValidatePhoneNumber(NonNull(s))
  {
    assert IsPhoneNumber(s) by {
      assert s[..2] == [s[0], s[1]];
    }
    PhoneNumberAccepted(NonNull(s));
  }

  /** The phone numbers the controller's unit tests expect to be rejected: wrong length, prefix or characters. */
  lemma PhoneNumberRejectedExamples(s: string)
    requires s in {"", "123456789", "12345678901", "1234567890", "0234567890", "0634567890",
                   "0912345a89", "091-234589", "0912 34589"}
    ensures !ValidatePhoneNumber(Null)
    ensures !ValidatePhoneNumber(NonNull(s))
  {
    assert !IsPhoneNumber(s) by {
      if s == "0912345a89" {
        assert !IsAsciiDigit(s[7]);
      } else if s == "091-234589" {
        assert !IsAsciiDigit(s[3]);
      } else if s == "0912 34589" {
        assert !IsAsciiDigit(s[4]);
      } else if |s| == PHONE_LENGTH {
        assert s[..2] == [s[0], s[1]];
      }
    }
    PhoneNumberAccepted(NonNull(s));
  }

  /** Names from the controller's unit tests: the shortest, one with a space, and a Vietnamese one. */
  lemma SampleNamesAreNames(s: string, u: UnicodeCategories)
    requires AgreesWithUnicode(u)
    requires s == "An" || s == "John Doe" || s == "Nguyễn Văn An"
    ensures IsName(s, u)
  {
    assert forall i :: 0 <= i < |s| ==> IsNameChar(u, s[i]);
    assert SinglySpaced(s);
    Utf16LengthOfBmp(s);
  }

  /** `validateName` accepts the example names. */
  lemma NameAcceptedExamples(s: string, u: UnicodeCategories)
    requires AgreesWithUnicode(u)
    requires s == "An" || s == "John Doe" || s == "Nguyễn Văn An"
    ensures ValidateName(NonNull(s), u)
  {
    SampleNamesAreNames(s, u);
    NameAccepted(NonNull(s), u);
  }

  /** `validateName` rejects `null` and the blank example names. */
  lemma NameRejectedBlank(s: string, u: UnicodeCategories)
    requires AgreesWithUnicode(u)
    requires s == "" || s == "   "
    ensures !ValidateName(Null, u)
    ensures !ValidateName(NonNull(s), u)
  {
    assert !SinglySpaced(s);
    NameAccepted(NonNull(s), u);
  }

  /** `validateName` rejects the example names with digits or symbols. */
  lemma NameRejectedCharacters(s: string, u: UnicodeCategories)
    requires AgreesWithUnicode(u)
    requires s == "John123" || s == "John@Doe" || s == "John_Doe"
    ensures !ValidateName(NonNull(s), u)
  {
    assert !IsNameChar(u, s[4]);
    NameAccepted(NonNull(s), u);
  }

  /** `validateName` rejects the example names with a space at either end or two in a row. */
  lemma NameRejectedSpacing(s: string, u: UnicodeCategories)
    requires AgreesWithUnicode(u)
    requires s == " John" || s == "John " || s == "John  Doe"
    ensures !ValidateName(NonNull(s), u)
  {
    assert !SinglySpaced(s) by {
      if s == "John  Doe" {
        assert DoubleSpaceAt(s, 4);
      }
    }
    NameAccepted(NonNull(s), u);
  }

  /** A run of `n` letters is a name exactly when `n` is within the length bounds (the examples use 1, 50 and 51). */
  lemma RepeatedLetterName(n: nat, u: UnicodeCategories)
    requires AgreesWithUnicode(u)
    ensures ValidateName(NonNull(Repeat('a', n)), u) <==> MIN_NAME_LENGTH <= n <= MAX_NAME_LENGTH
  {
    var s := Repeat('a', n);
    Utf16LengthOfBmp(s);
    assert IsNameChar(u, 'a');
    if n > 0 {
      assert forall i :: 0 <= i < |s| ==> IsNameChar(u, s[i]);
      assert forall i :: 0 <= i < |s| - 1 ==> !DoubleSpaceAt(s, i);
      assert SinglySpaced(s);
    }
    NameAccepted(NonNull(s), u);
  }

  /** Addresses from the controller's unit tests written in ASCII: the shortest and one with spaces. */
  lemma SampleAsciiAddressesAreAddresses(s: string, u: UnicodeCategories)
    requires AgreesWithUnicode(u)
    requires s == "12345" || s == "123 Main Street"
    ensures IsAddress(s, u)
  {
    assert forall i :: 0 <= i < |s| ==> IsAddressChar(u, s[i]);
    assert SinglySpaced(s);
    Utf16LengthOfBmp(s);
  }

  /** The Vietnamese street address of the controller's unit tests. */
  lemma StreetAddressIsAddress(s: string, u: UnicodeCategories)
    requires AgreesWithUnicode(u)
    requires s == "Số 15, Đường Lê Lợi"
    ensures IsAddress(s, u)
  {
    assert forall i :: 0 <= i < |s| ==> IsAddressChar(u, s[i]);
    assert SinglySpaced(s);
    Utf16LengthOfBmp(s);
  }

  /** The address with a district of the controller's delivery-form unit test. */
  lemma DistrictAddressIsAddress(s: string, u: UnicodeCategories)
    requires AgreesWithUnicode(u)
    requires s == "123 Lê Lợi, District 1"
    ensures IsAddress(s, u)
  {
    assert forall i :: 0 <= i < |s| ==> IsAddressChar(u, s[i]);
    assert SinglySpaced(s);
    Utf16LengthOfBmp(s);
  }

  /** `validateAddress` accepts the example addresses. */
  lemma AddressAcceptedExamples(s: string, u: UnicodeCategories)
    requires AgreesWithUnicode(u)
    requires s == "12345" || s == "123 Main Street" || s == "Số 15, Đường Lê Lợi" || s == "123 Lê Lợi, District 1"
    ensures ValidateAddress(NonNull(s), u)
  {
    if s == "Số 15, Đường Lê Lợi" {
      StreetAddressIsAddress(s, u);
    } else if s == "123 Lê Lợi, District 1" {
      DistrictAddressIsAddress(s, u);
    } else {
      SampleAsciiAddressesAreAddresses(s, u);
    }
    AddressAccepted(NonNull(s), u);
  }

  /** `validateAddress` rejects `null`, the blank example addresses and the one that is too short. */
  lemma AddressRejectedBlankOrShort(s: string, u: UnicodeCategories)
    requires AgreesWithUnicode(u)
    requires s == "" || s == "   " || s == "A12"
    ensures !ValidateAddress(Null, u)
    ensures !ValidateAddress(NonNull(s), u)
  {
    Utf16LengthOfBmp(s);
    AddressAccepted(NonNull(s), u);
  }

  /** `validateAddress` rejects the example addresses with symbols outside its character class. */
  lemma AddressRejectedCharacters(s: string, u: UnicodeCategories)
    requires AgreesWithUnicode(u)
    requires s == "House #$%" || s == "Address\n123" || s == "Street|123"
    ensures !ValidateAddress(NonNull(s), u)
  {
    var k := if s == "Address\n123" then 7 else 6;
    assert !IsAddressChar(u, s[k]);
    AddressAccepted(NonNull(s), u);
  }

  /** `validateAddress` rejects the example addresses with a space at either end or several in a row. */
  lemma AddressRejectedSpacing(s: string, u: UnicodeCategories)
    requires AgreesWithUnicode(u)
    requires s == " 123 Street" || s == "123 Street " || s == "123   Street"
    ensures !ValidateAddress(NonNull(s), u)
  {
    assert !SinglySpaced(s) by {
      if s == "123   Street" {
        assert DoubleSpaceAt(s, 3);
      }
    }
    AddressAccepted(NonNull(s), u);
  }

  /** A run of `n` letters is an address exactly when `n` is within the length bounds (the examples use 200 and 201). */
  lemma RepeatedLetterAddress(n: nat, u: UnicodeCategories)
    requires AgreesWithUnicode(u)
    ensures ValidateAddress(NonNull(Repeat('a', n)), u) <==> MIN_ADDRESS_LENGTH <= n <= MAX_ADDRESS_LENGTH
  {
    var s := Repeat('a', n);
    Utf16LengthOfBmp(s);
    assert IsAddressChar(u, 'a');
    if n > 0 {
      assert forall i :: 0 <= i < |s| ==> IsAddressChar(u, s[i]);
      assert forall i :: 0 <= i < |s| - 1 ==> !DoubleSpaceAt(s, i);
      assert SinglySpaced(s);
    }
    AddressAccepted(NonNull(s), u);
  }

  /** `validateDeliveryInfo` rejects a `null` form and an empty one, each with its own message. */
  lemma DeliveryInfoNullOrEmptyExamples(info: DeliveryInfo, u: UnicodeCategories)
    requires info == map[]
    ensures ValidateDeliveryInfo(Null, u) == Fail(INFO_NULL)
    ensures ValidateDeliveryInfo(NonNull(info), u) == Fail(INFO_EMPTY)
  {
  }

  /** The example form with only a name lacks the phone; once the phone is added, it lacks the address. */
  lemma DeliveryInfoMissingFieldsExample(info: DeliveryInfo, u: UnicodeCategories)
    requires AgreesWithUnicode(u)
    requires info == map["name" := NonNull("John Doe")]
    ensures ValidateDeliveryInfo(NonNull(info), u) == Fail(PHONE_REQUIRED)
    ensures ValidateDeliveryInfo(NonNull(info["phone" := NonNull("0912345678")]), u) == Fail(ADDRESS_REQUIRED)
  {
    var withPhone := info["phone" := NonNull("0912345678")];
    assert Get(info, "phone") == Null;
    assert Get(withPhone, "address") == Null;
    PhoneNumberAcceptedExamples(Get(withPhone, "phone").value);
    NameAcceptedExamples(Get(withPhone, "name").value, u);
  }

  /** The example form whose three entries are all malformed is reported for its phone number, with an "Invalid" message. */
  lemma DeliveryInfoInvalidValuesExample(info: DeliveryInfo, u: UnicodeCategories)
    requires info == map["phone" := NonNull("invalid"), "name" := NonNull("John123"), "address" := NonNull("a")]
    ensures ValidateDeliveryInfo(NonNull(info), u) == Fail(PHONE_INVALID)
    ensures Contains(ValidateDeliveryInfo(NonNull(info), u).message, "Invalid")
  {
    assert Get(info, "phone") == NonNull("invalid");
    PhoneNumberAccepted(Get(info, "phone"));
    assert OccursAt(PHONE_INVALID, "Invalid", 0);
  }

  /** A form holding the example's phone number, name and address passes, whatever other entries it has. */
  lemma DeliveryInfoValidEntries(info: DeliveryInfo, u: UnicodeCategories)
    requires AgreesWithUnicode(u)
    requires Get(info, "phone") == NonNull("0912345678")
    requires Get(info, "name") == NonNull("Nguyễn Văn An")
    requires Get(info, "address") == NonNull("123 Lê Lợi, District 1")
    ensures ValidateDeliveryInfo(NonNull(info), u) == Pass
  {
    assert "phone" in info;
    PhoneNumberAcceptedExamples(Get(info, "phone").value);
    NameAcceptedExamples(Get(info, "name").value, u);
    AddressAcceptedExamples(Get(info, "address").value, u);
  }

  /** The complete example form passes; its extra delivery instructions play no part. */
  lemma DeliveryInfoValidExample(info: DeliveryInfo, u: UnicodeCategories)
    requires AgreesWithUnicode(u)
    requires info == map["phone" := NonNull("0912345678"), "name" := NonNull("Nguyễn Văn An"),
                         "address" := NonNull("123 Lê Lợi, District 1"),
                         "instructions" := NonNull("Call before delivery")]
    ensures ValidateDeliveryInfo(NonNull(info), u) == Pass
  {
    DeliveryInfoValidEntries(info, u);
  }
}
