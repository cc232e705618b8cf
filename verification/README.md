# Place-order controller of the AIMS storefront, in Dafny

This project models the checkout rules of the storefront's `PlaceOrderController`
and proves what those rules promise. The controller:

- copies the shopping cart into a new `Order` (`createOrder`);
- checks a delivery form, a map from field names to strings, and throws
  at the first missing or malformed field (`validateDeliveryInfo`);
- checks a Vietnamese mobile number (`validatePhoneNumber`), a person's
  name (`validateName`) and a street address (`validateAddress`);
- computes the shipping fee of an order (`calculateShippingFee`). The fee is
  22,000 VND plus 2,500 VND per item. When the order amount is at least
  100,000 VND, up to 25,000 VND is taken off, and the fee never goes below zero.

The project has three modules:

- `JavaText` holds the pieces of `java.lang.String` and `java.util.regex` the
  validators use:
  - `length()`, which counts UTF-16 code units;
  - `trim()`, which drops code units at or below U+0020;
  - `startsWith`, `endsWith` and `contains`;
  - `matches` with a repeated character class.

  It also holds Java `null`, written `Nullable`. The Unicode categories
  `\p{L}` and `\p{N}` are a parameter `UnicodeCategories`. `AgreesWithUnicode`
  states the facts of the Unicode standard the proofs rely on: in ASCII,
  exactly `A`-`Z` and `a`-`z` are letters and exactly `0`-`9` are numbers, and
  the letter ranges of Latin-1 Supplement, Latin Extended-A and -B, IPA Extensions
  (U+0250 to U+02AF) and Latin Extended Additional are letters. Together these hold all the Vietnamese letters.
- `OrderEntities` holds the cart line, the order line and the `Order` class.
  `Order`'s list of lines grows in place.
- `PlaceOrderController` holds the six operations:
  - each validator is written as its chain of checks, in the order the controller makes them;
  - each validator comes with a declarative definition of what it accepts (`IsPhoneNumber`, `IsName`,
    `IsAddress`, `FirstFailure` of `DeliveryChecks`) and a lemma proving that the two agree;
  - `createOrder` and `calculateShippingFee` are imperative loops. `createOrder`'s contract states the new order line by line; `calculateShippingFee` is proved equal to the specification function `ShippingFee`;
  - the examples in the controller's unit tests are stated as lemmas; the one exception is listed under "Left out".

An exception thrown by `validateDeliveryInfo` is the result `Fail(message)`;
normal completion is `Pass`.

## Model

| member | source | states |
|---|---|---|
| OrderEntities.Order.constructor | src/main/java/isd/aims/main/controller/PlaceOrderController.java:42 | a new order has no lines |
| OrderEntities.Order.AddOrderMedia | src/main/java/isd/aims/main/controller/PlaceOrderController.java:48 | adding a line appends it at the end and leaves the earlier lines unchanged |
| PlaceOrderController.CreateOrder | src/main/java/isd/aims/main/controller/PlaceOrderController.java:41-51 | the new order has exactly one line per cart line, in cart order, each with the cart line's product, quantity and price |
| JavaText.Utf16Units | src/main/java/isd/aims/main/controller/PlaceOrderController.java:143 | a character takes one UTF-16 code unit inside the Basic Multilingual Plane and two outside it |
| JavaText.Utf16Length | src/main/java/isd/aims/main/controller/PlaceOrderController.java:178 | `length()` lies between the number of characters and twice that, and is zero only for the empty string |
| JavaText.Utf16LengthOfBmp | src/main/java/isd/aims/main/controller/PlaceOrderController.java:215 | for text without supplementary characters, `length()` is the number of characters |
| JavaText.Repeat | src/test/java/isd/aims/main/controller/PlaceOrderControllerTest.java:275-281 | `"a".repeat(n)` has length n and every character is the repeated one |
| JavaText.TrimStart | src/main/java/isd/aims/main/controller/PlaceOrderController.java:173 | the result is a suffix of the input; everything dropped is a control character or space; the result does not start with one |
| JavaText.TrimEnd | src/main/java/isd/aims/main/controller/PlaceOrderController.java:173 | the result is a prefix of the input; everything dropped is a control character or space; the result does not end with one |
| JavaText.TrimEmptyIffBlank | src/main/java/isd/aims/main/controller/PlaceOrderController.java:210 | `trim().isEmpty()` holds exactly when every character is at or below U+0020 |
| PlaceOrderController.TotalQuantityAppend | src/main/java/isd/aims/main/controller/PlaceOrderController.java:255-259 | the item count of two runs of lines joined is the sum of their counts |
| PlaceOrderController.TotalQuantityNonNegative | src/main/java/isd/aims/main/controller/PlaceOrderController.java:255-259 | lines with non-negative quantities give a non-negative item count |
| PlaceOrderController.ShippingFee | src/main/java/isd/aims/main/controller/PlaceOrderController.java:262-267 | below the threshold the fee is the base fee plus the per-item fee; at or above it the fee is never negative; when the undiscounted fee is non-negative, the discount is between 0 and 25,000; for a non-negative item count the fee is between 0 and the undiscounted fee |
| PlaceOrderController.CalculateShippingFee | src/main/java/isd/aims/main/controller/PlaceOrderController.java:247-271 | the loop sums the order's quantities, and the result is the shipping fee of that total and the order amount |
| PlaceOrderController.ShippingFeeMonotone | src/main/java/isd/aims/main/controller/PlaceOrderController.java:262-267 | more items never make shipping cheaper, at any amount |
| PlaceOrderController.AddingLineNeverLowersFee | src/main/java/isd/aims/main/controller/PlaceOrderController.java:255-267 | adding an order line with a non-negative quantity never lowers the fee |
| PlaceOrderController.FreeShippingDiscount | src/main/java/isd/aims/main/controller/PlaceOrderController.java:265-267 | at or above the threshold (inclusive), shipping is free exactly when there is at most one item; from two items on, exactly 25,000 is taken off |
| PlaceOrderController.ThresholdNeverRaisesFee | src/main/java/isd/aims/main/controller/PlaceOrderController.java:265-267 | for the same non-negative item count, an order at or above the threshold never pays more than one below it |
| PlaceOrderController.OrderShippingFeeNonNegative | src/main/java/isd/aims/main/controller/PlaceOrderController.java:255-267 | an order whose quantities are non-negative never has a negative fee |
| PlaceOrderController.ShippingFeeScenarios | src/test/java/isd/aims/main/controller/PlaceOrderControllerTest.java:424-498 | the fees of the unit tests' orders: empty order 22,000; one item 24,500; three items 29,500; 99,999 VND 24,500; 150,000 and exactly 100,000 VND free. Each order's amount is taken to be the sum of price times quantity, since `getAmount()` is not shown |
| PlaceOrderController.ThreeItemsAboveThreshold | src/main/java/isd/aims/main/controller/PlaceOrderController.java:262-267 | three items on an order of 150,000 VND cost 29,500 before the discount and 4,500 after it |
| JavaText.IsAsciiDigit | src/main/java/isd/aims/main/controller/PlaceOrderController.java:148 | definition: the regex class `\d` without UNICODE_CHARACTER_CLASS, ASCII `0`-`9` only |
| JavaText.IsTrimmed | src/main/java/isd/aims/main/controller/PlaceOrderController.java:173 | definition: the code units `trim()` removes, those at or below U+0020 |
| JavaText.Trim | src/main/java/isd/aims/main/controller/PlaceOrderController.java:173 | definition: `trim()` drops the leading and then the trailing characters at or below U+0020 (see `TrimStart`, `TrimEnd`) |
| JavaText.StartsWith | src/main/java/isd/aims/main/controller/PlaceOrderController.java:183 | definition: `startsWith(t)` holds when `t` is a prefix |
| JavaText.EndsWith | src/main/java/isd/aims/main/controller/PlaceOrderController.java:183 | definition: `endsWith(t)` holds when `t` is a suffix |
| JavaText.Contains | src/main/java/isd/aims/main/controller/PlaceOrderController.java:188 | definition: `contains(t)` holds when `t` occurs at some position |
| JavaText.MatchesClassPlus | src/main/java/isd/aims/main/controller/PlaceOrderController.java:194 | definition: `matches("^[C]+$")` holds for non-empty text whose every character is in class C |
| PlaceOrderController.TotalQuantity | src/main/java/isd/aims/main/controller/PlaceOrderController.java:255-259 | definition: the sum of the lines' quantities, which the loop accumulates |
| PlaceOrderController.UndiscountedFee | src/main/java/isd/aims/main/controller/PlaceOrderController.java:262 | definition: base fee plus per-item fee times the item count |
| PlaceOrderController.Max | src/main/java/isd/aims/main/controller/PlaceOrderController.java:266 | `Math.max`: the result is at least both arguments and equal to one of them |
| PlaceOrderController.ValidatePhoneNumber | src/main/java/isd/aims/main/controller/PlaceOrderController.java:136-157 | definition: the four checks in order: null or empty, length 10, digits only, prefix in the list; `PhoneNumberAccepted` states what it accepts |
| PlaceOrderController.IsNameChar | src/main/java/isd/aims/main/controller/PlaceOrderController.java:194 | definition: the class `[\p{L} ]` |
| PlaceOrderController.ValidateName | src/main/java/isd/aims/main/controller/PlaceOrderController.java:171-195 | definition: the five checks in order: null or blank, length 2 to 50, space at an end, two spaces in a row, character class; `NameAccepted` states what it accepts |
| PlaceOrderController.IsAddressChar | src/main/java/isd/aims/main/controller/PlaceOrderController.java:234 | definition: the class `[\p{L}\p{N} ,./()-]` |
| PlaceOrderController.ValidateAddress | src/main/java/isd/aims/main/controller/PlaceOrderController.java:208-235 | definition: the five checks in order: null or blank, length 5 to 200, space at an end, two spaces in a row, character class; `AddressAccepted` states what it accepts |
| PlaceOrderController.Get | src/main/java/isd/aims/main/controller/PlaceOrderController.java:96 | definition: `HashMap.get`, `null` for a key that is absent |
| PlaceOrderController.DigitPairInPrefixList | src/main/java/isd/aims/main/controller/PlaceOrderController.java:153-156 | two digits found anywhere in the bar-separated prefix list are one of the five prefixes, because a match can only start at a prefix |
| PlaceOrderController.PrefixSearchIsMembership | src/main/java/isd/aims/main/controller/PlaceOrderController.java:153-156 | for two digits, searching the prefix list with `contains` is the same as being one of 03, 05, 07, 08 or 09 |
| PlaceOrderController.PhoneNumberAccepted | src/main/java/isd/aims/main/controller/PlaceOrderController.java:136-157 | a phone number is accepted exactly when it is non-null, has exactly ten ASCII digits and starts with 03, 05, 07, 08 or 09 |
| PlaceOrderController.SpacingChecks | src/main/java/isd/aims/main/controller/PlaceOrderController.java:183-190 | for non-empty text, the three spacing checks pass exactly when there is no space at either end and no two spaces in a row |
| PlaceOrderController.NotBlank | src/main/java/isd/aims/main/controller/PlaceOrderController.java:173 | text whose first character is admitted by the class and is not a space survives `trim()`, so the blank check adds nothing to the later checks |
| PlaceOrderController.NameAccepted | src/main/java/isd/aims/main/controller/PlaceOrderController.java:171-195 | a name is accepted exactly when it is non-null, 2 to 50 code units long, made of letters and spaces only, with no space at either end and no two in a row |
| PlaceOrderController.AddressAccepted | src/main/java/isd/aims/main/controller/PlaceOrderController.java:208-235 | an address is accepted exactly when it is non-null, 5 to 200 code units long, made of letters, numbers, spaces and `, . / ( ) -` only, with no space at either end and no two in a row |
| PlaceOrderController.ValidateDeliveryInfo | src/main/java/isd/aims/main/controller/PlaceOrderController.java:86-124 | every failure carries one of the eight messages `validateDeliveryInfo` throws |
| PlaceOrderController.FirstFailureIsFirst | src/main/java/isd/aims/main/controller/PlaceOrderController.java:86-124 | a chain of checks passes exactly when all of them hold; when it fails, its message is that of a failing check before which every check held |
| PlaceOrderController.FirstFailureFrom | src/main/java/isd/aims/main/controller/PlaceOrderController.java:86-124 | from any position on, a check that fails decides the outcome, and one that holds passes the decision on |
| PlaceOrderController.DeliveryInfoFirstFailure | src/main/java/isd/aims/main/controller/PlaceOrderController.java:91-120 | on a non-null form, the validator reports the first failing check of: non-empty form, phone present, phone valid, name present, name valid, address present, address valid |
| PlaceOrderController.DeliveryInfoAccepted | src/main/java/isd/aims/main/controller/PlaceOrderController.java:86-124 | a form passes exactly when it is non-null and non-empty and its phone, name and address are present and satisfy the three definitions |
| PlaceOrderController.MissingFieldReportedFirst | src/main/java/isd/aims/main/controller/PlaceOrderController.java:96-117 | a missing phone, name or address is reported as required, ahead of any check on the fields after it |
| PlaceOrderController.OtherKeysIgnored | src/main/java/isd/aims/main/controller/PlaceOrderController.java:122 | two non-empty forms that agree on phone, name and address have the same outcome, whatever their other entries |
| PlaceOrderController.PhoneNumberAcceptedExamples | src/test/java/isd/aims/main/controller/PlaceOrderControllerTest.java:254-263 | the five example numbers with prefixes 09, 03, 07, 05 and 08 are accepted |
| PlaceOrderController.PhoneNumberRejectedExamples | src/test/java/isd/aims/main/controller/PlaceOrderControllerTest.java:209-250 | `null`, the empty string, 9 and 11 digits, prefixes 1x, 02 and 06, and numbers with a letter, a hyphen or a space are rejected |
| PlaceOrderController.SampleNamesAreNames | src/test/java/isd/aims/main/controller/PlaceOrderControllerTest.java:302-310 | "An", "John Doe" and "Nguyễn Văn An" satisfy the name definition |
| PlaceOrderController.NameAcceptedExamples | src/test/java/isd/aims/main/controller/PlaceOrderControllerTest.java:302-310 | the validator accepts "An", "John Doe" and "Nguyễn Văn An" |
| PlaceOrderController.NameRejectedBlank | src/test/java/isd/aims/main/controller/PlaceOrderControllerTest.java:265-272 | `null`, the empty name and a name of three spaces are rejected |
| PlaceOrderController.NameRejectedCharacters | src/test/java/isd/aims/main/controller/PlaceOrderControllerTest.java:283-290 | names with a digit, `@` or `_` are rejected |
| PlaceOrderController.NameRejectedSpacing | src/test/java/isd/aims/main/controller/PlaceOrderControllerTest.java:292-299 | names with a leading space, a trailing space or two spaces in a row are rejected |
| PlaceOrderController.RepeatedLetterName | src/test/java/isd/aims/main/controller/PlaceOrderControllerTest.java:274-281 | a run of n letters `a` is accepted exactly when 2 <= n <= 50; this covers the 1-, 50- and 51-letter examples |
| PlaceOrderController.SampleAsciiAddressesAreAddresses | src/test/java/isd/aims/main/controller/PlaceOrderControllerTest.java:348-358 | "12345" and "123 Main Street" satisfy the address definition |
| PlaceOrderController.StreetAddressIsAddress | src/test/java/isd/aims/main/controller/PlaceOrderControllerTest.java:348-358 | "Số 15, Đường Lê Lợi" satisfies the address definition |
| PlaceOrderController.DistrictAddressIsAddress | src/test/java/isd/aims/main/controller/PlaceOrderControllerTest.java:409-422 | "123 Lê Lợi, District 1" satisfies the address definition |
| PlaceOrderController.AddressAcceptedExamples | src/test/java/isd/aims/main/controller/PlaceOrderControllerTest.java:348-358 | the validator accepts "12345", "123 Main Street", "Số 15, Đường Lê Lợi" and "123 Lê Lợi, District 1" |
| PlaceOrderController.AddressRejectedBlankOrShort | src/test/java/isd/aims/main/controller/PlaceOrderControllerTest.java:312-328 | `null`, the empty address, three spaces and the three-character "A12" are rejected |
| PlaceOrderController.AddressRejectedCharacters | src/test/java/isd/aims/main/controller/PlaceOrderControllerTest.java:330-337 | addresses with `#`, a newline or a vertical bar are rejected |
| PlaceOrderController.AddressRejectedSpacing | src/test/java/isd/aims/main/controller/PlaceOrderControllerTest.java:339-346 | addresses with a leading space, a trailing space or several spaces in a row are rejected |
| PlaceOrderController.RepeatedLetterAddress | src/test/java/isd/aims/main/controller/PlaceOrderControllerTest.java:321-328 | a run of n letters `a` is accepted exactly when 5 <= n <= 200; this covers the 200- and 201-letter examples |
| PlaceOrderController.DeliveryInfoNullOrEmptyExamples | src/test/java/isd/aims/main/controller/PlaceOrderControllerTest.java:360-373 | a null form fails with "Delivery Info cannot be null" and an empty one with "Delivery Info cannot be empty" |
| PlaceOrderController.DeliveryInfoMissingFieldsExample | src/test/java/isd/aims/main/controller/PlaceOrderControllerTest.java:375-392 | a form with only a name fails with "Phone number is required"; after a valid phone is added it fails with "Address is required" |
| PlaceOrderController.DeliveryInfoInvalidValuesExample | src/test/java/isd/aims/main/controller/PlaceOrderControllerTest.java:394-407 | a form with a bad phone, name and address fails on the phone, with a message containing "Invalid" |
| PlaceOrderController.DeliveryInfoValidEntries | src/test/java/isd/aims/main/controller/PlaceOrderControllerTest.java:409-422 | any form with the example's phone, name and address passes, whatever else it holds |
| PlaceOrderController.DeliveryInfoValidExample | src/test/java/isd/aims/main/controller/PlaceOrderControllerTest.java:409-422 | the example form, with its extra "instructions" entry, passes |

## Left out

- `placeOrder` (availability check of the cart's products) is left out because it works through the product database. `Cart` is not part of this model.
- `createInvoice` is left out because it only wraps the order in a new `Invoice`. `Invoice` is not part of this model.
- `processDeliveryInfo` is left out. It logs the form and then calls `validateDeliveryInfo`, which is modelled. All logging is left out.
- `PlaceOrderController.CreateOrder`: takes the cart's list of lines as a parameter instead of reading the shared `Cart` singleton. Its `Object` casts cannot fail there, so they are not modelled.
- `PlaceOrderController.CalculateShippingFee`: does not model 32-bit `int` wrap-around. The item total and the fee are mathematical integers, so an order of more than about 859,000 items, where Java's arithmetic would overflow, is not captured.
- `PlaceOrderController.CalculateShippingFee`: takes the order amount as a parameter, because `Order.getAmount()` is not part of this model. `ShippingFeeScenarios` takes an order's amount to be the sum of its lines' price times quantity.
- `PlaceOrderController.CalculateShippingFee`: takes a non-null `Order` whose lines are typed `OrderMedia`. The `NullPointerException` that Java throws for a null order or a null line, and the `ClassCastException` it throws for a line that is not an `OrderMedia`, are not modelled.
- The Unicode tables behind `\p{L}` and `\p{N}` are a parameter. Only the facts named in `AgreesWithUnicode` are assumed about them. `PhoneNumberAccepted` holds for any tables. `NameAccepted`, `AddressAccepted` and `DeliveryInfoAccepted` rely on the ASCII facts: no character at or below U+0020 is a letter or a number, so the `trim()` check adds nothing. The examples with accented letters also rely on the Latin-range facts.
- `PlaceOrderController.AddressAcceptedExamples`: leaves out the 50-character example "Apartment 2B, 123/45 Nguyen Hue Street, District 1". `AddressAccepted` covers it like any other address, but as a literal it is too long for the solver to check character by character.
- A Java string holding an unpaired surrogate has no counterpart among Dafny strings, so such input is not modelled. All three validators reject it, because a lone surrogate is matched by neither `\d` nor `\p{L}`/`\p{N}`.
- `IOException` from `validateDeliveryInfo` is never thrown by the code shown, so it is not modelled. Only the `InterruptedException` messages are.
- `Order`, `OrderMedia`, `CartMedia` and `Media` are modelled only as far as the controller uses them; their other fields and methods are not modelled. `BaseController`, `PaymentController` and `Utils` are not part of this model.
