# SazónBot order helpers in Dafny

A model of the order-handling helpers of the SazónBot lunch-ordering chatbot
(`main.py`), with proofs. These helpers:

- recognise the customer's delivery district (`verify_district`);
- normalise misspelt dish names against a fixed table of known spellings
  (`normalize_dish_name`);
- turn the `(quantity, dish)` fragments of an order into totals per menu
  dish (`improved_extract_order_and_quantity`);
- split an order into the dishes on the menu and those that are not
  (`verify_order_with_menu`).

The modules follow that structure:

| file | module | contents |
|---|---|---|
| `wrappers.dfy` | `Wrappers` | `Option` (Python `None`) and `Outcome` (returns, or raises the `TypeError` of unpacking `None`) |
| `text.dfy` | `Text` | the `str` operations used: `isspace`/`strip`, `lower`, `p in s`, `isdigit`, `int` on digits |
| `fuzzy.dfy` | `Fuzzy` | `process.extractOne`, as a parameter, and the one property of it the proofs rely on |
| `dishes.dfy` | `Dishes` | the variation table and `normalize_dish_name` |
| `quantity.dfy` | `Quantity` | `num_text_to_int` and the three-way quantity resolution |
| `orders.dfy` | `Orders` | the insertion-ordered order dict, the accumulation loop, `verify_order_with_menu` |
| `district.dfy` | `District` | `verify_district` |

A Python dict keeps its insertion order, so an order is a key sequence plus
a map: `Order(keys, qty)`. `Valid()` says the keys are distinct and are
exactly the map's domain.

The accumulation loop of `improved_extract_order_and_quantity` is an
imperative method, `Orders.ExtractOrder`. It is proved against the
specification function `Orders.Accumulate`, which applies one `Step` per
fragment. What `Accumulate` computes is then tied by lemmas to independent
reference definitions:

- `AcceptedChoices`: the dish of each accepted fragment, in order.
- `FirstOccurrences`: a list without its repetitions.
- `Total`: the sum of the quantities a dish received.

`verify_order_with_menu` is the method `Orders.VerifyOrderWithMenu`. It is
proved against `Orders.Filter`, which keeps the keys on (or off) the menu in
their order.

The fuzzy matcher `process.extractOne` is a function parameter:

- It returns `None` when there is nothing to choose from. Python then fails
  unpacking the pair and raises `TypeError`, which the model reports as
  `RaisesTypeError`.
- Lemmas that need more assume `Fuzzy.PicksFromChoices` as a hypothesis: a
  match exists exactly when the choice list is non-empty, and it is one of
  the choices.

The regular expression in `main.py:59-60` is not modelled. Its result, the
list of `(quantity, dish)` pairs that `re.findall` gives for the lower-cased
prompt, is an input of `ExtractOrder`. An absent quantity is the empty
string, as `findall` gives it.

In three places the code does something other than what the helpers are
meant to do. The model follows the code:

- **Zero quantities.** Quantities are meant to be at least 1. The code
  turns the digit token `"0"` into 0 (`main.py:105-106`). See
  `Quantity.ZeroTokenIsZero`. The bound of at least 1 holds only for tokens
  that are not digits (`Quantity.ResolveQuantity`).
- **Which menu availability is checked against.** An order is meant to be
  checked against the menu of the customer's district. The code passes the
  full menu (`main.py:234` and `main.py:237`), the same list the dishes
  were matched from. So nothing is ever reported unavailable. See
  `Orders.FullMenuLeavesNothingUnavailable`.
- **Faults.** The helpers are meant never to raise. With an empty menu,
  the order loop raises `TypeError` on its first fragment (`main.py:99`);
  see `Orders.RaisesOnlyWithoutMenu`. With an empty district list,
  `verify_district` raises `TypeError` for every non-empty prompt
  (`main.py:44-48`); see `District.VerifyDistrict`.

## Model

| member | source | states |
|---|---|---|
| Text.StripRemovesSurroundingSpace | main.py:95 | `strip` returns `s[a..b]` where only whitespace lies outside `a..b` and the slice neither starts nor ends with whitespace |
| Text.StripBoundsUnique | main.py:95 | any two ways of cutting the surrounding whitespace off give the same string, so the property above determines `strip` |
| Text.LeadingSpaces | main.py:95 | the count of leading whitespace characters: they are all whitespace and the next is not |
| Text.TrailingSpaces | main.py:95 | the count of trailing whitespace characters: they are all whitespace and the one before is not |
| Text.Lower | main.py:120 | `lower` keeps the length, maps each character by `LowerChar`, and leaves no capital letter |
| Text.LowerIdempotent | main.py:120 | lower-casing an already lower-cased phrase (the prompt is lower-cased at line 60) changes nothing |
| Text.ContainsIffOccurs | main.py:149 | the substring test `variation in dish_name` holds exactly when the variation occurs at some position |
| Text.Strip | main.py:95 | `dish.strip()`; pinned down by StripRemovesSurroundingSpace and StripBoundsUnique |
| Text.Contains | main.py:149 | `variation in dish_name`; its meaning is stated by ContainsIffOccurs |
| Text.IsDigits | main.py:105 | `quantity.isdigit()` on ASCII: a non-empty string of digits; used by ResolveQuantity and produced by DecimalString |
| Text.DecimalValue | main.py:106 | `int(quantity)` on a digit string; its contract is carried by DecimalRoundTrip and DecimalLeadingZero |
| Text.DigitValue | main.py:106 | a digit character has a value below 10 |
| Text.DecimalString | main.py:105-106 | `str(n)` is a digit string without a leading zero |
| Text.DecimalRoundTrip | main.py:105-106 | `int(str(n)) == n` |
| Text.DecimalLeadingZero | main.py:105-106 | `int` ignores a leading zero, so `"02"` and `"2"` are the same quantity |
| Dishes.FirstMention | main.py:148-150 | the scan of the table finds the first entry, from `k` on, with a variation in the phrase, or reports that none has one |
| Dishes.Mentions | main.py:149 | the `any(variation in dish_name ...)` test of one entry; used by FirstMention and IsFirstMention, whose contracts state what it selects |
| Dishes.NormalizeWith | main.py:119-152 | the result is the canonical name of the first entry in table order mentioned in the lower-cased name; if no entry is mentioned, the lower-cased name; never anything else |
| Dishes.NormalizeDishName | main.py:119-152 | `normalize_dish_name` with the table of main.py:123-146; the contract of NormalizeWith applies to it, and ArrozConPolloWins is an instance |
| Dishes.ArrozConPolloWins | main.py:124-150 | a phrase mentioning "arroz con pollo" normalises to "Arroz con Pollo", even when it also mentions a later entry such as "pollo a la brasa" |
| Quantity.NumberWordsPositive | main.py:65-92 | every value of `num_text_to_int` is at least 1 |
| Quantity.ResolveQuantity | main.py:103-108 | an empty token gives 1; a digit token gives its decimal value; any other token gives its table value, or 1 if it is not in the table, and so at least 1 |
| Quantity.DigitTokenIsItsValue | main.py:105-106 | the token `str(n)` resolves to `n` |
| Quantity.SpelledQuantities | main.py:66-68 | "dos" resolves to 2 and "una" to 1 |
| Quantity.ZeroTokenIsZero | main.py:105-106 | the token "0" resolves to 0 |
| Orders.AddQuantity | main.py:111-114 | the dish's entry becomes its old value plus `q` (or `q` when new); every other entry is unchanged; a new dish is appended to the key order; the dict stays well formed |
| Orders.Clean | main.py:95-96 | the phrase handed to the matcher, `normalize_dish_name(dish.strip())`; its parts are pinned down by StripRemovesSurroundingSpace and NormalizeWith |
| Orders.Step | main.py:95-114 | one loop turn keeps the order dict well formed |
| Orders.Accumulate | main.py:94-114 | the order built from the fragments is a well formed dict |
| Orders.ExtractOrder | main.py:54-116 | an empty prompt gives the empty dict; otherwise the loop returns exactly what `Accumulate` gives, raising as soon as a fragment gets no match |
| Orders.RaisedStaysRaised | main.py:99 | once a fragment raises, the whole call raises |
| Orders.FirstOccurrences | main.py:111-114 | removing repetitions keeps exactly the same elements |
| Orders.AccumulateKeys | main.py:111-114 | the order's keys are the accepted dishes, each placed where it was first accepted; a dish is in the order exactly when some fragment was accepted for it |
| Orders.AccumulateTotals | main.py:101-114 | each dish's quantity is the sum of the resolved quantities of all the accepted fragments matched to it |
| Orders.TotalNeedsChoice | main.py:101-114 | a dish with a non-zero total was accepted at least once |
| Orders.RejectedFragmentIgnored | main.py:101 | a fragment whose best similarity is 65 or less changes nothing, wherever it stands in the list |
| Orders.RaisesOnlyWithoutMenu | main.py:63-99 | with a well-behaved matcher, the loop raises exactly when there are fragments and the menu is empty |
| Orders.KeysAreMenuItems | main.py:99-114 | with a well-behaved matcher, every dish of the order is a menu item |
| Orders.TwoMentionsAdd | main.py:111-112 | two accepted mentions of one dish give a single entry holding the sum of their quantities |
| Orders.DosThenBareMentionMakeThree | main.py:59-112 | "dos causas, una causa" splits into the fragments ("dos", "causas") and ("", "una causa"), since "una" is not a number word of the pattern; when both match the same dish, it is ordered 3 times |
| Orders.FilterMembers | main.py:159-163 | a dish is on the available (unavailable) side exactly when it is in the order and on (off) the menu |
| Orders.FilterDistinct | main.py:159-161 | the available dishes have no repetitions |
| Orders.FilterSplits | main.py:159-163 | every key of the order goes to exactly one side: the two sides' lengths add up to the number of keys |
| Orders.FilterAllOnMenu | main.py:159-163 | when every key is on the menu, all keys are available in their order and none is unavailable |
| Orders.VerifyOrderWithMenu | main.py:155-165 | the available dict holds the order's keys that are on the menu, in the order's order, with unchanged quantities; the unavailable list holds the others, in the order's order |
| Orders.FullMenuLeavesNothingUnavailable | main.py:234-237 | checking an order against the same menu it was matched from keeps every dish and reports none unavailable |
| District.VerifyDistrict | main.py:43-51 | an empty prompt gives `None`; a missing match raises; otherwise the best match is returned exactly when its similarity is above 75, and `None` otherwise |
| District.RecognisedDistrictIsListed | main.py:47-50 | with a well-behaved matcher and a non-empty district list, the call never raises, and a recognised district is one of the listed ones |

## Left out

- The Streamlit interface, session state, message history and reply texts (`main.py:8-24`, `main.py:183-254`): user-interface plumbing with no order logic.
- Loading the menu and district CSV files with pandas (`main.py:27-34`, `main.py:180-181`): input and output. The menu's dish column and the district list are plain `seq<string>` inputs.
- `filter_menu_by_district` and `format_menu` (`main.py:37-40`, `main.py:168-177`): thin wrappers over pandas that only build display data.
- The regular expression and `re.findall` (`main.py:59-60`): the fragments it produces are an input of `Orders.ExtractOrder`, and nothing is proved about which fragments a prompt yields.
- The internals of `process.extractOne`, `fuzz.token_set_ratio` and the default scorer (`main.py:48`, `main.py:99`): a foreign library, kept as the parameter `extractOne`. The only assumption the model makes about it is `Fuzzy.PicksFromChoices`.
- A `None` prompt (`main.py:44`, `main.py:55`): prompts are strings here, so "not prompt" is the empty string.
- Text.Lower: lower-cases only the ASCII and Latin-1 capitals. Python's `lower` also maps the capitals of other scripts, which no menu dish, variation or number word contains.
- Quantity.ResolveQuantity: treats only `0`-`9` as digits. The pattern's `\d`, `isdigit` and `int` also accept the decimal digits of other scripts.
- Text.IsSpace: the whitespace of `strip` is Python's `isspace` set as listed in the model; it does not track later Unicode revisions.
- Most `num_text_to_int` keys cannot come out of the pattern of `main.py:59`, which captures only digit runs and the words "uno" to "diez". The keys it never yields are "una", "media docena", "docena", "cien", "mil", "media", "decena", "doscenas", "un", "uuno", "5.", "2 ", "cinco!", "och0" and "diez ". They are kept in `Quantity.NumberWords` entry for entry all the same, and `ResolveQuantity` is stated for every token.
- Python's integers of any size are modelled as `nat`; a sum of quantities does not wrap around.
