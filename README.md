# ShopHub storefront core, modelled in Dafny

This project models the sequential core of the ShopHub e-commerce application:

- **Order placement** (`OrderController::store`): the request's lines are walked in order. Each line reads the product's current stock, which earlier lines may already have decremented. A short line aborts the whole request and rolls back every write. Otherwise the order, one item per line and the deletion of the user's cart are written. The ownership check of `show` is included.
- **The server cart** (`CartController`): `index` with its live-price total, `store` with merge and stock bound, `update`, `destroy` and `clear`.
- **The client cart store** (`useCartStore` in `useCart.ts`): an ordered list with at most one entry per product, its four mutators and its two sums.
- **The product accessors** of `Product.php`: discount percentage, on sale, in stock.
- **The string helpers** of `lib/utils/index.ts`: `truncate`, `getInitials`, `slugify`, `isValidEmail`, `isValidPhone`.

Money is held in integer cents throughout, which is how the `decimal:2` columns store it.

Layout, one module per file:

| file | module | what |
|---|---|---|
| `common.dfy` | `Common` | `Option`, `Abs`, `Min` |
| `catalog.dfy` | `Catalog` | the product row and its computed attributes |
| `shop.dfy` | `Shop` | cart rows, orders, order items, and the `Database` class whose fields the controllers update |
| `cart_controller.dfy` | `CartController` | the cart endpoints. Each is a method on the database, specified by a transition function (`StoreStep`, `UpdateStep`, `DestroyStep`, `ClearStep`) |
| `order_controller.dfy` | `OrderController` | `Store` with its two loops (`TakeStock`, `CreateItems`), specified by the function `Place`; `Show` |
| `client_cart.dfy` | `ClientCart` | the `CartStore` class with its `items` field, and the list functions its methods assign |
| `utils.dfy` | `Utils` | the string helpers. Each regular-expression check is an executable predicate proved equal to a ghost definition of the pattern's language |

Design choices:

- The endpoints are methods that follow the PHP code step by step. Each is specified by a pure function of the old state, and the properties are lemmas about those functions.
  - For example, `OrderController.Store` ensures `(r, db.State()) == Place(old(db.State()), ...)`, so a rollback leaves the database value exactly as it was.
- The exception that a write after the stock check may raise (an `order_number` already taken, a failed insert of the order or an item, a failed cart delete) is a parameter `fault` of `Store` and `Place`. Its message is what the 400 answer carries, and the writes are rolled back as for a shortfall.
- An HTTP response is a datatype:
  - `ValidationFailed`/`Invalid` is Laravel's 422;
  - `NotFound` is the 404 of `findOrFail` and of route-model binding;
  - `ServerError` is the 500 that PHP raises when `update` or `destroy` call a method on a user's missing cart.
- The random part of the order number (`Str::random(10)`) is a parameter.

## Model

| member | source | states |
|---|---|---|
| Common.Min | frontend/src/hooks/useCart.ts:39 | `Math.min`: the result is one of the arguments and at most both |
| Catalog.RoundDiv | backend/app/Models/Product.php:95 | PHP `round` of an exact quotient: an integer nearest to n/d, and on a tie the one further from zero |
| Catalog.DiscountPercentage | backend/app/Models/Product.php:89-96 | the division by zero is thrown exactly when the stored compare price is 0.00 and the price is negative: `"0.00"` is truthy, so only a NULL compare price skips the division |
| Catalog.ZeroComparePriceIsOnSale | backend/app/Models/Product.php:89-104 | a compare price of 0.00 counts as present: with a negative price the product is on sale and the discount accessor throws |
| Catalog.DiscountZeroUnlessOnSale | backend/app/Models/Product.php:91-104 | a product not on sale (`is_on_sale` false) shows 0%; any other discount result, the division error included, implies on sale |
| Catalog.DiscountIsNearestPercent | backend/app/Models/Product.php:95 | on sale with a non-zero compare price, a percentage (no error) within half a unit of (compare − price)/compare × 100 |
| Catalog.DiscountWithinPercentRange | backend/app/Models/Product.php:91-95 | with price ≥ 0 no error is thrown and the percentage lies in 0..100 |
| Catalog.FreeProductIsFullDiscount | backend/app/Models/Product.php:95 | a free product on sale shows exactly 100% |
| CartController.Index | backend/app/Http/Controllers/Api/CartController.php:17-40 | no cart gives empty items and total 0; otherwise the user's own rows and their live total `LiveTotal` |
| CartController.LiveTotalNonNegative | backend/app/Http/Controllers/Api/CartController.php:30-32 | with non-negative quantities and prices the index total is non-negative |
| CartController.LiveTotalSplit | backend/app/Http/Controllers/Api/CartController.php:30-32 | the index total is additive over concatenated rows |
| CartController.LiveTotalSingle | backend/app/Http/Controllers/Api/CartController.php:30-32 | a single row contributes quantity × the product's current price |
| CartController.LiveTotalIgnoresStoredPrice | backend/app/Http/Controllers/Api/CartController.php:30-32 | changing the price copied into a row leaves the index total unchanged |
| CartController.LiveTotalPriceChange | backend/app/Http/Controllers/Api/CartController.php:30-32 | a product price change moves the total by the difference × that product's quantity in the cart |
| CartController.FindProduct | backend/app/Http/Controllers/Api/CartController.php:67 | the first row holding the product, or none when no row does |
| CartController.FindItem | backend/app/Http/Controllers/Api/CartController.php:104 | the first row with that id, or none when no row has it |
| CartController.StoreStep | backend/app/Http/Controllers/Api/CartController.php:45-92 | every answer but 200 leaves the cart table as it was; only the caller's cart can change; row ids only grow |
| CartController.UpdateStep | backend/app/Http/Controllers/Api/CartController.php:97-117 | every answer but 200 leaves the cart table as it was; only the caller's cart changes, and keeps its number of rows; no id is allocated |
| CartController.DestroyStep | backend/app/Http/Controllers/Api/CartController.php:122-131 | every answer but 200 leaves the cart table as it was; a 200 removes exactly one row of the caller's cart; other carts untouched |
| CartController.ClearStep | backend/app/Http/Controllers/Api/CartController.php:136-147 | always 200; afterwards the caller's cart reads as empty and every other cart is untouched |
| CartController.Store | backend/app/Http/Controllers/Api/CartController.php:45-92 | the method's outcome and new cart table are `StoreStep`'s; products and orders untouched; the database stays valid |
| CartController.Update | backend/app/Http/Controllers/Api/CartController.php:97-117 | the outcome and new cart table are `UpdateStep`'s; nothing else changes; validity kept |
| CartController.Destroy | backend/app/Http/Controllers/Api/CartController.php:122-131 | the outcome and new cart table are `DestroyStep`'s; nothing else changes; validity kept |
| CartController.Clear | backend/app/Http/Controllers/Api/CartController.php:136-147 | the outcome and new cart table are `ClearStep`'s; nothing else changes; validity kept |
| CartController.StoreKeepsValid | backend/app/Http/Controllers/Api/CartController.php:67-86 | `store` keeps every cart free of duplicate products and ids, with known products and quantities ≥ 1 |
| CartController.UpdateKeepsValid | backend/app/Http/Controllers/Api/CartController.php:99-112 | `update` keeps every cart valid |
| CartController.DestroyKeepsValid | backend/app/Http/Controllers/Api/CartController.php:124-126 | `destroy` keeps every cart valid |
| CartController.StoreValidation | backend/app/Http/Controllers/Api/CartController.php:47-50 | 422 exactly when the product is unknown or the quantity is below 1 |
| CartController.StoreRejectsOverStock | backend/app/Http/Controllers/Api/CartController.php:54-77 | 400 exactly when the quantity, alone or added to the cart's row of the product, exceeds stock; then nothing changes; otherwise 200 |
| CartController.StoreMerges | backend/app/Http/Controllers/Api/CartController.php:67-79 | a product already in the cart: that row's quantity grows by the request and the rest is unchanged |
| CartController.StoreAppends | backend/app/Http/Controllers/Api/CartController.php:81-86 | a new product: one row appended with a fresh id, the quantity and a snapshot of the current price |
| CartController.StoreWithinStock | backend/app/Http/Controllers/Api/CartController.php:54-86 | after a 200, the cart holds a row of the product within stock, and the index total grew by quantity × price |
| CartController.ReplaceTotal | backend/app/Http/Controllers/Api/CartController.php:30-32 | replacing one row swaps that row's share of the index total |
| CartController.UpdateSetsOneRow | backend/app/Http/Controllers/Api/CartController.php:103-112 | within stock, only the addressed row gets the quantity and the total moves accordingly; over stock, 400 and no change |
| CartController.UnknownRowNotFound | backend/app/Http/Controllers/Api/CartController.php:103-126 | `update` and `destroy` of a row not in the user's cart answer 404 and change nothing |
| CartController.DestroyRemovesOnlyItem | backend/app/Http/Controllers/Api/CartController.php:124-126 | exactly the addressed row is deleted, the others keep their order, and the total loses that row's share |
| CartController.DeleteRowMembers | backend/app/Http/Controllers/Api/CartController.php:126 | with unique ids, the remaining rows are exactly those with another id |
| CartController.DeleteRowTotal | backend/app/Http/Controllers/Api/CartController.php:30-32 | deleting a row takes its quantity × price out of the index total |
| CartController.ClearEmpties | backend/app/Http/Controllers/Api/CartController.php:136-147 | the user's cart reads as empty with total 0; no-op without a cart; other carts untouched |
| OrderController.ShortfallFrom | backend/app/Http/Controllers/Api/OrderController.php:47-52 | the first line at or after k that does not fit the stock the earlier lines leave |
| OrderController.Shortfall | backend/app/Http/Controllers/Api/OrderController.php:47-52 | no shortfall exactly when every line fits; otherwise the first line that does not |
| OrderController.Drafts | backend/app/Http/Controllers/Api/OrderController.php:56-62 | one snapshot per line, in order, with id, title, quantity, unit price and price × quantity |
| OrderController.ItemsOf | backend/app/Http/Controllers/Api/OrderController.php:84-86 | one order item per snapshot, in order, each carrying the new order's id |
| OrderController.Place | backend/app/Http/Controllers/Api/OrderController.php:27-106 | placed exactly when the request is valid, no line is short and no write fails; every other answer leaves the database exactly as it was; a placement appends the caller's order and its items and deletes the caller's cart; other users' carts are untouched |
| OrderController.Store | backend/app/Http/Controllers/Api/OrderController.php:27-106 | outcome and new database are `Place`'s for the given write fault: 422 unchanged, rollback unchanged, or stock consumed, order and items appended, cart deleted; validity kept |
| OrderController.TakeStock | backend/app/Http/Controllers/Api/OrderController.php:47-66 | the loop fails exactly at the first short line with its title; otherwise stock is `Consumed`, and the total and snapshots match the lines |
| OrderController.CreateItems | backend/app/Http/Controllers/Api/OrderController.php:84-86 | appends exactly `ItemsOf` the snapshots to the order-item table |
| OrderController.PlaceRefuses | backend/app/Http/Controllers/Api/OrderController.php:29-38 | a request failing validation changes nothing and answers 422 |
| OrderController.PlaceFails | backend/app/Http/Controllers/Api/OrderController.php:50-104 | a shortfall answers the error naming the first short product, with the database exactly as before |
| OrderController.PlaceFaultRollsBack | backend/app/Http/Controllers/Api/OrderController.php:67-104 | an exception raised by a write after the stock check answers its message with the database exactly as before |
| OrderController.PlaceSucceeds | backend/app/Http/Controllers/Api/OrderController.php:65-96 | a placement: stock consumed, the cart deleted, one order and its items appended, the next order id advanced |
| OrderController.ConsumeStep | backend/app/Http/Controllers/Api/OrderController.php:48-65 | line i is checked against, and then decrements, the stock the earlier lines left; title and price stay |
| OrderController.TotalStep | backend/app/Http/Controllers/Api/OrderController.php:54-62 | line i adds price × quantity to the total and its snapshot to the list |
| OrderController.ShortfallIsFirst | backend/app/Http/Controllers/Api/OrderController.php:50-51 | the first line that does not fit is the one reported |
| OrderController.PlaceKeepsValid | backend/app/Http/Controllers/Api/OrderController.php:65-89 | placement keeps carts valid and order ids increasing |
| OrderController.DemandPrefix | backend/app/Http/Controllers/Api/OrderController.php:47 | with non-negative quantities, the demand of a prefix of the lines is at most that of all lines |
| OrderController.DemandAbsent | backend/app/Http/Controllers/Api/OrderController.php:47 | a product no line names has demand 0 |
| OrderController.AllFitIffDemandCovered | backend/app/Http/Controllers/Api/OrderController.php:47-65 | checking each line against the remaining stock is the same as checking each product's combined demand against its stock |
| OrderController.PlacementSucceedsIffDemandCovered | backend/app/Http/Controllers/Api/OrderController.php:47-65 | a valid request places exactly when every product's combined demand is within its stock |
| OrderController.StockAfterPlacement | backend/app/Http/Controllers/Api/OrderController.php:48-65 | each requested product loses exactly its combined demand and stays ≥ 0; every other product is unchanged |
| OrderController.StockStaysNonNegative | backend/app/Http/Controllers/Api/OrderController.php:50-65 | non-negative stock stays non-negative through a placement |
| OrderController.TotalIsSumOfLineTotals | backend/app/Http/Controllers/Api/OrderController.php:54-75 | `total_amount` equals the sum of the line totals |
| OrderController.OrderNumberShape | backend/app/Http/Controllers/Api/OrderController.php:71 | `ORD-` followed by ten characters, none of them lower-case |
| OrderController.OneUnitSucceedsIffInStock | backend/app/Models/Product.php:109-112 | a one-unit order of one product places exactly when the product is in stock |
| OrderController.RepeatedProductNeedsCombinedStock | backend/app/Http/Controllers/Api/OrderController.php:47-65 | a product listed twice needs stock for both quantities together |
| OrderController.SingleUnitScenario | backend/tests/Feature/OrderPlacementTest.php:36-70 | one unit at 100.00 against stock 10 places, totals 100.00 and leaves stock 9 |
| OrderController.FindOrder | backend/app/Http/Controllers/Api/OrderController.php:108 | the order with that id, or none when no order has it |
| OrderController.ItemsOfOrder | backend/app/Http/Controllers/Api/OrderController.php:114 | an item is in the result exactly when it is stored and belongs to that order |
| OrderController.ItemsOfOrderSplit | backend/app/Http/Controllers/Api/OrderController.php:114 | the selection distributes over concatenation, so it keeps the table's order and every duplicate |
| OrderController.ItemsOfOrderOne | backend/app/Http/Controllers/Api/OrderController.php:114 | on one item the selection keeps it exactly when it belongs to the order |
| OrderController.ItemsOfOrderAll | backend/app/Http/Controllers/Api/OrderController.php:114 | items that all belong to the order are selected unchanged |
| OrderController.ItemsOfOrderNone | backend/app/Http/Controllers/Api/OrderController.php:114 | items none of which belongs to the order select nothing |
| OrderController.ShowsPlacedItems | backend/app/Http/Controllers/Api/OrderController.php:84-114 | when no older item carries the new order's id, `show` selects exactly the items `store` created, in the order of the request's lines, duplicates included |
| OrderController.Show | backend/app/Http/Controllers/Api/OrderController.php:108-115 | shown only to its owner, with the items of that order in table order (`ItemsOfOrder`, pinned by the lemmas above); 404 exactly when no order has the id; 403 only when an order with the id belongs to someone else |
| OrderController.ShowForbiddenIffOtherOwner | backend/app/Http/Controllers/Api/OrderController.php:110-112 | with unique ids: 403 exactly when the order belongs to someone else, shown exactly when to the owner |
| ClientCart.RequestedQuantity | frontend/src/hooks/useCart.ts:39-46 | the quantity `addItem` uses: the given one, or 1 when it is absent or zero |
| ClientCart.MergeQuantity | frontend/src/hooks/useCart.ts:37-41 | entries of the product get min(old + added, max); all other entries unchanged |
| ClientCart.SetQuantity | frontend/src/hooks/useCart.ts:64-68 | entries of the product get min(quantity, max); all other entries unchanged |
| ClientCart.CartStore.constructor | frontend/src/hooks/useCart.ts:28 | the store starts empty and valid |
| ClientCart.CartStore.AddItem | frontend/src/hooks/useCart.ts:30-49 | the new list is `AddedItems` of the old; one entry per product is kept |
| ClientCart.CartStore.RemoveItem | frontend/src/hooks/useCart.ts:51-55 | the new list is `WithoutProduct` of the old; one entry per product is kept |
| ClientCart.CartStore.UpdateQuantity | frontend/src/hooks/useCart.ts:57-70 | the new list is `UpdatedItems` of the old; one entry per product is kept |
| ClientCart.CartStore.ClearCart | frontend/src/hooks/useCart.ts:72-74 | the list is empty |
| ClientCart.CartStore.GetTotalItems | frontend/src/hooks/useCart.ts:76-78 | 0 for an empty cart, non-negative for non-negative quantities |
| ClientCart.CartStore.GetTotalPrice | frontend/src/hooks/useCart.ts:80-82 | 0 for an empty cart, non-negative for non-negative prices and quantities |
| ClientCart.TotalsNonNegative | frontend/src/hooks/useCart.ts:76-82 | both sums are non-negative over non-negative entries |
| ClientCart.ProductIndex | frontend/src/hooks/useCart.ts:32 | a present product has an index |
| ClientCart.AddExisting | frontend/src/hooks/useCart.ts:32-42 | adding a present product sets its entry to min(old + (given or 1), max) and changes nothing else |
| ClientCart.AddNew | frontend/src/hooks/useCart.ts:43-47 | adding a new product appends one entry with the given quantity or 1; earlier entries keep their order |
| ClientCart.AddKeepsUnique | frontend/src/hooks/useCart.ts:32-47 | `addItem` keeps at most one entry per product |
| ClientCart.WithoutProductSpec | frontend/src/hooks/useCart.ts:53 | no entry of the product remains, the result holds exactly the entries of other products, and it is no longer than the input |
| ClientCart.WithoutProductSplit | frontend/src/hooks/useCart.ts:53 | the filter distributes over concatenation, so it keeps the order and multiplicity of the entries it keeps |
| ClientCart.WithoutProductOne | frontend/src/hooks/useCart.ts:53 | on one entry the filter drops it exactly when it is of the product |
| ClientCart.RemoveAt | frontend/src/hooks/useCart.ts:53 | with unique products, removal deletes exactly the product's entry |
| ClientCart.NotPresentUnchanged | frontend/src/hooks/useCart.ts:53 | removing an absent product changes nothing |
| ClientCart.RemoveKeepsUnique | frontend/src/hooks/useCart.ts:51-55 | `removeItem` keeps at most one entry per product |
| ClientCart.UpdatePositive | frontend/src/hooks/useCart.ts:63-69 | a positive quantity sets the entry to min(quantity, max) and nothing else |
| ClientCart.UpdateNonPositiveRemoves | frontend/src/hooks/useCart.ts:58-61 | a quantity ≤ 0 is exactly `removeItem` |
| ClientCart.TotalsAppend | frontend/src/hooks/useCart.ts:76-82 | appending an entry adds its quantity and price × quantity |
| ClientCart.TotalsSplit | frontend/src/hooks/useCart.ts:76-82 | both sums are additive over concatenation |
| ClientCart.TotalsReplace | frontend/src/hooks/useCart.ts:76-82 | replacing an entry swaps its share of both sums |
| ClientCart.AddNewTotals | frontend/src/hooks/useCart.ts:43-82 | adding a new product raises the sums by its quantity and price × quantity |
| ClientCart.AddExistingTotals | frontend/src/hooks/useCart.ts:32-82 | adding a present product raises the sums by what the cap lets through |
| ClientCart.RemoveTotals | frontend/src/hooks/useCart.ts:51-82 | removing a product takes its entry's share out of both sums |
| Utils.ToUpper | frontend/src/lib/utils/index.ts:54 | `toUpperCase` character by character on ASCII letters |
| Utils.ToLower | frontend/src/lib/utils/index.ts:39 | `toLowerCase` character by character; no upper-case ASCII letter remains |
| Utils.Truncate | frontend/src/lib/utils/index.ts:61-64 | unchanged when it fits; otherwise the first `length` characters and `...`, length + 3 in all |
| Utils.SplitOnSpace | frontend/src/lib/utils/index.ts:51 | `split(' ')` gives at least one piece |
| Utils.SplitThenJoin | frontend/src/lib/utils/index.ts:51 | joining the pieces with spaces gives the string back, and no piece contains a space |
| Utils.FirstCharsAreWordStarts | frontend/src/lib/utils/index.ts:51-53 | the pieces' first characters are exactly the characters that start a word |
| Utils.GetInitials | frontend/src/lib/utils/index.ts:49-56 | at most two characters, none lower-case |
| Utils.InitialsAreLeadingWordStarts | frontend/src/lib/utils/index.ts:49-56 | the initials are the first two word starts, upper-cased, in order |
| Utils.Trim | frontend/src/lib/utils/index.ts:40 | `trim` keeps only characters of its input, with no white space at either end |
| Utils.TrimIsInfix | frontend/src/lib/utils/index.ts:40 | `trim` gives the infix of its input that starts after the leading white space; what it drops at either end is white space |
| Utils.KeepSlugChars | frontend/src/lib/utils/index.ts:41 | a character occurs in the result exactly when it occurs in the input and is `\w`, `\s` or `-` |
| Utils.KeepSlugCharsSplit | frontend/src/lib/utils/index.ts:41 | the filter distributes over concatenation and keeps a single character exactly when it is `\w`, `\s` or `-`, so the kept characters stay in order |
| Utils.CollapseSeps | frontend/src/lib/utils/index.ts:42 | separator runs become one `-`: no other separator remains and no two dashes are adjacent |
| Utils.CollapseFromSplit | frontend/src/lib/utils/index.ts:42 | the left-to-right scan of a concatenation is the scan of the first part followed by the scan of the second from the state the first part ends in |
| Utils.CollapseSepsSplit | frontend/src/lib/utils/index.ts:42 | splitting the input anywhere but inside a run of separators splits the output at the same place |
| Utils.CollapseSepsPieces | frontend/src/lib/utils/index.ts:42 | a non-separator character is kept as it is, and a whole non-empty run of separators becomes exactly one `-` |
| Utils.StripDashes | frontend/src/lib/utils/index.ts:43 | no dash at either end; no double dash is introduced |
| Utils.StripDashesIsInfix | frontend/src/lib/utils/index.ts:43 | the result is the infix of the input that starts after the leading dashes; what is dropped at either end is dashes |
| Utils.Slugify | frontend/src/lib/utils/index.ts:37-44 | the result is a slug: `[a-z0-9-]` only, no dash at either end, no two adjacent dashes |
| Utils.SlugifyFixesSlugs | frontend/src/lib/utils/index.ts:37-44 | a slug is left unchanged |
| Utils.SlugifyIdempotent | frontend/src/lib/utils/index.ts:37-44 | `slugify(slugify(s)) == slugify(s)` |
| Utils.IndexOf | frontend/src/lib/utils/index.ts:104 | the first index of the character, or the length when absent |
| Utils.EmailCheckMatchesPattern | frontend/src/lib/utils/index.ts:103-106 | the check (one `@`, no white space, non-empty local part, a `.` strictly inside the domain) accepts exactly the regular expression's language |
| Utils.SplitOfValidEmail | frontend/src/lib/utils/index.ts:104 | an accepted string splits as the pattern requires |
| Utils.ValidEmailOfSplit | frontend/src/lib/utils/index.ts:104 | a string the pattern matches is accepted |
| Utils.ParsePhone | frontend/src/lib/utils/index.ts:112 | a parse result is a shape of the pattern that spells out the input |
| Utils.ParseRender | frontend/src/lib/utils/index.ts:112 | parsing what a shape spells out gives back that shape |
| Utils.PhoneCheckMatchesPattern | frontend/src/lib/utils/index.ts:111-114 | the phone check accepts exactly the regular expression's language |
| Utils.RenderDigitCount | frontend/src/lib/utils/index.ts:112 | a matching string has 10 to 12 digits and at most five other characters |
| Utils.PhoneDigitCount | frontend/src/lib/utils/index.ts:111-114 | an accepted number has 10 to 12 digits and at most five other characters, ends in a digit, and starts with a digit, `+` or `(` |

## Left out

- Concurrency: the row locks (`lockForUpdate`) and transaction isolation of order placement. `Store` is one sequential step that is all-or-nothing.
- `Str::random`: the ten random characters are a parameter. `OrderNumberShape` states the shape for any ten ASCII letters and digits.
- Floating point: prices are integer cents. JavaScript `number` sums, `calculateDiscount`, `formatCurrency` and `formatDate` are not modelled.
- `OrderController::index` (pagination through the ORM) is not modelled.
- The Laravel validator, trimming middleware and type juggling are not modelled. Validation is the rules' meaning on typed values:
  - a quantity is an integer;
  - a product id is a natural number;
  - a shipping string is non-empty, as the middleware leaves it.
- The HTTP response bodies beyond status and message are not modelled, nor the order's eager-loaded relations.
- Authentication is a caller id parameter.
- CartController.UpdateStep requires that the user's rows name existing products. The foreign key guarantees this in the database; a dangling row (which PHP would hit as a null product) is not modelled.
- CartController.Index requires the same of the caller's rows, and so does `CartController.LiveTotal`, the sum it returns, for the same foreign-key reason.
- Side effects outside the modelled state: the error log line that a failed placement writes (`Log::error`) and the client store's `persist` middleware, which saves the cart list to the browser's local storage under `cart-storage`. Neither changes an answer or a state that the model holds.
- Utils.ToLower, Utils.ToUpper: case mapping is ASCII only. Non-ASCII letters (for example the Kelvin sign, which JavaScript lowers to `k`) map to themselves, so `Slugify` is faithful on ASCII input.
- White space (`\s`, `trim`) is the JavaScript white-space set. A string is a sequence of Unicode scalar values, not of UTF-16 code units. A character outside the Basic Multilingual Plane (an emoji, say) counts once here and twice in JavaScript.
- Utils.Truncate: lengths and the cut position count characters, not UTF-16 code units. On text with characters outside the Basic Multilingual Plane, JavaScript's `length` and `slice` count such a character twice and may cut it in half; the model does neither.
- Utils.GetInitials: a word's first character is a whole character. JavaScript's `n[0]` gives only the first code unit, which is half a character when the word starts outside the Basic Multilingual Plane.
- ClientCart.CartStore.AddItem: a new entry's quantity is stored as given, as `addItem` stores it. It is not clamped to `maxQuantity` and not checked for being positive; only merging clamps.
- The phone pattern's optional `(` and `)` are independent in the regular expression, so unbalanced parentheses are accepted. The model follows the regular expression.
- All React pages and components, API wrappers, authentication, search, seeders, migrations and Tailwind configuration are not part of this model.
