# AyurVeda storefront: a Dafny model of its business logic

AyurVeda is a small shop for Ayurvedic products. It has three parts:

- a customer storefront (`script.js`): browse, filter, order, cancel, log in;
- an admin panel (`admin.js`): product CRUD, order completion, the category list, the user table;
- an Express server (`server.js`): keeps users, orders, products and categories in text files, and stores uploaded product images.

This project models the logic inside those event handlers and routes as pure functions over immutable values, and proves what they promise.

The model works with these stand-ins:

- Browser storage is a `Storefront.Client` value: products, orders, registered users and the logged-in customer.
- The server's disk is a map from paths to file contents (`Store.Files`).
- A server reply is a `Result` whose failure is the HTTP status code.
- Dialog answers, form fields, `Date.now()`, `Math.random()` and server replies are parameters.

Modules, one per file:

| module | file | what it covers |
|---|---|---|
| `Wrappers` | wrappers.dfy | `Option` and `Result` |
| `Text` | text.dfy | `trim`, ASCII `toLowerCase`, `includes`, `split`/`join` on one character, decimal numerals of timestamps, the category slug |
| `Seqs` | seqs.dfy | `filter`, counting, `find`/`findIndex`, the stable newest-first sort, sums |
| `Pricing` | pricing.dfy | the discounted price, the order dialog's quote, the price-filter buckets |
| `Catalog` | catalog.dfy | products, the built-in catalogue, the listing filters, admin add/edit/delete |
| `Users` | users.dfy | registered users and the upsert keyed by mobile number |
| `Orders` | orders.dfy | placing, cancelling and completing orders, the status tabs and badges, transaction totals, the admin user table |
| `Categories` | categories.dfy | admin category add/rename/delete, the newline-separated category file, dropdown options |
| `Store` | store.dfy | the server's document endpoints, the category endpoints, image upload and image deletion |
| `Sync` | sync.dfy | how each page reconciles its stored lists with the server's copies |
| `Storefront` | storefront.dfy | ordering from the form and in one click, login, signup, profile, logout; the category filter against the built-in products |

Prices and discounts are whole numbers. `Math.round(x)` rounds halves upward, which is `floor(x + 1/2)`. So the price charged, `Math.round(price - price*discount/100)`, equals `(100*price - price*discount + 50) / 100` with floor division.

## Model

| member | source | states |
|---|---|---|
| `Pricing.DiscountedPrice` | script.js:555 | The charged price lies within half a rupee of the exact discounted price, with halves rounded up. |
| `Pricing.DiscountedPriceUnique` | script.js:334 | Any integer within half a rupee of the exact price (halves upward) is the listed price, so listing and order agree. |
| `Pricing.DiscountedPriceBounds` | script.js:555 | For a price ≥ 0 and a discount in [0, 100], the charged price lies in [0, price]. |
| `Pricing.DiscountedPriceExample` | script.js:237-238 | The built-in 799 rupee oil at 25 percent sells for 599. |
| `Pricing.ModalQuote` | script.js:500-502 | The dialog's final price plus its saving is the original price, and the saving is the rounded discount amount. |
| `Pricing.ModalQuoteGap` | script.js:501-502 | The dialog's final price is one rupee below the charged price exactly when price×discount ends in 50, and equal to it otherwise. |
| `Pricing.ModalQuoteCounterexample` | script.js:501-502 | A 10 rupee item at 5 percent: the dialog says 9 and the order records 10. |
| `Pricing.OrderQuote` | script.js:500-502 | The corrected quote: the final price is the rounded discounted price and the saving makes up the rest of the original. |
| `Pricing.BucketOf` | script.js:455-467 | Every price falls in one of the four offered buckets. |
| `Pricing.PriceRangesPartition` | script.js:455-467 | A product passes a bucket's test if and only if that bucket is its `BucketOf`, so the buckets are disjoint and cover all prices. |
| `Pricing.BucketUsesUnroundedPrice` | script.js:457 | Buckets compare the unrounded price: an item listed at 500 (834 at 40 percent) is filed under 500-1000, not 0-500. |
| `Catalog.ListedPriceInRange` | script.js:334 | Every well-priced product is listed at a price between 0 and its list price. |
| `Catalog.DefaultProductsWellPriced` | script.js:232-305 | The eight built-in products have non-negative prices and discounts within [0, 100]. |
| `Catalog.ApplyFilters` | script.js:446-473 | The listing holds exactly the products that pass all four filters, in catalogue order. |
| `Catalog.ApplyFiltersMultiplicity` | script.js:446-473 | A passing product appears as often as in the catalogue; a failing one does not appear. |
| `Catalog.ApplyFiltersNoCriteria` | script.js:446-452 | With every filter control empty, the whole catalogue is listed. |
| `Catalog.CheckForm` | admin.js:435-448 | The form is accepted if and only if the name is non-blank, a category and an image are given, the price is above 0 and the discount lies in 1..100. A refusal is never "not found". |
| `Catalog.FromForm` | admin.js:423-459 | A product built from an accepted form carries the given id and the form's values: the trimmed name, the category, the price, the discount, the uploaded path or else the trimmed URL as its image, and the trimmed description. It is well priced. |
| `Catalog.AddProduct` | admin.js:420-461 | An accepted form appends the product `FromForm` builds from it, with id `now`, and keeps the earlier ones. A refused form gives the validation error. |
| `Catalog.EditProduct` | admin.js:500-545 | The edit succeeds if and only if the form is accepted and the id exists. It replaces only the first product with that id by the product `FromForm` builds from the form under that id. An unknown id is refused. |
| `Catalog.DeleteProduct` | admin.js:558-563 | A confirmed delete keeps every copy of each product with another id, in order, and no product with the id. A dismissed one changes nothing. |
| `Catalog.DeleteUnknownId` | admin.js:563 | Deleting an id nobody has leaves the catalogue unchanged. |
| `Catalog.AdminKeepsWellPriced` | admin.js:440-448 | Add, edit and delete keep every price and discount in range. |
| `Users.Upsert` | script.js:1130-1156 | With the mobile registered, only the first such user's name, address and email change. Otherwise exactly one new user is appended. |
| `Users.UpsertCounts` | script.js:1134-1156 | The number of users with a given mobile goes from 0 to 1, or stays unchanged; no other mobile's count moves. |
| `Users.UpsertKeepsUnique` | script.js:1134-1156 | Upserting keeps mobile numbers unique. |
| `Users.UpsertKeepsKeys` | script.js:1136-1156 | The upsert never removes a user and never rewrites a stored user's id or mobile. |
| `Orders.OrderIdsDistinct` | script.js:564 | Two order ids are equal if and only if they were made at the same millisecond. |
| `Orders.PlaceOrder` | script.js:548-584 | An unknown product adds nothing; otherwise exactly one in-progress order is appended after the unchanged earlier ones. It carries the product's name, image, price and discount, the customer's fields and the rounded price, and it is due seven days after `now`. |
| `Orders.OrderQuoteMatchesOrder` | script.js:555 | The corrected dialog quote equals what the placed order records. |
| `Orders.PlaceOrderPriceConsistent` | script.js:555-570 | For well-priced products, every order's price is the rounded discounted price and lies between 0 and the original. |
| `Orders.PlaceOrderKeepsUniqueIds` | script.js:564 | Placing an order keeps ids unique when no earlier order was placed at the same millisecond. |
| `Orders.CancelOrder` | script.js:800-830 | A dismissed prompt, an unconfirmed dialog or an unknown id changes nothing. Otherwise only the first order with the id changes: its status becomes cancelled and it records `now` and the trimmed reason, or keeps the old reason if the new one is blank. Its other fields stay. |
| `Orders.MarkCompleted` | admin.js:686-696 | Once confirmed, only the first order with the id becomes completed and nothing else about it changes. An unknown id changes nothing. |
| `Orders.FinalStatusesStay` | script.js:748 | Pressing cancel or complete on an in-progress order (the only orders offered the buttons) never touches a completed or cancelled order. |
| `Orders.StatusChangesKeepPrices` | script.js:826-830 | Cancelling and completing keep every order's prices consistent. |
| `Orders.StatusCountsPartition` | script.js:652-655 | The in-progress, completed and cancelled badges add up to the "all" badge. |
| `Orders.CancelMovesCount` | script.js:826 | Cancelling an in-progress order moves one from the in-progress badge to the cancelled badge. |
| `Orders.OrderList` | script.js:679-699 | A tab lists exactly the orders with its status, newest first, as many as its badge says. |
| `Orders.CustomerOrders` | script.js:679-699 | The customer's tabs list their status's orders newest first; "all" lists every order. |
| `Orders.AdminOrders` | admin.js:603-616 | The admin tabs list their status's orders newest first; every tab value other than in-progress and completed lists all orders. |
| `Orders.OrderListKeepsTies` | script.js:699 | Orders with the same date keep their stored order in every list. |
| `Orders.AdminBadgeHidesCancellation` | admin.js:635 | As written, the admin badge of a cancelled order reads "In Progress", like an in-progress one. |
| `Orders.AdminStatusText` | admin.js:635 | The corrected badge agrees with the written one on in-progress and completed orders. |
| `Orders.AdminStatusTextDistinguishes` | script.js:716 | The corrected badge, like the customer's, gives different statuses different texts. |
| `Orders.Transactions` | script.js:938-943 | The summary lists every order newest first; its count, total spent and total saved are those of the stored orders. |
| `Orders.SpentPlusSavedIsOriginal` | script.js:942-943 | Total spent plus total saved is the sum of the original prices. |
| `Orders.TransactionTotals` | script.js:942-943 | The totals account for the full list price; with consistent prices neither total is negative. |
| `Orders.PlaceOrderCounts` | admin.js:747-749 | Placing an order adds one to its customer's order count and to nobody else's. |
| `Orders.StatusChangesKeepCounts` | admin.js:747-749 | Cancelling or completing leaves every user's order count alone. |
| `Orders.RowsOf` | admin.js:745-749 | There is one row per user, and each row's count is the number of orders from that user's mobile. |
| `Orders.UserTable` | admin.js:742-749 | The user table holds the same rows, newest registration first. |
| `Categories.AddCategory` | admin.js:824-852 | A blank name is refused as blank. A name taken up to case is refused as a duplicate. Otherwise the trimmed, non-blank name is appended. |
| `Categories.Assign` | admin.js:909 | Assigning sets one position; past the end the positions in between become empty. |
| `Categories.EditCategory` | admin.js:879-909 | A dismissed, blank or unchanged answer does nothing. A name another position holds up to case is refused. Otherwise the trimmed name replaces the entry at the index. |
| `Categories.DeleteCategory` | admin.js:935-953 | Once confirmed, the entry at an in-range index is removed and the others keep their order; past the end nothing is removed. |
| `Categories.AddKeepsNoCaseDuplicates` | admin.js:846-852 | Adding keeps the list free of names equal up to case. |
| `Categories.EditKeepsNoCaseDuplicates` | admin.js:903-909 | Renaming in range keeps the list free of names equal up to case. |
| `Categories.DeleteKeepsNoCaseDuplicates` | admin.js:953 | Deleting keeps the list free of names equal up to case. |
| `Categories.Decode` | server.js:217 | Reading the category file never yields a blank or multi-line name. |
| `Categories.DecodeEncodeFilters` | server.js:203-217 | One-line names read back as the non-blank ones, in order. |
| `Categories.DecodeEncode` | server.js:203-217 | Non-blank one-line names read back exactly as saved. |
| `Categories.DecodeEncodeDecode` | server.js:203-217 | Saving what was read and reading again gives the same list. |
| `Categories.TrimmedStorable` | admin.js:826 | A typed one-line, non-blank name trims to a storable one. |
| `Categories.AddKeepsStorable` | admin.js:852 | Adding a one-line name keeps every entry storable. |
| `Categories.EditKeepsStorable` | admin.js:909 | Renaming in range to a one-line name keeps every entry storable. |
| `Categories.DeleteKeepsStorable` | admin.js:953 | Deleting keeps every entry storable. |
| `Categories.DecodeDropsEmpty` | server.js:217 | Empty entries between names vanish on the way through the file. |
| `Categories.EditPastEndAppends` | admin.js:909 | Renaming at an index past the end reads back as an append of the trimmed name. |
| `Categories.CategoryOptions` | admin.js:816-817 | There is one option per category, in order, valued by a slug with no whitespace and no capitals. |
| `Categories.SlugIgnoresCase` | admin.js:817 | Names equal up to case get the same option value. |
| `Text.Slug` | script.js:1202 | A slug has no whitespace and no capitals. |
| `Text.SlugIdempotent` | admin.js:817 | The slug of a slug is itself. |
| `Text.JoinSplit` | server.js:203 | Splitting on a character and joining back gives the original text. |
| `Text.SplitJoin` | server.js:217 | Joining separator-free pieces and splitting again gives the pieces. |
| `Store.SaveDoc` | server.js:95-104 | A save overwrites exactly its own file and replies success; a body without the array replies 500 and writes nothing. |
| `Store.GetDoc` | server.js:107-120 | A missing file reads as the empty list; on files as the server writes them, a read succeeds. |
| `Store.SaveUsers` | server.js:95-104 | `/save-users` fails exactly when the body has no users, and touches no other file. |
| `Store.GetUsers` | server.js:107-120 | `/get-users` answers `[]` without a file. |
| `Store.SaveOrders` | server.js:123-132 | `/save-orders` fails exactly when the body has no orders, and touches no other file. |
| `Store.GetOrders` | server.js:135-148 | `/get-orders` answers `[]` without a file. |
| `Store.SaveProducts` | server.js:153-169 | `/save-products` fails exactly when the body has no products, and touches no other file. |
| `Store.GetProducts` | server.js:172-186 | `/get-products` answers `[]` without a file. |
| `Store.SaveThenGet` | server.js:95-186 | Reading users, orders or products right after saving them gives back what was saved. |
| `Store.SavesAreIndependent` | server.js:98 | Saving one document leaves the reads of the others unchanged. |
| `Store.FreshServer` | server.js:110-116 | A server without data files answers empty lists and the five default categories. |
| `Store.SaveCategories` | server.js:191-204 | `/save-categories` writes the names joined by newlines; a body without the array replies 500 and writes nothing. |
| `Store.GetCategories` | server.js:211-229 | `/get-categories` answers the five defaults without a file and only storable names in any case. |
| `Store.DefaultCategoriesStorable` | server.js:221-227 | The default names are non-blank one-liners. |
| `Store.CategoriesRoundTrip` | server.js:203-217 | Saved storable categories read back unchanged. |
| `Store.CategoriesResaved` | server.js:203-217 | Saving the categories just read and reading again gives the same answer. |
| `Store.ReadBackSaved` | server.js:203-217 | Reading the categories right after saving them decodes exactly the text that was written. |
| `Store.SavedBlanksVanish` | server.js:217 | Saved one-line categories read back without the blank ones. |
| `Store.Extname` | server.js:29 | An extension has no slash; when non-empty it starts with its only dot. |
| `Store.ExtnameOfName` | server.js:41 | The extension of `stem.ext` is `.ext`, whatever dots the stem has. |
| `Store.StoredName` | server.js:26-30 | A stored file name is non-empty, has no slash and does not start with a dot. |
| `Store.UploadImage` | server.js:33-64 | No file replies 400. A refused type or an over-limit size stores nothing. Otherwise exactly the file `images/<name>` is added and its path is replied. |
| `Store.FilterIsUnanchored` | server.js:40-42 | The allow-list passes any text containing an image type, such as `.phpng`. |
| `Store.DeleteImage` | server.js:72-86 | As written, a success removes exactly one existing file, and a failure changes nothing. |
| `Store.DeleteImageEscapes` | server.js:74-78 | As written, deleting the "image" `../data/users.txt` removes the users file and replies success. |
| `Store.ImagePathEscapes` | server.js:75 | The image path built from `../data/users.txt` is the users file. |
| `Store.DeleteImageSafe` | server.js:72-82 | The corrected route refuses a name that is not one plain segment with 400. It succeeds exactly when `images/<name>` exists, and it only ever removes files under `images/`. |
| `Store.DeleteImageSafeAgrees` | server.js:77-82 | On plain names the corrected route and the written one behave the same. |
| `Store.UploadThenDelete` | server.js:59-79 | Deleting an upload by the name the reply gave restores the files as they were before it. |
| `Sync.AdoptIfEmpty` | script.js:1178-1183 | The users and orders lists take the server copy only when the server sent a non-empty list and the local one is empty. The result is empty only if both were. |
| `Sync.LoadProducts` | script.js:218-318 | Products: a non-empty server list wins; otherwise the local list; with both empty, the built-in eight, which are also pushed to the server. An unreachable server keeps the local list. |
| `Sync.AdminLoadProducts` | admin.js:330-341 | On the admin page, a non-empty server list overwrites the local one; otherwise the local one stays. |
| `Sync.StorefrontProductsNonEmpty` | script.js:223-311 | Unless the server is unreachable, the storefront always ends up with products. |
| `Sync.RulesDisagreeOnNonEmptyLocal` | script.js:1178-1183 | With non-empty local and server lists, users and orders keep the local list while both product rules take the server's. |
| `Sync.AdminAgreesWithStorefront` | admin.js:335-336 | Whenever the storefront does not install the built-in products, both pages load the same product list. |
| `Sync.AdoptIfEmptyIdempotent` | script.js:1261-1266 | Adopting twice with the same reply is adopting once. |
| `Sync.LoadProductsIdempotent` | script.js:223-311 | Loading products twice with the same reply settles after the first load. |
| `Storefront.Place` | script.js:548-553 | An order is appended if and only if the parsed product id names a product. |
| `Storefront.SubmitOrderAsWritten` | script.js:526-584 | As written, the form upserts the typed name, mobile and address with an empty email, even when the product is not found, and stores them as a session without email. It appends exactly one order, built from the found product with an empty email, if and only if the parsed id names a product. |
| `Storefront.SubmitOrder` | script.js:526-584 | The corrected form upserts the typed fields with the session's email and stores them as the session. It appends exactly one order, built from the found product with that email, if and only if the parsed id names a product. |
| `Storefront.QuickBook` | script.js:845-893 | With a session and a known product, exactly one order is appended: the in-progress order built from that product for the session's customer, with the given payment method, the rounded price and the dates from `now`. Users and session stay; without a session nothing changes. |
| `Storefront.SubmitOrderErasesEmail` | script.js:538-546 | As written, submitting the form with a registered mobile sets that user's email to empty and keeps their id. |
| `Storefront.SubmitDiffersFromQuickBook` | script.js:574 | As written, for a customer with an email the form and one-click booking record different orders. |
| `Storefront.SubmitOrderKeepsEmail` | script.js:546 | Corrected, a registered customer's form order leaves users and session unchanged and books exactly the one-click order. |
| `Storefront.Login` | script.js:1445-1479 | The typed mobile is trimmed, and an empty local user list is first refilled by the adopt rule. The first user with the mobile becomes the session; an unknown mobile keeps the session as it was. |
| `Storefront.LoginPicksFirst` | script.js:1454-1479 | With users stored, login makes the first user with the typed mobile the session and changes nothing else. |
| `Storefront.Signup` | script.js:1488-1518 | A registered mobile refuses the signup and changes nothing. Otherwise one user with the trimmed fields is appended and becomes the session. |
| `Storefront.UpdateProfile` | script.js:1304-1322 | The trimmed fields become the session and the mobile is registered. Stored ids and mobiles never change. |
| `Storefront.Logout` | script.js:1394-1398 | A confirmed logout forgets the session and nothing else. |
| `Storefront.LoginAfterSignup` | script.js:1498-1518 | Logging in right after signing up with the same mobile gives the signup's session. |
| `Storefront.LogoutThenLogin` | script.js:1460-1479 | Logging out and back in with the session's own mobile restores the state. |
| `Storefront.UserWritesKeepUniqueMobiles` | script.js:1134 | Signup, profile edits and order forms keep mobile numbers unique. |
| `Storefront.ProfileMobileChangeAddsUser` | script.js:1322 | Changing the profile to an unregistered mobile registers a second user and keeps the old entry. |
| `Storefront.SlugHead` | script.js:1202 | A slug starts with the lower-cased first letter of the name. |
| `Storefront.CategoryFilterHidesBuiltIns` | script.js:1196-1203 | As written, selecting any of the five default categories in the storefront filter lists none of the built-in products. |
| `Storefront.ApplyFiltersCorrected` | script.js:446-473 | The corrected listing holds exactly the products that pass, in catalogue order. A product passes the category test when its category is the option's value or its `getCategoryName` display name slugs to it. Everything the written filter lists stays listed, and with no category chosen the two listings are equal. |
| `Storefront.ApplyFiltersCorrectedMultiplicity` | script.js:446-473 | Under the corrected filter a passing product appears as often as in the catalogue, and a failing one not at all. |
| `Storefront.AdminProductListed` | admin.js:816-817 | A product saved under the admin dropdown's option for a category, whose value is the category's slug, is listed under that category's storefront option. |
| `Storefront.CorrectedAgreesOffBuiltIns` | script.js:452 | For a product whose category is a slug and not one of the five built-in keys, the corrected test passes exactly when the written one does. |
| `Storefront.CategoryNameOfKey` | script.js:359-367 | `getCategoryName` maps the five built-in keys to the five default category names, in order. |
| `Storefront.CategoryFilterFindsBuiltIns` | script.js:1200-1203 | With the slug option values and the corrected test, every default category lists at least one built-in product. |
| `Storefront.BuiltInsListedUnderSomeCategory` | script.js:1200-1203 | With the slug option values and the corrected test, every built-in product is listed under one of the default categories. |

## Left out

- Rendering: HTML templates, notifications, modals, receipts and the WhatsApp link. They are UI. Dialog answers are parameters: a `bool` for a confirmation, an `Option<string>` for a prompt.
- `fetch`, `localStorage`, Express, multer and `fs`. These are I/O. A server write that fails for a reason other than a missing body is not modelled.
- Concurrency: two tabs or an admin and a customer racing on the same documents, and the order in which un-awaited saves reach the server. Only single steps are modelled.
- Time: `Date.now()` and `new Date()` are one parameter `now` in milliseconds. The source reads the clock separately for the id and for the dates, and `setDate(+7)` moves by calendar days across daylight-saving changes; both are modelled as one instant plus seven times 86 400 000 ms. `registeredOn` is that number, not an ISO string.
- Floating point: prices and discounts from `parseFloat` are integers here, and `NaN` is `None`. Fractional prices are not modelled.
- JSON: documents are stored as values, so the text encoding and `JSON.parse` of `JSON.stringify` are not modelled.
- A category file holding something other than text is modelled as a 500 reply.
- `toLowerCase` is modelled on ASCII letters only.
- `encodeURIComponent`, the email endpoint and `sendOrderConfirmationEmail` are not modelled, beyond noting which orders carry an email.
- `config.js` (the API base URL) is not part of this model.
- Admin login, the admin image-upload handler's DOM updates and the image preview are UI.
- The category handlers first read the list from the server. A failed read ("Error loading categories") changes nothing and is not modelled; the `Categories` operations take the list as read.
- `Store.DeleteImage`: a file name whose path climbs above the project directory is answered 404 here. The real server would look outside the project.
- `Store.UploadImage`, `Store.UploadThenDelete`: the server is assumed to run with the project directory as its working directory. multer stores uploads under the relative `images/` (server.js:24), while the server creates, serves and deletes from `images` under `__dirname` (server.js:13-19, 75). Started from elsewhere, uploads fail or land in another directory, and the delete answers 404; the model has one `images/` directory.
- `Store.UploadImage`: the reply for an over-limit file is stated only as a failure, because the status comes from Express's default error handler.
- `Sync.LoadProducts`: a successful reply without a `products` array throws and falls back to the local list; the model treats every reply as well shaped.
- `Storefront.Login`: when the mobile is unknown, the source offers a signup form pre-filled with that mobile. The model only keeps the session unchanged.
- `Storefront.Signup`: blank fields are not checked by the handler; any required-field checks the HTML form makes are not modelled.

## Findings

| source | as written | input that shows it | evidently intended | confidence | as-written member | corrected member |
|---|---|---|---|---|---|---|
| script.js:501-502 | The order dialog's final price is `price - Math.round(price*discount/100)`. The order charges `Math.round(price - price*discount/100)`. | price 10, discount 5: the dialog shows 9, the order records 10 | The dialog shows the price the order records. | high; not executed | `Pricing.ModalQuoteCounterexample` | `Orders.OrderQuoteMatchesOrder` |
| server.js:74-78 | `path.join(__dirname, 'images', filename)` with the decoded route parameter is unlinked if it exists. | `DELETE /delete-image/..%2Fdata%2Fusers.txt` deletes `data/users.txt` | Only files inside `images/` can be deleted. | high; not executed | `Store.DeleteImageEscapes` | `Store.DeleteImageSafe` |
| admin.js:635 | The admin badge reads "Completed" for completed orders and "In Progress" for everything else. The "all" tab lists cancelled orders. | a cancelled order on the admin "all" tab shows "In Progress" | The badge names all three statuses, as the customer page does. | medium; not executed | `Orders.AdminBadgeHidesCancellation` | `Orders.AdminStatusTextDistinguishes` |
| script.js:538-546 | The order form builds a customer record without an email and upserts the user with `customerInfo.email \|\| ''`. | a customer registered with an email submits the order form: the stored email becomes empty, the session loses it, and the order carries none (so no confirmation mail is sent) | The customer's email is kept, as `quickBookOrder` keeps it. | high; not executed | `Storefront.SubmitOrderErasesEmail` | `Storefront.SubmitOrderKeepsEmail` |
| script.js:1200-1203 | The storefront's category options are slugs of the category names, such as `herbal-oils`. The built-in products carry short keys such as `oils`, which `getCategoryName` pairs with those very names. | choosing "Herbal Oils" in the category filter with the built-in catalogue lists nothing | Each category lists the products filed under it. The built-in products are filed under their `getCategoryName` display name, and the admin panel's products under the category whose slug they carry. | medium; not executed | `Storefront.CategoryFilterHidesBuiltIns` | `Storefront.CategoryFilterFindsBuiltIns` |
