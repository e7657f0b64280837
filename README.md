# Featured-products cache and user schema of an e-commerce backend, in Dafny

This project models the part of the store's backend that has real behaviour:

- the product controller (`backend/controllers/product.controller.js`). Its shared state is the
  product collection and the Redis key `featured_products`. The handlers are:
  - `getFeaturedProducts`: a read-through over that key.
  - `toggleFeaturedProduct`: flips a product's flag and eagerly refreshes the key through
    `updateFeaturedProductsCache`.
  - `deleteProduct`: removes a product after a best-effort destroy of its image. The destroy
    target is derived from the image URL.
  - the category query and the four-record random recommendation.
- the user schema (`backend/models/user.model.js`). It covers the required fields, the password
  minimum length, the lower-cased and trimmed email, the unique email index, the `role` enum
  with its default, the cart item quantity default, the pre-save hook that hashes a modified
  password, and `matchPassword`.

Files:

- `wrappers.dfy`: `Option` and `Result`.
- `public_id.dfy` (module `PublicId`): JavaScript `split`/`join` on one character, with their
  round trip. Also the image public id `url.split("/").pop().split(".")[0]` and the destroy
  target `products/<id>`.
- `catalog.dfy` (module `Catalog`): the product collection and the queries the controller runs
  on it. `find` with a filter, `findById`, flipping one record, deleting one record,
  `$sample` + `$project`.
- `product_controller.dfy` (module `ProductController`): class `Controller`. Its fields `store`
  and `cache` are the collection and the cache key, and its methods are the handlers. A few
  client methods at the end show what callers can conclude from the handlers' contracts: two
  reads in a row, a toggle then a read, an empty view, a stale cache after a delete.
- `user_model.dfy` (module `UserModel`): validation and normalisation as functions. Class
  `UserDocument` carries the pre-save hook and `matchPassword`.

How collaborators are modelled:

- The product collection is a sequence in the store's natural scan order. Every record has a
  distinct id, so a filter returns its matches in scan order.
- The cache key holds the list itself. Serialising with `JSON.stringify` and reading back with
  `JSON.parse` is taken to give the same list.
- Whether a Redis, MongoDB or Cloudinary call fails is a boolean parameter of the handler. A
  call that fails changes nothing.
- A thrown error inside a handler's `try` becomes `ServerError` (500). A missing record is
  `NotFound` (404). `NoReply` means no response is sent.
- `$sample` is the list of positions the store happened to draw. That list is a parameter
  constrained by `Catalog.IsSample`: `min(4, n)` distinct positions in any order.
- bcrypt's `genSalt`, `hash` and `compare` are function parameters.

Behaviour the model keeps exactly as the code has it:

- A failing `redis.get` or `redis.set` on the read path is not treated as a miss and is not
  ignored. It fails the request with 500 and no list is returned, because both calls sit inside
  the handler's `try`. A cache meant to degrade silently would behave otherwise.
- An empty featured set is a success. `find` returns an array, so the `!featuredProducts` 404
  branch can never be taken: `[]` is cached and returned. The model leaves that branch out, and
  `Catalog.WhereNone` and `ProductController.EmptyViewIsCached` state what happens instead.
- The refresh after a toggle swallows its own errors. The flipped flag stays saved, the updated
  record is returned, and the cache keeps its old value.
- A delete never touches the cache, so the cache can go on listing a deleted product.
- The image is destroyed before the record is deleted. If the delete then fails, the request
  fails with 500, but the destroy request has already been sent.
- `createProduct` reads `image`, which it never binds. The `ReferenceError` this throws is
  swallowed by an empty `catch`, so the handler never creates anything and never replies.

## Model

| member | source | states |
|---|---|---|
| `PublicId.Split` | backend/controllers/product.controller.js:79 | `split` on one character always gives at least one piece; no piece contains the separator; joining the pieces gives back the string; the first piece is a prefix of it |
| `PublicId.SplitJoin` | backend/controllers/product.controller.js:79 | splitting a joined list gives the list back when no piece contains the separator (the other direction of the round trip) |
| `PublicId.ImagePublicId` | backend/controllers/product.controller.js:79 | the derived public id contains neither '/' nor '.' |
| `PublicId.PublicIdDecomposition` | backend/controllers/product.controller.js:79 | the public id is exactly the text after the last '/' up to the first '.': the URL is `before + id + after`, `before` empty or ending in '/', `after` empty or starting with '.' and free of '/' |
| `PublicId.DestroyTarget` | backend/controllers/product.controller.js:81 | the destroy target is `products/` followed by the public id, and nothing after the folder prefix is a '/' or '.' |
| `Catalog.Where` | backend/controllers/product.controller.js:124 | `find(filter)` returns exactly the records that pass the filter, never more records than the store holds |
| `Catalog.WhereAppend` | backend/controllers/product.controller.js:28 | filtering keeps scan order: the result over two stretches of the store is the two results in turn |
| `Catalog.WhereUnique` | backend/controllers/product.controller.js:124 | a filter over records with distinct ids returns records with distinct ids |
| `Catalog.WhereNone` | backend/controllers/product.controller.js:28-37 | when nothing passes the filter, `find` yields the empty list rather than nothing, so the featured read's 404 branch cannot be reached |
| `Catalog.Featured` | backend/controllers/product.controller.js:153 | the featured view holds a record exactly when the record is in the store with `isFeatured` true |
| `Catalog.InCategory` | backend/controllers/product.controller.js:124 | the category query holds a record exactly when it is in the store with that category |
| `Catalog.FindIndex` | backend/controllers/product.controller.js:134 | `findById` finds a record carrying that id, and finds none exactly when no record has that id |
| `Catalog.Flip` | backend/controllers/product.controller.js:136 | flipping negates `isFeatured` and changes no other field |
| `Catalog.Toggled` | backend/controllers/product.controller.js:136-137 | the toggled store has the same length; the record at the position is replaced by its flipped copy, so it keeps its id and every other field and has its flag negated; every other record is unchanged |
| `Catalog.ToggleTwice` | backend/controllers/product.controller.js:136 | toggling the same record twice restores the store |
| `Catalog.FeaturedAfterToggle` | backend/controllers/product.controller.js:136-138 | after a toggle the featured view lists the flipped record exactly when the old one was not featured, never lists the old version, and lists every record with another id as before |
| `Catalog.Removed` | backend/controllers/product.controller.js:88 | deleting leaves one record fewer |
| `Catalog.RemovedMembers` | backend/controllers/product.controller.js:88 | after a delete the store holds exactly the records whose id differs from the deleted one |
| `Catalog.RemovedUnique` | backend/controllers/product.controller.js:88 | the remaining ids stay distinct |
| `Catalog.Project` | backend/controllers/product.controller.js:104-110 | the projection keeps exactly `_id, name, description, image, price` of the record |
| `Catalog.Projected` | backend/controllers/product.controller.js:104-110 | the projected store holds the projection of every store record and nothing that is not the projection of one |
| `Catalog.Recommend` | backend/controllers/product.controller.js:99-112 | the recommendation has `min(4, n)` entries, each a projected store record, with distinct ids when the store's are |
| `Catalog.SampleExists` | backend/controllers/product.controller.js:101 | a sample of size `min(4, n)` exists for every store size |
| `Catalog.SampleCoversAll` | backend/controllers/product.controller.js:101 | `n` distinct positions below `n` cover every position |
| `Catalog.SmallStoreRecommendsAll` | backend/controllers/product.controller.js:99-112 | with at most four records, the recommendation contains every record of the store, projected |
| `ProductController.Controller.GetFeaturedProducts` | backend/controllers/product.controller.js:18-45 | the store is never changed. A cache read failure is a 500 and the cache is unchanged. On a hit the cached list is returned and the cache is unchanged. On a miss a failing store read or cache write is a 500 and the cache is unchanged. Otherwise the featured view of the store is returned and written to the cache |
| `ProductController.Controller.UpdateFeaturedProductsCache` | backend/controllers/product.controller.js:149-158 | on success the cache holds the featured view of the current store; a failure is swallowed and leaves the cache as it was; the store is never changed |
| `ProductController.Controller.ToggleFeaturedProduct` | backend/controllers/product.controller.js:132-147 | a failing lookup or save is a 500, and a missing id is a 404; in all three cases the store and cache are unchanged. Otherwise the store becomes the toggled store and the updated record is returned. The cache is the featured view of the new store if the refresh succeeds, and is left unchanged if it fails |
| `ProductController.Controller.DeleteProduct` | backend/controllers/product.controller.js:70-95 | the cache is never changed. A failing lookup is a 500 and a missing id is a 404; neither changes the store or sends a destroy. For a found record, a destroy of `products/<public id>` is sent exactly when the record has an image, whatever the destroy's outcome. Then a failing delete is a 500 with the store unchanged; otherwise the store loses exactly that record |
| `ProductController.Controller.GetProductsByCategory` | backend/controllers/product.controller.js:121-130 | a 500 exactly when the query fails; otherwise exactly the store's records of that category, with distinct ids |
| `ProductController.Controller.GetRecommendedProducts` | backend/controllers/product.controller.js:97-119 | a 500 exactly when the query fails; otherwise `min(4, n)` projected store records with distinct ids |
| `ProductController.Controller.CreateProduct` | backend/controllers/product.controller.js:47-68 | the handler never replies and changes nothing |
| `ProductController.ReadTwice` | backend/controllers/product.controller.js:20-37 | with no write in between, a second featured read is a hit that returns the first read's list, and the cache holds that list; from a cold cache that list is the featured view |
| `ProductController.ToggleThenRead` | backend/controllers/product.controller.js:136-138 | after a toggle whose refresh succeeds, the next featured read returns the featured view of the updated store |
| `ProductController.EmptyViewIsCached` | backend/controllers/product.controller.js:28-37 | with nothing featured and a cold cache, the read succeeds with `[]` and caches `[]` |
| `ProductController.StaleAfterDelete` | backend/controllers/product.controller.js:88 | after the view is read and its only product deleted, the store is empty while the cache still lists the product |
| `UserModel.TrimStart` | backend/models/user.model.js:14 | removes exactly the leading whitespace: the result is a suffix, is empty or starts with a non-space, and everything removed is whitespace |
| `UserModel.TrimEnd` | backend/models/user.model.js:14 | removes exactly the trailing whitespace, symmetrically |
| `UserModel.Trim` | backend/models/user.model.js:14 | the trimmed string is a contiguous stretch of the input with only whitespace before and after it, and it is empty or begins and ends with a non-space |
| `UserModel.TrimIdempotent` | backend/models/user.model.js:14 | trimming twice is trimming once |
| `UserModel.ToLower` | backend/models/user.model.js:13 | lower-casing keeps the length and lower-cases each character |
| `UserModel.TrimLowerCommute` | backend/models/user.model.js:13-14 | lower-casing and trimming commute, so the order of the two setters does not matter |
| `UserModel.NormalizeEmail` | backend/models/user.model.js:12-14 | a stored email is a contiguous stretch of the lower-cased input with only whitespace around it; it has no capital letters and no leading or trailing whitespace |
| `UserModel.NormalizeEmailIdempotent` | backend/models/user.model.js:12-14 | normalising an already normalised email leaves it unchanged |
| `UserModel.ParseRole` | backend/models/user.model.js:34-38 | an undefined role defaults to customer; a role is accepted exactly when it is undefined, "customer" or "admin"; "customer" gives the customer role and "admin" the admin role |
| `UserModel.CastCartItem` | backend/models/user.model.js:21-33 | an undefined quantity becomes 1, a given one is kept, the product reference is kept |
| `UserModel.CastCartItems` | backend/models/user.model.js:21-33 | one cast item per submitted item, in order, each with an undefined quantity defaulted to 1 |
| `UserModel.Utf16Length` | backend/models/user.model.js:19 | the length `minlength` compares is at least the number of characters and at most twice it, and equals it when no character lies beyond U+FFFF |
| `UserModel.Violations` | backend/models/user.model.js:4-38 | the reported validator errors are exactly those that fail. `required` is checked first on each path and stops it, so an absent or empty password fails `required` only, not `minlength` |
| `UserModel.NoViolation` | backend/models/user.model.js:4-38 | a submission that meets every rule fails no validator |
| `UserModel.Build` | backend/models/user.model.js:4-38 | the stored user carries the submitted name and password, the normalised email, the parsed role (customer when none was given), and exactly the cast cart items: one per submitted item, in order, with defaulted quantities |
| `UserModel.Accept` | backend/models/user.model.js:4-41 | a user is accepted exactly when name, email and password are present, the password is at least 6 UTF-16 code units long and the role is in the enum, which is exactly when no validator fails. An accepted user carries the submitted name and password, the normalised email, the parsed role and the cast cart items. A rejected one reports a non-empty set holding exactly the failing validators |
| `UserModel.AcceptedEmailNormalized` | backend/models/user.model.js:12-14 | the email of an accepted user is unchanged by normalising it again |
| `UserModel.Insert` | backend/models/user.model.js:12 | the unique index admits a user exactly when no stored user has the same email. It then appends the user and keeps all emails distinct; otherwise it reports a duplicate key |
| `UserModel.UserDocument.SetPassword` | backend/models/user.model.js:45 | assigning a password replaces it, marks the path modified and changes no other field |
| `UserModel.UserDocument.PreSave` | backend/models/user.model.js:44-55 | an unmodified password is left unchanged and the save goes on. A modified one becomes `hash(password, genSalt(10))`. A failing salt or hash fails the save with that error and leaves the password. After a successful rehash the old plaintext matches whenever bcrypt's hash and compare agree |
| `UserModel.UserDocument.MatchPassword` | backend/models/user.model.js:57-59 | the result is bcrypt's comparison of the candidate with the stored password and depends on nothing else |

## Left out

- `getAllProducts` (backend/controllers/product.controller.js:5-16) is a plain pass-through read outside the cache protocol. It is not modelled.
- `ProductController.Controller.CreateProduct` models only what the code does (no reply, no change). Image upload, the `" "` placeholder image and `Product.create` are unreachable behind the `ReferenceError`, so they are not modelled.
- Response bodies are not modelled: the `{products}` wrapper, the message texts and the `error.message` field.
- `console.log` calls are not modelled.
- Redis is modelled as one slot holding a list. Serialisation through `JSON.stringify`/`JSON.parse` is taken to be the identity, so values that JSON changes (ObjectIds, dates) are not modelled.
- MongoDB's own failure causes are not told apart. A malformed id raises a `CastError` in `findById`, and it is covered by the lookup's failure flag like any other store error.
- `Catalog.Recommend` states distinct records, as `$sample` returns when it samples by sorting. MongoDB's random-cursor path for large collections can repeat a document, and that is not modelled.
- Prices are modelled as `real`. JavaScript number precision is not modelled.
- Product schema constraints are not modelled: `backend/models/product.model.js` is not part of this model.
- Concurrency is not modelled: readers racing on a cold cache, and a crash between the store write and the cache refresh. The model runs one handler at a time.
- `UserModel.ToLower` lower-cases ASCII letters only. JavaScript's `toLowerCase` also maps non-ASCII letters.
- `UserModel.Accept`: cart `quantity` is a Number in the schema but is modelled as `int`. Fractional values, `NaN` and the other non-integer numbers are not represented.
- `UserModel.Accept` treats an undefined path as absent. Explicit `null` values, and type casting of non-string input, are not modelled.
- The schema's `timestamps` fields are not modelled.
- bcrypt's salt randomness, its cost semantics and its 72-byte input limit are not modelled. Salt generation, hashing and comparison are given functions.
- Mongoose clears a document's modified paths after a save completes. That is framework behaviour outside the hook and is not modelled.
- `frontend/tailwind.config.js`, `frontend/src/lib/axios.js` and `backend/routes/auth.route.js` are configuration and wiring with no behaviour to model.
