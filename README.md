# kerria catalog and admin backend, modelled in Dafny

kerria is the backend of a cosmetics catalog. Administrators log in and get a
session token. With that token they maintain brands, products and a "hot"
list, which the public reads.

This project models the core of that backend:

- **The catalog tables** `brand`, `product` and `hot_product`. Every row
  carries a status code: `Valid` (0) or `Invalid` (1). Rows are never
  removed; a delete sets the status to `Invalid`. Queries are pure functions
  of a table's rows. Statements that write are methods of the table classes
  (`CosmeticsSql.BrandTable`, `ProductTable`, `HotProductTable`), and each
  method states its new rows as a function of the old ones.
- **The catalog handlers** (`CosmeticsHandlers`). Each one makes its checks
  in the source's order before it writes. Batch brand creation and reordering
  keep the source's loops.
- **Header authentication** (`Jwt`). A request must carry the exact prefix
  `"Bearer "` (the Bearer scheme of section 2.1 of RFC 6750, matched
  case-sensitively). The token is then verified, and its subject is parsed
  as a decimal `u64`.
- **The admin endpoints** (`AdminHandlers`, over the `admin_user` table in
  `AdminSql`): login, user creation restricted to the user named `admin`,
  and password change with a 12-byte minimum.

The token library (JWT, HS512) and Argon2 are passed in as function
parameters (oracles), and so are the login time and the random salt. A
verifier stands for the token library's check at one moment. `Jwt.RoundTrips`
states what the session proof assumes of it at that moment: it returns the
claims the encoder signed, as long as they have not expired.
`Jwt.RefusesExpired` states the library's expiry check.

Supporting modules:
- `RustText`: the Rust string and number functions the code relies on.
- `SortBy`: a stable sort, which models both `sort_by` and
  `ORDER BY sequence, id`.
- `Models`: paging, status codes and authentication errors.

## Behaviour worth knowing

- `update_password_handler` answers plain success. It does not issue a new
  token (src/handlers/admin.rs:91-112).
- `NewProduct::validate` checks only that the name is non-empty
  (src/models/cosmetics.rs:68-75).
- The call to `create_product` at src/handlers/cosmetics.rs:121 omits the
  brand argument. This model resolves it by storing the product under the
  request's own `brand_id` (see "## Left out"); the brand is never looked up
  by name.
- `login_handler` and `auth_handler` sign and check with the constant key
  from src/handlers/admin.rs:16. The routes built on `Jwt` use the configured
  secret instead. So a login token only passes `Jwt` when the two keys are
  equal.
- Batch creation does not check for names repeated inside the batch. Two
  active brands can end up with the same name
  (`CosmeticsHandlers.RepeatedNameInBatchAccepted`).
- Reordering never checks whether the submitted sequences are unique.
- The password length check comes before the user lookup.

## Model

| member | source | states |
|---|---|---|
| Models.RowBoundsOrdered | src/models/mod.rs:9-10 | MIN_ROWS is positive and at most MAX_ROWS |
| Models.Offset | src/sql/cosmetics.rs:88 | a missing offset is 0; a given offset is used unchanged |
| Models.Limit | src/sql/cosmetics.rs:89 | the page size is the requested size, or the default when none is given; a request above MAX_ROWS gets exactly MAX_ROWS |
| Models.PageLength | src/sql/cosmetics.rs:86-89 | `LIMIT offset, n` returns nothing when the offset is at or past the end; otherwise it returns the limit, or everything up to the end when fewer rows remain |
| Models.Page | src/sql/cosmetics.rs:82-89 | `LIMIT offset, limit`: exactly PageLength rows; its k-th element is the input's (Offset+k)-th; empty past the end |
| Models.PageOrdered | src/sql/cosmetics.rs:186-204 | a page of a strictly ordered listing is strictly ordered |
| Models.CommonStatus.Code | src/models/mod.rs:44-48 | Valid is stored as 0 and Invalid as 1 |
| Models.CommonStatus.Display | src/models/mod.rs:50-57 | the text form is one character |
| Models.DisplayIsCode | src/models/mod.rs:44-57 | the text form is the decimal form of the numeric code, so text-built and bound queries test the same rows |
| Models.CodeInjective | src/models/mod.rs:44-48 | two statuses have the same code only if they are the same status |
| Models.AuthError.Message | src/models/mod.rs:24-42 | every authentication error displays a fixed, non-empty message |
| Models.AuthErrorMessagesDistinct | src/models/mod.rs:24-42 | the eight variants have pairwise different messages |
| RustText.TrimStartMatches | src/environment/jwt.rs:39 | the result is a suffix of the input and no longer starts with a non-empty pattern |
| RustText.TrimStartMatchesRepeat | src/environment/jwt.rs:39 | every leading repetition of the pattern is stripped, however many there are |
| RustText.ToDecimal | src/handlers/admin.rs:41 | `to_string` of an unsigned id: non-empty, all digits, no leading zero, denoting the id |
| RustText.ParseU64 | src/environment/jwt.rs:54 | `parse::<u64>`: succeeds exactly on an optional '+' followed by one or more digits whose value is below 2^64 (so "+7" and "007" give 7), and then gives that value |
| RustText.ParseU64ToDecimal | src/environment/jwt.rs:54-57 | parsing the decimal text of any u64 gives it back |
| RustText.ParseU64Rejects | src/environment/jwt.rs:54-57 | an empty string, a lone '+', a '-' sign or a non-digit never parses |
| RustText.Utf8Length | src/handlers/admin.rs:96 | `len()` counts UTF-8 bytes: between one and four per character, 0 only for the empty string, and one per character for ASCII text |
| RustText.Utf8LengthAppend | src/handlers/admin.rs:96 | the byte length of a concatenation is the sum of the byte lengths |
| SortBy.Insert | src/sql/cosmetics.rs:61-62 | inserting adds exactly one element and keeps every other |
| SortBy.Sort | src/sql/cosmetics.rs:61-62 | the sort is a permutation of its input |
| SortBy.SortSorted | src/sql/cosmetics.rs:61-62 | the output is ordered by key and has exactly the input's elements |
| SortBy.SortOfSorted | src/sql/cosmetics.rs:61-62 | input already in key order comes back unchanged |
| SortBy.SortIsStable | src/sql/cosmetics.rs:82-85 | sorting an id-ordered sequence by key orders it by (key, id), the meaning of `ORDER BY sequence, id` |
| CosmeticsModels.ValidateNewBrand | src/models/cosmetics.rs:19-26 | fails exactly when the name has no bytes, with the source's message; a blank name passes |
| CosmeticsModels.ValidateNewProduct | src/models/cosmetics.rs:68-75 | fails exactly when the name has no bytes, with the source's message |
| CosmeticsModels.ValidateNewProductNameOnly | src/models/cosmetics.rs:68-75 | products with the same name get the same verdict, whatever their other fields |
| CosmeticsSql.MaxActiveSequence | src/sql/cosmetics.rs:49-58 | `MAX(sequence)` over active rows: absent exactly when no row is active, else attained by an active row and at least every active sequence |
| CosmeticsSql.GetMaxBrandSequence | src/sql/cosmetics.rs:49-58 | at least every active brand's sequence, equal to one of them, and 0 when no brand is active |
| CosmeticsSql.ActiveNameClashes | src/sql/cosmetics.rs:28-38 | exactly the submitted names that an active row carries |
| CosmeticsSql.IsBrandNamesValid | src/sql/cosmetics.rs:28-47 | succeeds exactly when the batch is non-empty and no submitted name is an active brand's name (retired brands never clash); an empty batch is a malformed query; otherwise fails naming the clashes |
| CosmeticsSql.ActiveBrandIds | src/sql/cosmetics.rs:155-160 | exactly the ids of active rows |
| CosmeticsSql.IsBrandIdsValid | src/sql/cosmetics.rs:155-166 | an empty list is a malformed query; a count mismatch fails with the submitted ids |
| CosmeticsSql.IdSetCard | src/sql/cosmetics.rs:155-166 | the set of submitted ids is as large as the list exactly when no id repeats |
| CosmeticsSql.MatchingActiveRowsCard | src/sql/cosmetics.rs:155-166 | the rows the query returns number as many as the active ids among those submitted |
| CosmeticsSql.IsBrandIdsValidIff | src/sql/cosmetics.rs:155-166 | the check passes exactly when the list is non-empty, repeats no id and names only active brands |
| CosmeticsSql.ActiveBrandRows | src/sql/cosmetics.rs:111-124 | `WHERE status = 0`: exactly the active rows |
| CosmeticsSql.SortedActiveBrandRows | src/sql/cosmetics.rs:111-124 | exactly the active rows, each once |
| CosmeticsSql.GetAllBrands | src/sql/cosmetics.rs:111-124 | every active brand and nothing else |
| CosmeticsSql.GetAllBrandsOrdered | src/sql/cosmetics.rs:111-124 | the listing is ordered by sequence, then id; no listed brand is hot |
| CosmeticsSql.GetBrands | src/sql/cosmetics.rs:78-94 | the page of the full listing at Offset: exactly PageLength rows, MAX_ROWS by default and never more |
| CosmeticsSql.GetBrandId | src/sql/cosmetics.rs:96-109 | the id of an active brand with that name; fails naming the brand exactly when no active brand has it |
| CosmeticsSql.SoftDeleteBrandRows | src/sql/cosmetics.rs:141-153 | only rows with the id change: status becomes 1 (Invalid), modifier becomes the operator, and every other column is kept |
| CosmeticsSql.SetSequenceRows | src/sql/cosmetics.rs:168-184 | only rows with the id change, and only in sequence and modifier |
| CosmeticsSql.NewBrandRows | src/sql/cosmetics.rs:63-72 | one active row per brand with its name and sequence, consecutive ids, creator = operator |
| CosmeticsSql.IsProductValid | src/sql/cosmetics.rs:358-371 | true exactly when an active product has the id |
| CosmeticsSql.UpdateProductRows | src/sql/cosmetics.rs:305-342 | rows with the id take every submitted column, status included, and the operator as modifier; the creator and all other rows stay |
| CosmeticsSql.SoftDeleteProductRows | src/sql/cosmetics.rs:344-356 | only rows with the id change: status becomes 1 (Invalid), modifier becomes the operator, and every other column is kept |
| CosmeticsSql.SoftDeleteProductInvalidates | src/sql/cosmetics.rs:344-371 | after a delete the product is no longer valid; every other product keeps its verdict |
| CosmeticsSql.ActiveProductsOfBrand | src/sql/cosmetics.rs:186-204 | exactly the brand's active products |
| CosmeticsSql.GetBrandDetail | src/sql/cosmetics.rs:186-204 | the page at Offset of the brand's active products in table order: exactly PageLength rows, MIN_ROWS by default, never above MAX_ROWS; nothing outside the brand's active products |
| CosmeticsSql.GetBrandDetailOrdered | src/sql/cosmetics.rs:186-204 | the page is in ascending product id order |
| CosmeticsSql.BrandNameOf | src/sql/cosmetics.rs:290-292 | the join finds a brand name exactly when a brand row has the id, whatever its status |
| CosmeticsSql.JoinedProducts | src/sql/cosmetics.rs:284-303 | every product whose brand row exists is listed with that brand's name, and only such products |
| CosmeticsSql.JoinedProductsOrdered | src/sql/cosmetics.rs:284-303 | `ORDER BY p.id`: over an id-ordered product table the joined list is in ascending product id order |
| CosmeticsSql.GetAllProducts | src/sql/cosmetics.rs:284-303 | the page of the joined list at Offset: exactly PageLength rows, MAX_ROWS by default and never more |
| CosmeticsSql.JoinedProductsIgnoreSoftDelete | src/sql/cosmetics.rs:284-303 | the product list does not filter on status: retiring a product leaves it unchanged |
| CosmeticsSql.GetProduct | src/sql/cosmetics.rs:265-282 | a product with the id, joined with its brand; none only when no such product has a brand row |
| CosmeticsSql.GetHotProducts | src/sql/cosmetics.rs:375-388 | `WHERE status = 0`: every active entry's product is listed, and nothing else |
| CosmeticsSql.GetHotProductsInOrder | src/sql/cosmetics.rs:375-388 | `ORDER BY id` over an id-ordered table: of two active entries, the earlier one's product is listed first |
| CosmeticsSql.GetHotProductsAppend | src/sql/cosmetics.rs:375-388 | the hot list reads in table order: appending entries appends their reading |
| CosmeticsSql.InvalidateHotRows | src/sql/cosmetics.rs:390-402 | every entry ends with status 1 (Invalid); entries already Invalid stay as they were; each other entry gets the operator as modifier and keeps every other column |
| CosmeticsSql.InvalidatedHotListEmpty | src/sql/cosmetics.rs:375-402 | after invalidation the hot list reads empty |
| CosmeticsSql.NewHotRows | src/sql/cosmetics.rs:404-417 | one active entry per id, in list order, creator = operator |
| CosmeticsSql.NewHotRowsRead | src/sql/cosmetics.rs:375-417 | freshly appended entries read back as exactly the submitted ids, in order |
| CosmeticsSql.BrandTable.CreateBrands | src/sql/cosmetics.rs:60-76 | an empty batch is a malformed query and writes nothing; otherwise appends the batch's rows in ascending-sequence order and returns true |
| CosmeticsSql.BrandTable.UpdateBrandSequence | src/sql/cosmetics.rs:168-184 | the new rows are SetSequenceRows of the old; returns whether a row has the id |
| CosmeticsSql.BrandTable.DeleteBrand | src/sql/cosmetics.rs:141-153 | the new rows are SoftDeleteBrandRows of the old; returns whether a row has the id |
| CosmeticsSql.ProductTable.CreateProduct | src/sql/cosmetics.rs:208-243 | appends one row under the given brand id and returns its fresh id |
| CosmeticsSql.ProductTable.UpdateProduct | src/sql/cosmetics.rs:305-342 | the new rows are UpdateProductRows of the old; returns whether a row has the id |
| CosmeticsSql.ProductTable.DeleteProduct | src/sql/cosmetics.rs:344-356 | the new rows are SoftDeleteProductRows of the old; returns whether a row has the id |
| CosmeticsSql.HotProductTable.DeleteHotProducts | src/sql/cosmetics.rs:390-402 | the new rows are InvalidateHotRows of the old; always returns true |
| CosmeticsSql.HotProductTable.CreateHotProducts | src/sql/cosmetics.rs:404-417 | an empty list is a malformed query and writes nothing; otherwise appends one entry per id in list order |
| CosmeticsHandlers.ValidateAll | src/handlers/cosmetics.rs:28-30 | succeeds exactly when every entry passes validation; otherwise fails with the validation message |
| CosmeticsHandlers.SequencedBrands | src/handlers/cosmetics.rs:32-44 | the k-th entry (from 0) becomes a brand with its name, sequence m+k+1, id 0, not hot |
| CosmeticsHandlers.AssignSequences | src/handlers/cosmetics.rs:32-44 | the loop that bumps `max_sequence` builds exactly SequencedBrands |
| CosmeticsHandlers.SequencedBrandsIncreasing | src/handlers/cosmetics.rs:32-44 | the new sequences strictly increase, so the store's sort keeps submission order |
| CosmeticsHandlers.CreateBrands | src/handlers/cosmetics.rs:20-50 | refuses, in order, an empty batch, an unnamed entry and a clashing name, writing nothing; otherwise appends one active row per entry in submission order, with sequences max+1 … max+n |
| CosmeticsHandlers.CreatedSequencesAboveActive | src/handlers/cosmetics.rs:32-44 | every new sequence is above every active brand's sequence |
| CosmeticsHandlers.CreateKeepsNamesUnique | src/handlers/cosmetics.rs:28-45 | a batch that passes the name check, with no name repeated inside it, keeps active names unique |
| CosmeticsHandlers.CreateKeepsSequencesUnique | src/handlers/cosmetics.rs:32-45 | a batch keeps active sequences unique |
| CosmeticsHandlers.RepeatedNameInBatchAccepted | src/handlers/cosmetics.rs:28-31 | a batch naming the same new brand twice passes every check and yields two active brands of that name |
| CosmeticsHandlers.DeletedNameReusable | src/sql/cosmetics.rs:28-47 | retiring the only active brand of a name lets a new batch use that name |
| CosmeticsHandlers.Ids | src/handlers/cosmetics.rs:91 | the request's ids, in order |
| CosmeticsHandlers.ApplySequences | src/handlers/cosmetics.rs:98-100 | the per-entry `update_brand_sequence` loop: the table keeps its length, rows with unlisted ids are untouched, and a row changes only in its sequence and modifier; ApplySequencesEffect states which sequence each listed row gets |
| CosmeticsHandlers.ApplySequencesEffect | src/handlers/cosmetics.rs:98-100 | with no id repeated, each listed brand ends with its submitted sequence and every unlisted row is untouched |
| CosmeticsHandlers.UpdateBrandsSequence | src/handlers/cosmetics.rs:83-103 | a one-entry request succeeds and changes nothing; a failed id check changes nothing; otherwise the rows are the per-entry updates applied in order |
| CosmeticsHandlers.ReorderEffect | src/handlers/cosmetics.rs:91-102 | after a passed id check, every listed id is an active brand, each gets its sequence, and the others are untouched |
| CosmeticsHandlers.SoftDeleteMissingBrand | src/sql/cosmetics.rs:141-153 | deleting an id no row has changes nothing |
| CosmeticsHandlers.DeleteBrand | src/handlers/cosmetics.rs:105-111 | retires the brand; answers No Content when a row had the id, an error otherwise |
| CosmeticsHandlers.CreateProduct | src/handlers/cosmetics.rs:115-125 | an unnamed product is refused without writing; otherwise one row is appended under the request's brand id, and its id is returned |
| CosmeticsHandlers.UpdateProduct | src/handlers/cosmetics.rs:144-159 | a product that is not active is refused without writing; otherwise every submitted column is written |
| CosmeticsHandlers.DeleteProduct | src/handlers/cosmetics.rs:161-167 | retires the product; answers No Content when a row had the id, an error otherwise |
| CosmeticsHandlers.AddHotProduct | src/handlers/cosmetics.rs:169-179 | afterwards the hot list reads exactly the submitted ids, in order (empty for an empty list) |
| CosmeticsHandlers.HotListReplaced | src/handlers/cosmetics.rs:174-177 | invalidating and then appending leaves exactly the new ids on the hot list |
| Jwt.Jwt.Encode | src/environment/jwt.rs:22-30 | `encode`: the token the library signs for the claims under this key, or none when signing fails; EncodeThenDecode proves Decode inverts it |
| Jwt.Jwt.Decode | src/environment/jwt.rs:32-50 | no header, then a missing "Bearer " prefix, then a refused token fail with their own errors; success returns what the verifier gives for the stripped token |
| Jwt.Jwt.DecodeToAdminUser | src/environment/jwt.rs:52-62 | decode errors pass through; a subject that is not a u64 is an invalid header; success carries the parsed subject and the claims' name; a subject that does parse always succeeds with that id and name |
| Jwt.RejectedBeforeVerify | src/environment/jwt.rs:33-38 | without a well-formed header the verifier is never consulted |
| Jwt.LowercaseSchemeRejected | src/environment/jwt.rs:36-38 | the prefix is case-sensitive: "bearer " is refused |
| Jwt.RepeatedPrefixStripped | src/environment/jwt.rs:39-47 | "Bearer Bearer t" is checked as "t" |
| Jwt.EncodeThenDecode | src/environment/jwt.rs:22-50 | a token this key signed, sent with the prefix at a time before its expiry, decodes to the claims it was made from |
| Jwt.DecodeNotExpired | src/environment/jwt.rs:40-47 | when the library refuses expired tokens, a successful decode never yields expired claims |
| Jwt.DecodeToAdminUserOfDecimalSubject | src/environment/jwt.rs:52-62 | a subject written as a u64's decimal text yields that id |
| Jwt.DecodeToAdminUserOfSignedSubject | src/environment/jwt.rs:54-61 | subjects that are not canonical decimal text, "+7" and "007", authenticate as the caller with id 7 |
| AdminSql.GetUser | src/sql/admin.rs:7-20 | none exactly when no row has the username; otherwise the first such row |
| AdminSql.SetPasswordRows | src/sql/admin.rs:43-48 | only rows with the username change, and only in password |
| AdminSql.SetPasswordRead | src/sql/admin.rs:43-57 | after the update the user reads back with the new password and every other user reads as before |
| AdminSql.DuplicateUserShadowed | src/sql/admin.rs:22-41 | adding a row for an existing username changes no lookup |
| AdminSql.AdminStore.CreateUser | src/sql/admin.rs:22-41 | appends one row with username, hash and creator, without a duplicate check, and returns its fresh id |
| AdminSql.AdminStore.UpdatePassword | src/sql/admin.rs:43-57 | the new rows are SetPasswordRows of the old; returns whether a row matched |
| AdminHandlers.VerifyPassword | src/handlers/admin.rs:124-127 | an unreadable stored hash becomes InvalidCredentials; otherwise the verifier's verdict |
| AdminHandlers.HashPassword | src/handlers/admin.rs:116-122 | a hashing failure becomes EncryptError; otherwise the encoded hash |
| AdminHandlers.SessionClaims | src/handlers/admin.rs:39-44 | the claims `create_jwt` signs: a non-empty all-digit subject, the username as name, and an expiry after the issue time; SessionClaimsRead pins each field |
| AdminHandlers.SessionClaimsRead | src/handlers/admin.rs:35-44 | the subject parses back to the id, the name is the username, and expiry is two days after now |
| AdminHandlers.CreateJwt | src/handlers/admin.rs:35-48 | the token is the encoder's output for the session claims under the fixed key; a signing failure is an error |
| AdminHandlers.LoginHandler | src/handlers/admin.rs:18-33 | an unknown username gives InvalidUserName; a password that does not check (or an unreadable hash) gives InvalidCredentials; a correct password gives exactly create_jwt's answer for the stored id and username, a token or TokenEncodeFailed |
| AdminHandlers.AuthHandler | src/handlers/admin.rs:50-74 | no header gives NoAuthHeaderError; a missing prefix gives InvalidAuthHeaderError; through AuthHandlerIsDecodeToAdminUser it has every clause of DecodeToAdminUser, success on a parsing subject included |
| AdminHandlers.AuthHandlerIsDecodeToAdminUser | src/handlers/admin.rs:50-74 | `auth_handler` decides exactly as `decode_to_admin_user` under the fixed key |
| AdminHandlers.LoginThenAuthenticate | src/handlers/admin.rs:18-74 | a token from a successful login, sent back with the prefix less than two days later, authenticates as the stored user |
| AdminHandlers.CreateUserHandler | src/handlers/admin.rs:76-89 | only the user named exactly "admin" may create users; refusal or a hashing failure writes nothing; success appends the user with the hashed password and the actor as creator |
| AdminHandlers.PasswordChange | src/handlers/admin.rs:91-112 | refuses, in order, a new password under 12 bytes, an unknown caller and a wrong old password; once all three pass, the answer is the hash of the new password, or EncryptError when hashing fails |
| AdminHandlers.ShortAsciiPasswordRefused | src/handlers/admin.rs:96-98 | a new ASCII password of fewer than 12 characters is refused with PasswordTooShort, whatever else the request holds |
| AdminHandlers.UpdatePasswordHandler | src/handlers/admin.rs:91-112 | a refusal writes nothing; success replaces the caller's password by the new hash, and every other user reads as before |

## Left out

- HTTP routing, CORS, logging and server start-up (src/api/, src/main.rs): plumbing with no decisions in it.
- Reply rendering: JSON bodies, status codes beyond success and failure, the `total` field of list replies, and `create_user_handler` echoing the request back. The list handlers `get_brands`, `get_all_brands`, `get_brand_detail`, `get_products`, `get_product` and `get_hot_products` only wrap a query, and the query is modelled.
- `create_brand`, `update_brand` and `get_valid_product` (src/sql/cosmetics.rs:11-26, 126-139, 245-263), and the single-brand handler `create_brand`: none of the modelled handlers calls them.
- Database failures (lost connections, constraint errors) are not modelled. The only query failure modelled is the malformed statement that an empty `IN ()` or `VALUES` list produces.
- Async execution, the connection pool and atomicity: the store is sequential, and a handler's reads and writes are not interleaved with other requests.
- SQL text construction: names and ids are spliced into query text unquoted or quoted by hand. The model gives the intended set semantics. A name containing a quote is not modelled.
- MySQL collation: names and usernames compare by exact equality, not the database's case-insensitive comparison.
- `rows_affected` is modelled as the number of matched rows. So deleting an already-retired row still reports success.
- The order of `get_user` and `get_product` results without `ORDER BY` is assumed to be table (id) order, so the first match is returned.
- CosmeticsHandlers.AssignSequences: sequences are unbounded integers. The source's `i32` (`max_sequence += 1` and the `as i32` cast of the maximum) can overflow, and that is not modelled.
- Models.Offset: offsets and limits are unbounded naturals. The source's `u32` request fields are not modelled.
- AdminHandlers.SessionClaimsRead: `now` is a natural number of seconds. The negative timestamps that `as usize` would wrap, and chrono's panic on an out-of-range date, are not modelled.
- Signing and verifying tokens, and Argon2 hashing and verification, are oracles. The time of a check enters only through the assumptions `Jwt.RoundTrips` and `Jwt.RefusesExpired` make about the verifier at that time. The library's 60-second expiry leeway, salt freshness and constant-time comparison are not modelled. The random salt and the login time are parameters.
- The call-site mismatches are resolved as follows. The `create_product` handler is modelled passing the request's `brand_id` (its call at src/handlers/cosmetics.rs:121 omits it). `get_products` is modelled by `get_all_products`. The extra argument at src/api/admin.rs:95 is not part of this model.
- `Decimal` prices and the product columns that no rule inspects (spec, kind, import price, sequence, JD id and URL, comment) are carried as opaque values.
- `Jwt::new` and the environment that supplies its secret (src/environment/mod.rs) are not part of this model. The key is the `secret` field of `Jwt.Jwt`.
