# Instant-send escrow app, modelled in Dafny

This project models the self-contained logic of a Telegram mini-app wallet that sends SOL and
USDC through a hash-time-locked escrow program on Solana, and proves properties of that model.
The wallet has a web front end and an Express/Prisma/Telegram-bot back end. The modelled parts:

- **Escrow wire format** (`escrow_idl.dfy`, over `borsh.dfy` and `utf8.dfy`). Anchor's encoding of
  the program interface: an 8-byte discriminator followed by Borsh fields (little-endian integers,
  two's-complement `i64`, a one-byte `bool` that must be 0 or 1, raw 32-byte arrays, and strings as a
  `u32` byte count followed by UTF-8). It covers both escrow account records, the four instructions,
  the error table, the `seedEscrowSpl` constant and the token-account seed lists.
- **Telegram init-data checks** (`telegram_auth.dfy`). `validateTelegramWebAppData` builds the
  data-check string (drop `hash`, sort by key, `key=value`, join with line feeds), compares HMACs and
  parses `user`. `authorizeUser` is an Express middleware that answers 400/401/500 or attaches the user.
- **Local password and session store** (`local_auth.dfy`, `hex.dfy`). Per-user hash and timestamp keys
  in `localStorage`, a four-hour session window, and the lower-case hex text of a SHA-256 digest.
- **Prices and balances** (`token_prices.dfy`). The symbol-to-price record, including its
  assignment-for-comparison at `solanaUtils.ts` line 59. Also the 30-second module-level price cache
  and the shape of the balance list.
- **Escrow forms** (`redeem_escrow.dfy`, `escrow_operations.dfy`). Splitting a redemption link's
  `startapp` value `secret__sender__token`, the expiry second, and the parameters, loading flag and
  notifications of the two forms.
- **Activity page** (`activity.dfy`). Pagination by four, sent/received classification from lamport
  deltas, the SOL-then-USDC merge and the type-guard filter, and the page's navigation state.
- **Back-end handlers** (`registry.dfy`, `contact_bot.dfy`, `wallet_controller.dfy`,
  `contact_controller.dfy`). The user, contact and user-contact tables are values; a `Database` class
  holds them. The handlers are the bot's contact-message flow, `addWallet`/`deleteSolanaWallet` and
  `getContacts`/`deleteContact`.

External effects are parameters:
- SHA-256 and HMAC-SHA-256 are function-typed parameters.
- So are the URL parser, the JSON parser, `parseFloat` and the date formatter.
- The clock is a `nowMs` argument.
- What a network call produced (a ticker response, a balance lookup, a transaction history, the
  escrow call's result) is an input datatype.
- Each back-end handler takes `failAt`. This numbers the database calls from 0: the call with that
  number throws, and writes made before it stay.

Each handler is a pure `...Outcome` function, and each method is proved equal to it.

Where the code and its own tests disagree, the model follows the code:
- `getContacts` answers a failure with "Error retrieving contacts.", while
  `contactController.spec.ts` expects "Error retrieving contact names.".
- The delete route in `contactRoutes.ts` binds only `:id`, while `deleteContact` reads `userId` and
  `contactId`. So every request through that route fails; `RouteDeleteAlwaysFails` states this.

The model also keeps these source behaviours as written, and states each one in a lemma:
- Line 59 of `solanaUtils.ts` assigns `'SOL'` to the loop variable (`OtherSymbolsNeverPriced`,
  `BonkRequestWritesSol`).
- `authorizeUser` only logs a signature mismatch, and accepts init data with no `auth_date`
  (`MissingAuthDateAccepted`).
- `authorizeUser` signs `user=undefined` (`UserUndefinedEntries`).

## Model

| member | source | states |
|---|---|---|
| EscrowIdl.DiscriminatorsDistinct | frontend/src/utils/program/types.ts:15-384 | the six 8-byte discriminators (four instructions, two accounts) are pairwise different |
| EscrowIdl.ExpectTag | frontend/src/utils/program/types.ts:375-384 | the tag check passes iff the data has at least 8 bytes starting with the tag, and yields the bytes after it |
| EscrowIdl.EncodeEscrowAccount | frontend/src/utils/program/types.ts:402-440 | an `escrowAccount` record is 122 bytes starting with its discriminator |
| EscrowIdl.EscrowAccountRoundTrip | frontend/src/utils/program/types.ts:402-440 | decoding an encoded `escrowAccount` (sender, amount, expirationTime, isRedeemed, tokenMint, hashOfSecret, bump) gives it back, whatever follows |
| EscrowIdl.EncodeEscrowSolAccount | frontend/src/utils/program/types.ts:441-474 | an `escrowSolAccount` record is 90 bytes (no tokenMint) starting with its discriminator |
| EscrowIdl.EscrowSolAccountRoundTrip | frontend/src/utils/program/types.ts:441-474 | decoding an encoded `escrowSolAccount` gives it back, whatever follows |
| EscrowIdl.DecodeRejectsForeignData | frontend/src/utils/program/types.ts:375-384 | data that does not start with a kind's discriminator never decodes as that kind |
| EscrowIdl.DecodeRejectsBadBool | frontend/src/utils/program/types.ts:420-423 | an `isRedeemed` byte above 1 makes decoding fail, naming that byte |
| EscrowIdl.EncodeInstruction | frontend/src/utils/program/types.ts:15-374 | instruction data starts with the instruction's discriminator; initialize data is 56 bytes; redeem data is 12 plus the UTF-8 length of the secret |
| EscrowIdl.InitArgsRoundTrip | frontend/src/utils/program/types.ts:38-53 | amount (u64), expirationTime (i64) and hashOfSecret (32 bytes) read back in that order |
| EscrowIdl.DecodeInstruction | frontend/src/utils/program/types.ts:15-374 | a decoded instruction always carries the discriminator the data starts with |
| EscrowIdl.InitializeRoundTrip | frontend/src/utils/program/types.ts:15-198 | both initialize instructions decode back to themselves |
| EscrowIdl.RedeemRoundTrip | frontend/src/utils/program/types.ts:199-374 | both redeem instructions decode back to themselves |
| EscrowIdl.InstructionRoundTrip | frontend/src/utils/program/types.ts:15-374 | every encodable instruction decodes back to itself, whatever bytes follow |
| EscrowIdl.AccountDataIsNoInstruction | frontend/src/utils/program/types.ts:375-384 | account data is rejected as an unknown instruction |
| EscrowIdl.ErrorFromCode | frontend/src/utils/program/types.ts:385-401 | the error table is a bijection between 6000..6002 and alreadyRedeemed, notExpired, invalidSecret |
| EscrowIdl.SeedEscrowSplIsText | frontend/src/utils/program/types.ts:476-482 | the `seedEscrowSpl` bytes are the UTF-8 of "escrow_spl" |
| EscrowIdl.TokenAccountSeeds | frontend/src/utils/program/types.ts:256-303 | token-account seeds are three 32-byte pieces: owner, token program id, mint |
| EscrowIdl.TokenAccountSeedsInjective | frontend/src/utils/program/types.ts:71-118 | two (owner, mint) pairs share seeds iff they are equal |
| Borsh.LeValueOfLeBytes | frontend/src/utils/program/types.ts:38-46 | reading back the k little-endian bytes of a number below 256^k gives the number |
| Borsh.LeBytesOfLeValue | frontend/src/utils/program/types.ts:38-46 | any byte string is the little-endian form of its value |
| Borsh.U8RoundTrip | frontend/src/utils/program/types.ts:434-437 | a `u8` reads back, leaving the rest |
| Borsh.DecodeBool | frontend/src/utils/program/types.ts:420-423 | a byte above 1 is rejected as a bool |
| Borsh.BoolRoundTrip | frontend/src/utils/program/types.ts:420-423 | a `bool` reads back, leaving the rest |
| Borsh.U32RoundTrip | frontend/src/utils/program/types.ts:367-372 | a `u32` length prefix reads back |
| Borsh.U64RoundTrip | frontend/src/utils/program/types.ts:39-42 | a `u64` reads back |
| Borsh.I64RoundTrip | frontend/src/utils/program/types.ts:43-46 | an `i64` in two's complement reads back, negative values included |
| Borsh.Bytes32RoundTrip | frontend/src/utils/program/types.ts:47-52 | a `[u8; 32]` reads back |
| Borsh.EncodeString | frontend/src/utils/program/types.ts:367-372 | a string is 4 bytes of length plus its UTF-8 bytes |
| Borsh.StringRoundTrip | frontend/src/utils/program/types.ts:367-372 | a string whose UTF-8 fits a u32 count reads back |
| Utf8.DecodeEncode | frontend/src/utils/auth.ts:8-9 | the UTF-8 encoder is inverted by the decoder, so encoded text is well-formed and encoding is injective |
| Utf8.EncodeAscii | frontend/src/utils/program/types.ts:476-482 | ASCII text encodes byte for byte |
| Hex.EncodeShape | frontend/src/utils/auth.ts:11-12 | n bytes give 2n lower-case hex digits |
| Hex.ByteHexRoundTrip | frontend/src/utils/auth.ts:12 | the two zero-padded digits of a byte give the byte back |
| Hex.DecodeEncode | frontend/src/utils/auth.ts:11-12 | hex text decodes to the bytes it was made from |
| Hex.EncodeDecode | frontend/src/utils/auth.ts:11-12 | every decodable text is the hex of what it decodes to |
| Hex.EncodeInjective | frontend/src/utils/auth.ts:11-12 | two digests have the same hex text iff they are equal |
| LocalAuth.HashFunction | frontend/src/utils/auth.ts:7-13 | the hash text is 64 lower-case hex digits, and exists iff the digest of the UTF-8 bytes does |
| LocalAuth.KeysNeverCollide | frontend/src/utils/auth.ts:17 | no password key equals any timestamp key |
| LocalAuth.StampThenValid | frontend/src/utils/auth.ts:58-68 | after stamping at t, the session is valid iff now - t < 14 400 000 ms |
| LocalAuth.AuthValid | frontend/src/utils/auth.ts:62-68 | a valid session needs a stored timestamp with a digit in it; `StampThenValid` gives the four-hour window |
| LocalAuth.NoTimestampNoSession | frontend/src/utils/auth.ts:62-64 | without a timestamp the session is never valid |
| LocalAuth.TimestampKeepsPasswords | frontend/src/utils/auth.ts:58-72 | stamping or clearing a timestamp never changes a stored password or whether one exists |
| LocalAuth.CreatedPasswordMatches | frontend/src/utils/auth.ts:33-56 | after a password is stored and stamped, it exists and its hash matches |
| LocalAuth.Storage.constructor | frontend/src/utils/auth.ts:17 | the store starts empty, available or not |
| LocalAuth.Storage.Login | frontend/src/utils/auth.ts:15-31 | true iff the stored hash equals the hash of the password; then only the timestamp is refreshed, otherwise nothing changes; a throw gives false |
| LocalAuth.Storage.CreatePassword | frontend/src/utils/auth.ts:33-46 | stores the hash and stamps the session, true; a throw gives false and no change |
| LocalAuth.Storage.CheckPasswordExists | frontend/src/utils/auth.ts:48-56 | true iff a non-empty hash is stored; false when storage throws |
| LocalAuth.Storage.SetAuthenticationTimestamp | frontend/src/utils/auth.ts:58-60 | writes the current time under the timestamp key and nothing else |
| LocalAuth.Storage.CheckAuthenticationValidity | frontend/src/utils/auth.ts:62-68 | throws iff storage is unavailable; true only with a timestamp present |
| LocalAuth.Storage.ClearAuthenticationTimestamp | frontend/src/utils/auth.ts:70-72 | removes the timestamp key and nothing else |
| LocalAuth.CreateThenLogin | frontend/src/utils/auth.ts:15-46 | a password just created logs in with the same password, and the session is valid at once |
| TelegramAuth.Get | backend/middleware/authMiddleware.ts:30 | `get` returns a value present under that name, and none only when no entry has it |
| TelegramAuth.GetFirst | backend/middleware/authMiddleware.ts:30 | the value `get` returns is that of the FIRST entry with that name: no earlier entry has the name |
| TelegramAuth.Delete | backend/middleware/authMiddleware.ts:35 | `delete` removes exactly the entries with that name and keeps every other lookup |
| TelegramAuth.FromEntries | backend/middleware/authMiddleware.ts:56 | the object's keys are exactly the entries' names |
| TelegramAuth.FromEntriesLastWins | backend/middleware/authMiddleware.ts:56 | each key of `Object.fromEntries` holds the value of the last entry with that name |
| TelegramAuth.SortByKey | backend/middleware/authMiddleware.ts:38-39 | sorting keeps the same entries (a permutation) |
| TelegramAuth.SortByKeySorted | backend/middleware/authMiddleware.ts:38-39 | the sorted entries are in key order |
| TelegramAuth.SortedUnique | backend/middleware/authMiddleware.ts:38-39 | two key-sorted permutations of entries with distinct keys are equal |
| TelegramAuth.DataCheckStringOrderIndependent | backend/middleware/authMiddleware.ts:35-41 | with distinct keys, the data-check string does not depend on the order of the query parameters |
| TelegramAuth.ExpectedHash | backend/middleware/authMiddleware.ts:43-50 | the expected hash is the hex of the HMAC, two characters per digest byte |
| TelegramAuth.Validate | backend/middleware/authMiddleware.ts:23-67 | no bot token or no hash gives those messages with null data; data is returned only when the HMAC matches, never contains `hash`, and an absent `user` parses as "{}" |
| TelegramAuth.ValidatedIff | backend/middleware/authMiddleware.ts:53-66 | validation succeeds iff token and hash are present, the hash matches and the user text parses; a matching hash with unparsable user text gives "Error parsing user data" |
| TelegramAuth.ObjectOf | backend/middleware/authMiddleware.ts:82-83 | the object has distinct keys and reads, key by key, what `Object.fromEntries` holds |
| TelegramAuth.ObjectOfEntries | backend/middleware/authMiddleware.ts:82-83 | a key read from the object gives the value of the last entry with that name |
| TelegramAuth.ObjectOfAbsent | backend/middleware/authMiddleware.ts:82-83 | a key no entry carries is absent from the object |
| TelegramAuth.Assign | backend/middleware/authMiddleware.ts:83 | assigning a key sets it and leaves every other key as it was |
| TelegramAuth.UserUndefinedEntries | backend/middleware/authMiddleware.ts:93-102 | the signed entries are every entry not called `user`, plus `user=undefined` in place of any `user` entry, whatever its value |
| TelegramAuth.MissingInitDataRejected | backend/middleware/authMiddleware.ts:75-79 | missing or empty init data is answered with 400 "Missing initData parameter" |
| TelegramAuth.ExpiryBoundary | backend/middleware/authMiddleware.ts:124-127 | an auth date exactly a day old is accepted, one second more gives 401 |
| TelegramAuth.MissingAuthDateAccepted | backend/middleware/authMiddleware.ts:124-127 | init data without `auth_date` is never rejected as expired |
| TelegramAuth.ExpiredIff | backend/middleware/authMiddleware.ts:118-127 | the request is rejected with 401 iff the auth date exists and now − auth date exceeds a day; the hash decides nothing |
| TelegramAuth.AuthDate | backend/middleware/authMiddleware.ts:124 | without an `auth_date` entry the date is NaN; a date comes only from an entry holding a digit |
| TelegramAuth.Expired | backend/middleware/authMiddleware.ts:125 | NaN never expires, and nothing at most a day old expires; `ExpiredIff` and `ExpiryBoundary` give the exact boundary |
| TelegramAuth.Authorize | backend/middleware/authMiddleware.ts:69-148 | 500 exactly for a non-JSON query or, with init data, an unset bot token; acceptance needs JSON with non-empty init data and a bot token, and then happens iff the auth date is not expired; any other rejection is 400 or 401 with its message; the accepted user is the hash-free object's id, first_name, last_name, username and photo_url |
| TelegramAuth.Exchange.constructor | backend/middleware/authMiddleware.ts:69-73 | a fresh exchange has nothing sent and no user |
| TelegramAuth.Exchange.AuthorizeUser | backend/middleware/authMiddleware.ts:69-148 | a rejection sends its status and error and does not call `next`; acceptance attaches the user built from id, first_name, last_name, username, photo_url and calls `next` once |
| TokenPrices.BinanceSymbol | frontend/src/utils/solanaUtils.ts:36-39 | only SOL and BONK have a ticker symbol |
| TokenPrices.Find | frontend/src/utils/solanaUtils.ts:65 | `find` gives the first quote with that symbol, and none iff no quote has it |
| TokenPrices.Fallback | frontend/src/utils/solanaUtils.ts:73-81 | the fallback record's keys are exactly the requested symbols |
| TokenPrices.FetchTokenPrices | frontend/src/utils/solanaUtils.ts:35-83 | the two loops fill the record that `PricesFor` describes |
| TokenPrices.PricesFor | frontend/src/utils/solanaUtils.ts:35-83 | every requested symbol is a key, USDC is 1 when requested, and the only key not requested can be SOL; `PricesOnSuccess` and `PricesOnFailure` give the full record |
| TokenPrices.FillClosed | frontend/src/utils/solanaUtils.ts:54-70 | the second loop writes at most "USDC" → 1 and "SOL" → the SOLUSDT price |
| TokenPrices.PricesOnSuccess | frontend/src/utils/solanaUtils.ts:49-70 | every requested symbol is a key; USDC is 1; "SOL" is a key iff requested or written; it holds the SOLUSDT price when written, else 0; every other key is 0 |
| TokenPrices.PricesOnFailure | frontend/src/utils/solanaUtils.ts:73-81 | after a non-ok response or a throw, the keys are the requested symbols, USDC is 1 and all others 0 |
| TokenPrices.UsdcAlwaysOne | frontend/src/utils/solanaUtils.ts:55-58 | a requested USDC is 1 on every path |
| TokenPrices.OtherSymbolsNeverPriced | frontend/src/utils/solanaUtils.ts:59-69 | any requested symbol other than USDC and SOL is 0 on every path |
| TokenPrices.BonkRequestWritesSol | frontend/src/utils/solanaUtils.ts:59-69 | requesting only BONK yields BONK 0 and an unrequested SOL key with the SOL price |
| TokenPrices.Balances | frontend/src/utils/solanaUtils.ts:97-136 | the lookups fail as a whole iff one rejects; otherwise one balance per token in list order, 0 for a caught failure |
| TokenPrices.Shape | frontend/src/utils/solanaUtils.ts:145-148 | one entry per balance, in order, with its symbol, mint, balance and the cached price of its symbol if any |
| TokenPrices.Symbols | frontend/src/utils/solanaUtils.ts:141 | the symbols of the token list, in order |
| TokenPrices.NoRefreshWithinWindow | frontend/src/utils/solanaUtils.ts:138-143 | within 30 000 ms of the last fetch the cache is not refreshed |
| TokenPrices.NeedsRefresh | frontend/src/utils/solanaUtils.ts:138-143 | a refresh needs time to have passed since the last fetch; `NoRefreshWithinWindow` gives the 30 000 ms window |
| TokenPrices.PriceCache.constructor | frontend/src/utils/solanaUtils.ts:87-88 | the cache starts empty with last fetch 0 |
| TokenPrices.PriceCache.FetchTokenBalances | frontend/src/utils/solanaUtils.ts:90-149 | fails iff a lookup rejects, leaving the cache; refreshes cache and time iff more than 30 s passed; returns the balances shaped with the cache |
| RedeemEscrow.FindSep | frontend/src/components/RedeemEscrow.tsx:27 | the first "__" at or after a position, if any |
| RedeemEscrow.JoinSplit | frontend/src/components/RedeemEscrow.tsx:27 | joining the pieces of a split with "__" gives the text back |
| RedeemEscrow.Split | frontend/src/components/RedeemEscrow.tsx:27 | `split` yields at least one piece; `JoinSplit`, `SplitClean` and `SplitJoin` tie it to `join` |
| RedeemEscrow.SplitClean | frontend/src/components/RedeemEscrow.tsx:27 | split pieces contain no "__" and, except the last, do not end in '_' |
| RedeemEscrow.SplitJoin | frontend/src/components/RedeemEscrow.tsx:27 | splitting joined clean pieces gives the pieces back |
| RedeemEscrow.ParseLink | frontend/src/components/RedeemEscrow.tsx:27-32 | no `startapp` or fewer than three pieces is invalid; a parsed link has non-empty secret and sender |
| RedeemEscrow.LinkRoundTrip | frontend/src/components/RedeemEscrow.tsx:27-32 | a link made of clean pieces parses to its first three pieces; extra pieces are ignored and an empty token is allowed |
| RedeemEscrow.EmptySecretOrSenderRejected | frontend/src/components/RedeemEscrow.tsx:30-32 | an empty secret or sender is invalid |
| RedeemEscrow.MintFor | frontend/src/components/RedeemEscrow.tsx:28-41 | the SOL mint iff the token is exactly "SOL", the USDC mint otherwise |
| RedeemEscrow.CallFor | frontend/src/components/RedeemEscrow.tsx:26-41 | an unparsable URL makes no call; a call always has non-empty secret and sender |
| RedeemEscrow.RedeemForm.constructor | frontend/src/components/RedeemEscrow.tsx:14-15 | the form starts empty and not loading |
| RedeemEscrow.RedeemForm.HandleRedeem | frontend/src/components/RedeemEscrow.tsx:18-50 | without a wallet only "Wallet not connected"; otherwise at most one call, a success or failure notice, and loading false |
| EscrowOperations.ExpTime | frontend/src/components/EscrowOperations.tsx:30 | the expiry exists iff the minutes text parses |
| EscrowOperations.ExpTimeOfMinutes | frontend/src/components/EscrowOperations.tsx:30 | the expiry is the current second plus minutes·60, and strictly in the future for positive minutes |
| EscrowOperations.ExpTimeWithoutDigits | frontend/src/components/EscrowOperations.tsx:30 | an empty or non-numeric field gives no expiry (NaN) |
| EscrowOperations.Params | frontend/src/components/EscrowOperations.tsx:32-39 | amount and secret pass unchanged; the token field is absent iff SOL and is USDC otherwise |
| EscrowOperations.FirstEight | frontend/src/components/EscrowOperations.tsx:44 | `slice(0, 8)` is a prefix of at most 8 characters |
| EscrowOperations.LastEight | frontend/src/components/EscrowOperations.tsx:44 | `slice(-8)` is a suffix of at most 8 characters |
| EscrowOperations.ToastFor | frontend/src/components/EscrowOperations.tsx:43-51 | success notice iff the call returned a signature |
| EscrowOperations.EscrowForm.constructor | frontend/src/components/EscrowOperations.tsx:15-18 | the form starts empty and not loading |
| EscrowOperations.EscrowForm.HandleInitialize | frontend/src/components/EscrowOperations.tsx:22-55 | without a wallet only an error notice and loading untouched; otherwise one call with the params, its notice, and loading false |
| Activity.PageCount | frontend/src/app/activity/page.tsx:152 | the page count is the ceiling of n/4 |
| Activity.SliceIndex | frontend/src/app/activity/page.tsx:155 | a slice index lies within the list |
| Activity.PageIsWindow | frontend/src/app/activity/page.tsx:153-155 | page p is items (p−1)·4 up to min(p·4, n), at most four |
| Activity.Page | frontend/src/app/activity/page.tsx:152-155 | a page holds at most four items, all from the list; `PageIsWindow` and `PagesPartition` say which |
| Activity.PagesInRangeNonEmpty | frontend/src/app/activity/page.tsx:152-155 | every page from 1 to the page count has an entry |
| Activity.PagesArePrefix | frontend/src/app/activity/page.tsx:153-155 | pages 1..k together are the first 4k items |
| Activity.PagesPartition | frontend/src/app/activity/page.tsx:152-155 | the pages up to the page count are the whole list, without gap or overlap |
| Activity.SolEntry | frontend/src/app/activity/page.tsx:47-62 | a SOL entry always has every field, currency SOL |
| Activity.SolEntryRecoversDelta | frontend/src/app/activity/page.tsx:50-59 | "received" iff the balance delta is positive, and the signed amount is the delta |
| Activity.UsdcEntry | frontend/src/app/activity/page.tsx:88-99 | an entry is dropped iff its absolute amount rounds to 0.00; otherwise currency USDC with the absolute amount |
| Activity.SolEntries | frontend/src/app/activity/page.tsx:46-64 | one entry per SOL transaction, in order |
| Activity.UsdcEntries | frontend/src/app/activity/page.tsx:81-101 | one entry per USDC transaction, in order |
| Activity.KeepAppend | frontend/src/app/activity/page.tsx:110-138 | filtering a concatenation is concatenating the filtered parts |
| Activity.Keep | frontend/src/app/activity/page.tsx:111-138 | the guard never adds entries; `KeepSound` (kept entries are complete) and `KeepAllComplete` (complete entries are all kept, in order) give both directions |
| Activity.KeepSound | frontend/src/app/activity/page.tsx:112-131 | every kept entry comes from a complete entry |
| Activity.KeepAllComplete | frontend/src/app/activity/page.tsx:112-131 | complete entries are all kept, in order |
| Activity.UsdcFlatIsUsdc | frontend/src/app/activity/page.tsx:73-108 | the flattened token entries are all USDC |
| Activity.UsdcFlat | frontend/src/app/activity/page.tsx:73-108 | with no account of the USDC mint there are no token entries |
| Activity.UsdcFlatSkipsOtherMints | frontend/src/app/activity/page.tsx:76 | an account whose mint is not tokenList[1]'s adds no entry |
| Activity.UsdcFlatTakesUsdcMint | frontend/src/app/activity/page.tsx:73-108 | an account of the USDC mint adds its own entries, in order, before those of the accounts after it (`.flat()`) |
| Activity.MergeOrder | frontend/src/app/activity/page.tsx:107-138 | the list starts with every SOL entry in fetch order, and the rest is exactly the kept USDC entries of `UsdcFlat`, in account order, all with currency USDC |
| Activity.Merge | frontend/src/app/activity/page.tsx:107-139 | the list is no longer than the SOL and USDC entries together; `MergeOrder` gives its content and order |
| Activity.ActivityPage.constructor | frontend/src/app/activity/page.tsx:30-32 | empty list, loading, page 1 |
| Activity.ActivityPage.FetchTransactions | frontend/src/app/activity/page.tsx:35-150 | with a key, a fetch sets the merged list and a failure adds "Failed to fetch transactions"; loading ends false on every path |
| Activity.ActivityPage.HandlePrevious | frontend/src/app/activity/page.tsx:230-237 | one page back iff the buttons show and the page is not 1 |
| Activity.ActivityPage.HandleNext | frontend/src/app/activity/page.tsx:241-248 | one page on iff the buttons show and the page is not the last |
| Activity.NavigationStaysInRange | frontend/src/app/activity/page.tsx:234-245 | navigation from a page in range stays in range |
| Registry.UpsertUser | backend/bot.ts:51-58 | the id is present afterwards and existing rows, their names included, are unchanged |
| Registry.UpsertContact | backend/bot.ts:61-68 | the contact id is present afterwards and existing rows are unchanged |
| Registry.Without | backend/controllers/contactController.ts:40-47 | exactly the given association is gone |
| Registry.WithoutKeepsDistinct | backend/controllers/contactController.ts:40-47 | removing an association keeps association keys unique |
| Registry.Database.constructor | backend/controllers/contactController.ts:4 | the database holds the given tables |
| Registry.Database.UpsertUserRow | backend/bot.ts:51-58 | the tables become the upserted ones |
| Registry.Database.UpsertContactRow | backend/bot.ts:61-68 | the tables become the upserted ones |
| Registry.Database.FindLink | backend/bot.ts:71-78 | true iff the association exists |
| Registry.Database.CreateLink | backend/bot.ts:84-89 | the association is appended and nothing else changes |
| Registry.Database.DeleteLink | backend/controllers/contactController.ts:40-47 | the association is removed and nothing else changes |
| Registry.Database.SetUser | backend/controllers/walletController.ts:16-29 | one user row is written and nothing else changes |
| ContactBot.DisplayNameOf | backend/bot.ts:37-39 | trimmed names join with one space; a missing last name leaves the first alone |
| ContactBot.Associate | backend/bot.ts:71-92 | the association is created only when absent; users and contacts stay |
| ContactBot.NoContactNoEffect | backend/bot.ts:33 | a message without a contact writes nothing and gets no reply |
| ContactBot.MissingIdNoWrites | backend/bot.ts:41-43 | a contact without a user id gets "User ID is missing for the contact." and writes nothing |
| ContactBot.NeverRewrites | backend/bot.ts:51-92 | existing users and contacts are never changed, and the associations only grow by this pair |
| ContactBot.KeepsValid | backend/bot.ts:51-92 | unique association keys and existing endpoints survive every path |
| ContactBot.SavedIff | backend/bot.ts:71-92 | the pair ends up saved; the reply is "saved" iff it was new and "already saved" iff not |
| ContactBot.FailureReply | backend/bot.ts:94-97 | a throwing call gives the error reply, unless it was the `create` that an existing pair skips |
| ContactBot.Idempotent | backend/bot.ts:51-92 | handling the same message twice leaves the tables as after the first time |
| ContactBot.OnMessage | backend/bot.ts:30-98 | the tables and replies are those of `MessageOutcome` |
| ContactBot.MessageOutcome | backend/bot.ts:30-98 | no reply iff no contact; otherwise "Got a contact!" and one of the four answers; no contact, a missing id or a first-call failure writes nothing; "saved" appends exactly this pair |
| WalletController.AddWalletFrame | backend/controllers/walletController.ts:6-38 | only the request's user row may change, and an existing row keeps its name |
| WalletController.AddWalletReplies | backend/controllers/walletController.ts:13-33 | 201 iff the user was new, 200 iff it existed with an address given, no reply iff it existed without one; the stored address is the given one or null |
| WalletController.AddThenDelete | backend/controllers/walletController.ts:6-54 | deleting after adding clears exactly that address, keeping the name |
| WalletController.WalletHandlersKeepValid | backend/controllers/walletController.ts:6-54 | both handlers keep the tables valid |
| WalletController.AddWallet | backend/controllers/walletController.ts:6-38 | the tables and reply are those of `AddWalletOutcome` |
| WalletController.DeleteSolanaWallet | backend/controllers/walletController.ts:40-54 | the tables and reply are those of `DeleteWalletOutcome`: only the target's `solanaAddress` may change |
| WalletController.AddWalletOutcome | backend/controllers/walletController.ts:6-38 | one of the four replies; 500 exactly when the first call fails or the second call that is made fails, and then nothing changes; a 200 or 201 leaves the row with an address iff one was given |
| WalletController.DeleteWalletOutcome | backend/controllers/walletController.ts:40-54 | 200 iff no failure and `parseInt(id)` names an existing user, whose address is then null; every user keeps its name, and every row except that target's is unchanged; on 500 nothing changes; no row is ever added or removed |
| ContactController.LinkedIdsIff | backend/controllers/contactController.ts:12-17 | a contact id is listed for a user iff that association exists |
| ContactController.Views | backend/controllers/contactController.ts:20-23 | one view per association of the user |
| ContactController.GetContactsReplies | backend/controllers/contactController.ts:7-31 | an integer id with no failure gives 200 and that user's list; a bad id or failure gives 500 "Error retrieving contacts." |
| ContactController.ContactsOfUser | backend/controllers/contactController.ts:9-23 | one view per association in store order, each with the contact's id as decimal text and its name |
| ContactController.NoLinksNoContacts | backend/controllers/__tests__/contactController.spec.ts:37-49 | a user without associations gets `[]` |
| ContactController.DeleteOnlyThatPair | backend/controllers/contactController.ts:34-54 | a delete removes only that association, keeps users and contacts, and replies success |
| ContactController.DeleteKeepsValid | backend/controllers/contactController.ts:34-54 | deleting keeps the tables valid |
| ContactController.RouteDeleteAlwaysFails | backend/routes/contactRoutes.ts:11 | through the `:id` route both parameters are absent, so the reply is 500 and nothing changes |
| ContactController.DeleteContact | backend/controllers/contactController.ts:34-54 | the tables and reply are those of `DeleteContactOutcome` |
| ContactController.DeleteContactOutcome | backend/controllers/contactController.ts:34-54 | 200 iff both ids convert, no call fails and the pair exists; on 500 nothing changes; users and contacts never change and no association is added |
| ContactController.GetContactsOutcome | backend/controllers/contactController.ts:7-31 | 200 with a list iff the id converts and the query does not fail, else 500 "Error retrieving contacts." |
| ContactController.BigIntParam | backend/controllers/contactController.ts:9 | an absent parameter throws; white space alone converts to 0n |
| JsInt.DecimalString | backend/controllers/contactController.ts:22 | decimal text is non-empty digits |
| JsInt.ParseDecimal | backend/controllers/walletController.ts:45 | `parseInt` of a number's decimal text, followed by a non-digit, is that number |
| JsInt.ParseIntNoDigits | frontend/src/components/EscrowOperations.tsx:30 | text with no digit after the sign is NaN |
| JsInt.TrimShape | backend/bot.ts:39 | `trim` gives the middle part between leading and trailing white space |
| JsInt.TrimIdempotent | backend/bot.ts:39 | trimming twice is trimming once |
| JsInt.ParseBigIntOfIntString | backend/controllers/contactController.ts:9-22 | `BigInt` of an integer's text is that integer |
| JsInt.ParseInt | backend/controllers/walletController.ts:45 | a number needs a digit in the text, and a negative one a minus sign; `ParseIntForm` gives the value of every white space, sign, digits and non-digit tail form |
| JsInt.ParseIntForm | frontend/src/utils/auth.ts:67 | white space, an optional `+`/`-`, digits with any leading zeros, then a tail not starting with a digit, parse to the signed value of the digits |
| JsInt.ParseBigInt | backend/controllers/contactController.ts:9 | white space alone is 0n; any other accepted text ends, after trimming, in a digit, and a negative value starts with a minus sign; `ParseBigIntOfIntString` inverts `IntString` |
| JsInt.Trim | backend/bot.ts:39 | the result is no longer than the text and starts and ends with no white space; `TrimShape` says what was cut |

## Left out

- Escrow program handlers (redeem, reclaim, expiry rules) and the client calls `initializeEscrow`, `redeemEscrow` and `withdrawToExternalWallet`: their bodies are not in the repository's shown files. Each call is a parameter that succeeds or throws.
- `sendTokens`, `signTransaction`, `sendTransaction`, wallet key derivation and the other pages and components: outside the modelled core.
- SHA-256, HMAC-SHA-256 and ed25519 are function-typed parameters, not computed.
- Network, RPC and database I/O are inputs or the `failAt` index. The order of `Promise.all` fan-out is not modelled; a rejection anywhere rejects the whole.
- Floating point is not modelled:
  - `parseFloat` of a price is a parameter, and prices are `real`.
  - Lamport and micro-USDC amounts are integers; the `/ 1e9`, `/ 1e6` and `toFixed` text is not produced.
  - A USDC amount is dropped when its absolute value in millionths is below 5000, which is what "rounds to 0.00" means for exact decimals.
- `localeCompare` and the default `Array#sort` are approximated by code-point order on keys, for both the data-check string and `authorizeUser`.
- `URLSearchParams` is an input (the parsed list of entries), so percent-decoding and `+` as space are not modelled. `new URL` is a parameter.
- `JsInt.ParseInt`: the `0x` hexadecimal prefix that `parseInt` without a radix accepts (frontend/src/utils/auth.ts:67, backend/controllers/walletController.ts:45) is not modelled. `ParseInt` stops at the first non-digit, '.' included, exactly as `parseInt` does.
- `JsInt.ParseInt`, `JsInt.DecimalString`, `TelegramAuth.AuthDate`, `WalletController.DeleteWalletOutcome`: JavaScript numbers are doubles, but the model's integers are unbounded. Ids, timestamps and `auth_date` are assumed to be safe integers below 2^53. Above that, `parseInt` rounds (for example, `parseInt("9007199254740993")` is 9007199254740992), so a route id could name a different row. At 1e21 and above, `Number#toString` switches to exponent notation, so `ParseDecimal` no longer holds.
- `JsInt.ParseBigInt` accepts an optional sign and decimal digits after trimming; the `0x`/`0o`/`0b` forms of `BigInt` are not modelled.
- `Utf8.Encode`: strings are sequences of scalar values, so `TextEncoder`'s replacement of lone surrogates does not arise.
- `EscrowOperations.EscrowForm.HandleInitialize`, `RedeemEscrow.RedeemForm.HandleRedeem`: only the state after the handler is stated. That `loading` is true while the call runs is not observable in the model.
- `Activity.ActivityPage.FetchTransactions`: a wallet change re-runs the fetch but does not reset `currentPage`, so a stale page number stays; the model keeps the page as the source does and states nothing further.
- The bot's `start` command, the keyboard reply, the bot bootstrap and the Express wiring in `backend/index.ts` and `walletRoutes.ts` are outside the core.
- The icons of the token list are not modelled.
