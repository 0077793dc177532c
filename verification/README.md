# SpaceNexus core in Dafny

SpaceNexus is a mock backend for a space-research platform. It has three in-memory
REST controllers and a Solana program for its SPACE token:

- **experiments** (`experimentController.js`): an append-only list of experiment
  records. Records carry an id counter and one of six experiment types. Requests can
  create records, look them up by id, filter them by type, scientist or verified flag,
  set the verified flag, and get per-type statistics with a rounded verified percentage.
- **postcards** (`postcardController.js`): the same store shape. Every postcard is created
  in status `created` and in batch 1. Requests can look postcards up by owner wallet
  (ignoring case) or by batch, and get a four-bucket status count.
- **token feed** (`tokenController.js`): a fixed price history cut to a time window,
  static holder buckets, and a transaction list. The list is filtered by `buy`/`sell`,
  stably sorted newest first and paged.
- **upload admission** (`experimentRoutes.js`, `postcardRoutes.js`): each route takes
  one file under one field name. The file must pass a case-sensitive extension allow-list
  anchored at the end of the name and a byte cap. It is stored as
  `prefix + now + "-" + random + extname`.
- **SPACE token program** (`space_token.rs`): the `SpaceToken` account, and the four
  instructions `initialize_mint`, `mint_tokens`, `update_metadata` and `transfer_authority`.

The mutable module state becomes a `Store` value. Each operation is a pure function
that returns its response together with the next store. The clock, the random number
source and the outcome of each SPL token call are parameters. The JavaScript behaviour
the controllers rely on is written out in module `Js`:

- `parseInt` (white space, sign, `0x`, longest digit run, `NaN` as `None`);
- `|| default`;
- `slice` with negative indices;
- `toLowerCase` (ASCII letters only);
- truthiness.

Files:

- `js.dfy`: the JavaScript helpers above, with the `parseInt`/`String` round trip.
- `paging.dfy`: limit/offset handling shared by the three list endpoints.
- `experiments.dfy`: the experiment store.
- `experiment_stats.dfy`: the experiment type statistics.
- `postcards.dfy`: the postcard store.
- `token_feed.dfy`: the token controller.
- `uploads.dfy`: the upload middleware of both routes.
- `space_token.dfy`: the Solana program.

Notes on the code's behaviour:

- A negative `limit` or `offset` is not replaced by the default. Only `NaN` and `0` are,
  so `limit=-1` drops the last element (`Paging.NegativeLimitDropsLast`).
- A request refused with a 400 leaves an uploaded file where multer put it. Only the
  500 path removes it, and that path is left out.
- The price window has a lower bound (`now - window`) and no upper bound.
- The token account is allocated 244 bytes once. Its encoding needs 61 bytes plus the UTF-8
  length of name, symbol and uri. So metadata longer than 183 bytes makes `initialize_mint`
  or `update_metadata` fail when Anchor writes the account back.
- Without a `type` filter, the shared transaction list itself is sorted in place.
  With a filter only the filtered copy is sorted (`TokenFeed.GetTransactionHistory`).
- A file input left blank arrives as a part with an empty file name. multer drops it before
  the field check, the extension filter or the size cap, so both upload fields are optional
  (`Uploads.Admit`).

## Model

| member | source | states |
|---|---|---|
| Js.Filter | backend/src/controllers/experimentController.js:245 | `filter` keeps exactly the elements satisfying the predicate, never more than the input |
| Js.FilterAppend | backend/src/controllers/experimentController.js:129 | appending records to the store appends to every filtered view of it |
| Js.FilterNarrow | backend/src/controllers/experimentController.js:268-269 | filtering by a stronger predicate after a weaker one is filtering by the stronger one |
| Js.FilterUpdateCount | backend/src/controllers/experimentController.js:225 | overwriting one record changes a filter count only by that record's own contribution |
| Js.Slice | backend/src/controllers/experimentController.js:43 | in-range bounds cut exactly `xs[start..end]`; the result is a contiguous run starting at the clamped start, as long as the clamped range, and `[]` when the range is empty or lies past either end |
| Js.SliceCountsFromEnd | backend/src/controllers/experimentController.js:43 | a negative bound means the same as `length + bound`, or 0 when that is still negative |
| Js.ToLower | backend/src/controllers/experimentController.js:189 | keeps the length, moves each letter `A`..`Z` up by 32 to its lower-case form, and leaves every other character as it is |
| Js.ToLowerIdempotent | backend/src/controllers/experimentController.js:189 | lower-casing twice is lower-casing once and leaves no upper-case letter |
| Js.EqualsIgnoreCaseIsEquivalence | backend/src/controllers/experimentController.js:188-190 | the scientist match is reflexive, symmetric and transitive, and never relates strings of different lengths |
| Js.TrimStart | backend/src/controllers/experimentController.js:64 | the leading white space `parseInt` skips is removed, and only that |
| Js.ParseInt | backend/src/controllers/experimentController.js:64 | `parseInt` yields a negative number only when a minus sign follows the leading white space |
| Js.ParseIntDecimal | backend/src/controllers/experimentController.js:64 | white space, an optional sign, decimal digits and any text not starting with a digit (or with `x` after a lone `0`) parse to the digits' left-to-right value, negated after `-` |
| Js.ParseIntHex | backend/src/controllers/experimentController.js:64 | white space, an optional sign, `0x` or `0X`, hexadecimal digits of either case and any text not starting with one parse to the digits' base-16 value, negated after `-` |
| Js.ParseIntHexNeedsDigit | backend/src/controllers/experimentController.js:64 | `0x` with no hexadecimal digit after it is `NaN` |
| Js.ParseIntDecimalExample | backend/src/controllers/experimentController.js:64 | `parseInt(" -42px")` is -42 |
| Js.ParseIntHexExample | backend/src/controllers/experimentController.js:64 | `parseInt("+0x1F")` is 31 |
| Js.ParseIntNeedsDigit | backend/src/controllers/experimentController.js:64 | `parseInt` is `NaN` on text that contains no decimal digit |
| Js.ParseIntDecimalRoundTrip | backend/src/controllers/experimentController.js:64 | `parseInt(String(n)) === n` for every integer, so a printed id parses back to itself |
| Paging.QueryIntOr | backend/src/controllers/experimentController.js:40-41 | `parseInt(q) \|\| d` falls back exactly when the value is missing, `NaN` or zero, and keeps negative values |
| Paging.LimitNeverZero | backend/src/controllers/experimentController.js:40 | the effective limit is never zero and is 10 when absent |
| Paging.Window | backend/src/controllers/experimentController.js:43 | the page holds at most `limit` elements, is the clamped window for sane bounds and is empty past the end |
| Paging.NegativeLimitDropsLast | backend/src/controllers/experimentController.js:40-43 | `limit=-1` is kept and returns every element but the last |
| Paging.ListPage | backend/src/controllers/experimentController.js:40-48 | `count` is the full length and `data` the window; with no query it is the first ten |
| Paging.WindowsTile | backend/src/controllers/experimentController.js:43 | two consecutive pages of size `l` are one page of size `2l` |
| Paging.AllPagesCover | backend/src/controllers/experimentController.js:43 | walking pages from an offset visits each remaining element once, in order |
| Experiments.ParseType | backend/src/controllers/experimentController.js:11-18 | a string is accepted exactly when it is one of the six type names |
| Experiments.TypeNameRoundTrip | backend/src/controllers/experimentController.js:11-18 | every type's name parses back to that type and the type is on the list |
| Experiments.GetAll | backend/src/controllers/experimentController.js:40-48 | the page is cut from the store in store order, and `count` is the store size |
| Experiments.IndexOfId | backend/src/controllers/experimentController.js:64 | `find` returns the first record with the id, or none when no record has it |
| Experiments.Locate | backend/src/controllers/experimentController.js:63-64 | a path id names a record exactly when its parsed value equals that record's id |
| Experiments.GetById | backend/src/controllers/experimentController.js:63-71 | a lookup answers a stored record with the parsed id, or 404 exactly when no record has it |
| Experiments.IdsAreUnique | backend/src/controllers/experimentController.js:112-113 | ids handed out by the counter name one record each |
| Experiments.Rejection | backend/src/controllers/experimentController.js:93-106 | 400 for a missing field exactly when one is blank, and for an invalid type exactly when all are present and the type is not listed |
| Experiments.Create | backend/src/controllers/experimentController.js:90-129 | a refused request changes nothing; an accepted one takes the counter as id, bumps it, and appends an unverified record built from the body, with a file URL exactly when a file was uploaded |
| Experiments.CreatePreservesValid | backend/src/controllers/experimentController.js:112-129 | the empty start store is valid; ids stay strictly increasing and below the counter, and each new id exceeds all older ones |
| Experiments.CreateThenGetById | backend/src/controllers/experimentController.js:64 | a created experiment is found again under its printed id |
| Experiments.ByType | backend/src/controllers/experimentController.js:157-171 | an unknown type is a 400; a known type lists exactly the records of that type |
| Experiments.ByScientist | backend/src/controllers/experimentController.js:186-190 | is exactly the store filtered by a case-insensitive scientist match, in store order and with every matching record once |
| Experiments.VerifiedOnly | backend/src/controllers/experimentController.js:245 | is exactly the store filtered by the verified flag, in store order |
| Experiments.FiltersIdempotent | backend/src/controllers/experimentController.js:166 | applying each view's predicate to its own output changes nothing |
| Experiments.CreateThenByType | backend/src/controllers/experimentController.js:129 | a created record appears last in its type's list and the list is otherwise unchanged |
| Experiments.Verify | backend/src/controllers/experimentController.js:216-225 | an unknown id is a 404 and changes nothing; otherwise only the found record changes, and only its flag, to `!!verified` |
| Experiments.VerifyMessageMatchesFlag | backend/src/controllers/experimentController.js:225-229 | a successful verify answers `Experiment verified` exactly when the stored flag is now true, and `Experiment unverified` exactly when it is false |
| Experiments.VerifyPreservesValid | backend/src/controllers/experimentController.js:225 | setting the flag keeps the id invariant |
| Experiments.VerifyIdempotent | backend/src/controllers/experimentController.js:216-225 | repeating a verify request gives the same response and store |
| Experiments.VerifyShowsInVerifiedView | backend/src/controllers/experimentController.js:225 | a record verified with `true` appears in the verified list |
| Experiments.CreateRefusalResponse | backend/src/controllers/experimentController.js:92-105 | a refused creation is a 400; with a blank field it carries the missing-fields message, otherwise the invalid-type message |
| Experiments.UnknownTypeResponse | backend/src/controllers/experimentController.js:159-164 | an unlisted type filter is a 400 with the invalid-type message |
| Experiments.UnknownIdResponse | backend/src/controllers/experimentController.js:218-223 | a lookup or a verify of an unknown id is a 404 with the does-not-exist message |
| ExperimentStats.RoundPercent | backend/src/controllers/experimentController.js:274 | the percentage is the integer nearest 100·v/t with ties up, is between 0 and 100, is 100 when all are verified, and is 0 for an empty type |
| ExperimentStats.VerifiedWithinTotal | backend/src/controllers/experimentController.js:268-269 | a type's verified count never exceeds its total |
| ExperimentStats.StatFor | backend/src/controllers/experimentController.js:268-275 | one entry counts the type's records and its verified records, verified ≤ total |
| ExperimentStats.TypeStats | backend/src/controllers/experimentController.js:265-276 | all six types are keys, empty ones included, each with its type's record and verified counts, the verified count within the total, and a percentage that is the rounded share, 0 for an empty type and within 0..100 |
| ExperimentStats.TotalsSumToSize | backend/src/controllers/experimentController.js:267-268 | the six totals add up to the number of records |
| ExperimentStats.TypeStatsSumToSize | backend/src/controllers/experimentController.js:267-276 | the served totals add up to the store size |
| ExperimentStats.VerifyBumpsStats | backend/src/controllers/experimentController.js:225 | verifying an unverified record raises only its type's verified count, by one, and no total |
| ExperimentStats.CreateThenVerifyScenario | backend/src/controllers/experimentController.js:112-129 | create then verify: the total grows at creation, the verified count at verification, and the record shows as verified |
| Postcards.GetAll | backend/src/controllers/postcardController.js:22-30 | the page is cut from the store in store order, and `count` is the store size |
| Postcards.IndexOfId | backend/src/controllers/postcardController.js:46 | `find` returns the first postcard with the id, or none |
| Postcards.GetById | backend/src/controllers/postcardController.js:45-53 | the stored postcard with the parsed id, or 404 exactly when none has it |
| Postcards.WalletOrNull | backend/src/controllers/postcardController.js:88 | an absent or empty wallet is stored as null and any other is kept |
| Postcards.Create | backend/src/controllers/postcardController.js:72-103 | 400 exactly when name, email or content is blank, with no change; otherwise appended with the next id, status `created`, batch 1, no dates or token id, and an image URL exactly when a file was uploaded |
| Postcards.CreatePreservesValid | backend/src/controllers/postcardController.js:83-95 | the start store is valid, and creation keeps ids increasing and every postcard at its creation defaults |
| Postcards.IdsAreUnique | backend/src/controllers/postcardController.js:84 | ids handed out by the counter name one postcard each |
| Postcards.CreateThenGetById | backend/src/controllers/postcardController.js:46 | a created postcard is found again under its printed id |
| Postcards.ByOwner | backend/src/controllers/postcardController.js:133-135 | is exactly the store filtered by a non-empty wallet equal to the parameter ignoring case, in store order |
| Postcards.CreateThenByOwner | backend/src/controllers/postcardController.js:133-135 | a new postcard is listed last for a matching wallet in any case, and a wallet-less one for nobody |
| Postcards.ByBatch | backend/src/controllers/postcardController.js:157 | for a parsable batch, exactly the store filtered by that batch number, in store order; `NaN` lists none |
| Postcards.BatchOneIsEverything | backend/src/controllers/postcardController.js:93 | since creation always uses batch 1, batch 1 lists the whole store and every other batch nothing |
| Postcards.GetStatusStats | backend/src/controllers/postcardController.js:177-183 | each bucket is the number of postcards in that status, `total` is the store size, and the four buckets add up to it |
| Postcards.BucketsSumToSize | backend/src/controllers/postcardController.js:179-182 | each postcard falls in exactly one status bucket |
| Postcards.StatusNamesDistinct | backend/src/controllers/postcardController.js:11-16 | the four statuses have four different names |
| Postcards.ErrorResponses | backend/src/controllers/postcardController.js:48-80 | a refused creation is a 400 with the required-fields message, and a lookup of an unknown id a 404 with the does-not-exist message |
| Postcards.StatusStatsAllCreated | backend/src/controllers/postcardController.js:89 | nothing moves a postcard past `created`, so all postcards count as created |
| TokenFeed.InitialTokenData | backend/src/controllers/tokenController.js:2-17 | the start-up history has four samples in time order, 30 days apart at the ends and ending at start-up time with the current price; 1250 holders and 9 decimals |
| TokenFeed.WindowMs | backend/src/controllers/tokenController.js:78-90 | 24h, 7d and 30d windows in milliseconds, and 30 days for any other value |
| TokenFeed.PriceWindow | backend/src/controllers/tokenController.js:72-93 | no range gives the whole history; otherwise exactly the history filtered to samples at or after `now - window`, in their stored order |
| TokenFeed.WiderWindowKeepsMore | backend/src/controllers/tokenController.js:92 | a narrower window is a sub-list of a wider one and never longer |
| TokenFeed.WindowIsSuffix | backend/src/controllers/tokenController.js:92 | on a time-ordered history the window is a suffix, the most recent samples |
| TokenFeed.InitialDayWindow | backend/src/controllers/tokenController.js:8-13 | on the start-up history at start-up time the 24h window holds only the latest sample |
| TokenFeed.InitialMonthWindow | backend/src/controllers/tokenController.js:85-89 | on the start-up history at start-up time the 30d and fallback windows hold all four samples |
| TokenFeed.LaterMonthWindow | backend/src/controllers/tokenController.js:85-92 | up to ten days after start-up the 30d and fallback windows hold the last three start-up samples, the 30-day-old one having dropped out |
| TokenFeed.GetTokenPrice | backend/src/controllers/tokenController.js:95-100 | the current price is passed through and the history is the stored history cut to the requested window |
| TokenFeed.GetHoldersStats | backend/src/controllers/tokenController.js:113-121 | `total` is 1250 and the five distribution buckets add up to it |
| TokenFeed.ParseTxType | backend/src/controllers/tokenController.js:143 | only exactly `buy` or `sell` selects a filter |
| TokenFeed.InsertNewestFirst | backend/src/controllers/tokenController.js:148 | inserting into a newest-first list keeps it newest first and adds exactly one element |
| TokenFeed.SortNewestFirst | backend/src/controllers/tokenController.js:148 | the sort yields a newest-first permutation of its input |
| TokenFeed.SortIsStable | backend/src/controllers/tokenController.js:148 | transactions with equal timestamps keep their input order |
| TokenFeed.SortIdempotent | backend/src/controllers/tokenController.js:148 | sorting a sorted list changes nothing |
| TokenFeed.GetTransactionHistory | backend/src/controllers/tokenController.js:136-157 | lists the chosen kind sorted newest first, counts it, pages it; the shared list keeps its transactions and, when unfiltered, is left as the stable newest-first sort of what it held |
| TokenFeed.UnfilteredRequestIsIdempotent | backend/src/controllers/tokenController.js:141-148 | a second unfiltered request leaves the shared list as the first one left it |
| Uploads.MatchesAny | backend/src/routes/experimentRoutes.js:24 | the allow-list test holds exactly when the name ends with a dot and a listed extension |
| Uploads.MatchesIffLastSuffix | backend/src/routes/experimentRoutes.js:24 | a name passes exactly when the text after its last dot is a listed extension |
| Uploads.LastDot | backend/src/routes/experimentRoutes.js:14 | finds the dot after which no dot follows, or reports that there is none |
| Uploads.LeadingDotIsNoExtension | backend/src/routes/postcardRoutes.js:14 | a name whose only dot is its first character has an empty extension |
| Uploads.Extname | backend/src/routes/experimentRoutes.js:14 | the extension runs from the last dot to the end, and is empty exactly when there is no dot, the last dot starts the name, or the name is `..` |
| Uploads.ExtnameExamples | backend/src/routes/experimentRoutes.js:14 | `..` has no extension, `a.` has `.`, and `..csv` and `a.b.csv` have `.csv` |
| Uploads.StoredName | backend/src/routes/experimentRoutes.js:12-16 | a stored name starts with the route's prefix and ends with the original's extension |
| Uploads.StoredNameKeepsExtension | backend/src/routes/experimentRoutes.js:12-28 | an accepted file whose last dot is not its first character is stored under a name that passes the same filter |
| Uploads.BareExtensionIsStoredWithoutOne | backend/src/routes/experimentRoutes.js:14-24 | a file named `.csv` passes the filter but is stored with no extension |
| Uploads.AdmitNamed | backend/src/routes/experimentRoutes.js:19-38 | among the named file parts, a file is staged exactly when it is the only one, comes under the route's field, passes the allow-list and fits the cap; its stored name carries the route's prefix |
| Uploads.Admit | backend/src/routes/experimentRoutes.js:19-38 | parts with an empty file name are skipped before any check; no file is staged exactly when every part is blank, and the first named part decides the unexpected-field and allow-list errors |
| Uploads.BlankPartIgnored | backend/src/routes/experimentRoutes.js:19-38 | inserting a blank file part anywhere in a request leaves its admission unchanged |
| Uploads.BlankPartExamples | backend/src/routes/experimentRoutes.js:19-38 | a blank `dataFile` input, or a blank part under another field, is no file rather than an error |
| Uploads.BlankPartBeforeFile | backend/src/routes/experimentRoutes.js:19-38 | a blank part ahead of `a.csv` under `dataFile` does not stop `a.csv` from being staged |
| Uploads.PolicyConstants | backend/src/routes/postcardRoutes.js:21 | the caps are 10,485,760 and 5,242,880 bytes, and no listed extension contains a dot |
| Uploads.DataFileExamples | backend/src/routes/experimentRoutes.js:24 | `a.exe.csv` passes and a name without a dot does not |
| Uploads.UpperCaseDataFileRejected | backend/src/routes/experimentRoutes.js:24 | matching is case-sensitive: `data.CSV` is refused |
| Uploads.InnerDataExtensionRejected | backend/src/routes/experimentRoutes.js:24 | only the final suffix counts: `a.csv.exe` is refused |
| Uploads.ImageExamples | backend/src/routes/postcardRoutes.js:24 | `photo.jpeg` and `photo.jpg` pass the image filter |
| Uploads.UpperCaseImageRejected | backend/src/routes/postcardRoutes.js:24 | matching is case-sensitive: `photo.PNG` is refused |
| Uploads.InnerImageExtensionRejected | backend/src/routes/postcardRoutes.js:24 | only the final suffix counts: `x.png.txt` is refused |
| SpaceTokenProgram.InitializeMint | contracts/solana/space_token.rs:12-37 | the account gets the given metadata, the signer as authority and zero supply; a failed token call aborts, and so does metadata longer than the 183 bytes of UTF-8 the account has room for |
| SpaceTokenProgram.Utf8Length | contracts/solana/space_token.rs:110-116 | a string takes between one and four bytes per character in the stored account, one per ASCII character |
| SpaceTokenProgram.AsciiMetadataLimit | contracts/solana/space_token.rs:121 | with ASCII metadata the account fits exactly when name, symbol and uri have at most 183 characters together |
| SpaceTokenProgram.CheckedAdd | contracts/solana/space_token.rs:46 | `checked_add` yields the exact sum exactly when it fits in 64 bits |
| SpaceTokenProgram.MintTokens | contracts/solana/space_token.rs:40-59 | supply grows by exactly `amount`, nothing else changes, and an overflow aborts |
| SpaceTokenProgram.UpdateMetadata | contracts/solana/space_token.rs:61-87 | only the authority may call it; given fields replace stored ones, omitted ones are kept, and nothing else changes; an update whose metadata outgrows the 244-byte account fails |
| SpaceTokenProgram.TransferAuthority | contracts/solana/space_token.rs:89-105 | only the authority may call it, and it changes the authority only |
| SpaceTokenProgram.Step | contracts/solana/space_token.rs:40-105 | one transaction of a single instruction: a mint within range whose token call succeeds adds exactly its amount and changes nothing else; an authority's update applies the given fields when they fit and otherwise rolls back; an authority's transfer moves the authority; overflow, a failed token call or a foreign signer rolls back; decimals never change (`Run` applies `Step` in order) |
| SpaceTokenProgram.OldAuthorityLocksOut | contracts/solana/space_token.rs:96-102 | after a handover the old authority is refused by both gated instructions |
| SpaceTokenProgram.SupplyNeverDecreases | contracts/solana/space_token.rs:40-105 | over any instruction sequence the supply never decreases and the decimals never change |
| SpaceTokenProgram.StepKeepsFit | contracts/solana/space_token.rs:40-121 | no instruction turns an account that fits its 244 bytes into one that does not |
| SpaceTokenProgram.ReachableAccountsFit | contracts/solana/space_token.rs:40-121 | from a fitting account, any instruction sequence ends in a fitting account |
| SpaceTokenProgram.InitializedAccountsFit | contracts/solana/space_token.rs:12-37 | every account reached from a successful `initialize_mint` fits its allocation |
| SpaceTokenProgram.OutsiderChangesOnlySupply | contracts/solana/space_token.rs:61-105 | instructions signed by a non-authority change nothing but the supply |

## Left out

- The `catch` blocks (500 responses) and `fs.unlink` of an uploaded file. Nothing in the
  modelled logic throws, so these paths cannot be reached from the model.
- The mock seeding loops (20 random experiments, 100 random transactions). They use
  `Math.random` and `Date.now`. Stores, transaction lists, `now`, the generated IPFS hash
  and the random file-name number are parameters instead.
- `getTokenInfo`. It copies eight constant fields into the response and has nothing to
  prove. `TokenFeed.InitialTokenData` holds those constants.
- Express routing, JSON serialisation, multer's disk writes, the destination directories
  and the server set-up. Request bodies are modelled as optional strings. A body field of
  another JSON type, and query values that `qs` turns into arrays or objects, are not
  modelled.
- Floating point. Prices are `real`. Experiment and postcard ids and timestamps are
  unbounded integers.
- Js.ToLower: handles only the ASCII letters, not the full Unicode case mapping of `toLowerCase`.
- Js.ParseInt: its own contract states only the sign; `Js.ParseIntDecimal` and `Js.ParseIntHex` state the value. It is exact on integers of any size. It does not lose precision past 2^53 as a
  JavaScript number would. Its white-space set covers ASCII blanks, NBSP, BOM and the line
  separators, not every Unicode space separator.
- ExperimentStats.RoundPercent: rounds the exact rational 100·v/t half up. `Math.round`
  on the floating-point product can differ where that product lands just below a `.5`.
- TokenFeed.InitialTokenData: all four start-up samples are built from one `t0`. The source
  reads the clock once per sample.
- Uploads.Admit: takes the file parts in arrival order and stops at the first error. Skipping parts with an empty file name is multer's own behaviour, outside the routes; multer is not part of this model beyond that rule.
  Multer's stream timing, non-file fields, the error after a partial write and the
  `MulterError` wrapping are not modelled. The size check is modelled after the filter,
  as multer applies it while writing.
- Uploads.Extname: models `path.extname` on a base name. Path separators in the original
  name are not modelled.
- SpaceTokenProgram.InitializeMint: the SPL token calls are reduced to a success flag.
  Their own checks, such as the mint authority check inside `mint_to`, are not modelled.
  The account creation and rent payment done by Anchor's `init` are not modelled either; the
  244-byte size it allocates is.
- SpaceTokenProgram.MintTokens: the program itself checks no signer. Whether `mint_to`
  accepts the signer is part of the success flag.
- SpaceTokenProgram.MintTokens: does not repeat the account-size check on write-back, and
  neither does `TransferAuthority`. Neither changes the strings, and every account the program
  can reach fits (`SpaceTokenProgram.InitializedAccountsFit`).
- The frontend pages and components.
