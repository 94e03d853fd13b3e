# Download codes for SilverStripe — a Dafny model

This project models the core of `silverstripe-download-codes`. The module hands out
download codes that unlock a package of files. The model covers these parts:

- **Codes** (`Codes`): when a code may be redeemed, the usage counter that deactivates an
  exhausted limited code, and `redeem`. A limited code reuses its first redemption; every
  other redemption creates a new one. It also covers case-insensitive uniqueness
  validation, the lookup of a code typed in by a visitor (case-sensitive or not, optionally
  trimmed), and random generation of a unique code with a bounded number of tries.
- **Redemptions** (`Redemptions`): the secret, time-limited access grant. This covers its
  defaults (a 64-character hex secret from 32 random bytes, and an expiry
  `validity_days` days ahead), its validity, the `?c=…&r=…&s=…` link parameters, and the
  lookup of a redemption from request parameters.
- **Packages** (`Packages`): the cache key of a package, built from the ID, the title, and
  each file's title and hash. It also covers the cache-or-build logic of the zipped
  package, the check that no file is publicly viewable, the lazily fetched cache, and
  `flush`.
- **Admin** (`Admin`): the bulk `generate` action, which creates `Quantity` codes from a
  form.
- **Pages** (`Pages`): the visitor's path `submitcode` → `redeem` → link → `redeem` action.
  It is a scenario that composes the pieces above.

The supporting modules model the PHP built-ins the core relies on:

- `Common` holds `Option`/`Result` and "first match".
- `Text` covers `trim` and case folding for `:nocase`.
- `Encoding` covers decimal IDs, `bin2hex` and `urlencode`/`urldecode`.
- `Query` covers `http_build_query` and `parse_str` for the three link parameters.

The two database tables are the fields `codes` and `redemptions` of the class
`Codes.Registry`. "First" means first in sequence order. Written records receive
increasing positive IDs. A code record is a value that the registry's methods replace in
place (`IncreaseUsageCount`, `Redeem`) or append (`Insert`, `AutoGenerate`). A redemption
never changes after it is created, so it is a datatype. The package is the class
`Packages.Package`, and it works against two collaborator classes: the shared `Cache` and
the `AssetStore`.

The configuration settings `usage_limit`, `case_sensitive`, `strip_whitespace`,
`autogenerate_length`, `autogenerate_chars` and `validity_days` form the `Config`
parameter. Their defaults are the constants in `Codes` and `Redemptions`.

The following become parameters:

- **The clock**: an integer `now` in seconds.
- **`random_int`**: a sequence of draws for each candidate code.
- **`random_bytes(32)`**: a 32-byte sequence.
- **SHA-1**: an uninterpreted `digest` function of the string fed to it.
- **The URL slug of a title**: a `slug` function.
- **The zip archive's content hash**: an `archiveHash` function of the packed files.
- **Whether the temporary archive opens, and whether `ZipArchive` exists**: booleans.
- **The folder permission checker**: a `canViewParent` function.

In these places the code behaves otherwise than its comments, docblocks or a first reading
suggest, and the model follows the code:

- `autoGenerate` checks `tries > 10` before it counts a try. It therefore draws up to
  **11** candidates before it throws; its comment leaves the right count of tries open
  (`src/Model/DLCode.php:169-177`, the comment at `:171`; `Codes.MaxTries`,
  `Codes.Registry.DrawUniqueCode`).
- The docblock of `getZippedFiles` promises a zipped version of "all or selected package
  files" (`src/Model/DLPackage.php:199-203`). The cache entry, however, is keyed by the
  cache key of **all** the package's files (`src/Model/DLPackage.php:220`, `:285`), so a
  filtered call can be served the archive of every file. See "Findings".
- The temporary file is removed at `src/Model/DLPackage.php:256-258`. When the archive
  cannot be opened, `getZippedFiles` returns at `:228-231`, before that clean-up, and the
  temporary file stays. Temporary files are not part of this model.
- A limited code reuses its first redemption even when that redemption has expired. The
  link of the reused redemption is then the empty string (`Pages.SubmitCode`,
  `src/Model/DLCode.php:279-284`, `src/Model/DLRedemption.php:70`).

## Model

| member | source | states |
|---|---|---|
| Codes.NewCode | src/Model/DLCode.php:79-84 | A new record is unwritten (ID 0), active, unused and not distributed, and carries the given code, limited flag, expiry, package and note |
| Codes.IsRedeemable | src/Model/DLCode.php:247-252 | `isRedeeamable`: the code is active, below the usage limit unless it is unlimited, and has no end date or one after now |
| Codes.RedeemableCases | src/Model/DLCode.php:247-252 | Each condition alone blocks redemption: inactive, past its end date, or limited at or above the usage limit; an active unlimited code before its end date is redeemable at any count |
| Codes.Increased | src/Model/DLCode.php:258-265 | The counter rises by exactly one; the code is deactivated iff it was active, is limited and the new count reaches the limit; it is never activated; no other field changes |
| Codes.LastUseDeactivates | src/Model/DLCode.php:261-262 | The last allowed use of a limited code leaves it inactive at the limit and not redeemable |
| Codes.LimitedSuccessesBound | src/Model/DLCode.php:247-265 | Counting the successes of k successive attempts (`Successes`), a limited code succeeds at most `limit - usageCount` more times, however many attempts are made |
| Codes.UnlimitedAlwaysSucceeds | src/Model/DLCode.php:249-251 | An active unlimited code before its end date succeeds on every one of k attempts |
| Codes.CodeTakenIff | src/Model/DLCode.php:180 | The `Code:nocase` existence scan holds exactly when some stored record carries the string up to letter case |
| Codes.Validate | src/Model/DLCode.php:208-220 | `validate`: no stored record carries the same code up to letter case, a written record's own row excepted |
| Codes.ValidateNew | src/Model/DLCode.php:208-220 | A new record passes validation iff no stored record carries its code up to letter case |
| Codes.ValidateStored | src/Model/DLCode.php:213-216 | In a store without case-insensitive duplicates and with distinct IDs, a written record does not conflict with itself |
| Codes.ValidateExample | tests/Model/DLCodeTest.php:84-95 | With "abc" stored, "abc1234" passes validation while "abc" and "aBC" are refused |
| Codes.FindRedeemable | src/Model/DLCode.php:227-241 | A result is an active record matching the optionally trimmed input (exactly, or up to letter case) that is redeemable, and no earlier record matches; with no active match the result is nothing |
| Codes.FindRedeemableComplete | src/Model/DLCode.php:233-238 | In a store without case-insensitive duplicates, an active redeemable record matching the input is the one found |
| Codes.FindSingle | src/Model/DLCode.php:233-240 | In a one-record store, the record is found iff it is active, matches the input and is redeemable |
| Codes.CaseSensitiveFoundNoCase | src/Model/DLCode.php:229-235 | In a store without case-insensitive duplicates, the record a case-sensitive lookup finds is the same record the case-insensitive lookup finds |
| Codes.LookupCaseExample | tests/Model/DLCodeTest.php:100-116 | "VALIDCODE" is found for "VALIDCODE", and for "vAlIDcoDE" exactly when matching is case-insensitive |
| Codes.LookupWhitespaceExample | tests/Model/DLPageTest.php:109-119 | "   FREE  " finds the stored "FREE" only when whitespace is stripped |
| Codes.CodeFromDraws | src/Model/DLCode.php:197-201 | The drawn code has exactly the configured length, and position i holds the alphabet character picked by draw i |
| Codes.CodeFromDrawsAlphabet | src/Model/DLCode.php:199 | Every character of a generated code belongs to the configured alphabet |
| Codes.RandomCode | src/Model/DLCode.php:193-202 | The loop builds exactly the code the draws spell; it fails iff the alphabet is empty and the length positive |
| Codes.FirstFree | src/Model/DLCode.php:170-181 | The chosen candidate is the first of candidates 0..10 not taken up to letter case, every earlier one is taken, and nothing is chosen when all 11 are taken |
| Codes.FirstFreeAt | src/Model/DLCode.php:178-181 | The first untaken candidate after taken ones is the one chosen |
| Codes.FirstFreeNone | src/Model/DLCode.php:173-174 | When all 11 candidates are taken, none is chosen |
| Codes.Registry.constructor | src/Model/DLCode.php:86-91 | The empty tables satisfy the store invariant (positive distinct IDs, no case-insensitive duplicates) |
| Codes.Registry.Insert | src/Model/DLCode.php:208-220 | The write is refused with a duplicate error iff the code is taken up to letter case, and then nothing changes; otherwise the record is appended under the next ID; the store invariant is kept |
| Codes.Registry.IncreaseUsageCount | src/Model/DLCode.php:258-265 | Only record k changes, to its increased form; the store invariant is kept |
| Codes.Registry.Redeem | src/Model/DLCode.php:273-291 | A non-redeemable code yields nothing and changes nothing. Otherwise the count rises by one. A limited code with a redemption gets its first one back and nothing is added. Any other case appends exactly one new redemption for the code, with the defaults. The store invariant is kept |
| Codes.FirstRedemptionOf | src/Model/DLCode.php:280 | `Redemptions()->first()`: the position of the first redemption of the code, with no earlier one of it; nothing when the code has none |
| Codes.Registry.DrawUniqueCode | src/Model/DLCode.php:169-181 | The retry loop returns the first untaken of up to 11 candidates; it fails with exhausted retries iff all 11 are taken, and with an empty-alphabet error when nothing can be drawn |
| Codes.Registry.AutoGenerate | src/Model/DLCode.php:166-186 | The new record has the defaults, the arguments and a code not taken up to letter case. It is written under the next ID only when writing is asked for. A failed generation writes nothing |
| Codes.LastUseScenario | src/Model/DLCode.php:273-291 | A limited code one use short of the limit: the first redemption succeeds and leaves it inactive at the limit; the second yields nothing |
| Redemptions.PopulateDefaults | src/Model/DLRedemption.php:47-53 | The secret is 64 lower-case hex characters that decode back to the 32 random bytes; the expiry lies exactly `86400 * validity_days` seconds after now |
| Redemptions.IsValid | src/Model/DLRedemption.php:59-62 | `isValid`: the redemption's code record still exists and the expiry lies strictly after now |
| Redemptions.ValidityBoundary | src/Model/DLRedemption.php:59-62 | Valid iff the code exists and now is strictly before the expiry; a redemption expiring at now is invalid |
| Redemptions.ValidityLostForGood | src/Model/DLRedemption.php:59-62 | A redemption valid at some time was valid at every earlier time: once lost, validity does not come back |
| Redemptions.FreshRedemptionValid | src/Model/DLRedemption.php:47-62 | A fresh redemption of an existing code is valid iff the validity is positive |
| Redemptions.UrlParamString | src/Model/DLRedemption.php:68-72 | Empty for an invalid redemption; otherwise a '?' followed by a query that parses back to exactly c = code ID, r = ID, s = secret |
| Redemptions.HexSecretParamString | src/Model/DLRedemption.php:71 | For a hex secret the suffix is literally `?c=<code ID>&r=<ID>&s=<secret>` |
| Redemptions.GetByQueryParams | src/Model/DLRedemption.php:80-92 | Nothing when c, r or s is missing; a result is a stored redemption whose ID is r, whose code record exists and has ID c, and whose secret equals s up to letter case; it is valid when validity is asked for |
| Redemptions.ResolveExact | src/Model/DLRedemption.php:83-89 | With distinct IDs, parameters naming a stored redemption of an existing code return it, when it is valid or validity is not asked for |
| Redemptions.ResolveRejectsAltered | src/Model/DLRedemption.php:83-87 | With distinct IDs, the right r with a wrong c, or with an s that differs from the secret by more than letter case, returns nothing |
| Redemptions.ResolveRejectsOrphan | src/Model/DLRedemption.php:85 | With distinct IDs, a redemption whose code record is gone is never returned, not even when validity is not asked for |
| Redemptions.SecretCaseExample | src/Model/DLRedemption.php:86 | The secret "a123" is found by the parameter "A123" |
| Redemptions.ResolveRejectsInvalid | src/Model/DLRedemption.php:88-91 | An exact match that is no longer valid is refused when validity is asked for |
| Redemptions.ParamStringResolves | src/Model/DLRedemption.php:68-92 | Round trip: the parameters of a valid redemption's link resolve to that redemption |
| Redemptions.LinkResolves | src/Model/DLPageController.php:32 | The same round trip for any stored redemption whose link is not empty |
| Packages.Package.GetCacheKey | src/Model/DLPackage.php:281-290 | The loop feeds the digest exactly the ID, the title, then each file's title and hash in list order |
| Packages.KeyInputTitle | src/Model/DLPackage.php:283 | A different package title feeds a different string |
| Packages.KeyInputFileTitle | src/Model/DLPackage.php:285-288 | A different title for one file feeds a different string |
| Packages.KeyInputFileHash | src/Model/DLPackage.php:287 | Different content (hash) for one file feeds a different string |
| Packages.KeyInputFileRemoved | src/Model/DLPackage.php:285-288 | Removing a file, or by symmetry adding one, changes the fed string unless that file's title and hash are both empty |
| Packages.IdTitleJoinAmbiguous | src/Model/DLPackage.php:283 | ID and title are joined without a separator: package 1 "2x" and package 12 "x" feed the same string |
| Packages.DistinctInputsDistinctKeys | src/Model/DLPackage.php:220 | Under a collision-free digest, different fed strings give different `_zip` cache entries |
| Packages.Filter | src/Model/DLPackage.php:206 | Every filtered file is a package file the filter accepts, and every accepted package file is among them |
| Packages.KeptPositions | src/Model/DLPackage.php:206 | The positions of the accepted files, strictly increasing, each in range and accepted |
| Packages.KeptPositionsComplete | src/Model/DLPackage.php:206 | Every position of an accepted file is among the kept positions |
| Packages.FilterAtPositions | src/Model/DLPackage.php:206 | The filtered list is the files at the kept positions, in the files' order |
| Packages.FilterSnoc | src/Model/DLPackage.php:206 | Extending the list by one file extends the filtered list and the kept positions by that file and its position exactly when the filter accepts it |
| Packages.FilterCount | src/Model/DLPackage.php:206 | Each accepted file occurs in the filtered list as often as in the package, a refused one not at all |
| Packages.SelectionKeyInputDiffers | src/Model/DLPackage.php:206-220 | A filter that drops a file with a title or hash feeds a different string than the full file list |
| Packages.Exposes | src/Model/DLPackage.php:182-185 | A file is publicly viewable when it is open to anyone, or inherits from a parent folder the checker lets the visitor view |
| Packages.Package.FilesAreProtected | src/Model/DLPackage.php:176-188 | True iff no file is open to anyone or inherits from a folder the checker lets the visitor view; true for an empty package |
| Packages.Package.GetCache | src/Model/DLPackage.php:269-275 | The shared cache is fetched on first use and the same one is returned afterwards |
| Packages.Cache.Get | src/Model/DLPackage.php:221 | Returns the entry under the key, or nothing |
| Packages.Cache.Set | src/Model/DLPackage.php:243 | Only the entry under the key changes |
| Packages.Cache.Clear | src/Model/DLPackage.php:300 | No entry remains |
| Packages.Lookup | src/Model/DLPackage.php:221 | An entry is returned iff the key is present, and it is the stored value |
| Packages.AssetStore.Exists | src/Model/DLPackage.php:224 | `exists(filename, hash)`: that version is stored; with no hash from the cache nothing exists |
| Packages.AssetStore.SetFromLocalFile | src/Model/DLPackage.php:240 | The returned file reference is the name and hash, and a version is stored only when the hash is non-empty |
| Packages.Flush | src/Model/DLPackage.php:297-301 | Afterwards the generated-file cache holds no entry under any key |
| Packages.Package.ZipWithKey | src/Model/DLPackage.php:219-250 | On a hit, returns the cached version and writes neither cache nor store. A miss whose archive cannot be opened returns nothing and writes nothing. Any other miss stores the archive and records its hash in the cache only when the hash is non-empty |
| Packages.Package.GetZippedFiles | src/Model/DLPackage.php:205-263 | Nothing when zipping is disabled, the selection is empty or zip support is missing. Otherwise the cache-or-build step, keyed by the cache key of all files whatever the filter |
| Packages.Package.GetZippedFilesKeyedBySelection | src/Model/DLPackage.php:205-263 | As above, with the cache entry keyed by the selected files only |
| Packages.FilteredCallServedFullArchive | src/Model/DLPackage.php:206-249 | After an unfiltered call has cached the full archive, a filtered call returns that same full archive |
| Packages.FilteredCallBuildsOwnArchive | src/Model/DLPackage.php:206-244 | Keyed by the selection, the filtered call builds the archive of the selected files instead |
| Admin.SearchResult | src/Model/DLCode.php:169-181 | The code an `autoGenerate` search picks is not taken up to letter case and has the configured length; it finds nothing exactly when all 11 candidates are taken |
| Admin.GenerateStep | src/Model/DLCode.php:166-186 | One `autoGenerate` call with writing: it succeeds iff the alphabet can be drawn from and the search picked a code; success appends the new record (defaults, form arguments, picked code, next ID) and nothing else; a failure changes nothing; an empty alphabet fails with `EmptyAlphabet`, and `RetriesExhausted` means the search found nothing |
| Admin.RunPrefix | src/Controller/DLCodeAdmin.php:112-121 | The state after the first i calls does not depend on later calls |
| Admin.RunStaysFailed | src/Controller/DLCodeAdmin.php:112-121 | Once a call has failed (thrown), later iterations change nothing |
| Admin.RunExtends | src/Controller/DLCodeAdmin.php:112-121 | The codes before the action stay as a prefix; i calls without failure add exactly i codes, and a failed run adds fewer |
| Admin.RunFailure | src/Controller/DLCodeAdmin.php:112-121 | A run fails only with `EmptyAlphabet` or `RetriesExhausted`; on an empty alphabet it fails at once and stores nothing, and `EmptyAlphabet` occurs only then |
| Admin.RunGenerated | src/Controller/DLCodeAdmin.php:113-120 | Every added code is a record with the defaults and the form's `Limited`, `Expires`, `PackageID` and `Note` |
| Admin.NextSearchFailsAllTaken | src/Model/DLCode.php:173-181 | A failed search means every one of its 11 candidates is taken up to letter case by the stored codes |
| Admin.RunRetriesExhausted | src/Model/DLCode.php:173-174 | A run that ends with `RetriesExhausted` does so because the search of its last call found no free candidate among the codes it ends with |
| Admin.AddedAsSearchedSnoc | src/Controller/DLCodeAdmin.php:112-113 | Appending the code the next call's search picked keeps every added code equal to its call's search result |
| Admin.AddedAsSearchedAt | src/Controller/DLCodeAdmin.php:112-113 | Read code by code: added code j is the search result of call j's draws against the codes stored before it |
| Admin.RunAddedAsSearched | src/Controller/DLCodeAdmin.php:112-121 | Each code a run adds is the search result of its call's draws against the codes stored before it |
| Admin.RunOutcome | src/Controller/DLCodeAdmin.php:111-121 | Gathers what a whole run guarantees: prefix, count, failure kinds and causes, form properties, and each added code as searched |
| Admin.RunSnoc | src/Controller/DLCodeAdmin.php:112 | Recording one more call keeps the earlier states and adds exactly one step |
| Admin.PickKept | src/Controller/DLCodeAdmin.php:112 | An earlier call's pick stays its true search result when a later call is recorded |
| Admin.RunNext | src/Controller/DLCodeAdmin.php:112-121 | Recording a call whose pick is its true search result keeps every pick true and extends the run by one step |
| Admin.GenerateCall | src/Controller/DLCodeAdmin.php:113-120 | One loop iteration calls `autoGenerate` with writing; the registry ends as one `GenerateStep` with the true search result says, and the store invariant is kept |
| Admin.GenerateNext | src/Controller/DLCodeAdmin.php:112-121 | One iteration extends the recorded run by a call whose pick is its true search result, and the registry matches the run |
| Admin.GenerateCalls | src/Controller/DLCodeAdmin.php:112-121 | The loop makes up to `Quantity` calls and stops at the first failure; the registry is the run over picks that are each the true search result of their call |
| Admin.Generate | src/Controller/DLCodeAdmin.php:108-124 | Nothing happens unless quantity and package are positive. Existing codes stay as a prefix. Success adds exactly `Quantity` codes; a failure adds fewer, stops, and is either an empty alphabet (then nothing is added) or a call whose 11 candidates were all taken. Each added code carries the form's properties and the defaults and is the first free candidate of its call's draws against the codes before it. All codes stay unique up to letter case |
| Pages.SubmitCode | src/Model/DLPageController.php:59-77 | No match gives the "invalid code" outcome and changes nothing. A match is redeemed and its link returned. A non-empty link resolves back to the redemption. A fresh redemption with positive validity gives a non-empty link, and a reused expired one gives an empty link |
| Common.FirstIndex | src/Model/DLCode.php:233-235 | `first()`: the index of the first element satisfying the filter, or nothing when none does |
| Text.LowerStr | src/Model/DLCode.php:212 | Case folding keeps the length and folds each character |
| Text.Trim | src/Model/DLCode.php:231 | The trimmed string neither starts nor ends with whitespace and is no longer than the input |
| Text.TrimRemovesPadding | src/Model/DLCode.php:231 | Whitespace around a core that does not start or end with whitespace is removed exactly |
| Text.TrimIdempotent | src/Model/DLCode.php:231 | Trimming twice is trimming once |
| Encoding.NatToString | src/Model/DLRedemption.php:71 | An ID is written as a non-empty digit string without a leading zero |
| Encoding.ParseNat | src/Model/DLRedemption.php:84-85 | A parameter names an ID iff it is a non-empty digit string |
| Encoding.ParseNatToString | src/Model/DLRedemption.php:84-85 | Reading a written ID gives the ID back |
| Encoding.NatToStringInjective | src/Model/DLRedemption.php:71 | Different IDs are written differently |
| Encoding.HexEncode | src/Model/DLRedemption.php:50 | `bin2hex` gives two lower-case hex digits per byte |
| Encoding.HexRoundTrip | src/Model/DLRedemption.php:50 | Decoding the hex string gives the bytes back |
| Encoding.UrlEncode | src/Model/DLRedemption.php:71 | An encoded value contains neither '&' nor '=' |
| Encoding.UrlRoundTrip | src/Model/DLRedemption.php:71 | Decoding an encoded value gives it back |
| Encoding.UrlEncodeUnreserved | src/Model/DLRedemption.php:71 | Digits and letters pass through encoding unchanged |
| Encoding.UrlDecodePlain | src/Model/DLPageController.php:32 | A value without '%' or '+' decodes to itself |
| Query.SplitJoin | src/Model/DLPageController.php:32 | Splitting at '&' separates a leading piece without '&' from the rest |
| Query.BreakAtJoin | src/Model/DLPageController.php:32 | A `key=value` piece breaks into its key and value |
| Query.ThreeParamsRoundTrip | src/Model/DLRedemption.php:71 | Three encoded `k=v` pieces joined by '&' parse back to exactly those three keys and values |

## Left out

- Permissions (`canView`, `canEdit`, `canDelete`, `canCreate`, `providePermissions`), the
  CMS fields and labels, the forms and grid-field buttons, and the bulk "distributed"
  handlers are framework plumbing. They are not part of this model.
- HTTP routing, redirects, the 404 response and `grantFile` in the page controller are not
  modelled. Only the flow lookup → redeem → link → lookup is composed in `Pages.SubmitCode`.
- The bytes of the zip archive, the temporary file and its clean-up, and the asset store's
  internals are abstract. The archive is an `archiveHash` of the packed files, plus a flag
  for whether the temporary file opens. The store is the set of versions it holds.
- Packages.AssetStore.SetFromLocalFile: the store is taken to keep the requested filename. A
  store that renames a file on conflict is not modelled.
- SHA-1 is an uninterpreted `digest` parameter. The 40-hex-character form of the key and
  the real absence of collisions are not modelled. Where a property needs distinct keys,
  it assumes an injective digest as a precondition.
- URL slugging (`URLSegmentFilter`) is an uninterpreted `slug` parameter.
- `random_int` and `random_bytes` are oracle parameters, so uniformity is not modelled.
  `Codes.RandomCode` assumes that the draws lie within the alphabet.
- Datetimes are integers in seconds, and `inFuture` is `> now`. A code or redemption
  expiring exactly at `now` counts as expired.
- MySQL collation is modelled as ASCII upper-/lower-case folding. Accent-insensitive and
  other collation rules are not modelled. `trim` removes the six characters PHP strips by
  default.
- Redemptions.GetByQueryParams: the `URLSecret` filter follows the column's collation,
  modelled as equality up to ASCII letter case. A PAD SPACE collation that also ignores
  trailing spaces is not modelled, so a secret with trailing spaces appended is refused.
- Redemptions.ResolveRejectsAltered: for the same reason it refuses an `s` that differs
  from the secret only by trailing spaces, which a PAD SPACE collation would accept.
- Codes.FindRedeemable: the `Code:case`/`Code:nocase` lookups compare whole strings;
  trailing spaces ignored by a PAD SPACE collation are not modelled.
- Codes.CodeFromDraws: `strlen` and `substr` count bytes, while the model indexes
  characters. An alphabet with multibyte characters, whose draws PHP would cut into
  partial bytes, is not modelled.
- Codes.RandomCode: the same byte-versus-character difference as `Codes.CodeFromDraws`.
- Admin.Generate: `Quantity` is an integer. A fractional form value such as `2.5`, for
  which PHP's loop runs three times, is not modelled, nor are non-numeric form values.
- PHP's loose comparisons and numeric casts of request parameters are not modelled. An ID
  parameter matches only when it is a plain decimal string, and `parse_str`'s rewriting of
  key names is left out. The model also does not cover the way `==`/`===` treat
  `CanViewType`; view types are an enumeration.
- Codes.Registry.IncreaseUsageCount: PHP changes the in-memory object, and `redeem` writes
  it afterwards. The model updates the stored record directly, so a changed count that is
  never written is not represented.
- A non-positive `autogenerate_length` gives an empty code, as PHP's loop does
  (`Codes.CodeLength`).
- Concurrency (racing redemptions, cache check versus build) is not modelled. Every call
  runs to completion alone.
- Codes.Registry.Insert: only the `validate` path of `write` is modelled. Other ORM write
  failures and the database's unique index are not modelled; the index is implied by the
  store invariant.

## Findings

| source | as written | input that shows it | evidently intended | confidence | as-written member | corrected member |
|---|---|---|---|---|---|---|
| src/Model/DLPackage.php:206-220 | `getZippedFiles($filter)` packs only the filtered files, but keys the cached archive by `getCacheKey()`, which covers all the package's files (`:285`) | A package with files A and B and zipping enabled: call `getZippedFiles()` first, then `getZippedFiles` with a filter selecting only A | A filtered call gets an archive of the selected files, so the key covers the selection | medium, not executed | Packages.FilteredCallServedFullArchive | Packages.FilteredCallBuildsOwnArchive |
