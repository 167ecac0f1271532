# mc-webapp core, modelled in Dafny

mc-webapp is a small Next.js site that hosts Minecraft add-ons (mods, resource packs,
maps and the like). Visitors browse and download them. A single administrator logs in and
uploads content through a chunked protocol:

1. `POST /api/upload/init` checks the file name and size and mints an upload id.
2. `POST /api/upload/chunk` stores each 5 MiB chunk as `chunk_NNNNNN` in a staging
   directory for that id.
3. `POST /api/upload/complete` concatenates the chunks into the published content file,
   saves a thumbnail and records a row in the SQLite catalog.

The administrator also edits settings: the storage quota, the login name and password,
an icon and theme colours. Sessions live in an in-memory map.

This project models that core:

- **Text and numbers.** The JavaScript primitives the core relies on: `trim`,
  `toLowerCase`, `includes`, `parseInt(s, 10)`, `String(n)` and `padStart`.
- **Validation.** The extension and size rules.
- **File store.** A class whose fields are the staging directories and the public files.
- **Catalog.** A class holding the `contents` rows and the `settings` map, with the SQL
  queries as functions.
- **Sessions.** The session store and the credential check.
- **Route handlers.** The four upload and login routes, and the settings route.
- **Uploader.** The browser component that drives the protocol.
- **Listings.** The filtering and counting done by the two content listings.

Each core file is modelled in its own form. Pure helpers and SQL queries are functions
with lemmas. The file store, the database, the session store, the uploader form and the
admin page are classes whose methods update their fields. The loops of `assembleChunks`,
`getDirSize` and `handleUpload` are `while` loops with invariants.

The central results:

- **Upload round trip** (`Uploader.UploadRoundTrip`, `Uploader.FileUploader.HandleUpload`).
  Splitting a file into chunks, sending them in order and assembling them yields the file
  byte for byte, and the upload id's staging directory is removed.
- **Chunk names are injective** (`Storage.ChunkNameInjective`). Negative indices are
  included.
- **Decimal text round-trips** (`Decimal.ParseIntRoundTrip`). `parseInt(String(i), 10)`
  gives back `i` for every safe integer, that is, every integer of magnitude at most
  2^53 - 1.
- **Validation** (`Validation.ContentFileValidIff`). It is exact, its extension check
  ignores case, and the checks run in the documented order.
- **Catalog queries** (`Catalog.ContentsByCategoryCorrect`). The category grouping is
  correct and complete.
- **Catalog updates** (`Catalog.BumpChangesOne`, `Catalog.DeleteRemovesOne`). Counter
  updates change only the row with the given id, and deletes remove exactly that row.
- **Settings round trips** (`SettingsRoute.QuotaRoundTrip`, `SettingsRoute.NameRoundTrip`,
  `SettingsRoute.PasswordRoundTrip`). A PUT followed by a GET or a login sees the new
  values. A quota sent as `null` comes back as `null`.
- **Sessions** (`Auth.SessionLifetime`, `LoginRoute.LoginThenValidate`). A session lasts
  exactly 24 hours, which matches the cookie's `maxAge`.

Behaviour of the code worth knowing:

- **Empty chunks.** An empty chunk blob passes the chunk route's guard.
- **Gaps.** A gap in the chunks leaves a truncated destination file behind.
- **Non-numeric fileSize.** A `fileSize` that is not a number fails the insert with a 500,
  but only after the content file and the thumbnail were written.
- **Absent title.** An absent `title` field makes `title.trim()` throw, which gives a 500,
  not a 400.
- **Blank quota.** Saving the settings page with an empty GB field sends
  `max_storage_bytes: null`. It is stored as the text "null", and GET then returns `null`.
- **Uploader versus server.** The uploader lets the administrator submit without a
  description or a thumbnail. The complete route refuses both, and it does so only after
  every chunk was sent.

Nondeterminism and the outside world are parameters:

- **Ids and tokens.** `uuidv4()` and the session token are arguments.
- **Clock.** The time is an argument `now`.
- **Password hash.** SHA-256 is an arbitrary function `hash: string -> string`, which is
  never assumed injective.
- **Network failures.** Whether a chunk request or a write fails is an argument
  (`failing`, `ioFailure`).
- **Confirmation dialog.** The browser's `confirm()` answer is an argument.

## Model

| member | source | states |
|---|---|---|
| Basics.SumOfAppend | src/lib/db.ts:116-121 | a `SUM` over two concatenated row lists is the sum of the two sums |
| Basics.SumOfRemove | src/lib/db.ts:102-104 | removing one element from a list lowers its sum by exactly that element's value |
| Text.LeadingSpaces | src/app/api/upload/complete/route.ts:26-27 | the count of leading white space never exceeds the length |
| Text.TrailingSpaces | src/app/api/upload/complete/route.ts:26-27 | the count of trailing white space never exceeds the length |
| Text.LeadingSpacesShape | src/app/api/upload/complete/route.ts:26-27 | every counted leading character is ECMAScript white space, and the first uncounted one is not |
| Text.TrailingSpacesShape | src/app/api/upload/complete/route.ts:26-27 | every counted trailing character is white space, and the last uncounted one is not |
| Text.TrimStartShape | src/app/api/upload/complete/route.ts:26-27 | `trimStart` returns a suffix that starts with a non-space, and everything it dropped is white space |
| Text.TrimEndShape | src/app/api/upload/complete/route.ts:26-27 | trimming the end returns a prefix that ends with a non-space, and everything it dropped is white space |
| Text.TrimIsInfix | src/app/api/settings/route.ts:37-38 | `trim()` returns a contiguous piece of its input that is empty or has a non-space at both ends |
| Text.TrimIdempotent | src/app/api/settings/route.ts:37-38 | trimming twice gives the same as trimming once |
| Text.TrimmedBlank | src/components/FileUploader.tsx:145-146 | a trimmed text is blank exactly when the original was, so the server's check agrees with the client's |
| Text.BlankIffAllSpace | src/app/api/upload/complete/route.ts:26-27 | `!s.trim()` holds exactly when every character of s is white space |
| Text.LowerChar | src/lib/validation.ts:28 | `toLowerCase` maps A-Z to a-z and leaves every other character alone |
| Text.Lower | src/lib/validation.ts:28 | lower-casing keeps the length |
| Text.LowerAt | src/lib/validation.ts:28 | lower-casing works character by character |
| Text.LowerKeepsNonLetter | src/lib/validation.ts:26-28 | a character that is not a letter, such as '.', sits at the same positions before and after lower-casing |
| Text.OccursAtShift | src/app/page.tsx:95-96 | an occurrence at position k of a string is one at k-1 of its tail |
| Text.ContainsIff | src/app/page.tsx:95-96 | `includes` is true exactly when the needle occurs at some position |
| Decimal.DigitChar | src/lib/storage.ts:26 | the character written for a digit is a decimal digit |
| Decimal.DigitValue | src/app/api/upload/chunk/route.ts:12 | a digit character reads as a value below ten |
| Decimal.NatToString | src/lib/storage.ts:26 | `String(n)` is a non-empty run of digits with no leading zero unless n is 0 (JavaScript's form below 1e21; see Left out) |
| Decimal.LeadingDigits | src/app/api/upload/chunk/route.ts:12 | the run `parseInt` reads is the longest digit prefix |
| Decimal.NatToStringValue | src/lib/storage.ts:26 | the digits of `String(n)` have the value n |
| Decimal.AllDigitsLeading | src/app/api/upload/chunk/route.ts:12 | on a string of digits, `parseInt` reads the whole string |
| Decimal.TrimStartKeeps | src/app/api/upload/chunk/route.ts:12 | text that does not start with white space is not changed by `parseInt`'s white-space skip |
| Decimal.ParseIntRoundTrip | src/components/FileUploader.tsx:121 | `parseInt(String(i), 10) == i` for every safe integer, negative ones included |
| Decimal.ParseIntFieldRoundTrip | src/app/api/upload/complete/route.ts:11 | a form field sent as `String(i)` for a safe integer i is read back by the route as i |
| Decimal.IntToStringInjective | src/lib/storage.ts:26 | different integers have different decimal texts |
| Decimal.PadStart | src/lib/storage.ts:26 | `padStart` yields exactly `width` characters, or the text itself if it is already that long |
| Decimal.PadStartShape | src/lib/storage.ts:26 | the padded text is fill characters followed by the original |
| Decimal.IntToStringCanonical | src/lib/storage.ts:26 | `String(i)` has no superfluous leading zero |
| Decimal.PadStartInjective | src/lib/storage.ts:26 | zero-padding does not merge two canonical decimal texts |
| Decimal.Pow10 | src/lib/storage.ts:26 | powers of ten are positive |
| Decimal.NatToStringLength | src/lib/storage.ts:26 | a number below 10^k has at most k digits |
| Validation.LastIndexOf | src/lib/validation.ts:26 | `lastIndexOf` returns -1 or an in-range index holding the character |
| Validation.LastIndexOfShape | src/lib/validation.ts:26-27 | the result is -1 exactly when the character is absent, and no later index holds it |
| Validation.FileExtensionEmpty | src/lib/validation.ts:25-29 | the extension is empty exactly when the name has no dot |
| Validation.FileExtensionShape | src/lib/validation.ts:25-29 | the extension is the lower-cased tail starting at the last dot, and it contains no further dot |
| Validation.ContentFileValidIff | src/lib/validation.ts:31-53 | a content file is accepted exactly when its extension is in the allow-list and its size is at most 5 GiB |
| Validation.ExtensionCheckedBeforeSize | src/lib/validation.ts:34-50 | a missing or unsupported extension is reported whatever the size, and "too large" only for an allowed extension |
| Validation.SizeBoundary | src/lib/validation.ts:12 | the limit is 5368709120 bytes and it is inclusive |
| Validation.LowerIdempotent | src/lib/validation.ts:28 | lower-casing twice is lower-casing once |
| Validation.LowerSuffix | src/lib/validation.ts:28 | lower-casing commutes with taking a prefix or a suffix |
| Validation.LastDotIgnoresCase | src/lib/validation.ts:26 | the last dot sits at the same index in the name and in its lower-cased form |
| Validation.ExtensionIgnoresCase | src/lib/validation.ts:25-29 | the extension of a lower-cased name is the extension of the name |
| Validation.ValidationIgnoresCase | src/lib/validation.ts:31-66 | both validators give the same verdict for a name and its lower-cased form |
| Validation.UpperCaseNameDot | src/lib/validation.ts:26 | "PACK.MCPACK" has its last dot at index 4 |
| Validation.UpperCaseNameAccepted | src/lib/validation.ts:1-10 | an upper-case ".MCPACK" name is accepted, with extension ".mcpack" |
| Validation.ThumbnailValidIff | src/lib/validation.ts:55-66 | a thumbnail is accepted exactly when its extension is jpg, jpeg, png or webp, and a dotless name is refused with an empty extension |
| Sorting.InsertDesc | src/lib/db.ts:81 | inserting into an ordered list adds one element |
| Sorting.InsertDescMultiset | src/lib/db.ts:81 | insertion adds exactly the new row and loses none |
| Sorting.InsertDescBounded | src/lib/db.ts:81 | insertion keeps every key below a common bound |
| Sorting.InsertDescSorted | src/lib/db.ts:81 | insertion keeps the list in descending key order |
| Sorting.SortDesc | src/lib/db.ts:81 | `ORDER BY … DESC` returns a descending permutation of the rows |
| Sorting.SortDescMembers | src/lib/db.ts:139 | ordering keeps exactly the same members |
| Sorting.SumOfCons | src/lib/db.ts:118 | the sum over a list with one more element in front grows by that element's value |
| Sorting.InsertDescSum | src/lib/db.ts:118 | insertion adds the new row's value to any sum |
| Sorting.SortDescSum | src/lib/db.ts:118 | ordering does not change any sum |
| Sorting.InsertDescDistinct | src/lib/db.ts:139 | insertion of an element with a new key keeps the keys distinct |
| Sorting.InsertDescMembers | src/lib/db.ts:139 | insertion brings in no element other than the new one |
| Sorting.SortDescDistinct | src/lib/db.ts:139 | ordering keeps distinct keys distinct |
| Sorting.Limit | src/lib/db.ts:147 | `LIMIT n` keeps a prefix of length min(n, count), and a negative limit keeps everything as SQLite does |
| Storage.PublicDirsDisjoint | src/lib/storage.ts:52-58 | a content path and a thumbnail path never coincide |
| Storage.ChunkNameInjective | src/lib/storage.ts:26-38 | two indices with the same chunk file name are equal |
| Storage.ChunkNameDistinct | src/lib/storage.ts:26-38 | different indices are stored under different chunk files |
| Storage.ZerosValue | src/lib/storage.ts:26 | a run of zeros has value 0 |
| Storage.LeadingZerosValue | src/lib/storage.ts:26 | leading zeros do not change a digit string's value |
| Storage.ZeroPaddingKeepsValue | src/lib/storage.ts:26 | zero-padding keeps the value of the index |
| Storage.ChunkNameSixDigits | src/lib/storage.ts:26 | indices below one million give names of six digits that read back as the index |
| Storage.FirstMissingFrom | src/lib/storage.ts:37-42 | the scan reports the first index whose chunk file is absent, or none when all are present |
| Storage.FirstMissingIs | src/lib/storage.ts:39-41 | an absent chunk whose predecessors are all present is the one reported |
| Storage.LastWriteWins | src/lib/storage.ts:24-28 | re-sending a chunk overwrites it |
| Storage.WithChunkIsolated | src/lib/storage.ts:24-28 | saving one chunk leaves every other chunk of every upload as it was |
| Storage.StageAllLookup | src/lib/storage.ts:24-28 | after chunks 0..k-1 are saved, chunk j < k holds the j-th piece |
| Storage.AssembleStaged | src/lib/storage.ts:37-45 | chunks saved in order assemble with no gap into the concatenation of the pieces |
| Storage.GapIsReported | src/lib/storage.ts:39-41 | with chunks 0 and 2 of three staged, chunk 1 is reported missing |
| Storage.FileStore.constructor | src/lib/storage.ts:8-14 | the store starts with no staging directories and no public files |
| Storage.FileStore.GetTempDir | src/lib/storage.ts:16-22 | returns the upload's staging path, creating the directory empty if it is absent, and changes nothing else |
| Storage.FileStore.SaveChunk | src/lib/storage.ts:24-28 | writes `chunk_NNNNNN` in the upload's staging directory, creating it if needed |
| Storage.FileStore.CleanupTempDir | src/lib/storage.ts:89-94 | removes the upload's staging directory, and only that |
| Storage.FileStore.AssembleChunks | src/lib/storage.ts:30-53 | with no gap the destination is the concatenated chunks, the staging directory is removed and the public path is returned; at a gap it fails naming the first missing index and leaves a truncated destination |
| Storage.FileStore.SaveThumbnail | src/lib/storage.ts:55-59 | writes or overwrites the thumbnail and returns `/uploads/thumbnails/<name>` |
| Storage.FileStore.DeleteFile | src/lib/storage.ts:61-67 | removes the public file if it exists, and nothing else |
| Storage.FileSizesAppend | src/lib/storage.ts:77-85 | the file sizes of a joined listing are the two lists of sizes joined |
| Storage.ListingSizeStep | src/lib/storage.ts:78-85 | one more entry adds its own contribution to the running total |
| Storage.EntrySize | src/lib/storage.ts:80-84 | a file contributes its length, a directory its recursive total and anything else 0 |
| Storage.ListingSize | src/lib/storage.ts:76-86 | the loop's total is the sum of the sizes of all files, at any depth |
| Storage.DirSize | src/lib/storage.ts:73-87 | a missing directory has size 0, and an existing one the sum of all file sizes under it |
| Storage.StorageUsed | src/lib/storage.ts:69-71 | storage used is the recursive size of the contents directory |
| Catalog.HasIdTail | src/lib/db.ts:85-89 | the id search can skip a first row with another id |
| Catalog.FindById | src/lib/db.ts:85-89 | `getContentById` finds a row with that id exactly when there is one |
| Catalog.FindByIdUnique | src/lib/db.ts:21 | with the primary key, looking up a row's id returns that row |
| Catalog.AllContents | src/lib/db.ts:79-83 | every row, newest first, none lost or added |
| Catalog.RecentContents | src/lib/db.ts:145-149 | a prefix of the newest-first order of the table (`AllContents`), sorted newest first, a sub-multiset of the table (no row repeated beyond its count), of length min(`limit`, row count) |
| Catalog.RecentAreNewest | src/lib/db.ts:145-149 | no row left out by the limit is newer than one kept |
| Catalog.WithoutId | src/lib/db.ts:102-104 | after a delete no row has the id, and the table did not grow |
| Catalog.WithoutIdMembers | src/lib/db.ts:102-104 | a delete keeps exactly the rows with another id |
| Catalog.WithoutIdAppend | src/lib/db.ts:102-104 | deleting distributes over the order of the rows |
| Catalog.WithoutAbsentId | src/lib/db.ts:102-104 | deleting an unknown id changes nothing |
| Catalog.IdOnlyAt | src/lib/db.ts:21 | under the primary key, a row's id occurs nowhere else |
| Catalog.DeleteRemovesOne | src/lib/db.ts:102-104 | deleting a row's id removes that row and keeps the rest in order |
| Catalog.DeleteCount | src/lib/db.ts:123-128 | a delete lowers the count by one when the id existed, and otherwise not at all |
| Catalog.DeleteTotal | src/lib/db.ts:116-121 | a delete lowers the stored total by the deleted row's size |
| Catalog.Bumped | src/lib/db.ts:106-114 | a counter update keeps the rows, their order and their ids |
| Catalog.BumpUnknownId | src/lib/db.ts:106-114 | incrementing an unknown id changes nothing |
| Catalog.BumpChangesOne | src/lib/db.ts:106-114 | incrementing changes only the row with that id |
| Catalog.BumpAddsOne | src/lib/db.ts:106-114 | the counter's column total grows by exactly one |
| Catalog.IndexOfCategory | src/lib/db.ts:139 | finds the group of a category, or shows it has none |
| Catalog.SumOfUpdate | src/lib/db.ts:138 | replacing one group changes the column sum by the difference |
| Catalog.CountStep | src/lib/db.ts:138 | one more row adds to its own category's count and size and to no other |
| Catalog.TotalSizeStep | src/lib/db.ts:118 | one more row adds its size to the stored total |
| Catalog.AddNewCategory | src/lib/db.ts:138-139 | a row of a new category starts a group of one |
| Catalog.AddKnownCategory | src/lib/db.ts:138-139 | a row of a known category adds to that group's count and size |
| Catalog.AddToGroupsCorrect | src/lib/db.ts:138-139 | adding a row keeps the groups an exact `GROUP BY category` of the rows |
| Catalog.NoRowsInCategory | src/lib/db.ts:138 | a category no row has counts 0 rows and 0 bytes |
| Catalog.CountAbsent | src/lib/db.ts:138-139 | a category with no group has no rows |
| Catalog.GroupsCorrect | src/lib/db.ts:138-139 | the grouping of all rows is exact and complete |
| Catalog.ContentsByCategory | src/lib/db.ts:130-143 | the groups come in descending count order |
| Catalog.GroupsReordered | src/lib/db.ts:139 | reordering a correct grouping keeps it correct |
| Catalog.ContentsByCategoryCorrect | src/lib/db.ts:130-143 | one entry per category present, with that category's count and size; counts add up to the row count and sizes to the stored total |
| Catalog.GetSetting | src/lib/db.ts:153-158 | a value is returned exactly when the key is stored, and it is the stored value |
| Catalog.SettingOr | src/lib/auth.ts:24 | `getSetting(k) \|\| fallback` gives the fallback for an absent or empty value |
| Catalog.WithDefaultSetting | src/lib/db.ts:60 | `INSERT OR IGNORE` adds the 1 TB quota only when none is stored, and touches no other key |
| Catalog.DefaultSettingIdempotent | src/lib/db.ts:60 | starting the server twice seeds the default once |
| Catalog.Database.constructor | src/lib/db.ts:19-61 | a fresh database has no rows and only the default quota |
| Catalog.Database.EnsureDefaultSetting | src/lib/db.ts:60 | applies the seeding insert to the settings |
| Catalog.Database.InsertContent | src/lib/db.ts:91-100 | a row with a non-null size and a new id is appended with zero counters; a null size or a taken id fails and changes nothing |
| Catalog.Database.DeleteContent | src/lib/db.ts:102-104 | removes the row with that id and keeps ids unique |
| Catalog.Database.IncrementVisitCount | src/lib/db.ts:106-108 | adds one visit to the row with that id |
| Catalog.Database.IncrementDownloadCount | src/lib/db.ts:110-114 | adds one download to the row with that id |
| Catalog.Database.SetSetting | src/lib/db.ts:160-165 | `INSERT OR REPLACE` stores the value under the key |
| Catalog.WithoutIdKeepsUnique | src/lib/db.ts:21 | a delete keeps the primary key unique |
| Catalog.SetThenGet | src/lib/db.ts:153-165 | a set is read back, and other keys are unaffected |
| Catalog.InsertThenFind | src/lib/db.ts:85-100 | an inserted row is found by its id and adds its size to the total |
| Auth.AdminCredentials | src/lib/auth.ts:20-31 | the stored name or "razael", and the stored hash or the hash of "admin123", an empty stored value counting as absent |
| Auth.DefaultCredentials | src/lib/auth.ts:4-5 | before anything is stored, exactly the default name with a password hashing like the default one logs in |
| Auth.PasswordUpdateTakesEffect | src/lib/auth.ts:78-82 | after a password update the current user logs in exactly with passwords hashing like the new one |
| Auth.UsernameUpdateTakesEffect | src/lib/auth.ts:87-91 | after a rename the password works with the new name and no longer with the old one |
| Auth.UpdateAdminPassword | src/lib/auth.ts:78-82 | stores the hash of the new password and nothing else |
| Auth.UpdateAdminUsername | src/lib/auth.ts:87-91 | stores the new name and nothing else |
| Auth.AfterValidate | src/lib/auth.ts:56-66 | a validation removes at most the token asked about, and only when it is invalid |
| Auth.SessionLifetime | src/lib/auth.ts:10 | a new session is valid up to and including 24 hours later, and not after |
| Auth.ValidateIdempotent | src/lib/auth.ts:56-66 | validating twice answers and leaves the store as validating once |
| Auth.ExpiryIsFinal | src/lib/auth.ts:60-63 | an expired session stays invalid and is removed when checked |
| Auth.SessionStore.constructor | src/lib/auth.ts:8 | the server starts with no sessions |
| Auth.SessionStore.CreateSession | src/lib/auth.ts:44-51 | records the user under the token with a 24-hour expiry and returns the token |
| Auth.SessionStore.ValidateSession | src/lib/auth.ts:56-66 | answers whether the token is known and unexpired, and deletes it when it is expired |
| Auth.SessionStore.DestroySession | src/lib/auth.ts:71-73 | removes the token, which never validates afterwards |
| LoginRoute.CookieMatchesSession | src/app/api/auth/login/route.ts:31 | the cookie's `maxAge` is the session's lifetime |
| LoginRoute.Decide | src/app/api/auth/login/route.ts:9-38 | 400 exactly when a field is missing, success exactly when both are present and the credentials verify, with the cookie carrying the token |
| LoginRoute.Login | src/app/api/auth/login/route.ts:9-38 | a session is created for the posted user, and only on success |
| LoginRoute.LoginThenValidate | src/app/api/auth/login/route.ts:23-33 | the cookie's token validates for the cookie's whole lifetime |
| InitRoute.Init | src/app/api/upload/init/route.ts:10-30 | missing name or size gives 400, a failed validation gives that error, and otherwise an upload id is returned for an allowed extension and size |
| InitRoute.EmptyFileAccepted | src/app/api/upload/init/route.ts:12-20 | a size of 0 or `null` is initialised and only an absent size is refused |
| InitRoute.PresenceBeforeValidation | src/app/api/upload/init/route.ts:12-15 | an empty name or an absent size is reported as missing, before validation |
| ChunkRoute.Chunk | src/app/api/upload/chunk/route.ts:11-35 | a guard failure gives 400 and changes nothing, a write failure gives 500, and otherwise the chunk is staged and its index echoed |
| ChunkRoute.NegativeIndexStored | src/app/api/upload/chunk/route.ts:12-20 | index "-1" passes and is stored under `chunk_0000-1` |
| ChunkRoute.IndexIsLeadingInteger | src/app/api/upload/chunk/route.ts:12 | "3.9" and "3abc" are both read as chunk 3 |
| ChunkRoute.NonNumericIndexRefused | src/app/api/upload/chunk/route.ts:15-20 | an absent, empty or non-numeric index is refused, and an empty chunk is accepted |
| CompleteRoute.OrElse | src/app/api/upload/complete/route.ts:13-20 | `field \|\| fallback` gives the fallback for an absent or empty field |
| CompleteRoute.CheckFields | src/app/api/upload/complete/route.ts:22-38 | the request passes exactly when id, count, name, non-blank title and description and a non-empty thumbnail are present; an absent title throws |
| CompleteRoute.CheckFieldsAfterTitle | src/app/api/upload/complete/route.ts:26-30 | past the title, the outcome depends only on the description and the thumbnail |
| CompleteRoute.ContentFileName | src/app/api/upload/complete/route.ts:40-42 | the stored name starts with the new id |
| CompleteRoute.ThumbnailFileName | src/app/api/upload/complete/route.ts:48-56 | the thumbnail's stored name starts with the new id |
| CompleteRoute.Submitted | src/app/api/upload/complete/route.ts:59-70 | the row gets the new id, the paths, the raw title, "mod" for a missing category and the original extension |
| CompleteRoute.Complete | src/app/api/upload/complete/route.ts:10-87 | refusals change nothing; a gap leaves the partial file and no row; otherwise both files are written and the row is added unless its size is NaN or its id is taken |
| CompleteRoute.DescriptionAndThumbnailRequired | src/app/api/upload/complete/route.ts:22-38 | a missing description or thumbnail is refused |
| CompleteRoute.AbsentTitleThrows | src/app/api/upload/complete/route.ts:22-38 | an absent title is a 500 and a blank one a 400 |
| CompleteRoute.ThumbnailNaming | src/app/api/upload/complete/route.ts:48-56 | no name gives ".png", and a dotless name gives the bare id |
| CompleteRoute.ContentNaming | src/app/api/upload/complete/route.ts:40-42 | the content file keeps an allowed extension, and a dotless name gives the bare id |
| SettingsRoute.KeysDistinct | src/app/api/settings/route.ts:45-55 | the six setting keys are pairwise distinct |
| SettingsRoute.GetSettings | src/app/api/settings/route.ts:5-27 | each field is the stored value or its default, and the quota is parsed with `parseInt` |
| SettingsRoute.DefaultQuotaText | src/lib/db.ts:60 | the seeded quota text is `String(1099511627776)` |
| SettingsRoute.QuotaDefault | src/app/api/settings/route.ts:7-14 | the default quota parses to 1099511627776 bytes |
| SettingsRoute.GetDefaults | src/app/api/settings/route.ts:5-27 | on a fresh database GET returns the default quota, name and themes |
| SettingsRoute.ApplyWritesAccount | src/app/api/settings/route.ts:33-43 | the quota, name and password keys each hold their own write or their old value |
| SettingsRoute.ApplyWritesAppearance | src/app/api/settings/route.ts:45-55 | the icon and theme keys each hold their own write or their old value |
| SettingsRoute.ApplyPut | src/app/api/settings/route.ts:29-65 | a PUT never touches any other key |
| SettingsRoute.QuotaText | src/app/api/settings/route.ts:34 | `String` of the sent value: "null" for `null`, and a canonical decimal text for a number |
| SettingsRoute.PutQuota | src/app/api/settings/route.ts:33-35 | the quota is stored as `String` of the sent value, `null` included, and kept when absent |
| SettingsRoute.PutCredentials | src/app/api/settings/route.ts:37-43 | a non-blank name is stored trimmed and a non-blank password as the hash of its trimmed text; blank or absent ones keep the stored value |
| SettingsRoute.PutAppearance | src/app/api/settings/route.ts:45-55 | icon and colours are stored verbatim when sent, the empty string included |
| SettingsRoute.PutSettings | src/app/api/settings/route.ts:29-65 | the handler's writes leave exactly the settings described by `ApplyPut`, and no row changes |
| SettingsRoute.QuotaRoundTrip | src/app/api/settings/route.ts:14-35 | GET after a PUT of a safe integer quota returns that quota, and after a PUT of `null` returns NaN, sent as `null` |
| SettingsRoute.NameRoundTrip | src/app/api/settings/route.ts:37-39 | after a PUT of a name, GET and the login both use the trimmed name |
| SettingsRoute.PasswordRoundTrip | src/app/api/settings/route.ts:41-43 | after a PUT of a password, the admin logs in with its trimmed text |
| SettingsRoute.BlankFieldsIgnored | src/app/api/settings/route.ts:37-43 | blank name and password fields leave the credentials as they were |
| Uploader.StripExtension | src/components/FileUploader.tsx:59 | the title stem is a prefix of the name |
| Uploader.SeparatorsToSpaces | src/components/FileUploader.tsx:59 | replacing separators keeps the length |
| Uploader.SeparatorsToSpacesShape | src/components/FileUploader.tsx:59 | no '-' or '_' is left and every other character stays |
| Uploader.StemAndExtension | src/components/FileUploader.tsx:59 | for an accepted name the stem and the extension split the name |
| Uploader.TitleExample | src/components/FileUploader.tsx:58-61 | "my-cool_pack.mcpack" gives the title "my cool pack" |
| Uploader.ChunkCountIsCeiling | src/components/FileUploader.tsx:113 | the chunk count is the ceiling of size / 5 MiB, and 0 for an empty file |
| Uploader.ChunkAt | src/components/FileUploader.tsx:116-118 | every chunk has between 1 byte and 5 MiB |
| Uploader.Split | src/components/FileUploader.tsx:115-118 | the file is cut into exactly `totalChunks` pieces |
| Uploader.SplitPrefix | src/components/FileUploader.tsx:116-118 | the first k pieces concatenate to the first min(5 MiB · k, size) bytes |
| Uploader.SplitRoundTrip | src/components/FileUploader.tsx:115-118 | the pieces concatenate to the file |
| Uploader.ChunkSizes | src/components/FileUploader.tsx:116-118 | every piece but the last is a full 5 MiB |
| Uploader.FirstFailure | src/components/FileUploader.tsx:130-132 | the loop stops at the first failing chunk request, or at none |
| Uploader.FirstFailureIs | src/components/FileUploader.tsx:115-132 | a failing request preceded only by successful ones is the one the loop stops at |
| Uploader.CompleteRequestAccepted | src/components/FileUploader.tsx:141-156 | for a file within the 5 GiB limit, the server accepts the completing request exactly when the form has a non-blank description and a non-empty thumbnail, and it reads back the chunk count and the size |
| Uploader.SelectedFileInitialises | src/components/FileUploader.tsx:99-110 | a file that passed selection is always initialised |
| Uploader.ChunkRequestAccepted | src/components/FileUploader.tsx:119-123 | the request for chunk i passes the chunk route's guard and names index i |
| Uploader.ChunkStep | src/components/FileUploader.tsx:115-137 | sending chunk i after 0..i-1 leaves chunks 0..i staged |
| Uploader.UploadRoundTrip | src/components/FileUploader.tsx:115-137 | once every chunk is sent, assembly finds no gap and rebuilds the file byte for byte |
| Uploader.SendChunks | src/components/FileUploader.tsx:115-137 | chunks are staged in order up to the first failed request, whose index is returned |
| Uploader.SendComplete | src/components/FileUploader.tsx:163-166 | after a full upload the completing request removes the staging directory, publishes the file unchanged and the thumbnail, and appends the row the route builds exactly when the content id is new |
| Uploader.SubmittedFromForm | src/components/FileUploader.tsx:141-156 | the row the form's request records has the trimmed title and description, the category or "mod", the file's size and extension, and the two paths |
| Uploader.StagedAfterElsewhere | src/lib/storage.ts:89-93 | removing an upload's staging directory leaves every other upload's directory as it was before its chunks were sent |
| Uploader.SendForm | src/components/FileUploader.tsx:138-166 | with every chunk staged, a blank description or missing thumbnail changes nothing; otherwise file and thumbnail are published, staging is cleaned, and the form's row is appended exactly when the id is new |
| Uploader.FileUploader.constructor | src/components/FileUploader.tsx:22-38 | the form starts empty with category "mod" and status idle |
| Uploader.FileUploader.SelectFile | src/components/FileUploader.tsx:50-62 | a valid file is taken and fills an empty title from its name; an invalid one shows its error and leaves the form |
| Uploader.FileUploader.ProposeTitle | src/components/FileUploader.tsx:58-61 | an empty title becomes the file name without its extension and with separators as spaces; a typed title is kept |
| Uploader.FileUploader.DropFile | src/components/FileUploader.tsx:43-48 | a dropped file that passes validation is taken and always replaces the title with the one derived from its name, even a typed one, because the memoised handler sees the first render's empty title |
| Uploader.FileUploader.Cancel | src/components/FileUploader.tsx:440-447 | "Batal" clears the file, title, description, thumbnail and error and resets the category to "mod"; supported versions and Minecraft type are kept |
| Uploader.FileUploader.SelectThumbnail | src/components/FileUploader.tsx:64-75 | only an image name passing validation is taken as the thumbnail |
| Uploader.FileUploader.RemoveThumbnail | src/components/FileUploader.tsx:77-80 | drops the thumbnail and nothing else |
| Uploader.FileUploader.RemoveFile | src/components/FileUploader.tsx:82-84 | drops the file and keeps the title derived from it |
| Uploader.FileUploader.HandleUpload | src/components/FileUploader.tsx:86-193 | refuses without file or title; the init route never refuses a file the form holds; then chunks go out in order and complete follows, failing at the first failed step; a full upload publishes the file byte for byte and the thumbnail, removes the staging directory, and appends the row with the trimmed title and description, the category, the file's size and extension and both paths exactly when the content id is new |
| Listing.Filtered | src/app/page.tsx:92-99 | the filtered list is no longer than the loaded one |
| Listing.FilteredMembers | src/app/admin/contents/page.tsx:59-67 | a row is listed exactly when it was loaded and matches the search and the category |
| Listing.FilteredAppend | src/app/page.tsx:92-99 | filtering keeps the rows' relative order |
| Listing.UnfilteredShowsAll | src/app/page.tsx:92-99 | no search and "all" list everything |
| Listing.SearchIgnoresCase | src/app/page.tsx:95-96 | searching for the lower-cased text lists the same rows |
| Listing.CategoryFilterExact | src/app/page.tsx:97-98 | a chosen category lists only rows of that category |
| Listing.Badges | src/app/page.tsx:134-138 | there are never more badges than categories |
| Listing.CategoryValuesDistinct | src/lib/validation.ts:15-23 | the seven categories have seven different values |
| Listing.BadgeOncePerCategory | src/app/page.tsx:134-138 | over categories with distinct values, such as the seven of the sidebar, no two badges name the same category |
| Listing.BadgesAvoid | src/app/page.tsx:134-138 | categories whose values differ from v never produce a badge for v |
| Listing.CountInPositive | src/app/page.tsx:134-138 | a category has a positive count exactly when a loaded row has it |
| Listing.HasBadgeAppend | src/app/page.tsx:134-138 | a joined badge list has a category's badge when one part has it |
| Listing.BadgeCounts | src/app/page.tsx:134-138 | every badge shows its category's row count, never zero |
| Listing.BadgeShown | src/app/page.tsx:134-138 | a category gets a badge exactly when some loaded row has it |
| Listing.DownloadTotalIsStoredSize | src/app/page.tsx:101 | the home page's total equals the stored total of the catalog |
| Listing.UploadLinkMeansNoContent | src/app/admin/contents/page.tsx:157-178 | the upload link on the empty listing appears only when there is no content at all |
| Listing.FilteredAfterDelete | src/app/admin/contents/page.tsx:51-52 | the listing after a delete is the old listing without that id |
| Listing.AdminContentsPage.constructor | src/app/admin/contents/page.tsx:22-30 | the page starts with no rows, no search and category "all" |
| Listing.AdminContentsPage.Listed | src/app/admin/contents/page.tsx:59-67 | the rows on screen are the loaded rows that match both filters |
| Listing.AdminContentsPage.FetchContents | src/app/admin/contents/page.tsx:32-44 | an OK response replaces the rows, and anything else keeps them |
| Listing.AdminContentsPage.HandleDelete | src/app/admin/contents/page.tsx:46-57 | only a confirmed, OK delete drops the rows with that id, and the listing shrinks accordingly |

## Left out

- `formatFileSize` (src/lib/validation.ts): it is floating-point formatting for display only.
- Progress percentages, the chunk-info text, the drag-over highlight, the thumbnail preview and every JSX rendering: these are display only. Dropping a file is modelled by `Uploader.FileUploader.DropFile`.
- The reset of the uploader form three seconds after a success: it is a timer that does not affect the protocol.
- HTTP plumbing: JSON and multipart parsing, status text and headers. Multipart text fields are present or absent strings; the file fields `chunk` and `thumbnail` are present or absent byte blobs. A `thumbnail` field sent as text rather than as a file is not modelled: its `.size` is undefined, so it passes the required-fields guard (complete/route.ts:17, 28-29), the thumbnail step skips it (complete/route.ts:49), and the row is recorded with an empty thumbnail path. Of the JSON values, init's `fileSize` is absent, `null` or an integer, and the quota is absent, `null` or an integer. Other JSON values are not modelled. In particular, a string or fractional `fileSize` is not modelled: `"abc" > MAX_FILE_SIZE` is false, so init accepts a `fileSize` of "abc" whatever the real size. A fractional quota such as 1.5 is not modelled either: it is stored as "1.5" and read back as 1.
- NatToString: `Decimal.NatToString` writes plain digits for every n. JavaScript numbers are doubles: they hold integers exactly only up to 2^53 - 1, and `String(n)` switches to exponent notation from 1e21 on ("1e+21"). Numbers in the model are unbounded integers, so its decimal texts are JavaScript's only within the safe-integer range.
- ParseIntRoundTrip: `Decimal.ParseIntRoundTrip` holds only for safe integers. In JavaScript `parseInt(String(1e21), 10)` is 1.
- ParseIntFieldRoundTrip: `Decimal.ParseIntFieldRoundTrip` holds only for safe integers, for the same reason. The uploader's counts and sizes stay far below that bound, because a file is at most 5 GiB.
- QuotaRoundTrip: `SettingsRoute.QuotaRoundTrip` holds only for a safe integer quota. The settings page multiplies the GB field by 1024^3, so a field of 10^12 GB gives about 1.07e21. PUT stores that as "1.073741824e+21", and GET returns 1.
- Path joining and normalisation: paths are the URL strings the handlers return, and the file system is a map from those paths to bytes. Upload ids are distinct map keys in the model, while the source joins them into directory paths with `path.join`. So "a", "a/." and "./a" name one staging directory there. An id such as "../../public/uploads/contents" even names the contents directory, which `cleanupTempDir` then deletes recursively. `Storage.WithChunkIsolated` and `Storage.FileStore.CleanupTempDir` keep other uploads apart only for ids that do not alias in this way.
- Unicode case folding and Unicode white space beyond the ECMAScript `trim` set: `toLowerCase` is modelled on ASCII letters only.
- Concurrency: requests are modelled one at a time, and asynchronous stream writes are taken to complete in order.
- `uuidv4()`, the random session token, the clock and SHA-256: these are parameters, and the hash is not assumed injective.
- `created_at`: it is an integer time rather than SQLite's text timestamp, which orders the same way.
- ChunkRoute.Chunk: an I/O failure is taken to happen before the write changes anything.
- `GET /api/auth/check`, logout, `contents/[id]`, the download and thumbnail-serving routes, and `/api/storage`: these routes are not part of this model. Their session check and counter updates are modelled through `Auth.SessionStore.ValidateSession` and the `Catalog.Database` methods.
- The table DDL, the WAL pragma and the column migrations: only the constraints the handlers depend on are modelled, namely the primary key, `file_size NOT NULL` and the default quota.
- Uploader.FileUploader.HandleUpload: it requires a non-empty upload id, because the init route always mints one. A transport failure of the init or complete request is not modelled, and the server's own answers to those requests are.
- Uploader.SendComplete: it is specified only for requests the uploader itself builds, that is, after every chunk was stored and with a numeric size.
