# Document placement and lifecycle engine of DocumentServer

DocumentServer keeps documents on named storage nodes. This project models
the engine at its core, `DocumentServerEngine`, and proves properties of the
model. The engine has three jobs:

- it derives each document's folder from its document type's policy;
- it writes, reads and replaces document bytes on a storage node;
- it records every stored document and, for Temporary documents, when they expire.

`DocumentServerEngine.cs` is not part of this model. The engine's behaviour is
taken from its test fixture, `test/DocumentServer_Test/Test_DocumentServerEngine.cs`,
which pins down the observable contract, and from the
database migration `src/DocumentServer.Db/Migrations/20240210191144_update.cs`,
whose columns give the record shapes.

Modules, one file each:

- `Failures` (failures.dfy): the typed failure kinds and the `Result`/`Option` wrappers.
  The engine's `Result<T>` failures become `Failure(kind)` values.
- `DecimalText` (decimal_text.dfy): zero-padded decimal rendering, as the date formats
  `yyyy` and `MM` produce it.
- `CivilTime` (civil_time.dfy): .NET `DateTime` values. Each is a Gregorian civil date
  from 0001-01-01 to 9999-12-31 plus the ticks (100 ns) since midnight. It also has
  `AddTicks`/`AddHours`/`AddDays`/`AddMonths`/`AddYears` for non-negative amounts.
  `AddMonths` and `AddYears` clamp the day of month. An addition that passes
  `DateTime.MaxValue` yields `None`, which stands for .NET's ArgumentOutOfRangeException.
- `StoragePolicy` (storage_policy.dfy): the storage modes and their one-letter path
  segments, the inactive lifetimes, the single offset table, the folder instant and `DatePath`.
  Both enums are stored as tinyint columns, so each has an `Unnamed(raw)` case for a
  stored value that names none of its members.
- `Entities` (entities.dfy): storage nodes, document types, stored documents, and the
  generated file name.
- `PathResolver` (path_resolver.dfy): `ComputeStorageFullName`, which builds
  `NodePath / letter / StorageFolderName / yyyy / MM`. Components are joined the way
  `Path.Combine` joins them, so an empty folder name is skipped.
- `Lifecycle` (lifecycle.dfy): the class `DocumentServerEngine`. It holds three maps
  that its methods update in place:
  - the file system (path to bytes);
  - the StoredDocuments table (id to row);
  - the ExpiringDocuments table (stored-document id to expiration instant).

  The storage-node registry and the document types are read-only fields.

The clock (`DateTime.UtcNow`) is the parameter `now`. The unique-key generator is
the parameter `key`. A first-time or replacement store requires that no file on
storage already has the generated name `key + "." + extension`. This is the
uniqueness the generator provides. From it the model proves that a store never
overwrites a file and that no two rows share a file.

Every engine method keeps the invariant `Valid()`:

- every row is keyed by its own id, and that id is below the next identity value;
- every row's file exists on storage;
- no two rows share a file;
- a row has an ExpiringDocuments entry exactly when it is not alive.

So no row exists without its file, and a row is not alive exactly when it has an
expiration record.

The fixture disagrees with itself in two places; the model's choice is stated here:

- For `MonthOne`, `MonthsThree` and `MonthsSix`, the fixture's expiration windows
  use `AddDays(31/91/183)` (Test_DocumentServerEngine.cs:368-379), while its folder
  date uses `AddMonths(1/3/6)` (lines 445-447). The model uses the calendar-month
  additions for both. The expiration uses the same offset table as the folder,
  so the folder date and the expiration always agree.
- The fixture gives two orders for the path.
  - `ComputeStorageFolder_CorrectPath_Generated` and `SaveTemporaryDocument` use
    `NodePath, letter, folder` (lines 147-150 and 313-321).
  - `StoreDocument_Success` joins `NodePath, folder, letter` (lines 190-193).

  The model follows the first order. `PathResolver.FolderLetterOrder` proves that the two
  orders name the same path exactly when the folder name is empty or equal to the letter.
  This is a statement about paths as sequences of segments. So, if the engine joins in
  the order of lines 147-150 and the folder name is a single path segment, the check at
  line 202 can pass only for document types without a folder name (or with one equal to
  the mode letter). A folder name holding a separator, such as `W\W` for a
  WriteOnceReadMany type, can make the two joined strings equal.

## Model

| member | source | states |
|---|---|---|
| `StoragePolicy.ModeLetter` | test/DocumentServer_Test/Test_DocumentServerEngine.cs:481-492 | GetModeLetter succeeds exactly for the five named modes, fails with InvalidMode for any other value (such as the cast `(EnumStorageMode)0`), and each letter is one character that maps back to its mode |
| `StoragePolicy.ModeLetterInjective` | test/DocumentServer_Test/Test_DocumentServerEngine.cs:135-142 | no two storage modes share a letter |
| `StoragePolicy.ModeOfLetterRoundTrip` | test/DocumentServer_Test/Test_DocumentServerEngine.cs:481-488 | each of the letters W, E, T, V, R is the letter of exactly the mode the table names for it |
| `StoragePolicy.LifetimeOffset` | test/DocumentServer_Test/Test_DocumentServerEngine.cs:439-456 | the lifetime switch: only ParentDetermined and unnamed values have no arm, and only Never goes straight to DateTime.MaxValue |
| `StoragePolicy.ApplyOffset` | test/DocumentServer_Test/Test_DocumentServerEngine.cs:441-455 | each arm of the switch never moves "now" backwards; the hour and day arms add exactly their span in ticks and fail exactly past DateTime.MaxValue; Never gives DateTime.MaxValue |
| `StoragePolicy.FolderInstant` | test/DocumentServer_Test/Test_DocumentServerEngine.cs:436-456 | every mode but Temporary uses "now" unchanged; a Temporary type with no switch arm fails with UnsupportedLifetime and otherwise can fail only with DateOutOfRange; the instant is never before "now" |
| `StoragePolicy.DatePath` | test/DocumentServer_Test/Test_DocumentServerEngine.cs:433-464 | the temporal segment succeeds exactly when the folder instant can be computed, carries its failure otherwise, and is a four-digit and a two-digit run of decimal digits |
| `StoragePolicy.DatePathReadsBack` | test/DocumentServer_Test/Test_DocumentServerEngine.cs:459-463 | the temporal segment is two segments, a four-digit year and a two-digit month, and they read back as the year and month of the folder instant |
| `StoragePolicy.DatePathNotTemporary` | test/DocumentServer_Test/Test_DocumentServerEngine.cs:436-437 | every mode but Temporary uses the unprojected current instant and never fails |
| `StoragePolicy.DatePathNever` | test/DocumentServer_Test/Test_DocumentServerEngine.cs:455 | a Temporary type with lifetime Never files under DateTime.MaxValue, that is under 9999 / 12 |
| `StoragePolicy.DatePathParentDetermined` | test/DocumentServer_Test/Test_DocumentServerEngine.cs:439-456 | ParentDetermined and unnamed lifetime values have no arm in the lifetime switch, so a Temporary type with one fails with UnsupportedLifetime |
| `StoragePolicy.TickLifetimeExact` | test/DocumentServer_Test/Test_DocumentServerEngine.cs:441-448 | the hour, day and week lifetimes move "now" forward by exactly 1 h, 4 h, 12 h, 1 day or 7 days in ticks, failing only past DateTime.MaxValue; for HoursOne the result lies in [now+59 min, now+60 min] |
| `StoragePolicy.CalendarLifetimeExact` | test/DocumentServer_Test/Test_DocumentServerEngine.cs:445-454 | the month and year lifetimes move the calendar month forward by exactly 1, 3, 6 or 12, 24, 36, 48, 84, 120 months, keeping the time of day, failing only past December 9999 |
| `StoragePolicy.TemporaryFolderNotBefore` | test/DocumentServer_Test/Test_DocumentServerEngine.cs:437-456 | a Temporary folder instant is strictly after "now" for every lifetime but Never (that it is never before "now" is stated by `StoragePolicy.FolderInstant`) |
| `CivilTime.NextDay` | test/DocumentServer_Test/Test_DocumentServerEngine.cs:444 | the next date keeps the time of day and has a day number one higher; there is no next date exactly on 9999-12-31 |
| `CivilTime.ForwardDays` | test/DocumentServer_Test/Test_DocumentServerEngine.cs:448 | moving n dates forward adds n to the day number, and it fails exactly when that passes 9999-12-31 |
| `CivilTime.AddTicks` | test/DocumentServer_Test/Test_DocumentServerEngine.cs:441-443 | AddTicks adds exactly d to DateTime.Ticks, and fails exactly when the result would pass DateTime.MaxValue |
| `CivilTime.AddMonths` | test/DocumentServer_Test/Test_DocumentServerEngine.cs:445-447 | AddMonths advances the calendar month by n and keeps the time of day. It clamps the day to the target month's length, and it fails exactly past December 9999 |
| `CivilTime.AddHours` | test/DocumentServer_Test/Test_DocumentServerEngine.cs:441-443 | AddHours(h) adds exactly h hours of ticks, and fails exactly past DateTime.MaxValue |
| `CivilTime.AddDays` | test/DocumentServer_Test/Test_DocumentServerEngine.cs:444-448 | AddDays(n) adds exactly n days of ticks, and fails exactly past DateTime.MaxValue |
| `CivilTime.AddYears` | test/DocumentServer_Test/Test_DocumentServerEngine.cs:449-454 | AddYears(n) keeps the month and time of day and advances the calendar month index by 12 n; it fails exactly when the year passes 9999 |
| `CivilTime.AddMonthsNotBefore` | test/DocumentServer_Test/Test_DocumentServerEngine.cs:445-447 | adding calendar months never moves an instant backwards |
| `CivilTime.AddYearsIsTwelveMonths` | test/DocumentServer_Test/Test_DocumentServerEngine.cs:449-454 | AddYears(n) equals AddMonths(12 n), so February 29 becomes February 28 in a common year |
| `CivilTime.DayNumberAtMost` | test/DocumentServer_Test/Test_DocumentServerEngine.cs:455 | every representable date is at most DateTime.MaxValue's date, and equal to it only on 9999-12-31 |
| `CivilTime.EarlierMonthEarlierTicks` | test/DocumentServer_Test/Test_DocumentServerEngine.cs:445-454 | an instant in an earlier calendar month has fewer ticks |
| `DecimalText.Pad` | test/DocumentServer_Test/Test_DocumentServerEngine.cs:459-460 | the `yyyy` and `MM` renderings have exactly the width's number of characters, all decimal digits |
| `DecimalText.PadRoundTrip` | test/DocumentServer_Test/Test_DocumentServerEngine.cs:459-460 | reading a padded rendering back gives the number whenever it fits the width |
| `PathResolver.NonEmptyParts` | test/DocumentServer_Test/Test_DocumentServerEngine.cs:147-150 | the components Path.Combine keeps are non-empty, each taken from the input, and no more than the input |
| `PathResolver.NonEmptyPartsKeepsAll` | test/DocumentServer_Test/Test_DocumentServerEngine.cs:147-150 | a list of components none of which is empty is kept as it is |
| `PathResolver.CombineLayout` | test/DocumentServer_Test/Test_DocumentServerEngine.cs:147-150 | Path.Combine puts the base first, then at most as many components as given, each non-empty and taken from them; without empty components they are appended unchanged |
| `PathResolver.ComputeStorageFullName` | test/DocumentServer_Test/Test_DocumentServerEngine.cs:72-76 | it fails with NodeNotFound for an unknown node id, with NodeNotAssociated for a node the type does not reference, and with InvalidMode for an unnamed mode. Otherwise it fails with the folder instant's error (UnsupportedLifetime or DateOutOfRange) when the temporal segment cannot be computed, and succeeds exactly when it can |
| `PathResolver.StorageFullNameLayout` | test/DocumentServer_Test/Test_DocumentServerEngine.cs:145-151 | a computed path is the node's path, then the mode's letter, then the folder name (skipped when empty), then the four-digit year and two-digit month of the folder instant |
| `PathResolver.TemporaryFolderPrefix` | test/DocumentServer_Test/Test_DocumentServerEngine.cs:313-314 | for a known, associated node and a computable folder instant, a Temporary document's folder is computed and starts with NodePath / T |
| `PathResolver.FolderLetterOrder` | test/DocumentServer_Test/Test_DocumentServerEngine.cs:190-193 | joining the folder name before the letter gives the same path as joining it after, exactly when the folder name is empty or equal to the letter |
| `Entities.FileNameFor` | test/DocumentServer_Test/Test_DocumentServerEngine.cs:199 | the generated file name ends with the supplied extension and is longer than it |
| `Entities.FileNameForInjective` | test/DocumentServer_Test/Test_DocumentServerEngine.cs:629-631 | different keys give different file names for the same extension, so a replacement's name differs from the one it replaces |
| `Entities.NewStoredDocument` | test/DocumentServer_Test/Test_DocumentServerEngine.cs:513-518 | a new StoredDocument's file name ends with the supplied extension and it carries the given description and document type |
| `Lifecycle.Placement` | test/DocumentServer_Test/Test_DocumentServerEngine.cs:161-206 | the checks before a store writes anything: DocumentTypeNotFound for a missing or inactive type, NoStorageNodeConfigured without a first active node, otherwise exactly the resolver's outcome for that node; it succeeds exactly when all three pass |
| `Lifecycle.DocumentServerEngine.constructor` | test/DocumentServer_Test/Test_DocumentServerEngine.cs:41-42 | a new engine has empty storage and empty tables, and it satisfies the invariant |
| `Lifecycle.DocumentServerEngine.StoreFileOnStorageMedia` | test/DocumentServer_Test/Test_DocumentServerEngine.cs:497-568 | on success the document's folder is the resolver's path and the content is written at folder / file name. When the path cannot be computed (e.g. an unknown node), it fails with that error and storage is untouched. The tables never change |
| `Lifecycle.DocumentServerEngine.StoreDocumentFirstTime` | test/DocumentServer_Test/Test_DocumentServerEngine.cs:161-206 | see the list below the table |
| `Lifecycle.DocumentServerEngine.ReadStoredDocument` | test/DocumentServer_Test/Test_DocumentServerEngine.cs:215-236 | it returns the content of the row's file. It fails with DocumentNotFound for a missing row and with FileNotFound for a row whose file is missing. In a valid engine it succeeds exactly for existing rows |
| `Lifecycle.DocumentServerEngine.StoreReplacementDocument` | test/DocumentServer_Test/Test_DocumentServerEngine.cs:574-647 | see the list below the table |
| `Lifecycle.DocumentServerEngine.ReplaceStoredFile` | test/DocumentServer_Test/Test_DocumentServerEngine.cs:619-646 | for an existing row and a type with a first active node, it fails with the resolver's error and changes nothing, or succeeds. On success the row keeps its id, type, creation time and alive flag, gets the new name, description, modification time and nodes, and points at the new file; the previous file is gone and the number of files is unchanged |
| `Lifecycle.DocumentServerEngine.StoreThenRead` | test/DocumentServer_Test/Test_DocumentServerEngine.cs:215-236 | storing a document succeeds whenever its placement succeeds, and reading it back by its id then returns exactly the uploaded bytes |
| `Lifecycle.DocumentServerEngine.StoreThenReplace` | test/DocumentServer_Test/Test_DocumentServerEngine.cs:585-646 | storing a document and then replacing it under another key with the same extension both succeed whenever the placement does; the row keeps its id and gets a new name and description, the first file is gone, storage holds one file more than before, and reading back returns the replacement's bytes |
| `Lifecycle.DocumentServerEngine.RecordNewDocument` | test/DocumentServer_Test/Test_DocumentServerEngine.cs:161-206 | recording a new row whose file exists keeps the invariant, advances the identity column by one, and adds an expiration exactly for a row that is not alive; storage is untouched |
| `Lifecycle.DocumentServerEngine.RecordReplacement` | test/DocumentServer_Test/Test_DocumentServerEngine.cs:634-646 | pointing a row at its freshly written file and deleting its previous file keeps the invariant, removes exactly that previous file, and leaves the number of files as it was before the write |
| `Lifecycle.InsertKeepsValid` | test/DocumentServer_Test/Test_DocumentServerEngine.cs:326-330 | recording a new row whose fresh file was written keeps the invariant. This includes an expiration entry exactly when the row is not alive |
| `Lifecycle.ReplaceKeepsValid` | test/DocumentServer_Test/Test_DocumentServerEngine.cs:634-646 | updating a row in place to a fresh file and deleting its previous file keeps the invariant. The previous file is gone and the number of files is unchanged |
| `Lifecycle.UnusedNameFreshPath` | test/DocumentServer_Test/Test_DocumentServerEngine.cs:629-631 | a file name that no stored file has gives a path not yet on storage |

`StoreDocumentFirstTime` fails exactly when `Placement` fails, with its error, and
then leaves storage and tables untouched:

- DocumentTypeNotFound for a missing or inactive type;
- NoStorageNodeConfigured when the type has no first active node;
- the resolver's error when the path cannot be computed.

Otherwise it succeeds, and:

- it gives the next id and advances the identity column by one;
- the file name is the generated name `key + "." + extension`, so it ends with the extension;
- the row carries the requested type and description;
- the row records the type's two active nodes and the creation time;
- the row's StorageFolder equals the resolver's path for the first active node;
- the bytes are at StorageFolder / FileName, and no existing file is overwritten;
- IsAlive is false exactly for a Temporary type;
- a Temporary type gets an ExpiringDocuments entry at the same projected instant that named its folder.

`StoreReplacementDocument` fails with DocumentNotFound for an unknown id. For an
existing row it fails exactly when `Placement` fails for the row's document type,
with the same error, and otherwise succeeds. Any failure leaves storage and tables
untouched. On success:

- the id, document type, creation time and alive flag are kept;
- the row records the type's two active nodes as its primary and secondary node;
- the file name is the generated name `key + "." + extension`: new, and ending with the extension;
- the description is the new one and the modification time is "now";
- the folder is the resolver's path;
- the new file holds the new bytes and the previous file no longer exists;
- the number of files on storage is unchanged;
- ExpiringDocuments is unchanged.

## Left out

- Database transactions, change tracking and async/await are left out. Each engine call is one atomic update of the maps.
- The real file system is left out. Storage is a map from segment paths to bytes, so writes and deletes cannot fail. As a result, StorageWriteFailed, StorageReadFailed (IOError) and a failing cleanup delete after a replacement are not modelled.
- `Path.Combine`'s rule that a rooted later component discards the earlier ones is not modelled. Separators, and string paths in general, are not modelled: paths are sequences of segments.
- Base64 is the identity in the model: an upload's content and a read's result are the decoded bytes. Real base64 encoding is not modelled.
- The unique-key generator is the parameter `key`; its randomness is not modelled. The file-name shape `key + "." + extension` is an assumption, because the fixture only checks that the name ends with the extension.
- `DateTime.UtcNow` is the parameter `now`, so the model freezes the clock for the length of one engine call. The fixture's own clock reads, taken a few microseconds apart, are not modelled.
- `CivilTime.AddMonths`: negative month counts are not modelled, because every lifetime offset is positive. The same holds for `AddYears` and `AddTicks`.
- The fixture's expiration windows at Test_DocumentServerEngine.cs:344-410 are not modelled: they compute bounds that are never asserted. The model derives the expiration from the same offset table as the folder. It proves the exact offsets, in `StoragePolicy.TickLifetimeExact` and `StoragePolicy.CalendarLifetimeExact`, rather than those windows.
- These StoredDocuments columns are not modelled: Status, SizeInKB, IsArchived, LastAccessedUTC and NumberOfTimesAccessed. Neither the fixture nor the migration determines how they are updated.
- Archival storage nodes count for association but are never written. Secondary (second active) node ids are recorded but not written either.
- Concurrent replacements of the same document are left out.
- The DocumentType validation `IsValid()` is not modelled.
- The Application entity, the logging double, the console host and the Entity Framework schema are not part of the engine; they are not modelled.
- `Lifecycle.DocumentServerEngine.StoreReplacementDocument`: a Temporary document's ExpiringDocuments entry keeps its original expiration after a replacement. Neither the fixture nor the migration determines whether it is recomputed.
- `Lifecycle.DocumentServerEngine.StoreReplacementDocument`: the rejection of a missing or inactive document type on replacement is an assumption. The fixture only replaces documents of an active type (lines 574-647); the model applies the same checks as a first-time store.
- `Lifecycle.DocumentServerEngine.StoreFileOnStorageMedia`: the engine returns a `Result<string>` and sets `StorageFolder` on the caller's `StoredDocument` object, which the fixture reads after the call (lines 521-530). The model returns the updated record instead, so aliasing of that object is not modelled, and neither is the content of the returned string.
- `ToString("yyyy")` and `ToString("MM")` (lines 459-460) format with the current culture's calendar. The model always renders the Gregorian year and month, which is what an invariant or Gregorian culture produces.
- A lifetime switch with no matching arm throws in the engine. The model turns this into the failure UnsupportedLifetime, for ParentDetermined and for unnamed stored values alike.
