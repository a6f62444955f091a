# Verified model of the CRM backend's stateful core

This project models the parts of the Mycorrhizal contact manager's Go backend that keep state across
requests or do real arithmetic, and proves what they are for:

- **Change feed and paging** (`ContactFeed`, `Paging`, `ContactList`, `CursorCodec`): a replica-sync protocol
  over (updated_at, id) with tombstones, a purge and refused resumes, and cursor paging as a refinement of one
  sorted query, down to the cursor strings.
- **Encryption at rest** (`AtRest`, `Backfill`, `KeyLifecycle`): boot, backfill, rotation and restore check over a
  wrapped key row and cells that mix plaintext and ciphertext. The AEAD is ideal, the string format concrete.
- **vCards** (`VCardText`, `VCardMapper`, `VCardRoundTrip`, `VCardWire`, `VCardCards`): what survives exporting a
  contact and importing it again, and what stands on the card.
- **Calendar** (`Gregorian`, `CalendarWindow`, `NextReminder`, `LifeEvents`): yearly windows, next-reminder dates
  over Go's normalising dates, and the reminder rows materialised from life events.
- **Conditional writes and merges** (`IfMatch`, `Revisions`, `ContactMerge`, `MergeUnion`, `RelationshipEdges`):
  interleaved load/check/compare-and-swap requests, and runs of contact merges.
- **Table-rewriting handlers** (`FieldValues`, `LinkFieldTypes`, `BulkOperations`).

`Wrappers`, `Text` and `Decimal` hold the shared vocabulary. Code that updates state in place is a class whose
methods are proved equal to specification functions; the lemmas are about those functions and about runs of
steps. Parameters stand for clocks, fresh identifiers, nonces and database failures.

Where the code does less than its documentation or its obvious intent, the model follows the code and states
exactly when it falls short:

- A 29 February reminder computed after 1 March of a common year before a leap year misses the leap day
  (`NextReminder.NextRemindAtIsFirst`); 29 February anchors also select 1 March of common years, and a window
  before DTSTART selects earlier anniversaries (`CalendarWindow`).
- A name-sorted walk breaks off exactly when a page ends on a nameless contact: the server refuses its own
  cursor (`ContactList.NameBrowseExactly`).
- Retention 0 refuses every past feed cursor (`ContactFeed.ZeroRetentionRefusesEveryPastCursor`).
- The restore check passes a key row with an empty wrapped key that a boot refuses (`AtRest.RestoreCheckIsBoot`),
  and the backfill's LIKE leaves "ENCV1:..." plaintext as it is (`Backfill.FullRunPrefixes`).
- If-Match is read more loosely than section 13.1.1 of RFC 9110: weak tags match, tags need no quotes, a star may
  be quoted or listed, and a quoted tag is split at its commas (`IfMatch.StandardOnEveryRevision`).
- A delete checks If-Match but does not compare and swap (`Revisions.DeleteCanMissAnUpdate`), and a merge that
  gives a note to another contact leaves its revision alone, so that a request under way writes the old contact
  back (`Revisions.NoLostRewriteExactly`).
- A wedding date changed on the contact leaves the reminder of its event as it was
  (`LifeEvents.WeddingKeepsReminderExactly`).
- A manual reminder may carry any life event id: the event then owns two rows, and its next sync deletes the
  manual one, even another user's (`LifeEvents.ManualReminderBreaksIn`).
- A vCard round trip loses PO box, apartment and floor of an address, and an address that is nothing else
  (`VCardRoundTrip.PostBoxIsLost`).
- Two list entries collide in a merge when one type goes on after the other and a bar
  (`MergeUnion.TypesAreSafeExactly`), and two addresses when a bar moves from one part to the next
  (`MergeUnion.AddressKeysExactly`).
- Archiving and unarchiving save every time, so repeating them is not without effect
  (`BulkOperations.RepeatIsNoOpExactly`).
- The rebuild of derived columns leaves replicas with the old ones (`ContactFeed.RewriteReachesExactly`).

Verify with `dafny verify dfyconfig.toml`.

## Model

| member | source | states |
|---|---|---|
| ContactFeed.DrainedReplicaEqualsServer | backend/controllers/contact_controller.go:280-321 | Over every interleaving of saves, soft deletes, purges and pulls, a pull that is accepted and reports no next cursor leaves the replica equal to the live contacts at that instant, although the client resumed from its last non-empty cursor |
| ContactFeed.AcceptedResumeHoldsNoGhost | backend/controllers/helpers.go:439-459 | A client whose resume is not refused holds no contact that the purge has removed |
| ContactFeed.RunKeepsInv | backend/controllers/contact_controller.go:280-321 | Every run keeps: each server row at or before the cursor is held in its current version, and a held contact missing from the server was deleted after the cursor |
| ContactFeed.AcceptedPull | backend/controllers/contact_controller.go:288-308 | After one accepted pull the replica holds nothing purged and the current version of every row up to its cursor; with no next cursor it equals the live contacts |
| ContactFeed.ApplyItemsBringsCurrent | backend/controllers/contact_controller.go:309-313 | Applying a page makes exactly its rows current in the replica, tombstones as absence, and touches nothing else |
| ContactFeed.DrainConverges | backend/controllers/contact_controller.go:297-307 | Against a server standing still, repeated pulls end and the replica then equals the live contacts |
| ContactFeed.RewriteReachesExactly | backend/services/derived_contact_columns_service.go:102-135 | The rebuild of derived columns writes rows without a new stamp: a consistent client still drains to the live contacts exactly when the rewrite changes nothing or the row is yet to come in its feed |
| ContactFeed.DrainLeavesEarlierRows | backend/controllers/contact_controller.go:280-321 | A drain never comes back to a row at or before its cursor |
| ContactFeed.StepChangesLive | backend/controllers/contact_controller.go:280-296 | What each step does to the live contacts: a save makes its contents live, a delete ends one contact, a purge or a pull shows nothing |
| ContactFeed.StepStampsWrites | backend/models/contact.go:518-527 | What each step writes, row by row: stamp, deletion time and content of the rows it touches, and that the others stay |
| ContactFeed.AnswerSays | backend/controllers/contact_controller.go:309-313 | An answer refuses cursors from before the window; otherwise each item is a stored row with its content, and is marked deleted exactly when the row is |
| ContactFeed.AnswerServes | backend/controllers/contact_controller.go:280-321 | A consistent replica that applies an answer holds everything up to the next cursor in its current version |
| ContactFeed.AnswerDrains | backend/controllers/contact_controller.go:280-321 | One that applies an answer without a next cursor holds exactly the live contacts |
| ContactFeed.SaveKeepsInv | backend/controllers/contact_controller.go:280-296 | A save, stamped above everything handed out so far, keeps replica and cursor consistent |
| ContactFeed.SoftDeleteKeepsInv | backend/models/contact.go:518-527 | A soft delete, restamped by its hook, keeps replica and cursor consistent |
| ContactFeed.PurgeKeepsInv | backend/services/purge_service.go:43-49 | A purge of tombstones from before the window keeps replica and cursor consistent |
| ContactFeed.ZeroRetentionRefusesEveryPastCursor | backend/controllers/helpers.go:447-459 | With retention 0 nothing is ever purged, yet every resume from a past cursor is refused |
| ContactFeed.ContactStore.SaveContacts | backend/controllers/contact_controller.go:638-699 | Saving in place gives the written rows one new stamp and leaves every other row as it was |
| ContactFeed.ContactStore.Delete | backend/models/contact.go:518-527 | Deleting sets deleted_at and then the later updated_at, on that row only |
| ContactFeed.ContactStore.PurgeSoftDeleted | backend/services/purge_service.go:43-97 | The job removes exactly the tombstones from before the window, and nothing when retention is not positive |
| ContactFeed.ContactStore.ChangeFeed | backend/controllers/contact_controller.go:280-321 | A request is refused exactly when its cursor is older than the window; otherwise each item tells content and deletion of a stored row, and applying the items brings a consistent replica up to date, to the live contacts when there is no next cursor |
| ContactFeed.ContactStore.AnswerFeed | backend/controllers/contact_controller.go:280-321 | Age check, the rows after the cursor with one beyond the limit, and the item of each |
| Paging.WalkIsSortedQuery | backend/controllers/helpers.go:461-504 | Following resume positions through an unchanging table ends and concatenates to the one sorted listing, without gap or repeat, for any strict total order and any limit of at least 1 |
| Paging.WalkLiveIsStable | backend/controllers/helpers.go:461-504 | Whatever is inserted or removed between requests, no key is delivered twice, and a walk that ends has delivered every key present throughout |
| Paging.WalkLiveDrains | backend/controllers/helpers.go:461-504 | A walk over an unchanging table with more requests than keys reaches its end |
| Paging.PageHolds | backend/controllers/contact_controller.go:479-493 | A page holds exactly the keys after the position and up to the next position, and at most the limit, exactly that when there is a next position |
| Paging.RestIsNextListing | backend/controllers/helpers.go:461-472 | What the next request lists is exactly what the current page left over |
| Paging.CutNeedsOneExtra | backend/controllers/contact_controller.go:471-493 | Fetching a single row beyond the limit gives the same page and next position as fetching everything |
| Paging.ListingIsUnique | backend/controllers/helpers.go:487-504 | A set of keys has one ordered listing |
| Paging.Fetch | backend/controllers/contact_controller.go:479-483 | ORDER BY with LIMIT: the first rows of the ordered listing after a position |
| Paging.FetchPage | backend/controllers/contact_controller.go:479-493 | The handler's fetch, cut and resume position are the page of the ordered listing |
| ContactList.OrdersAreTotal | backend/controllers/helpers.go:461-504 | (updated_at, id) and (sort_name, id) are strict total orders in both directions: the id breaks every tie |
| ContactList.TimeListingReads | backend/controllers/helpers.go:487-504 | The time listing holds every row once, descending the latest first, ascending the earliest, ties by id in the same direction |
| ContactList.NameListingReads | backend/controllers/helpers.go:487-504 | The name listing likewise, by the characters of the sort name |
| ContactList.SortNameIs | backend/models/contact.go:326-331 | Contacts sort by last name, those without one by first name, trimmed and in lower case |
| ContactList.TimeKeyOnWire | backend/controllers/helpers.go:275-297 | A position of the time order survives encoding, decoding and re-typing of its id exactly when the id fits the key column |
| ContactList.NameKeyOnWire | backend/controllers/helpers.go:302-333 | A position of the name order survives exactly when, besides, the name is not empty and no timestamp |
| ContactList.WireWalkIsSortedQuery | backend/controllers/helpers.go:461-504 | Following raw next_cursor strings is the sorted query whenever every position survives the wire |
| ContactList.WireWalkExactly | backend/controllers/helpers.go:461-504 | Following raw next_cursor strings yields the sorted query exactly when every page but the last ends on a key whose cursor is accepted; otherwise it runs into a refusal, and it never yields anything else |
| ContactList.TimeBrowseIsSortedQuery | backend/controllers/contact_controller.go:432-493 | Browsing by updated_at through next_cursor yields the one sorted query, in both directions |
| ContactList.NameBrowseIsSortedQuery | backend/controllers/contact_controller.go:432-493 | Browsing by name does too when no sort name is empty or a timestamp |
| ContactList.NameBrowseExactly | backend/controllers/contact_controller.go:432-493 | For any table, limit and direction the name-sorted walk is the sorted query exactly when every page but the last ends on a contact whose sort name is not empty and no timestamp; otherwise the server refuses a cursor of its own |
| ContactList.StoredNameUsable | backend/models/contact.go:326-331 | A stored sort name is in lower case and so never a timestamp: it is unusable exactly when both names are blank |
| ContactList.NamelessContactBlocksTheWalk | backend/controllers/helpers.go:302-333 | The cursor of a page that ends on a nameless contact is refused |
| ContactList.UnusableNextCursor | backend/controllers/helpers.go:302-333 | A page ending on a contact whose id fits the key column hands out a cursor the server itself refuses exactly when that contact's sort name is empty or reads as a timestamp |
| ContactList.BrowseByTime | backend/controllers/contact_controller.go:447-493 | A malformed cursor or cursor id is a 400; otherwise the response is the page after it with the encoded next position |
| ContactList.BrowseByName | backend/controllers/contact_controller.go:439-493 | The same for the name order |
| CursorCodec.TimeCursorRoundTrip | backend/controllers/helpers.go:275-297 | A time cursor decodes to what it was made from exactly when its id is not empty, a vertical bar in it or not |
| CursorCodec.NameCursorRoundTrip | backend/controllers/helpers.go:302-333 | A name cursor does exactly when name and id are not empty, the id holds no vertical bar and the name is no timestamp; the name may hold bars |
| CursorCodec.NameDecoderRejectsTimeCursor | backend/controllers/helpers.go:308-333 | The name decoder refuses every time cursor whose id holds no vertical bar |
| CursorCodec.TimeDecoderOnNameCursor | backend/controllers/helpers.go:283-306 | The time decoder accepts a name cursor exactly when the name starts with a timestamp ended by a vertical bar or by its end, with something after that bar |
| Decimal.ParseRender | backend/controllers/helpers.go:507-509 | A rendered row id parses back to itself exactly when it fits 64 bits |
| Decimal.ParseUintExactly | backend/controllers/helpers.go:507-509 | Accepted are exactly texts of digits only, one at least, whose value fits 64 bits |
| Decimal.RenderInjective | backend/controllers/helpers.go:275-279 | Different row ids render differently |
| KeyLifecycle.ReadsReturnLastWrite | backend/atrest/atrest.go:161-393 | Over every run of boots, restarts, writes, backfills and rotations an armed read returns the value last written; a disarmed read returns it or fails, and never returns a ciphertext |
| KeyLifecycle.OnlyCurrentKeyBoots | backend/atrest/atrest.go:161-259 | Over every run a boot succeeds exactly with the current master key; any other key leaves engine and key row as they were |
| KeyLifecycle.RotationHandsOver | backend/atrest/atrest.go:302-338 | Over every run a rotation succeeds exactly from the current key to a usable one; then only the new key boots, no cell has changed and a running engine keeps its data key |
| KeyLifecycle.RunKeepsInv | backend/atrest/atrest.go:161-393 | Every run keeps: the key row wraps the one data key, and each cell is NULL, its plaintext, or its value sealed under that key |
| KeyLifecycle.BackfillKeepsInv | backend/atrest/backfill.go:79-159 | A backfill stopped after any number of columns keeps what every cell means |
| KeyLifecycle.KeyedEngine.Initialize | backend/atrest/atrest.go:171-195 | Booting in place: the engine and key row afterwards, with nothing changed on failure |
| KeyLifecycle.KeyedEngine.LoadOrCreate | backend/atrest/atrest.go:223-259 | Unwraps the existing key or inserts the first one, never a second row |
| KeyLifecycle.KeyedEngine.RotateMasterKey | backend/atrest/atrest.go:307-338 | Rewraps the one row and swaps the keys in memory; a refused rotation changes neither |
| AtRest.DecryptEncrypt | backend/atrest/atrest.go:344-393 | A value encrypted under a data key decrypts to itself under that key |
| AtRest.CiphertextParses | backend/atrest/atrest.go:365-393 | A ciphertext is recognised by its prefix and its payload recovered from between the separators |
| AtRest.StoredForm | backend/atrest/atrest.go:344-363 | What a value is stored as: itself when empty or while disarmed, otherwise "encv1:main:" and its sealed text under a key of 16, 24 or 32 bytes |
| AtRest.DecryptsExactly | backend/atrest/atrest.go:365-393 | A stored value reads as a plaintext exactly when it is that plaintext and does not begin with "encv1:", or is "encv1:main:" and a payload of at least a nonce that the armed engine opens to it |
| AtRest.NoMasterKeyDisarms | backend/atrest/atrest.go:171-195 | Without a master key the engine is off, holds no key, and the key row stays |
| AtRest.BootExactly | backend/atrest/atrest.go:171-259 | What a boot with a master key gives: the data key in the row, a new one for a database without a row, and each error |
| AtRest.RotationExactly | backend/atrest/atrest.go:307-338 | What a rotation gives: the same data key under the new master key, the flag as it was, and each error |
| AtRest.CiphertextFailsClosed | backend/atrest/atrest.go:365-393 | A disarmed engine, or one with another data key, fails on a ciphertext |
| AtRest.RestoreCheckIsBoot | backend/atrest/atrest.go:261-300 | The restore check accepts exactly the databases a boot would, except a key row with an empty wrapped key, which the check passes and the boot refuses |
| Backfill.ResumedRunIsOneRun | backend/atrest/backfill.go:71-100 | A run stopped after any number of columns and rerun ends like one uninterrupted run |
| Backfill.SecondRunChangesNothing | backend/atrest/backfill.go:71-100 | A further run changes nothing, whatever nonces it draws |
| Backfill.FullRunExactly | backend/atrest/backfill.go:105-159 | A full run encrypts exactly the cells of the named columns that are neither NULL nor empty nor begin with "encv1:" in any case, and leaves every other cell as it was |
| Backfill.FullRunPrefixes | backend/atrest/backfill.go:105-159 | After a full run a non-empty cell of an encrypted column begins with "encv1:", exactly unless its plaintext begins with these six characters in another case |
| Backfill.ShippedColumns | backend/atrest/backfill.go:20-40 | The encrypted columns, by table and name, and the table whose trigger is lifted |
| Backfill.SplitsExactly | backend/atrest/backfill.go:186-193 | A spec splits into table and column exactly when both are there and the table holds no dot |
| Backfill.UpperCasePrefixStaysPlain | backend/atrest/backfill.go:105-159 | The plaintext "ENCV1:x" in an encrypted column is never encrypted |
| Backfill.BackfillKeepsReads | backend/atrest/backfill.go:105-159 | No number of column transactions changes what an armed read returns or which rows there are |
| Backfill.ColumnsDoneAt | backend/atrest/backfill.go:90-99 | Cell by cell, the state after a number of columns: selected cells encrypted once, all else as before |
| Backfill.ShippedSpecsSplit | backend/atrest/backfill.go:186-193 | Every shipped column spec splits into its table and column |
| Backfill.Database.UpdateCell | backend/atrest/backfill.go:54-63 | An UPDATE of the audit table fails while its trigger is there, and changes one cell otherwise |
| Backfill.Database.BackfillColumn | backend/atrest/backfill.go:105-159 | One column's transaction commits the encrypted column or rolls back everything, the dropped audit trigger included |
| Backfill.Database.Run | backend/atrest/backfill.go:79-100 | The run commits columns in order, stops at the first failing one, and leaves the audit trigger in place in every committed state |
| VCardRoundTrip.TypedValuesRoundTrip | backend/carddav/vcard_mapper.go:61-121 | Exporting and importing returns the non-empty emails, phones, URLs and handles in order, each type in its canonical form, and the non-empty addresses reduced: street trimmed, PO box, apartment and floor gone |
| VCardRoundTrip.AddressesSurviveExactly | backend/carddav/vcard_mapper.go:86-101 | No address of a list is lost or shortened exactly when each has content beyond, and nothing in, PO box, apartment and floor |
| VCardRoundTrip.PostBoxIsLost | backend/carddav/vcard_mapper.go:91-101 | An address that is only PO box 12 is dropped, and one with a street loses its box |
| VCardRoundTrip.AllAddedReads | backend/carddav/vcard_mapper.go:434-507 | Writing a list of typed values into any card whose labels are numbered, and reading it back, appends exactly its canonical form and changes no other property |
| VCardRoundTrip.TypedAddedReads | backend/carddav/vcard_mapper.go:434-507 | One typed field, grouped or not, is read back as its entry in canonical form |
| VCardRoundTrip.GroupNamesDiffer | backend/carddav/vcard_mapper.go:35-39 | Group names are equal without regard to case only for equal counters |
| VCardRoundTrip.ReadIsStable | backend/carddav/vcard_mapper.go:454-472 | Labels written later do not change how fields already written read |
| VCardRoundTrip.StandardTypeReads | backend/carddav/vcard_mapper.go:391-402 | A standard type is read back from its TYPE parameter in canonical form, markers skipped |
| VCardRoundTrip.CanonicalIsExact | backend/carddav/vcard_mapper.go:391-507 | A type comes back unchanged exactly when it is trimmed and either a custom label without Apple's wrapping or a lower-case standard type other than "mobile" and "voice" |
| VCardRoundTrip.ScalarsRoundTrip | backend/carddav/vcard_mapper.go:123-158 | UID, nickname, title and role come back as they were, dates normalised, organisation and department trimmed; the gender is lost |
| VCardRoundTrip.NamesRoundTrip | backend/carddav/vcard_mapper.go:51-54 | The five name parts come back exactly when none of them holds ";" |
| VCardRoundTrip.CirclesRoundTrip | backend/carddav/vcard_mapper.go:133-136 | Circles come back exactly when each is trimmed and comma-free and they are not one empty name |
| VCardRoundTrip.UnmappedRoundTrip | backend/carddav/vcard_mapper.go:180-197 | Properties without a column pass through an export and an import unchanged |
| VCardRoundTrip.KeptPhotoIsSkipped | backend/carddav/vcard_mapper.go:180-197 | A PHOTO among the kept properties is not written again |
| VCardRoundTrip.RequiredProperties | backend/carddav/vcard_mapper.go:23-49 | An exported card has the properties vCard 3.0 requires once each, VERSION, a formatted name that is not empty and N, and one UID that is not empty |
| VCardRoundTrip.SilentCardChangesNothing | backend/carddav/vcard_mapper.go:204-364 | An import leaves alone whatever the card does not mention |
| VCardRoundTrip.NormalizedBirthdayStays | backend/carddav/vcard_mapper.go:584-605 | A normalised date is normalised no further |
| VCardWire.TypedFieldOnCard | backend/carddav/vcard_mapper.go:434-450 | What a typed value adds to the card: a group of its own with a label for a custom type, TYPE tokens for a standard one |
| VCardWire.TypeTokensExactly | backend/carddav/vcard_mapper.go:391-420 | The tokens of a standard type, cell and mobile as CELL and VOICE |
| VCardWire.CustomTypeExactly | backend/carddav/vcard_mapper.go:424-430 | Custom are exactly the types other than the eight standard ones |
| VCardWire.EmailsAreInternet | backend/carddav/vcard_mapper.go:61-72 | Every email of an exported card is marked INTERNET before its type |
| VCardWire.CanonicalExactly | backend/carddav/vcard_mapper.go:476-507 | What each type comes back as |
| VCardWire.WrappedLabel | backend/carddav/vcard_mapper.go:476-487 | The wrapping of a label is taken off, and mobile becomes cell |
| VCardWire.LabelBeforeType | backend/carddav/vcard_mapper.go:454-474 | The first label of a group names the type, unless it is blank |
| VCardWire.FirstTypeCounts | backend/carddav/vcard_mapper.go:489-507 | The first TYPE token that is no marker counts |
| VCardWire.FlatValuesAreExported | backend/carddav/vcard_mapper.go:61-101 | A contact with only a flat email, phone or address exports that one |
| VCardWire.AddressOnCard | backend/carddav/vcard_mapper.go:86-101 | The seven components of an address as written, the first two empty |
| VCardWire.AddressFromCard | backend/carddav/vcard_mapper.go:270-293 | Seven components as read: the street with the extended address behind it, city, region, postal code and country |
| VCardWire.NameOnCard | backend/carddav/vcard_mapper.go:51-59 | N as written: last, first and middle name, prefix and suffix |
| VCardWire.FormattedNameExactly | backend/carddav/vcard_mapper.go:41-49 | FN is first and last name, else the nickname, else "Unknown" |
| VCardWire.OrganizationOnCard | backend/carddav/vcard_mapper.go:138-150 | ORG is the organisation, or else the work information, and the department |
| VCardWire.PlainValuesOnCard | backend/carddav/vcard_mapper.go:111-158 | The single values, the circles joined at commas and the handles with their service |
| VCardWire.BirthdayExactly | backend/carddav/vcard_mapper.go:584-606 | Which dates get their dashes, and that others stay |
| VCardWire.GenderExactly | backend/carddav/vcard_mapper.go:568-582 | The five letters of GENDER, in either case |
| VCardWire.FormattedNameIsSplit | backend/carddav/vcard_mapper.go:215-230 | Without N the formatted name is split at its first space |
| VCardWire.ImportReplaces | backend/carddav/vcard_mapper.go:328-370 | What a card says of the single values replaces what the contact had; what it does not say stays |
| VCardWire.ListsReplace | backend/carddav/vcard_mapper.go:236-327 | A list a card has replaces the contact's and its first value the flat one; other lists stay |
| VCardWire.NewContactIsBlank | backend/carddav/vcard_mapper.go:204-208 | A new contact is blank in all columns a card does not fill |
| VCardWire.ExtrasExactly | backend/carddav/vcard_mapper.go:635-652 | Which properties are kept besides, and when they replace the earlier ones |
| VCardWire.OneLineExactly | backend/models/contact.go:259-267 | An address on one line: its parts that are not blank, in order |
| VCardText.EscapeIsCharwise | backend/carddav/vcard_mapper.go:519-523 | The two replacement passes equal escaping one character at a time |
| VCardText.ComponentsRoundTrip | backend/carddav/vcard_mapper.go:519-546 | Splitting the ";"-join of any non-empty list of escaped components gives the list back, backslashes and semicolons included |
| VCardText.AddressRoundTrip | backend/carddav/vcard_mapper.go:91-101 | An address comes back with its street trimmed and without PO box, apartment and floor, and is empty afterwards exactly when it was empty, those three not counted |
| VCardText.AddressSurvivesExactly | backend/carddav/vcard_mapper.go:91-101 | An address comes back with only its street trimmed exactly when PO box, apartment and floor are empty |
| VCardText.OrgRoundTrip | backend/carddav/vcard_mapper.go:138-150 | Organisation and department survive up to surrounding white space |
| VCardText.UnescapedJoinExact | backend/carddav/vcard_mapper.go:51-54 | Parts joined without escaping come back in place exactly when none holds the separator |
| VCardText.SplitComponents | backend/carddav/vcard_mapper.go:529-546 | The loop splits on unescaped ";" and unescapes on the way |
| VCardCards.CardWriter.AddTypedField | backend/carddav/vcard_mapper.go:434-450 | Adds one field to the card, with a group and a label for a custom type |
| VCardCards.CardWriter.AddEntries | backend/carddav/vcard_mapper.go:61-84 | Adds every entry with a value, in order |
| VCardCards.CardWriter.AddAddresses | backend/carddav/vcard_mapper.go:86-101 | Adds every non-empty address with its components escaped |
| VCardCards.CardWriter.Restore | backend/carddav/vcard_mapper.go:180-197 | Puts back the unmapped properties, in whatever order the map yields them |
| VCardCards.CardWriter.Write | backend/carddav/vcard_mapper.go:20-200 | The whole export fills the card the round-trip results are about |
| VCardCards.LabelFromGroup | backend/carddav/vcard_mapper.go:462-472 | The first label field of the group, ignoring case |
| VCardCards.FieldType | backend/carddav/vcard_mapper.go:489-507 | The first TYPE token that is not a marker |
| VCardCards.FieldKind | backend/carddav/vcard_mapper.go:454-459 | A group label before the TYPE parameter |
| VCardCards.ReadEntries | backend/carddav/vcard_mapper.go:236-268 | Reads every field with a value, with its type |
| VCardCards.ReadAddressFields | backend/carddav/vcard_mapper.go:273-289 | Reads every non-empty address, street and extended address on one line |
| VCardCards.ContactRecord.Import | backend/carddav/vcard_mapper.go:204-383 | Updating a contact in place, its one-line address and kept extras included, gives the contact the round-trip results are about |
| VCardCards.ExtractUnmapped | backend/carddav/vcard_mapper.go:635-651 | Collects the fields of every property without a column |
| CalendarWindow.EventInWindow | backend/caldav/backend.go:380-396 | True exactly when DTSTART, or for a yearly event its month and day in any year at all, lies in the window |
| CalendarWindow.IsYearlyExactly | backend/caldav/backend.go:380-396 | A rule is yearly exactly when some part of it is "FREQ=YEARLY", in upper or lower case |
| CalendarWindow.KeptExactly | backend/caldav/backend.go:331-378 | Kept are exactly the objects with an event that has no DTSTART, or one in the window, or is yearly with its month and day in the window in some year; without both ends of a window every event counts |
| CalendarWindow.KeptInOrder | backend/caldav/backend.go:331-378 | And they are kept in order |
| CalendarWindow.ScanYears | backend/caldav/backend.go:386-394 | The scan of the window's years, at most 50 past the first, finds a match exactly when any year has one |
| CalendarWindow.ScanLosesNothing | backend/caldav/backend.go:384-394 | The 50-year cap loses no match |
| CalendarWindow.SelectedIsRecurrence | backend/caldav/backend.go:375-396 | For anchors other than 29 February and windows reaching DTSTART the test is the recurrence set of section 3.3.10 of RFC 5545 |
| CalendarWindow.WindowBeforeStart | backend/caldav/backend.go:375-396 | A window ending before DTSTART has no occurrence, and is selected exactly on an earlier anniversary |
| CalendarWindow.LeapAnchorSelection | backend/caldav/backend.go:375-396 | For a 29 February anchor the test adds exactly the 1 March of common years |
| CalendarWindow.LeapAnchorInCommonYear | backend/caldav/backend.go:375-396 | A 29 February 2020 event is found in a window that holds nothing but 1 March 2023 |
| CalendarWindow.LifeEventAnchorKeepsDate | backend/caldav/backend.go:191-230 | A served life event keeps its month and day exactly when that date exists in the year it is anchored in |
| CalendarWindow.FindEventFilter | backend/caldav/backend.go:334-345 | The first VEVENT filter of the query, if any |
| CalendarWindow.FilterObjectsByWindow | backend/caldav/backend.go:331-373 | Keeps, in order, exactly the objects with an event in the window |
| NextReminder.EventHasMonthDayExact | backend/controllers/life_event_controller.go:55-71 | Accepted are exactly months 1 to 12 with days up to 31, up to 30 in April, June, September and November, up to 29 in February: the dates that exist in a leap year |
| NextReminder.NextRemindAtIsAtNine | backend/controllers/life_event_controller.go:75-81 | The reminder is at nine in the morning, local time, on its month and day, or on the 1 March that a 29 February carried over to |
| NextReminder.NextRemindAtIsSoon | backend/controllers/life_event_controller.go:75-81 | The reminder is strictly after now and at most 366 days away |
| NextReminder.NextRemindAtIsFirst | backend/controllers/life_event_controller.go:75-81 | No 09:00 occurrence lies between now and the reminder, except exactly for 29 February computed after the 1 March of a common year before a leap year |
| NextReminder.LeapDayOf2024IsMissed | backend/controllers/life_event_controller.go:75-81 | On 1 June 2023 the next 29 February reminder is set to 1 March 2024, past the leap day |
| NextReminder.YearLaterOfNine | backend/controllers/life_event_controller.go:75-81 | Adding a year to an occurrence gives the next year's, except from a carried-over 29 February |
| Gregorian.CivilOfDayNumber | backend/controllers/life_event_controller.go:60-70 | A date read back from its normalised day is the date put in exactly when that date exists |
| Gregorian.DaysInMonthExact | backend/controllers/life_event_controller.go:57-71 | The lengths of the months: 31, 30 and in February 28 or, in years divisible by 4 but not by 100 unless by 400, 29 |
| Gregorian.CivilCountsDays | backend/controllers/life_event_controller.go:57-81 | Day 0 is 1 January of year 1 and each later day number is the next date of the calendar |
| Gregorian.DatesCarry | backend/controllers/life_event_controller.go:75-81 | A day more is a day later, twelve months more are a year later, inside a month or not |
| Gregorian.DayNumberMonotone | backend/caldav/backend.go:386-394 | The same month and day of a later year is a later day |
| Gregorian.DayNumberStaysInYear | backend/caldav/backend.go:386-394 | No day up to the 31st leaves its year, even where it leaves its month |
| Gregorian.LeapDayCarries | backend/caldav/backend.go:386-394 | In a common year 29 February is normalised to 1 March |
| LifeEvents.OneEachExactly | backend/controllers/reminder_controller.go:17-70 | Over a run each event owns at most one reminder row at all times, soft-deleted ones counted, exactly when no manual reminder is added for an event that has one at that moment; the handler stores any life_event_id unchecked |
| LifeEvents.StepKeepsOneEach | backend/controllers/life_event_controller.go:83-138 | A single step keeps one row for each event exactly when it is no such manual reminder |
| LifeEvents.RunKeepsTidy | backend/controllers/life_event_controller.go:88-99 | Over every run no delivery row outlives its reminder |
| LifeEvents.ManualReminderBreaksIn | backend/controllers/reminder_controller.go:17-70 | A run in which another user's manual reminder names an event: the event owns two rows, and its next update deletes that reminder |
| LifeEvents.SyncTakesNamedRows | backend/controllers/life_event_controller.go:88-99 | An event's sync leaves exactly the rows that do not name it, and hard-deletes every row that does, whoever made it |
| LifeEvents.OwnReminderAfterSync | backend/controllers/life_event_controller.go:361-367 | After any run, and whatever rows name the event, its own create or update leaves it with one reminder exactly when Remind is set, the date has a valid month and day and the contact exists, and with none otherwise |
| LifeEvents.ReminderForIsRight | backend/controllers/life_event_controller.go:112-136 | The reminder is live, yearly, for the event's contact and fires within 366 days |
| LifeEvents.MaterialisesExactly | backend/controllers/life_event_controller.go:57-111 | An event calls for a reminder exactly when it asks for one, its date has a month and day of a leap year, and its contact is there |
| LifeEvents.StepWritesEvents | backend/controllers/life_event_controller.go:313-393 | What each step makes of the event rows; a conflicting update changes nothing |
| LifeEvents.StepWritesReminders | backend/controllers/contact_controller.go:709-755 | What deletes, manual reminders, deliveries and contact changes make of reminders, deliveries and contacts, row by row |
| LifeEvents.DeleteRemovesReminder | backend/controllers/life_event_controller.go:422-432 | A deleted event owns no reminder |
| LifeEvents.LifeEventStore.SyncReminder | backend/controllers/life_event_controller.go:88-138 | Deletes the event's reminder and deliveries and materialises the new one |
| LifeEvents.LifeEventStore.Create | backend/controllers/life_event_controller.go:143-201 | The event and its reminder in one transaction |
| LifeEvents.LifeEventStore.Update | backend/controllers/life_event_controller.go:313-393 | Saves only on the revision that was loaded; a conflict changes nothing |
| LifeEvents.LifeEventStore.Delete | backend/controllers/life_event_controller.go:398-451 | Removes the event's reminder and deliveries with the event |
| LifeEvents.LifeEventStore.AddReminder | backend/controllers/reminder_controller.go:17-70 | A manual reminder needs one of the caller's contacts; its life event id is stored as it came |
| LifeEvents.WeddingKeepsReminderExactly | backend/services/wedding_sync.go:55-94 | The wedding date of a saved contact changes its wedding event and no reminder: the one just materialised is what the new date asks for, at any time, exactly when old and new date ask for none or fall on the same day of the year |
| LifeEvents.LifeEventStore.SyncWeddingDate | backend/services/wedding_sync.go:55-94 | The event created, deleted or given the new date, and no reminder touched |
| NextReminder.DaysAreToldApart | backend/controllers/life_event_controller.go:66-81 | Two days of the year are reminded of at the same times, whatever the time is now, only when they are the same |
| Revisions.NoLostUpdate | backend/controllers/helpers.go:129-152 | In any interleaving of loads, If-Match checks, saves, deletes and rewrites that leave the revision alone, the saves of a row form one chain: each is based on the revision its predecessor made and on one its If-Match allowed, and its request had read what its predecessor wrote or something later; the row holds what was written last |
| Revisions.RowHoldsLastSave | backend/models/revision_cas.go:85-107 | In a run without such rewrites a row holds its last save |
| Revisions.NoLostRewriteExactly | backend/services/contact_merge_service.go:383-389 | No save ever gets to overwrite a write its request has not read, exactly when no rewrite of the run touches a row while a request that loaded it at its present revision has yet to save it |
| Revisions.StepKeepsFresh | backend/models/audit_hooks.go:35-63 | A step leaves every possible save one that overwrites just what its request read, exactly when it is no such rewrite |
| Revisions.RewriteIsLost | backend/models/audit_hooks.go:35-63 | A run in which a note is given to another contact and a save that read neither goes through over it |
| Revisions.NamedRevisionOnly | backend/controllers/helpers.go:95-127 | A request whose header lists revisions, quoted or not, weak or not, commits only on one of them |
| Revisions.OneWinner | backend/models/revision_cas.go:85-107 | No two saves of a row start from the same revision |
| Revisions.FinishEndsRequest | backend/controllers/note_controller.go:283-340 | A request that finishes is over, however it ends, and no other is |
| Revisions.TombstoneStays | backend/models/revision_cas.go:26-40 | A deleted row is never revived or saved again, whatever was loaded before |
| Revisions.SaveStatusIsFair | backend/controllers/helpers.go:139-152 | A save goes through exactly when the row is there and unsaved since it was loaded; 404 exactly when it was deleted, and 412 only when another request saved from the same revision |
| Revisions.StatusOfConflict | backend/controllers/helpers.go:139-152 | 404 for a row that is gone, 412 for one that has moved on |
| Revisions.DeleteHonoursIfMatch | backend/controllers/note_controller.go:340-376 | A delete whose header lists revisions removes a listed one exactly when the row's revision is still listed; with a single one, exactly when nothing was saved since it loaded the row |
| Revisions.DeleteCanMissAnUpdate | backend/controllers/note_controller.go:340-376 | A run in which a delete naming revision 1 removes revision 2 |
| Revisions.RevisionTable.Load | backend/controllers/note_controller.go:283-301 | 404 for a missing row, 412 for a header that does not permit the current revision |
| Revisions.RevisionTable.BumpRevision | backend/models/revision_cas.go:85-107 | Raises the revision exactly where id, revision and liveness match, and classifies a miss |
| Revisions.RevisionTable.Save | backend/controllers/note_controller.go:328-334 | Update and swap in one transaction: the new content under the next revision, or no change at all |
| Revisions.RevisionTable.SoftDelete | backend/controllers/note_controller.go:368-371 | Marks a live row deleted and changes nothing else |
| IfMatch.HeaderMeansItsTags | backend/controllers/helpers.go:107-127 | A header listing entity tags, quoted ones with commas included, permits a write exactly when it is blank or one tag permits it: a tag without a comma when it is "*" or the revision, one with commas when a piece between them is |
| IfMatch.StandardIsHonoured | backend/controllers/helpers.go:107-127 | Every write that section 13.1.1 of RFC 9110 permits goes through: the header is the bare star, or a strong tag of it is the revision |
| IfMatch.StandardMeaningExactly | backend/controllers/helpers.go:118-125 | On one revision a header that is not blank is decided as section 13.1.1 of RFC 9110 does, with strong comparison and a star only alone and bare, exactly unless a tag that is weak, unquoted, a star or holds a comma permits a write the standard refuses |
| IfMatch.StandardOnEveryRevision | backend/controllers/helpers.go:118-125 | On every revision it is, exactly when the header is the bare star, or no piece of its weak, unquoted, star or comma tags is a star, nor a decimal that no strong tag of the header has |
| IfMatch.WeakTagPermits | backend/controllers/helpers.go:122-125 | A weak tag permits a write on its revision, which the standard refuses |
| IfMatch.QuotedStarPermits | backend/controllers/helpers.go:122-125 | A quoted star permits a write on every revision, which the standard refuses |
| IfMatch.CommaIsSplit | backend/controllers/helpers.go:118-125 | The single tag "1,2" permits a write on revision 1 and on revision 2, which the standard refuses |
| IfMatch.PiecesAreRead | backend/controllers/helpers.go:118-125 | What trimming, unmarking and unquoting make of each piece of a tag |
| IfMatch.ListedRevisionsOnly | backend/controllers/helpers.go:107-127 | A header that lists revisions, however it writes them, permits a write exactly on those |
| IfMatch.IfMatchSatisfied | backend/controllers/helpers.go:112-127 | The loop over list members decides whether the header permits the revision |
| ContactMerge.MergesFormAForest | backend/controllers/contact_merge_controller.go:174-264 | In any run no chain of "merged into" links repeats a contact, each contact is merged into at most one other, and from any contact a chain leads to one that never lost a merge |
| ContactMerge.RepeatIsRefused | backend/controllers/contact_merge_controller.go:36-57 | A merged pair is refused ever after, in either orientation, with nothing changed |
| ContactMerge.OneContactGoes | backend/controllers/contact_merge_controller.go:234-242 | A merge removes exactly one live contact and changes no third one |
| ContactMerge.RunKeepsPhotos | backend/controllers/contact_merge_controller.go:198-212 | Starting from distinct photo files, no merge, delete or upload of a run ever removes a file of a live contact |
| ContactMerge.AcceptedExactly | backend/controllers/contact_merge_controller.go:174-196 | A merge goes through exactly when both contacts are the caller's, live and distinct, every conflict has a resolution and a cadence choice is one of the two |
| ContactMerge.RefusalExactly | backend/controllers/contact_merge_controller.go:40-71 | A refused merge names equal ids, the contact that is not the caller's, the fields still undecided, or a cadence choice that is neither side's |
| ContactMerge.MergeKeysAre | backend/services/contact_merge_service.go:29-46 | The sixteen fields a merge resolves one by one, and the order in which conflicts are reported |
| ContactMerge.ConflictsInOrder | backend/controllers/contact_merge_controller.go:63-71 | Conflicts are reported in field order, none missing |
| ContactMerge.MissingInOrder | backend/controllers/contact_merge_controller.go:63-71 | So are those without a resolution |
| ContactMerge.KeeperScalarsExactly | backend/services/contact_merge_service.go:86-110 | Each field of the keeper afterwards: the pick for a conflict, otherwise the one that is not blank |
| ContactMerge.LoserIsEmptied | backend/controllers/contact_merge_controller.go:234-242 | The merged contact stays as a deleted row without values, cadence or groups |
| ContactMerge.RowsAfterMerge | backend/services/contact_merge_service.go:377-395 | A row of the merged contact goes to the keeper, unless it is a sync link, which is deleted; no other row moves |
| ContactMerge.FilesAfterMerge | backend/controllers/contact_merge_controller.go:198-212 | The merged contact's photo files go, unless the keeper has taken over its photo, and no others |
| ContactMerge.MergeLeavesOthers | backend/controllers/contact_merge_controller.go:174-264 | Contacts other than the two, and the definitions, are as before; a refused merge changes nothing |
| ContactMerge.DeleteAndUploadExactly | backend/controllers/contact_controller.go:852-946 | What a delete and a photo upload leave of contact, rows and files |
| ContactMerge.KeeperHasEverything | backend/services/contact_merge_service.go:45-118 | The keeper takes the caller's pick for every conflict and otherwise loses no scalar, custom value, cadence, group or photo that only one of the two had |
| ContactMerge.KeeperHasEveryEntry | backend/services/contact_merge_service.go:69-76 | The keeper's lists are its own entries and then the other contact's, in order, but for those that are the same as an earlier one |
| ContactMerge.RowsFollow | backend/services/contact_merge_service.go:377-530 | Over any run each row of a contact sits on a live contact: the one that survives, of all merges since, the contact it was last put on, or was on at the start; only deletes of contacts lose rows, and merges sync links |
| ContactMerge.RunKeepsDefinitions | backend/services/contact_merge_service.go:267-316 | Along any run of merges, deletes, replaced values and added and deleted definitions, custom values belong to known definitions, as the conflict check presumes |
| ContactMerge.MissingResolutions | backend/controllers/contact_merge_controller.go:63-71 | The conflicts without a resolution, in the order of their field names |
| ContactMerge.ApplyScalars | backend/services/contact_merge_service.go:86-110 | Applies resolved and chosen scalars field by field |
| ContactMerge.RepointValues | backend/services/contact_merge_service.go:497-524 | Drops the loser's half of each custom-value conflict, sets the pick, and moves the rest |
| ContactMerge.MergeStore.LoadMergePair | backend/controllers/contact_merge_controller.go:40-57 | Rejects equal ids, then a missing keeper, then a missing loser |
| ContactMerge.MergeStore.DeletePhotos | backend/controllers/contact_controller.go:919-946 | Removes the files a contact row names, inline thumbnails excepted |
| ContactMerge.MergeStore.UploadPhoto | backend/controllers/photo_controller.go:151-183 | Stores the new file, points the contact at it, and removes the file before |
| ContactMerge.MergeStore.ApplyMerge | backend/controllers/contact_merge_controller.go:198-242 | The writes of the transaction, rolled back when the cadence choice is neither side's |
| ContactMerge.MergeStore.CommitMerge | backend/controllers/contact_merge_controller.go:159-261 | All of the merge or, when it is refused, none of it |
| MergeUnion.UnionIsExact | backend/services/contact_merge_service.go:120-260 | The union of two lists keeps every key once and makes nothing up |
| MergeUnion.KeeperComesFirst | backend/services/contact_merge_service.go:120-141 | A keeper's list without repeats opens the union unchanged |
| MergeUnion.UnionLists | backend/services/contact_merge_service.go:123-141 | The loop over both lists with its set of seen keys computes that union |
| MergeUnion.EntryKeysExactly | backend/services/contact_merge_service.go:126-127 | Two entries share a key exactly when type and value agree up to case and white space, or one type is the other followed by a bar and a stretch by which the values differ |
| MergeUnion.TypesAreSafeExactly | backend/services/contact_merge_service.go:126-127 | Under two types the keys tell every two values apart exactly when neither type opens the other: starts with it and a bar, and goes on with no space |
| MergeUnion.PhoneKeysAreExact | backend/services/contact_merge_service.go:146-169 | Phone keys agree exactly when types and digit keys do, whatever the types hold |
| MergeUnion.MergeLists | backend/services/contact_merge_service.go:69-76 | All six lists of two contacts are united |
| MergeUnion.MergedListsAreFirsts | backend/services/contact_merge_service.go:120-260 | Each merged list is the keeper's entries and then the other's, in order, but for those that are the same as an earlier one: by joined text for emails, URLs, handles and addresses, by type and last ten digits for numbers of seven digits or more, by name for circles, of which blank ones are dropped |
| MergeUnion.ListsLoseNothing | backend/services/contact_merge_service.go:120-260 | No entry of either contact is lost: the merged list holds it, or one that is the same |
| MergeUnion.PhoneKeyExactly | backend/services/contact_merge_service.go:146-169 | Numbers of fewer than seven digits have no key; the key of any other is its last ten digits |
| MergeUnion.EntryKeysAreExact | backend/services/contact_merge_service.go:126-127 | In particular keys are exact when no type holds a vertical bar |
| MergeUnion.BarsCollide | backend/services/contact_merge_service.go:126-127 | A vertical bar in a custom type can make two different entries look alike, and the second is dropped |
| MergeUnion.AddressKeysExactly | backend/services/contact_merge_service.go:224 | Two addresses share a key exactly when their nine parts, up to case and white space, have the same pieces between bars, and are then the same exactly when each part has as many bars in both |
| MergeUnion.BarsCollideInAddresses | backend/services/contact_merge_service.go:224 | A bar ending a street or starting a PO box makes two addresses look alike, and the second is dropped |
| RelationshipEdges.NoFactIsLost | backend/services/contact_merge_service.go:773-837 | Each relationship of merged contacts is still there, or one of more authority that states the same fact, unless it became a relation of the contact with itself, which is dropped |
| RelationshipEdges.SettledIsClean | backend/services/contact_merge_service.go:773-837 | Afterwards no two edges of the keeper state one fact, none is a self-loop, none names a merged contact, and edges of others are as before |
| RelationshipEdges.SettledIsUnique | backend/services/contact_merge_service.go:824-834 | The natural key stays unique |
| RelationshipEdges.NoUpdateCollides | backend/services/contact_merge_service.go:824-834 | Once the dropped rows are deleted, no order of the row updates ever meets the unique index |
| RelationshipEdges.SettledTwice | backend/services/contact_merge_service.go:773-837 | Merging contacts in two steps, through an intermediate contact or not, leaves the same edges as merging all at once |
| RelationshipEdges.OrderDoesNotMatter | backend/services/contact_merge_service.go:773-837 | In whatever order contacts are merged into one, the same edges are left |
| RelationshipEdges.ConflictIsEquivalence | backend/services/contact_merge_service.go:842-847 | Stating the same fact is an equivalence, because inverting a registered relation type twice gives it back |
| RelationshipEdges.InverseTable | backend/models/relationship_type_registry.go:30-139 | Which relation types are each other's inverses, which their own, and which have none |
| RelationshipEdges.ConflictExactly | backend/services/contact_merge_service.go:842-847 | Two edges state one fact exactly when they agree in ends and type, or one is the inverse of the other between swapped ends |
| RelationshipEdges.MovedExactly | backend/services/contact_merge_service.go:782-789 | An edge moves to the keeper end by end and keeps everything else |
| RelationshipEdges.PickIsBelow | backend/services/contact_merge_service.go:858-882 | Of two edges the one of less authority is dropped, and one of two always is |
| RelationshipEdges.MarkBeaten | backend/services/contact_merge_service.go:802-812 | The pairwise comparison, which goes on with an edge it has just dropped, marks exactly the edges that another one outranks, whatever order the query returned |
| RelationshipEdges.EdgeTable.Repoint | backend/services/contact_merge_service.go:782-800 | The edges with both ends repointed, and the self-loops among them |
| RelationshipEdges.EdgeTable.DeleteAndUpdate | backend/services/contact_merge_service.go:814-834 | Deletes the dropped rows and rewrites the ends of the others |
| RelationshipEdges.EdgeTable.RepointEdges | backend/services/contact_merge_service.go:773-837 | The table afterwards, whatever order the query returned, and how many edges were dropped |
| FieldValues.ReplaceIsExact | backend/controllers/field_definition_controller.go:320-383 | After a replace the contact has one row per definition of the payload holding its last value; surviving rows keep their ids and every other row is untouched |
| FieldValues.OwnersMustAgree | backend/controllers/field_definition_controller.go:352-358 | Without "a value's owner is its definition's owner" the upsert would write another user's row |
| FieldValues.Validate | backend/controllers/field_definition_controller.go:320-335 | Rejects at the first entry whose definition is not the caller's or does not accept its value |
| FieldValues.AcceptableExactly | backend/controllers/field_definition_controller.go:320-335 | A value is accepted when its definition is the caller's and its constraints hold |
| FieldValues.FieldValueTable.DeleteAbsent | backend/controllers/field_definition_controller.go:338-361 | Deletes exactly the contact's values whose definition is not in the payload, also for an empty payload |
| FieldValues.FieldValueTable.Upsert | backend/controllers/field_definition_controller.go:352-380 | Updates the first row of the definition and contact, or inserts one under the next id |
| FieldValues.FieldValueTable.Replace | backend/controllers/field_definition_controller.go:308-383 | Nothing is written unless the whole payload is valid; otherwise the table is the replaced one |
| LinkFieldTypes.TwoCountsForceAPermutation | backend/controllers/link_field_type_controller.go:279-293 | The two counts equal the list length exactly when the list names each of the user's live types once and nothing else |
| LinkFieldTypes.ReorderIsABijection | backend/controllers/link_field_type_controller.go:295-304 | An accepted reorder numbers those types 0 to n-1 in list order and touches no other row or column; a refused one changes nothing |
| LinkFieldTypes.NextAfterReorder | backend/controllers/link_field_type_controller.go:74-88 | After a reorder the next free position is n |
| LinkFieldTypes.LinkFieldTypeTable.Reorder | backend/controllers/link_field_type_controller.go:266-304 | Counts, then the loop of position updates |
| LinkFieldTypes.LinkFieldTypeTable.NextPosition | backend/controllers/link_field_type_controller.go:76-88 | One past the highest position in use, or 0 |
| BulkOperations.AccountsExactly | backend/controllers/bulk_operation_controller.go:45-54 | Total is the number of distinct targets and equals Succeeded plus Failed; the failures are exactly the targets that are not the caller's live contacts |
| BulkOperations.FailuresInRequestOrder | backend/controllers/bulk_operation_controller.go:131-147 | The failures are the failed targets in the order in which the request names them |
| BulkOperations.RepeatConverges | backend/controllers/bulk_operation_controller.go:165-225 | Repeating an add, remove, archive or unarchive gives the same counts and changes nothing but what every save of a contact rewrites: revision, etag and updated_at; repeating a delete fails every target |
| BulkOperations.RepeatIsNoOpExactly | backend/controllers/bulk_operation_controller.go:165-225 | The repeat of a request changes nothing exactly when it neither archives nor unarchives, or none of its targets is a live contact of the caller |
| BulkOperations.SavingTwiceSavesTwice | backend/controllers/bulk_operation_controller.go:196-213 | A contact archived twice, or unarchived twice, is saved twice |
| BulkOperations.OnlyOwnedTargetsChange | backend/controllers/bulk_operation_controller.go:96-107 | Only rows of the caller's own requested live contacts change |
| BulkOperations.TargetsReachTheState | backend/controllers/bulk_operation_controller.go:169-225 | Every owned target reaches the state the action names, reminders and deliveries included |
| BulkOperations.BulkExactly | backend/controllers/bulk_operation_controller.go:165-225 | What a request leaves, link by link and row by row: which memberships, tags, contacts, reminders and deliveries of the targets change and how; everything the action does not name is as before |
| BulkOperations.AbortedExactly | backend/controllers/bulk_operation_controller.go:57-92 | A request stops at an empty id and at one that is no circle, or no tag, of the caller |
| BulkOperations.AfterOneMore | backend/controllers/bulk_operation_controller.go:131-147 | Acting contact by contact is acting on the set of targets at once |
| BulkOperations.Dedupe | backend/controllers/bulk_operation_controller.go:45-54 | The distinct targets in order of first mention |
| BulkOperations.Crm.RetireReminders | backend/controllers/bulk_operation_controller.go:199-206 | Clears the contact's deliveries before soft-deleting its reminders |
| BulkOperations.Crm.RunAction | backend/controllers/bulk_operation_controller.go:169-225 | One action on one owned contact |
| BulkOperations.Crm.Run | backend/controllers/bulk_operation_controller.go:32-147 | The whole request: aborted on a missing or foreign circle or tag, otherwise its outcome and new state |

## Left out

- HTTP and Gin plumbing, authentication, request validation middleware, limit clamping, logging, webhooks, metrics and the frontend: I/O around the modelled core.
- Other users' rows in the change feed: every query filters by user_id, so the model is one user's table.
- The full resynchronisation a client does after a 410; runs start from a replica consistent with its cursor.
- The unassigned-notes feed: a note can leave its `contact_id IS NULL` filter without a tombstone, so nothing is claimed for it.
- ContactFeed.DrainedReplicaEqualsServer: its runs hold no rewrite without a new stamp, as the rebuild of derived columns makes them; `ContactFeed.RewriteReachesExactly` says what one does.
- Feeds other than contacts, and the restamping of notes in the contact-delete cascade.
- SQLite's TEXT timestamps: stamps are ordered integers, and later writes get strictly larger ones.
- Days of varying length: time zones are fixed offsets and retention days have 24 hours.
- Non-ASCII case mapping: upper, lower and EqualFold act on ASCII letters.
- Real ciphers, HKDF, random nonces, base64url and RFC 3339 texts: an ideal AEAD and inverse pairs of functions.
- Cells of other storage classes, id-to-string errors and concurrent writers during a backfill.
- go-vcard's wire encoding, the other vCard and JSContact adapters, and Unicode normalisation.
- VCardCards.CardWriter.Write: writes no PHOTO, which is read from disk.
- VCardCards.ContactRecord.Import: leaves a card's PHOTO to the caller, as the code does, and does not say what is extracted from it.
- CalDAV time-range overlap in the sense of RFC 4791: the code tests DTSTART instants only.
- UpdateActivity's contact links and UpdateNote's check of the linked contact: they lie outside the compare-and-swap.
- Revisions.NoLostUpdate: revisions are unbounded, so the wrap-around of a 64-bit counter is not modelled.
- ContactMerge.MergeStore.ApplyMerge: leaves relationship edges to `RelationshipEdges.EdgeTable.RepointEdges`, and does not rewrite the related ids of life events, pending suggestions or the user's own-contact pointer.
- ContactMerge.MergeStore.CommitMerge: does not write the merge note on the keeper.
- ContactMerge.RowsFollow: rows that belong to one contact each; what `ContactMerge.MergeStore.ApplyMerge` leaves out is left out here too.
- ContactMerge.RunKeepsPhotos: identifies a file by its name; two spellings of one path are not told apart.
- Custom field type checks: `FieldValues` takes them as a given predicate on definition and value.
- FieldValues.FieldValueTable.Replace: takes the contact as already resolved and owned; the 404 before it is plumbing.
- BulkOperations.Crm.Run: holds one contact for a user and a vCard UID, the live one where a deleted one has the same UID, and does not remove the photo and attachment files of deleted contacts after the batch, and has no database errors.
- BulkOperations.Crm.RunAction: its delete is that of `BulkOperations.Crm.DeleteContact`.
- BulkOperations.Crm.DeleteContact: clears memberships, tags, reminders and deliveries; the other tables of the cascade are cleared by the same kind of statement.
- Import sessions, graph traversal, sharing, exports, administration and health endpoints: thin or independent of the state modelled here.
