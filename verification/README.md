# Student ID card system: a Dafny model of its core

The system is a desktop application used to register university students,
store them in an SQLite database, and produce and browse their ID cards.
This project models the parts of it that decide something:

- **The store** (`database.dfy`, `auth.dfy`).
  - The `students` table is a sequence of rows in insertion order, kept
    under the UNIQUE `student_id` constraint. The `users` table is a
    sequence of users, unique by username.
  - The filesystem is the set of paths that exist.
  - Insert, update, delete and card marking are methods of the `Store`
    class. Each is proved against a function on the rows, and lemmas state
    what a later lookup sees.
  - The listing by id, the count, the two path queries, the gallery query
    and the two login routines are functions with their properties proved.
- **The registration dialog** (`registration.dfy`, `assets.dfy`).
  - Form validation, in the order the dialog runs its checks.
  - The filesystem-safe identifier and the two photo-file namings (the
    dialog's and the store's).
  - The reconciliation of a stored photo name when it is read back.
  - The rule that decides the `photo_path` a saved record gets.
  - The dialog's selected photo as a field updated by browse, clear and load.
- **The ID card gallery** (`gallery.dfy`).
  - The three-way photo filter, a partition that keeps order.
  - The 3-column grid placement loop.
  - The statistics line.
  - Generation of the cards still missing.
- **The admin dashboard** (`dashboard.dfy`).
  - The student table and its case-insensitive search.
  - The row action buttons, the statistics cards and the colour helper.
  - The background generation thread.
  - Batch generation that stops at the first cancellation.

Three things outside the program are parameters:

- The card generator is a function `gen` from a student id to the pair
  it returns: an optional output path and a message.
- The progress dialog's cancel button is a function `cancelled` from the
  index of the check to a boolean.
- Image decoding and file copying are booleans (`imageOk`, `previewOk`,
  `copyOk`).

`text.dfy` and `lists.dfy` hold the string and list helpers these need:
trimming, ASCII lower-casing, substring search, replace-all, path join and
extension, filter, map, first match and stable sort. `schema.dfy` holds the
rows and dictionaries. `wrappers.dfy` holds `Option`.

Several behaviours of the code as written are stated as lemmas rather than
smoothed over:

- The store names a photo after the raw id; the dialog names it after the
  sanitised id.
- Reconciliation repairs only `/`.
- Re-saving an edited record whose stored photo is selected writes NULL
  into its photo column.
- The dashboard's statistics ignore the card flags.
- The generation thread counts an empty path as a success.
- The search raises on a NULL program or email.

## Model

| member | source | states |
|---|---|---|
| `Assets.SafeId` | registration_form.py:585 | same length as the id; each `/`, `\` or `:` becomes `_` and every other character is kept, so no unsafe character is left |
| `Assets.SafeIdIdentity` | registration_form.py:585 | an id without unsafe characters is its own safe form |
| `Assets.SafeIdIdempotent` | registration_form.py:585 | sanitising twice is sanitising once |
| `Assets.SafeIdCollision` | registration_form.py:585-586 | two different ids (`A/B`, `A_B`) share a safe form, hence a photo file |
| `Assets.StoredExtension` | registration_form.py:580-586 | the kept extension is the source's own, lower-cased, or `.jpg` when the source has none; it starts with `.`, holds no other dot and no separator |
| `Assets.PhotoFilename` | registration_form.py:580-587 | the dialog's photo name is the safe id followed by the stored extension; it holds no `/` or `\`, so it lands directly in the photo directory |
| `Assets.DbPhotoFilename` | database.py:274-275 | the store's photo name is the raw id followed by the source's extension, lower-cased (empty when it has none) |
| `Assets.ReconcilePhotoPath` | database.py:294-296 | a stored name is kept unless both the id and the name hold `/`; then each occurrence of the id is replaced by the id with `/` turned into `_` |
| `Assets.ReconcileKeepsFormNames` | registration_form.py:428-431 | reading back a name the dialog wrote leaves it unchanged |
| `Assets.ReconcileRepairsSlashIds` | database.py:294-296 | for an id whose only unsafe character is `/`, reconciliation turns the store's name into the safe-id name |
| `Assets.ReconcileMissesOtherUnsafe` | registration_form.py:428-431 | for an id holding `\` or `:`, reconciliation never yields the dialog's name |
| `Assets.NamingAgreesOnSafeIds` | database.py:274-275 | for a safe id and a source with an extension the two namings agree |
| `Assets.NamingDivergesOnUnsafeIds` | registration_form.py:585-586 | for an id with an unsafe character the two namings give different files |
| `Assets.PhotoFilenameOfStoredPhoto` | registration_form.py:580-587 | a stored photo taken again as the source is given its own name again |
| `Database.Lookup` | database.py:143-153 | None exactly when no row has the id; otherwise a stored row with that id |
| `Database.LookupUnique` | database.py:143-153 | under the UNIQUE constraint, looking up a stored row's id finds that row |
| `Database.OrEmpty` | database.py:182-189 | an absent optional key reads as `''` |
| `Database.StoredPhoto` | database.py:189 | the photo column is `''` for an absent key, NULL for None, else the given name |
| `Database.NewRow` | database.py:166-199 | the inserted row carries the given columns with absent ones as `''`, the card flag 0, the other card columns NULL and both timestamps `now` |
| `Database.ApplyUpdate` | database.py:210-233 | the ten data columns come from the dictionary and `last_updated` is `now`; the id, creation time and card columns are kept |
| `Database.UpdateRows` | database.py:213-233 | same length; rows with another id unchanged; the matching rows carry the new data and keep id and card columns |
| `Database.UpdateUnknownId` | database.py:213-233 | updating an id no row has leaves the table unchanged |
| `Database.UpdateThenLookup` | database.py:213-233 | the constraint is kept; the updated id finds the old row with the update applied; other ids find what they found before |
| `Database.DeleteRows` | database.py:258 | every remaining row is an old row with another id, and every old row with another id remains |
| `Database.DeleteThenLookup` | database.py:244-260 | after delete the id is not found, other ids find what they found before, and the table shrinks by one row exactly when the id was present |
| `Database.AddThenLookup` | database.py:166-199 | after a fresh insert the new id finds the new row; other ids find what they found before |
| `Database.FilesRemovedBy` | database.py:244-256 | delete removes the joined photo path and the card path, each only when its column is non-empty, and nothing for a missing row |
| `Database.MarkRows` | database.py:305-323 | on the matching rows the flag becomes 1 and path, QR data and date are set; every other column and every other row are unchanged |
| `Database.MarkedRowIsListed` | database.py:342-355 | a marked row whose card file exists is listed by the gallery query |
| `Database.AllStudents` | database.py:129-141 | the listing is a permutation of the table, sorted by id |
| `Database.AllStudentsStrictlyAscending` | database.py:132-136 | under the UNIQUE constraint, ids in the listing are distinct and ascending |
| `Database.StudentCount` | database.py:155-164 | the count equals the length of the listing |
| `Database.GetStudentPhotoPath` | database.py:285-303 | None exactly when the row is missing or its photo column is NULL or `''`; otherwise the reconciled stored name |
| `Database.PhotoPathUnchangedWithoutSlash` | database.py:293-297 | for an id without `/` the query returns the stored name unchanged |
| `Database.GetStudentIdCardPath` | database.py:325-336 | the stored card path exactly when the row exists and the column is non-empty, else None |
| `Database.IssuedByName` | database.py:342-348 | the selected rows are a permutation of the issued rows, sorted by full name |
| `Database.KeptCardsAreListed` | database.py:342-355 | as many kept rows as listed rows, each a listed stored row, every listed row kept, sorted by name |
| `Database.GetAllGeneratedIdCards` | database.py:338-362 | the loop over the ordered rows builds exactly the card list of the rows whose card file exists |
| `Database.GeneratedCardsOrdered` | database.py:342-355 | one card per listed row, sorted by full name, `has_photo` true exactly when the photo column is non-empty |
| `Database.GeneratedCardsSound` | database.py:342-355 | every card is the card of an issued stored row whose card file exists |
| `Database.GeneratedCardsComplete` | database.py:342-355 | every issued row whose card file exists has its card in the list |
| `Database.AuthenticateUser` | database.py:364-387 | a returned user is stored, matches username and password, and is active when the column exists; a matching user is always found; an unreadable table gives None |
| `Database.AuthenticateUserRejects` | database.py:370-382 | an unknown username and a wrong password both give None |
| `Database.DbSavedPhotoName` | database.py:267-283 | a name is returned exactly when the source exists, the destination differs from the source and the copy succeeds |
| `Database.DbPhotoNestsSlashIds` | database.py:274-276 | an id holding `/` puts the copy in a sub-directory of the photo directory |
| `Database.Store.constructor` | database.py:49-92 | the tables start empty |
| `Database.Store.InitDb` | database.py:94-116 | the administrator is added only when no `admin` user exists; the sample student only into an empty table; the constraints hold |
| `Database.Store.AddStudent` | database.py:166-208 | True exactly when the id is free, and the new row is then appended; False leaves the table unchanged |
| `Database.Store.UpdateStudent` | database.py:210-238 | always True; the table becomes the updated table and keeps its constraints |
| `Database.Store.DeleteStudent` | database.py:240-265 | always True; the row is removed and so are its photo and card files, and nothing else |
| `Database.Store.SaveStudentPhoto` | database.py:267-283 | returns the store's name, and only then adds the joined destination to the files |
| `Database.Store.MarkIdCardGenerated` | database.py:305-323 | always True; the table becomes the marked table |
| `Auth.Authenticate` | auth.py:10-38 | a returned user is stored, has the username and user type asked for, the stored password equal to the given one, and is active when the column exists; an unreadable table gives None |
| `Auth.AuthenticateComplete` | auth.py:16-33 | a user matching username, type, activity and password is returned |
| `Auth.AuthenticateRejects` | auth.py:27-33 | an unknown username and a wrong password both give None |
| `Auth.AuthenticateAgreesWithDatabase` | auth.py:16-33 | `auth.authenticate_user` and `database.authenticate_user` accept the same users |
| `Auth.DefaultAdminLogsIn` | database.py:95-101 | the administrator added to any users table without `admin` logs in with `admin123` and the default user type |
| `Registration.ValidateAccepts` | registration_form.py:443-469 | a form is accepted exactly when id, name and email are non-blank, the trimmed email holds `@` and `.`, and a new student's trimmed id has at least 3 characters |
| `Registration.LengthRuleOnlyForNewStudents` | registration_form.py:462-467 | the length check applies only when registering; every other verdict is the same in both modes |
| `Registration.FirstBlank` | registration_form.py:451-454 | None exactly when no entry is blank; otherwise the field of the first blank entry |
| `Registration.RequiredOrder` | registration_form.py:445-449 | the required fields are checked in the order id, name, email |
| `Registration.FirstMissing` | registration_form.py:451-454 | the loop stops at the first blank field, the one `FirstBlank` names |
| `Registration.ValidateForm` | registration_form.py:443-469 | the method returns the verdict `Validate` defines |
| `Registration.SavedPhotoName` | registration_form.py:550-635 | a name is returned exactly when the source is non-empty and exists, the image is valid, the destination differs from the source and the copy succeeds; the name is the safe-id name |
| `Registration.PhotoEntry` | registration_form.py:497-518 | the record's `photo_path` is always set: the saved name when a selected photo exists and is saved, None otherwise |
| `Registration.RecordedPhotoColumn` | registration_form.py:497-518 | the saved column is the non-empty safe name of the selected photo, or NULL exactly when nothing was saved; never `''` |
| `Registration.FormData` | registration_form.py:480-491 | the record holds the trimmed id, name, email and phone, the other inputs as read, and the given photo entry; every optional key is present |
| `Registration.AcceptedFormData` | registration_form.py:443-491 | a record built from an accepted form has a non-empty id and name, an email holding `@` and `.`, and a new student's id of at least 3 characters |
| `Registration.LoadedPhoto` | registration_form.py:424-441 | the photo loaded for editing is an existing file of an existing row |
| `Registration.LoadedPhotoMatchesQuery` | registration_form.py:428-434 | the dialog reconciles like `get_student_photo_path` and shows that file when it exists |
| `Registration.ResavingLoadedPhotoClearsIt` | registration_form.py:497-518 | re-saving an edited record whose stored photo was loaded copies the file onto itself and writes NULL into the photo column |
| `Registration.RegistrationDialog.constructor` | registration_form.py:14-21 | nothing is selected, except the stored photo when an existing record is opened |
| `Registration.RegistrationDialog.BrowsePhoto` | registration_form.py:327-377 | a chosen file that passes both image checks becomes the selection; otherwise the selection is kept |
| `Registration.RegistrationDialog.ClearPhoto` | registration_form.py:379-385 | nothing is selected afterwards |
| `Registration.RegistrationDialog.LoadStudentData` | registration_form.py:387-441 | reports whether the record exists; selects the loaded photo when there is one, otherwise keeps the selection |
| `Registration.RegistrationDialog.SaveStudentPhoto` | registration_form.py:550-635 | returns the dialog's name, and only then adds the joined destination to the files |
| `Registration.RegistrationDialog.SavePhotoEntry` | registration_form.py:497-518 | yields the record's photo entry and adds the saved file, if any |
| `Registration.RegistrationDialog.Submit` | registration_form.py:480-528 | saves the photo and then updates the edited record or adds a new one; success is editing, or a free id |
| `Registration.RegistrationDialog.Persist` | registration_form.py:520-528 | update when editing, add otherwise; success is editing, or a free id |
| `Registration.RegistrationDialog.SaveStudent` | registration_form.py:471-548 | an invalid form changes nothing and names its problem; a valid one saves the photo, persists the trimmed record and reports success and whether a photo was saved |
| `Gallery.FilterCards` | id_card_gallery.py:154-163 | "With Photos" keeps only cards with a photo, "Without Photos" only cards without, any other text keeps the list |
| `Gallery.FilterCardsSelects` | id_card_gallery.py:158-161 | a card is kept by a photo filter exactly when it is in the list and matches that filter |
| `Gallery.FilterCardsMultiplicity` | id_card_gallery.py:158-161 | each card keeps its multiplicity under the filter that accepts it and vanishes under the other |
| `Gallery.FilterCardsPartition` | id_card_gallery.py:158-161 | the two photo filters split the list: their multisets add up to it |
| `Gallery.FilterCardsKeepsOrder` | id_card_gallery.py:154-163 | filtering distributes over concatenation, so order is kept |
| `Gallery.FilterCardsIdempotent` | id_card_gallery.py:154-163 | applying a filter twice equals applying it once |
| `Gallery.GridCellsDistinct` | id_card_gallery.py:138-149 | every column is below 3, and cards fill distinct cells in row-major order |
| `Gallery.StretchBelowCards` | id_card_gallery.py:151-152 | the stretched row lies below every placed card |
| `Gallery.NextCell` | id_card_gallery.py:145-149 | stepping the column and wrapping after the third moves from cell k to cell k + 1 |
| `Gallery.Stats` | id_card_gallery.py:398-406 | total is the card count, shown is at most total, with-photos is at most total, and without-photos is total minus with-photos and equals the "Without Photos" count |
| `Gallery.MissingIds` | id_card_gallery.py:368-369 | a student is missing exactly when stored with a falsy flag; none is missing exactly when every flag is set |
| `Gallery.MissingIdsKeepsOrder` | id_card_gallery.py:368-369 | the selection distributes over concatenation, so order is kept |
| `Gallery.CountProduced` | id_card_gallery.py:385-389 | the count is the number of ids the generator gave a path for, at most the number of ids |
| `Gallery.IdCardGallery.constructor` | id_card_gallery.py:14-20 | the gallery opens on "All ID Cards" with the issued cards loaded, placed and counted |
| `Gallery.IdCardGallery.DisplayIdCards` | id_card_gallery.py:127-152 | the filtered cards are placed in order, card k at row k div 3 and column k mod 3, and the row after the last is stretched |
| `Gallery.IdCardGallery.UpdateStats` | id_card_gallery.py:398-406 | the statistics line is `Stats` of the cards and the filter |
| `Gallery.IdCardGallery.LoadIdCards` | id_card_gallery.py:121-125 | reloads the card list with the store's gallery query, then places and counts it |
| `Gallery.IdCardGallery.ApplyFilter` | id_card_gallery.py:165-168 | places and counts the cards under the new filter |
| `Gallery.IdCardGallery.GenerateMissingIds` | id_card_gallery.py:366-396 | nothing is generated when no card is missing or the user declines; otherwise each missing id is asked for once, in order, at most that many succeed, and the cards are reloaded, placed and counted; when nothing is generated the list, grid and statistics are kept |
| `Dashboard.ThreadSuccessWeakerThanProduced` | admin_dashboard.py:37-38 | every produced card is a success for the thread, and an empty path is a success for the thread only |
| `Dashboard.GenerationThread.constructor` | admin_dashboard.py:26-29 | keeps the ids and the batch flag |
| `Dashboard.GenerationThread.Run` | admin_dashboard.py:31-52 | one result per id in the same order, with success exactly when a path came back, and the generator's message and path |
| `Dashboard.SearchHit` | admin_dashboard.py:770-776 | the test raises exactly when id and name miss and a NULL program or email is reached |
| `Dashboard.SearchHitAgrees` | admin_dashboard.py:770-776 | a verdict the test reaches is the intended one, and it always reaches one when program and email are present |
| `Dashboard.SearchFilter` | admin_dashboard.py:770-776 | the search raises exactly when the test raises for some student; otherwise it keeps exactly the matching students in order |
| `Dashboard.SearchNeverRaisesOnStoredRows` | admin_dashboard.py:770-776 | on rows the store writes, the search never raises and returns the intended matches |
| `Dashboard.SearchFindsExactMatches` | admin_dashboard.py:764-776 | a student whose id or name contains the text, in any case, is found |
| `Dashboard.ActionButtons` | admin_dashboard.py:666-758 | the view-card button appears exactly when the flag is truthy, first; the generate, details and delete buttons always end the row |
| `Dashboard.ViewButtonMatchesStatus` | admin_dashboard.py:654-656 | a row offers the view-card button exactly when its status column says "Yes" |
| `Dashboard.StatsCards` | admin_dashboard.py:562-581 | three cards: "Total Students" and "ID Cards Generated" both show the student count, "Pending Generation" always shows 0 |
| `Dashboard.StatsCardsIgnoreFlags` | admin_dashboard.py:570-577 | with a student lacking a card, "ID Cards Generated" overstates and "Pending Generation" understates the real figures |
| `Dashboard.DarkenColor` | admin_dashboard.py:1040-1048 | the four palette colours map to their darker shades; any other colour is returned as given |
| `Dashboard.DarkenColorIdempotent` | admin_dashboard.py:1042-1048 | darkening twice is darkening once |
| `Dashboard.BatchIds` | admin_dashboard.py:926-947 | every student's id, once each (as a multiset, the ids of the table), in ascending order |
| `Dashboard.CancelPoint` | admin_dashboard.py:950-952 | the ids before the stopping point all passed the cancellation check, and a stop before the end is a cancellation |
| `Dashboard.RunBatch` | admin_dashboard.py:950-960 | processes exactly the ids before the first cancellation and counts those the generator gave a path for; success count ≤ processed ≤ ids |
| `Dashboard.AdminDashboard.constructor` | admin_dashboard.py:56-62 | no students loaded yet, on the first tab |
| `Dashboard.AdminDashboard.LoadStudentsData` | admin_dashboard.py:635-664 | the loaded students and the table rows are the listing in id order |
| `Dashboard.AdminDashboard.SearchStudents` | admin_dashboard.py:762-789 | an empty text reloads everything; otherwise the table shows the matching loaded students in order, or is kept when the test raises |
| `Dashboard.AdminDashboard.UpdateStatsCards` | admin_dashboard.py:562-581 | the cards are `StatsCards` of the student count |
| `Dashboard.AdminDashboard.RefreshDashboard` | admin_dashboard.py:622-633 | the statistics are renewed, and the table is reloaded only on the students tab |
| `Dashboard.AdminDashboard.ShowDashboard` | admin_dashboard.py:1050-1052 | switches to the overview tab and renews the statistics; the table is kept |
| `Dashboard.AdminDashboard.ShowStudents` | admin_dashboard.py:1054-1056 | switches to the students tab and reloads the table |
| `Dashboard.AdminDashboard.GenerateAllIds` | admin_dashboard.py:923-977 | nothing is generated with no students or when the user declines; otherwise the ids are run in id order up to the first cancellation, success count ≤ processed ≤ total, and the dashboard is refreshed (the table reloaded only on the students tab); when nothing is generated the statistics, loaded students and table are kept |

## Left out

- The user interface is not modelled: widgets, style sheets, message boxes, dialogs, timers and animations. This includes the login window, the loading screen, the student dashboard view and the entry point. What a routine shows is reduced to the outcome value it returns (`SaveOutcome`, `MissingRun`, `SearchOutcome`, `BatchRun`).
- SQLite is not modelled: connections, SQL text, the schema migration in database.py:11-47 and the table definitions. Catching `sqlite3.Error` and other exceptions is left out too, except for three paths that are modelled: the IntegrityError of a duplicate insert, the unreadable users table at login, and a failed copy. `CURRENT_TIMESTAMP` is a parameter `now`.
- The filesystem is the set of existing paths. `os.path.join` is `dir + "/" + name`. `os.makedirs`, file contents and the time stamps `shutil.copy2` keeps are left out.
- The image checks and the copy are boolean parameters:
  - PIL `verify` and `QPixmap.isNull` become `imageOk` and `previewOk`.
  - A PIL `ImportError`, after which the code goes on, is `imageOk = true`.
  - `shutil.copy2` failing is `copyOk = false`, and copying a file onto itself is a failure of its own.
  - The check after the copy (registration_form.py:604-619) is folded into `copyOk`. It never runs, because `Image` is imported locally, so its clean-up is not modelled.
- The card generator in `id_card_generator` is not part of this model. It is an oracle `gen`, and the files and database columns it writes are not modelled. The reload that follows a generation therefore sees the store as it was.
- Registration.RegistrationDialog.LoadStudentData: only the photo part is modelled. Filling the form fields and closing the dialog when the record is missing are left out.
- Concurrency is left out: `QThread` start, signals and termination, and `QApplication.processEvents`.
  - Dashboard.GenerationThread.Run: the progress percentage (a float computation at admin_dashboard.py:47) and the error signal for an exception are not modelled.
- Dashboard.AdminDashboard.LoadStudentsData: the text of the table cells (`N/A` for a missing program or email) is not modelled. The ordering of the rows and the status column are modelled.
- Dashboard.ActionButtons: the view-card button is added twice to the layout (admin_dashboard.py:691 and 752-753). A Qt widget added again is moved, not copied, so the model lists it once.
- Dashboard.AdminDashboard.SearchStudents: `.get('program', '')` returns None for a NULL column, and `None.lower()` raises. The model reports this as `Raised` and leaves the table as it was. It does not model the exception reaching Qt's event loop.
- The gallery imports its card loader, `get_all_generated_id_cards`, from `id_card_generator` (id_card_gallery.py:9), which is not part of this model. The model assumes that loader is the store's query of the same name (database.py:338-362) and uses `Database.GetAllGeneratedIdCards` in `Gallery.IdCardGallery.LoadIdCards`.
- `os.path.splitext` follows the Windows rules: both `/` and `\` end a path component, and leading dots of the final component do not start an extension. `os.path.join` always inserts `/`. The POSIX rules, under which `\` is an ordinary character, are not modelled.
- Strings are sequences of characters. `strip` removes ASCII white space and `lower` folds ASCII letters only. Unicode case folding and Unicode white space are not modelled.
- Database.IssuedByName: `ORDER BY full_name` is modelled as a stable sort on code-point order. Rows with equal names keep their stored order, which SQLite does not promise.
- The view, print and regenerate dialogs of a card, the single-student generation, the student-details dialog, logging, `config.py` and the diagnostic `debug_files.py` are not modelled.
