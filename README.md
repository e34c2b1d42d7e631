# PanOpticon face store, administrator window and camera matcher in Dafny

PanOpticon registers people by a photo of their face and later recognises them.
Its core is `vectorDB` (src/database.py), a PostgreSQL store with three tables:
Faces (id, first and last name, thumbnail), Encoding (one embedding vector per
face and the number of embeddings folded into it) and Events (a log of
enrolments and verifications). The administrator window (src/admin_window.py)
enrols a photo (`on_add`) and verifies one (`on_verify`, through
`verification`); the camera (src/camera.py) loads the stored embeddings once
(`loadKnownFaces`) and matches each detected face against them (`verify`).

This project models that core and proves what it does, quirks included.

- `Common`: Option, Result and the faults the Python code raises.
- `Vectors`: embeddings as sequences of reals, the update formula of
  `updateMeanEncoding`, and the recogniser's verdict (distance, recognised).
- `Identifiers`: the id base built from a name, the zero-padded suffix,
  PostgreSQL's `LIKE` (with `%`, `_` and backslash escapes) and Python's
  `str.split()`.
- `Tables`: the three tables as a value (`Store`), with one function per
  writing operation giving the tables afterwards and the result. Lemmas here
  state what each operation promises. This includes two invariants:
  `Valid` (every face has exactly one encoding, every encoding has been added
  at least once, and every event's id, when it has one, names a face)
  and `WellAllocated` (every id is its name's base plus three digits, below
  twice the count of ids sharing that base).
- `Database`: class `VectorDB`, whose fields are the tables. Each method runs
  its Python counterpart's statements in order. The writing methods are proved
  equal to the `Tables` functions. The reading methods are proved against
  what they return.
- `Administration`: class `AdminWindow`, plus the functions `AdminVerification`,
  `AdminOnVerify` and `AdminOnAdd` for what the window does, and lemmas about them.
- `Recognition`: class `Camera`, plus the loop of `verify` as the function
  `Scan`, and lemmas about it.

Every SQL statement commits on its own, because the connection uses
autocommit. So when a later statement of an operation fails, the rows the
earlier statements wrote stay in place. The model keeps this
(`Tables.UpdateMeanPartial`, `Tables.InsertNewPartial`).

Quirks of the code, modelled as written and proved as lemmas:

- The suffix for a name whose base collides with other ids is twice the
  number of such ids (`count += count`), not that number plus one.
- `updateMeanEncoding` stores `(v * n + x) / n`, which is `v + x / n`, not the
  mean. `Tables.FoldsAccumulate` and `Tables.EnrolFoldsAccumulate` show that a
  row enrolled and then folded with the embeddings `s` holds `Vectors.Stored(s)`;
  `Vectors.RepeatedSampleDrifts` and `Vectors.TwoSampleExample` show what that
  is (enrolling [1, 0, 0] and then [1, 0, 0.2] stores [2, 0, 0.2], not
  [1, 0, 0.1]).
- `AdminWindow.verification` returns inside its first loop iteration, so it
  compares only the first stored entry.
- `Camera.verify` compares every entry. It names the last recognised one, but
  returns the distance and verdict of the last entry compared.
- Re-enrolling a known face through `on_add` fails on the unassigned
  `display_text`. An empty store makes `on_verify` fail to unpack None.

Behaviour one could expect from the names and comments of the code, and what
the code does instead (the model follows the code):

- An id base of five characters: the base is 3 to 5 characters, since a
  first name shorter than two characters is padded with a single "X".
- A suffix of count + 1 for a colliding base: the suffix is twice the count.
  Nothing stops the count past 999. A 4-digit suffix overflows ID VARCHAR(8)
  for a 5-character base; for a base of 3 or 4 characters the id still fits.
- A running mean in Encoding: the stored vector is not the mean of the
  embeddings folded into it.
- Matching uses the first entry (window) or the last entry (camera), not the
  entry at minimum distance.
- The event log query has no ORDER BY, so `FetchEventLogs` only promises some
  order of the rows, not newest first.
- `fetchName`, which the camera calls, is not defined in database.py. It is
  modelled as the first-name lookup that `verification` performs.

## Model

| member | source | states |
|---|---|---|
| Identifiers.IdBase | src/database.py:143-147 | the base is the first and last letters of the last name, then the first name plus "X" when it is shorter than three characters, else its first three characters; 3 to 5 characters long |
| Identifiers.Decimal | src/database.py:188-192 | `str(n)` of a count is a non-empty string of digits of the expected length |
| Identifiers.DecimalRoundTrip | src/database.py:188-192 | reading back the digits `str(n)` printed gives `n` |
| Identifiers.Suffix | src/database.py:185-192 | the padded suffix is digits only, exactly three of them for a count below 1000, four or more above |
| Identifiers.SuffixRoundTrip | src/database.py:185-192 | below 1000 the suffix reads back as the count, so different counts give different suffixes |
| Identifiers.PrefixIsLike | src/database.py:149 | with no backslash in the base, every id that starts with the base is `LIKE base%` |
| Identifiers.LikeIsPrefix | src/database.py:149 | with no `%`, `_` or backslash in the base, `LIKE base%` holds exactly when the id starts with the base |
| Identifiers.LikeAnything | src/database.py:149 | the pattern `%` matches every string |
| Identifiers.Split | src/database.py:293 | `split()` yields non-empty words without white space |
| Identifiers.FullNameSplits | src/database.py:293-295 | "first last" splits back into exactly [first, last] |
| Vectors.Fold | src/database.py:117-119 | the updated vector is componentwise v + x / n, with the same length |
| Vectors.Stored | src/database.py:117-127 | the vector stored after a series of embeddings keeps the embedding length |
| Vectors.StoredSnoc | src/database.py:117-127 | folding one more embedding into the stored vector of a run gives the stored vector of the longer run |
| Vectors.RepeatedSampleDrifts | src/database.py:117-127 | enrolling the same embedding e n times stores e * (1 + 1/2 + ... + 1/(n-1)), not e |
| Vectors.TwoSampleExample | src/database.py:117-127 | [1,0,0] then [1,0,0.2] stores [2,0,0.2], which differs from their mean [1,0,0.1] |
| Tables.Fit | src/database.py:61-63 | VARCHAR(n): a value that fits is stored unchanged; a longer one is accepted exactly when everything past position n is spaces, and is then cut to its first n characters; otherwise ValueTooLong |
| Tables.SameName | src/database.py:155-158 | the rows found are among the ids counted `LIKE base%`, each with the given first and last name |
| Tables.NewId | src/database.py:184-192 | the new id extends the base by at least three characters |
| Tables.Log | src/database.py:129-132 | Faces and Encoding are unchanged; a description that fits is appended as one event with the given id and stamp; one that does not fit changes nothing and fails with ValueTooLong |
| Tables.UpdateMean | src/database.py:107-134 | Faces and the keys of Encoding are unchanged, the log grows by at most one event, and the call succeeds exactly when the row exists and the event text fits |
| Tables.InsertNew | src/database.py:195-208 | no face is removed, the log grows by at most one event, a taken id changes nothing, and success reports (True, id) with a strictly larger Faces |
| Tables.Enrol | src/database.py:137-250 | an empty last name fails with nothing changed; no face is removed; the log grows by at most one event; a fold leaves Faces as it was and returns ""; a new face is reported under `NewId` with a strictly larger Faces |
| Tables.Verify | src/database.py:326-350 | Faces and Encoding are unchanged, the log grows by at most one event, and success returns "stranger" for the stranger or the stored first name of a registered id |
| Tables.AddThumbnail | src/database.py:97-104 | Encoding, Events and the ids of Faces are unchanged, and a registered id gets the thumbnail |
| Tables.Line | src/database.py:366-368 | one printed row opens with "(" and ends with a newline |
| Tables.Render | src/database.py:360-371 | the printed log is empty exactly when there is no event, and otherwise ends with a newline |
| Tables.FirstNameOf | src/database.py:340-341 | the lookup succeeds exactly for a registered id and yields its stored first name |
| Tables.RenderIsNotNewSystemText | src/database.py:360-371 | a log with at least one event never prints as the "system is new" text |
| Tables.UpdateMeanSpec | src/database.py:107-134 | an existing row becomes (Fold(v, n, x), n + 1), no other row or face changes, one event is appended, validity is kept; a missing row changes nothing and fails |
| Tables.UpdateMeanPartial | src/database.py:117-132 | when the update event does not fit, the folded row stays written, Events is unchanged and the call fails with ValueTooLong |
| Tables.FoldsAccumulate | src/database.py:107-127 | a row holding the fold of a run of embeddings holds, after the update, the fold of the run extended by the new one |
| Tables.EnrolFoldsAccumulate | src/database.py:154-171 | an addFaces that folds into a row continues that row's run of folds |
| Tables.UpdateMeanValid | src/database.py:107-134 | the update keeps every face paired with one encoding of the right length |
| Tables.UpdateMeanFaults | src/database.py:110-132 | the update fails only on a missing row or an over-long description |
| Tables.VerifyStrangerSpec | src/database.py:330-337 | "stranger" appends one event without an id, returns "stranger" and changes nothing else |
| Tables.VerifyKnownSpec | src/database.py:339-350 | a registered id appends "<first> was verified on the system." with that id and returns the stored first name; an unknown id fails and changes nothing |
| Tables.VerifyValid | src/database.py:326-350 | verification keeps the tables valid |
| Tables.AddThumbnailSpec | src/database.py:97-104 | only the thumbnail of the given id changes; an unknown id changes nothing |
| Tables.EnrolNewBase | src/database.py:216-250 | with no id LIKE the base: one face under base + "001", one encoding with timesAdded 1, one "New face" event, and (True, id) returned |
| Tables.EnrolSameName | src/database.py:154-175 | when a row LIKE the base has the same full name: no face is added, that row's encoding becomes (Fold(v, n, x), n + 1) and no other row changes, one update event is logged, and (False, "") is returned |
| Tables.EnrolCollision | src/database.py:177-214 | when ids share the base but none has the same name: the new id is base + the doubled count, padded, with the same three inserts |
| Tables.EnrolValid | src/database.py:137-250 | enrolment keeps every face paired with one encoding |
| Tables.NewIdShape | src/database.py:184-192 | the new id starts with the base, ends with a digit, and fits VARCHAR(8) while fewer than 500 ids share the base |
| Tables.InsertNewSpec | src/database.py:195-208 | a new id gets its face and its encoding; an id already present is refused by the primary key and changes nothing |
| Tables.InsertNewPartial | src/database.py:195-208 | when the "New face" event does not fit, the face and its encoding stay written, Events is unchanged and the call fails with ValueTooLong |
| Tables.EnrolFaces | src/database.py:154-250 | Faces is unchanged when folding; when inserting, it gains exactly the new id unless that id is taken or too long |
| Tables.EnrolTwiceAddsOneFace | src/database.py:149-175 | enrolling the same full name twice adds at most one face: the second call only folds |
| Tables.EnrolFoldsIntoNamedRow | src/database.py:149-175 | once a row LIKE the base carries the same names, addFaces only folds: Faces is unchanged and no new face is reported |
| Tables.EnrolNewIdStored | src/database.py:214 | an id returned with isNewFace is a key of Faces afterwards |
| Tables.EnrolSameKeys | src/database.py:149-159 | enrolment reads Faces only through ids and names, so thumbnails do not affect it |
| Tables.SnapshotIdsRegistered | src/database.py:266-281 | in a valid store every id listed by fetchEncodings has a face |
| Tables.AllocatedIdDiffers | src/database.py:184-192 | a well-formed id is never the base plus a count at or above twice the count of ids LIKE the base |
| Tables.AllocatedIdFresh | src/database.py:184-195 | in a well-allocated table the id addFaces builds is never already taken |
| Tables.LikeCountAdd | src/database.py:149 | adding an id raises the LIKE count by one exactly when the id matches |
| Tables.InsertKeepsWellAllocated | src/database.py:195 | inserting base + a suffix below twice the new count keeps the table well allocated |
| Tables.EnrolKeepsWellAllocated | src/database.py:137-250 | addFaces keeps the table well allocated while fewer than 500 ids share a base |
| Tables.NewFaceKeepsWellAllocated | src/database.py:184-195 | the old table, or the old table with the new face under `NewId`, is well allocated |
| Tables.EnrolNeverHitsPrimaryKey | src/database.py:195 | under those conditions addFaces never fails on the Faces primary key |
| Tables.Apply | src/database.py:50-350 | every writing operation keeps the tables valid |
| Tables.EventsAppendOnly | src/database.py:129-132 | every writing operation but createTables keeps the logged events in place and appends at most one; createTables empties the log |
| Tables.Run | src/database.py:50-350 | any run of writing operations keeps the tables valid |
| Tables.RunKeepsEvents | src/database.py:129-132 | over a run without createTables the old log is a prefix of the new one, with at most one event more per operation |
| Tables.ApplyKeepsWellAllocated | src/database.py:97-250 | every writing operation keeps the table well allocated (for enrolment under the count and width conditions) |
| Database.VectorDB.constructor | src/database.py:15-46 | connecting yields the tables the database already holds |
| Database.VectorDB.CreateTables | src/database.py:50-94 | afterwards the three tables are empty |
| Database.VectorDB.AddThumbnail | src/database.py:97-104 | the new state is `Tables.AddThumbnail` of the old one, and stays valid |
| Database.VectorDB.LogEvent | src/database.py:129-132 | appends one event with the stored description, or fails with nothing changed when it does not fit |
| Database.VectorDB.UpdateMeanEncoding | src/database.py:107-134 | the new state and result are `Tables.UpdateMean` of the old state |
| Database.VectorDB.InsertFace | src/database.py:195-208 | the new state and result are `Tables.InsertNew`: face, encoding and event inserted in that order |
| Database.VectorDB.AddFaces | src/database.py:137-250 | the new state and result are `Tables.Enrol`, folding into the last matching row the loop saw, a row with the same name |
| Database.VectorDB.NumOfFaces | src/database.py:253-263 | the count of rows of Faces, equal to that of Encoding in a valid store |
| Database.VectorDB.FetchEncodings | src/database.py:266-281 | the listing holds every encoding exactly once with its stored vector |
| Database.VectorDB.FetchEncodingOf | src/database.py:290-323 | fewer than two words fail; no face with that name gives None; otherwise a face with the name, with its stored vector |
| Database.VectorDB.FetchName | src/database.py:340-341 | succeeds exactly for a registered id, with its first name; otherwise fails as a missing row |
| Database.VectorDB.Verification | src/database.py:326-350 | the new state and result are `Tables.Verify` of the old state |
| Database.VectorDB.FetchEventLogs | src/database.py:352-371 | the "system is new" text exactly when no event is logged; otherwise the events in some order, one printed row per line |
| Administration.AdminVerification | src/admin_window.py:115-141 | Faces and the keys of Encoding are unchanged and at most two events are appended; None exactly when nothing is listed; an unrecognised first entry gives (False, "") with nothing changed; a recognised one greets the name verification returns |
| Administration.AdminOnVerify | src/admin_window.py:143-163 | Faces and the keys of Encoding are unchanged and at most two events are appended; an empty listing fails to unpack with nothing changed; an unrecognised first entry shows "Hi, stranger" |
| Administration.AdminOnAdd | src/admin_window.py:85-112 | no face is removed, at most one event is appended, and a success greets the first name with a strictly larger Faces |
| Administration.OnlyFirstEntryCompared | src/admin_window.py:124-141 | two listings with the same first entry give the same answer and store |
| Administration.RecognisedFirstEntry | src/admin_window.py:128-138 | a recognised first entry logs one verification and greets "Hi, <first name>"; below distance 0.7 its encoding becomes (Fold(v, n, emb), n + 1), no other row changes, and one more event is logged; otherwise Encoding is unchanged |
| Administration.FoldOnlyWhenClose | src/admin_window.py:134-136 | the encodings change exactly when the first entry is recognised at a distance below 0.7 |
| Administration.UnrecognisedIsStranger | src/admin_window.py:140-161 | a first entry not recognised gives (False, ""); on_verify then logs one stranger event and shows "Hi, stranger" |
| Administration.EmptyStoreCannotUnpack | src/admin_window.py:124-157 | with no entry verification returns None and on_verify fails to unpack it, changing nothing |
| Administration.ThumbnailOnlyForNewFace | src/admin_window.py:106-112 | the thumbnail is stored exactly for a newly inserted face, on that face only; re-enrolment fails on the unassigned display_text |
| Administration.SecondAddFails | src/admin_window.py:106-112 | after a successful on_add, a second on_add of the same name adds no face and fails |
| Administration.AddAfterNamedRowFails | src/admin_window.py:106-112 | once a row LIKE the base carries the same names, on_add adds no face and fails |
| Administration.AdminWindow.constructor | src/admin_window.py:18-35 | the window holds its store and recogniser and has listed nothing yet |
| Administration.AdminWindow.Verification | src/admin_window.py:115-141 | the listing is a fresh snapshot of Encoding, and the new store and answer are `AdminVerification` of them |
| Administration.AdminWindow.OnVerify | src/admin_window.py:143-163 | the new store and shown text are `AdminOnVerify` of the old store and the snapshot |
| Administration.AdminWindow.OnAdd | src/admin_window.py:85-112 | the new store and shown text are `AdminOnAdd` of the old store, folding (if at all) into a row with the same name LIKE the base |
| Recognition.Scan | src/camera.py:68-74 | the loop fails only as a missing row; it keeps the verdict of the last entry compared (none before the first), and a name tag other than "?unknown?" is the first name of some listed registered id |
| Recognition.CameraVerify | src/camera.py:62-76 | fails on the unbound variables exactly when nothing is listed, otherwise only as a missing row; a result carries the distance and verdict of the last entry |
| Recognition.LastRecognised | src/camera.py:68-74 | the position of the last accepted entry, after which none is accepted, or none when no entry is accepted |
| Recognition.CameraVerifySpec | src/camera.py:62-76 | verify names the last accepted entry ("?unknown?" if none) and returns the last entry's distance and verdict; no entry fails on the unbound variables |
| Recognition.ScanSpec | src/camera.py:63-74 | the loop's name tag and last verdict after any prefix of the entries |
| Recognition.ScanFails | src/camera.py:73-74 | verify fails exactly when an accepted entry has no face, and then as a missing row |
| Recognition.ScanErrSticky | src/camera.py:68-74 | a failure inside the loop ends the whole call with that failure |
| Recognition.LastAcceptedEntryNames | src/camera.py:68-76 | an accepted entry appended at the end decides the name tag, whatever came before |
| Recognition.Camera.constructor | src/camera.py:15-23 | the camera starts with a snapshot of Encoding loaded |
| Recognition.Camera.LoadKnownFaces | src/camera.py:113-124 | the loaded entries are replaced by a snapshot of Encoding and returned; the store is unchanged |
| Recognition.Camera.Verify | src/camera.py:62-76 | the answer is `CameraVerify` of the current store and the loaded entries, with nothing changed |

## Left out

- Connecting to PostgreSQL, creating the database, credentials, `close_conn`, and rollback after an error: every statement takes effect at once.
- Pickling: vectors are stored and read back unchanged.
- Floating point and numpy: vectors are exact reals of one fixed length. Broadcasting of embeddings of another length is not modelled.
- The recognition models (YuNet, SFace), photos, files, brightness and gamma correction, Tkinter windows, the video loop and drawing: embeddings, file names and the recogniser's verdict are parameters.
- Clocks: the Events timestamp is the printed text `now`, passed to every writing operation. The `timestamp` column of Encoding is never read and is not modelled.
- Python exceptions are returned as `Err` values. The program does not catch them.
- Database.VectorDB.FetchEncodings: the `psycopg2.Error` branch, which returns None, is not modelled, because a SELECT over the whole table does not fail here.
- Database.VectorDB.FetchEncodingOf and Database.VectorDB.Verification: some queries build their SQL by string formatting. An id containing a quote character would change the query text; this is not modelled.
- SQL strings containing NUL characters, which psycopg2 refuses, are not modelled.
- The BYTEA decoding of a thumbnail path given as text is not modelled; the thumbnail is the file name as given.
- Encoding.timesAdded is an INT column; its 32-bit overflow is not modelled.
- Dialogs cancelled in `on_add` (a None name) are not modelled.
- Nothing is concurrent in the model. The window and the camera run as separate programs against one database; this is not modelled.
- Camera.camera_loop, visualize and get_avail_cameras are video input and drawing; they are not modelled.
- Database.VectorDB.AddFaces: the matching rows are taken in an order the store chooses. The row that is folded into is exposed as a ghost out-parameter `target`. The contract says `target` is one of the rows with the same name, not which one.
- Database.VectorDB.FetchEventLogs: the order of the rows is the store's choice, so the contract promises some order of the events, not insertion order.
- Tables.AllocatedIdFresh: freshness is proved only when the base holds no backslash and fewer than 500 ids share it. Otherwise a backslash base can miss its own ids, and a 4-digit suffix breaks the three-digit shape the proof relies on (and does not fit the id column for a 5-character base).
- Tables.Log and Database.VectorDB.LogEvent: the foreign key `Events.ID REFERENCES Faces` is not checked; an event with an unregistered id would be appended rather than refused. Every caller logs either no id or the id of a registered face, and `Tables.Valid` records that every logged id names a face.
- The messages every method prints to standard output are not modelled.
