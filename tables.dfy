/** The three tables of the face store as a value, and one function per store
    operation giving the tables afterwards and the operation's result. The class
    `Database.VectorDB` runs these operations step by step on its fields; the lemmas
    here state what each operation promises.

    Every SQL statement of the store commits on its own (the connection runs in
    autocommit mode), so when a later statement of an operation fails, the rows
    written by the earlier ones stay. */
module Tables {
  import opened Common
  import opened Vectors
  import opened Identifiers

  /** Column widths: `ID VARCHAR(8)`; `firstName`, `lastName` and `description`
      are `VARCHAR(255)`. */
  const IdWidth: nat := 8
  const TextWidth: nat := 255

  /** A row of Faces. */
  datatype Face = Face(firstName: string, lastName: string, thumbnail: Option<string>)

  /** A row of Encoding: the stored vector and how many embeddings were folded in. */
  datatype Centroid = Centroid(vector: Vec, timesAdded: int)

  /** A row of Events; `id` is None for an unregistered face, and `stamp` is the
      text PostgreSQL prints for the row's `timestamp` (the clock reading when the
      row was inserted). */
  datatype Event = Event(id: Option<string>, description: string, stamp: string)

  datatype Store = Store(faces: map<string, Face>, encoding: map<string, Centroid>, events: seq<Event>)

  /** One (id, vector) pair of a `fetchEncodings` dictionary. */
  datatype Entry = Entry(id: string, vector: Vec)

  /** What `addFaces` returns: whether a new face was inserted, and its id. */
  datatype Enrolment = Enrolment(isNewFace: bool, id: string)

  const Empty: Store := Store(map[], map[], [])

  /** The id `verification` treats as an unregistered face. */
  const Stranger: string := "stranger"

  const StrangerText: string := "Unregistered face tried to verify on the system."

  function NewFaceText(first: string): string {
    "New face " + first + " added to Encoding table."
  }

  function UpdatedText(first: string): string {
    "Old face " + first + " was used to update Faces table."
  }

  function VerifiedText(first: string): string {
    first + " was verified on the system."
  }

  /** PostgreSQL's assignment of a string to a VARCHAR(n) column: a longer string
      is refused unless everything past the n-th character is a space, which is
      then cut off. */
  function Fit(s: string, n: nat): (r: Result<string>)
    ensures |s| <= n ==> r == Ok(s)
    ensures r.Ok? ==> |r.value| <= n && r.value <= s
    ensures r.Err? ==> r == Err(ValueTooLong)
    ensures |s| > n ==>
      && (r.Ok? <==> forall k :: n <= k < |s| ==> s[k] == ' ')
      && (r.Ok? ==> r.value == s[..n])
    ensures |s| > n && s[|s| - 1] != ' ' ==> r == Err(ValueTooLong)
  {
    if |s| <= n then Ok(s)
    else if forall k :: n <= k < |s| ==> s[k] == ' ' then Ok(s[..n])
    else Err(ValueTooLong)
  }

  /** The integrity the schema and the store's code keep: every face has exactly one
      encoding row (Encoding.ID references Faces and is only inserted together with
      the face), every encoding has been added at least once and has the embedding
      dimension, and every event's id, when it has one, refers to a face. */
  ghost predicate Valid(t: Store, dim: nat) {
    && t.encoding.Keys == t.faces.Keys
    && (forall id | id in t.encoding :: t.encoding[id].timesAdded >= 1 && |t.encoding[id].vector| == dim)
    && (forall k | 0 <= k < |t.events| :: t.events[k].id.Some? ==> t.events[k].id.value in t.faces)
  }

  // ---------------------------------------------------------------------------
  // Id allocation

  /** The ids matched by `ID LIKE base%`. */
  function LikeIds(ids: set<string>, b: string): set<string> {
    set id | id in ids && LikeMatch(id, b + "%")
  }

  /** `SELECT COUNT(*) FROM Faces WHERE ID LIKE base%`. */
  function LikeCount(ids: set<string>, b: string): nat {
    |LikeIds(ids, b)|
  }

  /** The rows of `SELECT ID FROM Faces WHERE ID LIKE base% AND firstName = .. AND lastName = ..`. */
  function SameName(faces: map<string, Face>, b: string, first: string, last: string): (rows: set<string>)
    ensures rows <= LikeIds(faces.Keys, b)
    ensures forall id | id in rows :: faces[id].firstName == first && faces[id].lastName == last
  {
    set id | id in faces && LikeMatch(id, b + "%") && faces[id].firstName == first && faces[id].lastName == last
  }

  /** The id `addFaces` gives a new face: the base, then "001" when no id is LIKE
      the base, else the count of such ids doubled (`count += count`) and padded. */
  function NewId(faces: map<string, Face>, first: string, last: string): (id: string)
    requires |last| > 0
    ensures IdBase(first, last) <= id
    ensures |id| >= |IdBase(first, last)| + 3
  {
    var b := IdBase(first, last);
    var c := LikeCount(faces.Keys, b);
    b + Suffix(if c > 0 then c + c else 1)
  }

  // ---------------------------------------------------------------------------
  // Operations

  /** `INSERT INTO Events (ID, description)`. */
  function Log(t: Store, id: Option<string>, d: string, now: string): (r: (Store, Result<()>))
    ensures r.0.faces == t.faces && r.0.encoding == t.encoding
    ensures r.1.Err? ==> r == (t, Err(ValueTooLong))
    ensures r.1.Ok? ==>
      && |r.0.events| == |t.events| + 1 && t.events <= r.0.events
      && var e := r.0.events[|t.events|]; e.id == id && e.description <= d && |e.description| <= TextWidth && e.stamp == now
    ensures |d| <= TextWidth ==> r == (t.(events := t.events + [Event(id, d, now)]), Ok(()))
  {
    match Fit(d, TextWidth)
    case Ok(stored) => (t.(events := t.events + [Event(id, stored, now)]), Ok(()))
    case Err(f) => (t, Err(f))
  }

  /** `updateMeanEncoding(id, x, firstName)`: read (v, n), store (v * n + x) / n with
      timesAdded n + 1, then log the update. A missing row makes `fetchone()` return
      None, which the code then unpacks. */
  function UpdateMean(t: Store, id: string, x: Vec, first: string, now: string): (r: (Store, Result<()>))
    requires Valid(t, |x|)
    ensures r.0.faces == t.faces && r.0.encoding.Keys == t.encoding.Keys
    ensures t.events <= r.0.events && |r.0.events| <= |t.events| + 1
    ensures r.1.Ok? <==> id in t.encoding && Fit(UpdatedText(first), TextWidth).Ok?
  {
    if id !in t.encoding then (t, Err(NoSuchRow))
    else
      var c := t.encoding[id];
      var t1 := t.(encoding := t.encoding[id := Centroid(Fold(c.vector, c.timesAdded, x), c.timesAdded + 1)]);
      Log(t1, Some(id), UpdatedText(first), now)
  }

  /** The three inserts of a new face: its Faces row, its Encoding row with
      timesAdded = 1, and the "New face" event. */
  function InsertNew(t: Store, id: string, first: string, last: string, x: Vec, now: string): (r: (Store, Result<Enrolment>))
    ensures t.faces.Keys <= r.0.faces.Keys
    ensures t.events <= r.0.events && |r.0.events| <= |t.events| + 1
    ensures r.1 == Err(DuplicateKey) ==> r.0 == t
    ensures r.1.Ok? ==> r.1.value == Enrolment(true, id) && t.faces.Keys < r.0.faces.Keys
  {
    match (Fit(id, IdWidth), Fit(first, TextWidth), Fit(last, TextWidth))
    case (Ok(i), Ok(f), Ok(l)) =>
      if i in t.faces then (t, Err(DuplicateKey))
      else
        var t1 := t.(faces := t.faces[i := Face(f, l, None)], encoding := t.encoding[i := Centroid(x, 1)]);
        var (t2, r) := Log(t1, Some(i), NewFaceText(first), now);
        (t2, if r.Ok? then Ok(Enrolment(true, id)) else Err(r.fault))
    case _ => (t, Err(ValueTooLong))
  }

  /** `addFaces(firstName, lastName, encoding)`. When some id LIKE the base already
      has the same first and last name, the embedding is folded into `target`, the
      row the store lists last among those (the loop at database.py:165-166 keeps
      the last one; the store chooses the order). Otherwise a new face is inserted
      under `NewId`. */
  function Enrol(t: Store, first: string, last: string, x: Vec, target: string, now: string): (r: (Store, Result<Enrolment>))
    requires Valid(t, |x|)
    ensures |last| == 0 ==> r == (t, Err(EmptyLastName))
    ensures t.faces.Keys <= r.0.faces.Keys
    ensures t.events <= r.0.events && |r.0.events| <= |t.events| + 1
    ensures r.1.Ok? && !r.1.value.isNewFace ==> r.0.faces == t.faces && r.1.value.id == ""
    ensures r.1.Ok? && r.1.value.isNewFace ==>
      |last| > 0 && r.1.value.id == NewId(t.faces, first, last) && t.faces.Keys < r.0.faces.Keys
    ensures |last| == 0 ==> r == (t, Err(EmptyLastName))
    ensures t.faces.Keys <= r.0.faces.Keys
    ensures t.events <= r.0.events && |r.0.events| <= |t.events| + 1
    ensures r.1.Ok? && !r.1.value.isNewFace ==> r.0.faces == t.faces && r.1.value.id == ""
    ensures r.1.Ok? && r.1.value.isNewFace ==>
      |last| > 0 && r.1.value.id == NewId(t.faces, first, last) && t.faces.Keys < r.0.faces.Keys
  {
    if |last| == 0 then (t, Err(EmptyLastName))
    else
      var b := IdBase(first, last);
      if LikeCount(t.faces.Keys, b) > 0 && SameName(t.faces, b, first, last) != {} then
        var (t1, r) := UpdateMean(t, target, x, first, now);
        (t1, if r.Ok? then Ok(Enrolment(false, "")) else Err(r.fault))
      else
        InsertNew(t, NewId(t.faces, first, last), first, last, x, now)
  }

  /** `verification(id)`: "stranger" logs an event without an id and is returned;
      any other id logs "<first> was verified on the system." and returns the first
      name stored for it. */
  function Verify(t: Store, id: string, now: string): (r: (Store, Result<string>))
    ensures r.0.faces == t.faces && r.0.encoding == t.encoding
    ensures t.events <= r.0.events && |r.0.events| <= |t.events| + 1
    ensures r.1.Ok? ==> if id == Stranger then r.1.value == Stranger else id in t.faces && r.1.value == t.faces[id].firstName
  {
    if id == Stranger then
      (Log(t, None, StrangerText, now).0, Ok(id))
    else if id !in t.faces then (t, Err(NoSuchRow))
    else
      var first := t.faces[id].firstName;
      var (t1, r) := Log(t, Some(id), VerifiedText(first), now);
      (t1, if r.Ok? then Ok(first) else Err(r.fault))
  }

  /** `addThumbnail(id, img)`: an UPDATE, so an unknown id changes nothing. */
  function AddThumbnail(t: Store, id: string, img: string): (t': Store)
    ensures t'.encoding == t.encoding && t'.events == t.events && t'.faces.Keys == t.faces.Keys
    ensures id in t.faces ==> t'.faces[id].thumbnail == Some(img)
  {
    if id in t.faces then t.(faces := t.faces[id := t.faces[id].(thumbnail := Some(img))]) else t
  }

  /** The first name stored for an id, as `SELECT firstName FROM Faces WHERE ID = ..`
      followed by `fetchone()[0]`. */
  function FirstNameOf(t: Store, id: string): (r: Result<string>)
    ensures r.Ok? <==> id in t.faces
    ensures r.Ok? ==> r.value == t.faces[id].firstName
  {
    if id in t.faces then Ok(t.faces[id].firstName) else Err(NoSuchRow)
  }

  /** `s` lists the Encoding table the way `fetchEncodings` builds its dictionary:
      every id once, each with its stored vector. */
  ghost predicate IsSnapshot(s: seq<Entry>, enc: map<string, Centroid>) {
    && (forall i, j | 0 <= i < j < |s| :: s[i].id != s[j].id)
    && (forall i | 0 <= i < |s| :: s[i].id in enc && s[i].vector == enc[s[i].id].vector)
    && (forall id | id in enc :: exists i :: 0 <= i < |s| && s[i].id == id)
  }

  /** In a valid store every id that `fetchEncodings` lists has a row in Faces, so
      looking its name up never fails. */
  lemma SnapshotIdsRegistered(t: Store, dim: nat, s: seq<Entry>)
    requires Valid(t, dim) && IsSnapshot(s, t.encoding)
    ensures forall i | 0 <= i < |s| :: s[i].id in t.faces
  {
  }

  // ---------------------------------------------------------------------------
  // Event log text

  const NewSystemText: string := "The system is new! No event was logged."

  /** The one column of `SELECT (description, timestamp)` is a row value, which
      PostgreSQL prints as "(description,timestamp)"; a field that is empty or holds
      a double quote, a backslash, a parenthesis, a comma or white space is written
      in double quotes with its double quotes and backslashes doubled. */
  function RecordField(v: string): string {
    if v == [] || exists k :: 0 <= k < |v| && NeedsQuotes(v[k]) then "\"" + Escaped(v) + "\""
    else v
  }

  predicate NeedsQuotes(c: char) {
    c == '"' || c == '\\' || c == '(' || c == ')' || c == ',' || c == ' ' || ('\t' <= c <= '\r')
  }

  function Escaped(v: string): string {
    if v == [] then ""
    else (if v[0] == '"' || v[0] == '\\' then [v[0], v[0]] else [v[0]]) + Escaped(v[1..])
  }

  /** One row of `fetchEventLogs`: the row value's text, a space, and a newline. */
  function Line(e: Event): (l: string)
    ensures |l| >= 5 && l[0] == '(' && l[|l| - 1] == '\n'
  {
    "(" + RecordField(e.description) + "," + RecordField(e.stamp) + ")" + " \n"
  }

  function Render(es: seq<Event>): (text: string)
    ensures text == [] <==> es == []
    ensures es != [] ==> text[|text| - 1] == '\n'
  {
    if es == [] then "" else Render(es[..|es| - 1]) + Line(es[|es| - 1])
  }

  /** The event log of a store with events never reads as the "system is new" text,
      so that text means exactly "no event was logged". */
  lemma RenderIsNotNewSystemText(es: seq<Event>)
    requires es != []
    ensures Render(es) != NewSystemText
  {
    var r := Render(es);
    assert r[|r| - 1] == '\n';
    assert NewSystemText[|NewSystemText| - 1] == '.';
  }

  // ---------------------------------------------------------------------------
  // What each operation does

  /** `updateMeanEncoding` on an id with stored (v, n): the row becomes
      (Fold(v, n, x), n + 1) (see `Vectors.Fold` for what the formula computes), no
      other row of Encoding and no row of Faces changes, one event carrying the id
      is appended, and the tables stay valid. A missing id changes nothing. */
  lemma UpdateMeanSpec(t: Store, id: string, x: Vec, first: string, now: string)
    requires Valid(t, |x|)
    requires |UpdatedText(first)| <= TextWidth
    ensures var (t1, r) := UpdateMean(t, id, x, first, now);
      && Valid(t1, |x|)
      && t1.faces == t.faces
      && (id !in t.encoding ==> t1 == t && r == Err(NoSuchRow))
      && (id in t.encoding ==>
            var c := t.encoding[id];
            && r == Ok(())
            && t1.encoding == t.encoding[id := Centroid(Fold(c.vector, c.timesAdded, x), c.timesAdded + 1)]
            && t1.events == t.events + [Event(Some(id), UpdatedText(first), now)])
  {
  }

  /** Each statement commits on its own: when the update event does not fit the
      log, the folded encoding row stays written and only the event is missing. */
  lemma UpdateMeanPartial(t: Store, id: string, x: Vec, first: string, now: string)
    requires Valid(t, |x|) && id in t.encoding
    requires |UpdatedText(first)| > TextWidth
    ensures var (t1, r) := UpdateMean(t, id, x, first, now);
      var c := t.encoding[id];
      && r == Err(ValueTooLong)
      && t1.faces == t.faces && t1.events == t.events
      && t1.encoding == t.encoding[id := Centroid(Fold(c.vector, c.timesAdded, x), c.timesAdded + 1)]
  {
    var u := UpdatedText(first);
    assert u[|u| - 1] == '.';
  }

  /** `updateMeanEncoding` continues a run of folds: if the row of `id` holds the
      fold of the embeddings `s` (in the order they were added), it afterwards
      holds the fold of `s + [x]`, whether or not the event could be logged. With
      `Vectors.RepeatedSampleDrifts` this says what the row holds after any number
      of enrolments and close verifications of one face. */
  lemma FoldsAccumulate(t: Store, id: string, s: seq<Vec>, x: Vec, first: string, now: string)
    requires Valid(t, |x|) && |s| >= 1 && AllOfLength(s, |x|)
    requires id in t.encoding && t.encoding[id] == Centroid(Stored(s, |x|), |s|)
    ensures AllOfLength(s + [x], |x|)
    ensures UpdateMean(t, id, x, first, now).0.encoding[id] == Centroid(Stored(s + [x], |x|), |s| + 1)
  {
    StoredSnoc(s, x, |x|);
    UpdateMeanRow(t, id, x, first, now);
  }

  /** The row `updateMeanEncoding` writes, whether or not the event is logged. */
  lemma UpdateMeanRow(t: Store, id: string, x: Vec, first: string, now: string)
    requires Valid(t, |x|) && id in t.encoding
    ensures var c := t.encoding[id];
      UpdateMean(t, id, x, first, now).0.encoding[id] == Centroid(Fold(c.vector, c.timesAdded, x), c.timesAdded + 1)
  {
  }

  /** The first enrolment stores the fold of its one embedding, and each later
      `addFaces` of the same name that folds into that row continues the run. */
  lemma EnrolFoldsAccumulate(t: Store, first: string, last: string, s: seq<Vec>, x: Vec, target: string, now: string)
    requires Valid(t, |x|) && |last| > 0 && |s| >= 1 && AllOfLength(s, |x|)
    requires target in SameName(t.faces, IdBase(first, last), first, last)
    requires t.encoding[target] == Centroid(Stored(s, |x|), |s|)
    ensures Stored([x], |x|) == x
    ensures AllOfLength(s + [x], |x|)
    ensures Enrol(t, first, last, x, target, now).0.encoding[target] == Centroid(Stored(s + [x], |x|), |s| + 1)
  {
    var b := IdBase(first, last);
    assert target in LikeIds(t.faces.Keys, b);
    assert Enrol(t, first, last, x, target, now).0 == UpdateMean(t, target, x, first, now).0;
    FoldsAccumulate(t, target, s, x, first, now);
  }

  /** `verification("stranger")` appends one event without an id and returns
      "stranger"; nothing else changes. */
  lemma VerifyStrangerSpec(t: Store, now: string)
    ensures Verify(t, Stranger, now) == (t.(events := t.events + [Event(None, StrangerText, now)]), Ok(Stranger))
  {
  }

  /** `verification(id)` for a registered id appends "<first> was verified on the
      system." with that id and returns the stored first name; an unknown id
      changes nothing. */
  lemma VerifyKnownSpec(t: Store, id: string, dim: nat, now: string)
    requires Valid(t, dim) && id != Stranger
    requires id in t.faces ==> |VerifiedText(t.faces[id].firstName)| <= TextWidth
    ensures var (t1, r) := Verify(t, id, now);
      && Valid(t1, dim)
      && (id !in t.faces ==> t1 == t && r == Err(NoSuchRow))
      && (id in t.faces ==>
            && r == Ok(t.faces[id].firstName)
            && t1 == t.(events := t.events + [Event(Some(id), VerifiedText(t.faces[id].firstName), now)]))
  {
  }

  lemma VerifyValid(t: Store, id: string, dim: nat, now: string)
    requires Valid(t, dim)
    ensures Valid(Verify(t, id, now).0, dim)
  {
  }

  /** `addThumbnail` changes only the thumbnail of the given id. */
  lemma AddThumbnailSpec(t: Store, id: string, img: string, dim: nat)
    requires Valid(t, dim)
    ensures var t1 := AddThumbnail(t, id, img);
      && Valid(t1, dim)
      && t1.faces.Keys == t.faces.Keys && t1.encoding == t.encoding && t1.events == t.events
      && (forall other | other in t.faces && other != id :: t1.faces[other] == t.faces[other])
      && (id in t.faces ==> t1.faces[id] == t.faces[id].(thumbnail := Some(img)))
  {
  }

  /** Enrolling a name whose base no id is LIKE inserts exactly one face, with id
      base + "001", one encoding with timesAdded = 1 and one "New face" event, and
      returns (True, id). The base must hold no backslash, else the LIKE query can
      miss the base's own ids and the insert can hit the primary key. */
  lemma EnrolNewBase(t: Store, first: string, last: string, x: Vec, target: string, now: string)
    requires Valid(t, |x|) && |last| > 0
    requires LikeCount(t.faces.Keys, IdBase(first, last)) == 0
    requires NoBackslash(IdBase(first, last))
    requires |first| <= TextWidth && |last| <= TextWidth && |NewFaceText(first)| <= TextWidth
    ensures var id := IdBase(first, last) + "001";
      var (t1, r) := Enrol(t, first, last, x, target, now);
      && id !in t.faces
      && r == Ok(Enrolment(true, id))
      && t1.faces == t.faces[id := Face(first, last, None)]
      && t1.encoding == t.encoding[id := Centroid(x, 1)]
      && t1.events == t.events + [Event(Some(id), NewFaceText(first), now)]
      && Valid(t1, |x|)
  {
    var b := IdBase(first, last);
    var id := b + "001";
    assert Suffix(1) == "001";
    assert NewId(t.faces, first, last) == id;
    // An id base + "001" already present would itself be LIKE the base.
    PrefixIsLike(id, b);
    assert id in t.faces.Keys ==> id in LikeIds(t.faces.Keys, b);
    assert Fit(id, IdWidth) == Ok(id);
  }

  /** Enrolling a name when some id LIKE its base already has the same first and
      last name adds no face: only the encoding of that id is updated (timesAdded
      grows by one), and the call returns (False, ""). */
  lemma EnrolSameName(t: Store, first: string, last: string, x: Vec, target: string, now: string)
    requires Valid(t, |x|) && |last| > 0
    requires target in SameName(t.faces, IdBase(first, last), first, last)
    requires |UpdatedText(first)| <= TextWidth
    ensures var (t1, r) := Enrol(t, first, last, x, target, now);
      && r == Ok(Enrolment(false, ""))
      && t1.faces == t.faces
      && t1.encoding.Keys == t.encoding.Keys
      && t1.encoding == t.encoding[target := Centroid(Fold(t.encoding[target].vector, t.encoding[target].timesAdded, x), t.encoding[target].timesAdded + 1)]
      && t1.encoding[target].timesAdded == t.encoding[target].timesAdded + 1
      && (forall other | other in t.encoding && other != target :: t1.encoding[other] == t.encoding[other])
      && t1.events == t.events + [Event(Some(target), UpdatedText(first), now)]
      && Valid(t1, |x|)
  {
    var b := IdBase(first, last);
    assert target in LikeIds(t.faces.Keys, b);
    UpdateMeanSpec(t, target, x, first, now);
  }

  /** Enrolling a name when ids are LIKE its base but none has the same full name
      inserts a face under base + the doubled count, padded to three digits, with
      the same three inserts as a brand-new base, and returns (True, id). */
  lemma EnrolCollision(t: Store, first: string, last: string, x: Vec, target: string, now: string)
    requires Valid(t, |x|) && |last| > 0
    requires LikeCount(t.faces.Keys, IdBase(first, last)) > 0
    requires SameName(t.faces, IdBase(first, last), first, last) == {}
    requires var id := NewId(t.faces, first, last); |id| <= IdWidth && id !in t.faces
    requires |first| <= TextWidth && |last| <= TextWidth && |NewFaceText(first)| <= TextWidth
    ensures var c := LikeCount(t.faces.Keys, IdBase(first, last));
      var id := IdBase(first, last) + Suffix(2 * c);
      var (t1, r) := Enrol(t, first, last, x, target, now);
      && id == NewId(t.faces, first, last)
      && r == Ok(Enrolment(true, id))
      && t1.faces == t.faces[id := Face(first, last, None)]
      && t1.encoding == t.encoding[id := Centroid(x, 1)]
      && t1.events == t.events + [Event(Some(id), NewFaceText(first), now)]
      && Valid(t1, |x|)
  {
    var b := IdBase(first, last);
    var c := LikeCount(t.faces.Keys, b);
    var id := b + Suffix(2 * c);
    assert id == NewId(t.faces, first, last);
    assert Fit(id, IdWidth) == Ok(id);
    assert Enrol(t, first, last, x, target, now) == InsertNew(t, id, first, last, x, now);
    var (t1, r) := Enrol(t, first, last, x, target, now);
    assert r == Ok(Enrolment(true, id));
    assert t1.faces == t.faces[id := Face(first, last, None)];
    assert t1.encoding == t.encoding[id := Centroid(x, 1)];
    assert t1.events == t.events + [Event(Some(id), NewFaceText(first), now)];
    assert Valid(t1, |x|);
  }

  /** The operation `addFaces` performs never leaves the tables invalid. */
  lemma EnrolValid(t: Store, first: string, last: string, x: Vec, target: string, now: string)
    requires Valid(t, |x|)
    ensures Valid(Enrol(t, first, last, x, target, now).0, |x|)
  {
    if |last| > 0 {
      var b := IdBase(first, last);
      if LikeCount(t.faces.Keys, b) > 0 && SameName(t.faces, b, first, last) != {} {
        UpdateMeanValid(t, target, x, first, now);
      }
    }
  }

  lemma UpdateMeanValid(t: Store, id: string, x: Vec, first: string, now: string)
    requires Valid(t, |x|)
    ensures Valid(UpdateMean(t, id, x, first, now).0, |x|)
  {
  }

  /** The id `NewId` builds starts with the base and ends with a digit, and fits
      ID VARCHAR(8) while fewer than 500 ids are LIKE the base. */
  lemma NewIdShape(faces: map<string, Face>, first: string, last: string)
    requires |last| > 0
    ensures var n := NewId(faces, first, last);
      && |n| > |IdBase(first, last)| && IdBase(first, last) <= n && IsDigit(n[|n| - 1])
      && Fit(n, IdWidth) in {Ok(n), Err(ValueTooLong)}
      && (LikeCount(faces.Keys, IdBase(first, last)) < 500 ==> |n| <= IdWidth)
  {
    var b := IdBase(first, last);
    var c := LikeCount(faces.Keys, b);
    var u := Suffix(if c > 0 then c + c else 1);
    var n := b + u;
    assert n[|n| - 1] == u[|u| - 1];
    assert n[..|b|] == b;
  }

  /** The three inserts of `InsertNew` for a new id whose names fit their columns. */
  lemma InsertNewSpec(t: Store, id: string, first: string, last: string, x: Vec, now: string)
    requires Fit(id, IdWidth) == Ok(id) && |first| <= TextWidth && |last| <= TextWidth
    ensures var (t1, r) := InsertNew(t, id, first, last, x, now);
      && (id in t.faces ==> t1 == t && r == Err(DuplicateKey))
      && (id !in t.faces ==>
            && t1.faces == t.faces[id := Face(first, last, None)]
            && t1.encoding == t.encoding[id := Centroid(x, 1)]
            && (r.Ok? ==> r.value == Enrolment(true, id)))
  {
  }

  /** Each insert commits on its own: when the "New face" event does not fit the
      log, the face and its encoding stay written and the call fails. */
  lemma InsertNewPartial(t: Store, id: string, first: string, last: string, x: Vec, now: string)
    requires Fit(id, IdWidth) == Ok(id) && |first| <= TextWidth && |last| <= TextWidth
    requires id !in t.faces && |NewFaceText(first)| > TextWidth
    ensures var (t1, r) := InsertNew(t, id, first, last, x, now);
      && r == Err(ValueTooLong)
      && t1.faces == t.faces[id := Face(first, last, None)]
      && t1.encoding == t.encoding[id := Centroid(x, 1)]
      && t1.events == t.events
  {
    var d := NewFaceText(first);
    assert d[|d| - 1] == '.';
  }

  /** What `addFaces` does to Faces in each of its branches, for names that fit. */
  lemma EnrolFaces(t: Store, first: string, last: string, x: Vec, target: string, now: string)
    requires Valid(t, |x|) && |last| > 0
    requires |first| <= TextWidth && |last| <= TextWidth
    ensures var b := IdBase(first, last);
      var n := NewId(t.faces, first, last);
      var (t1, r) := Enrol(t, first, last, x, target, now);
      && (LikeCount(t.faces.Keys, b) > 0 && SameName(t.faces, b, first, last) != {} ==>
            t1.faces == t.faces && (r.Ok? ==> !r.value.isNewFace))
      && (!(LikeCount(t.faces.Keys, b) > 0 && SameName(t.faces, b, first, last) != {}) ==>
            && (n in t.faces && |n| <= IdWidth ==> t1.faces == t.faces && r == Err(DuplicateKey))
            && (|n| > IdWidth ==> t1.faces == t.faces && r == Err(ValueTooLong))
            && (n !in t.faces && |n| <= IdWidth ==>
                  t1.faces == t.faces[n := Face(first, last, None)] && (r.Ok? ==> r.value == Enrolment(true, n))))
  {
    NewIdShape(t.faces, first, last);
    var b := IdBase(first, last);
    var n := NewId(t.faces, first, last);
    if !(LikeCount(t.faces.Keys, b) > 0 && SameName(t.faces, b, first, last) != {}) {
      assert Enrol(t, first, last, x, target, now) == InsertNew(t, n, first, last, x, now);
      if |n| <= IdWidth {
        InsertNewSpec(t, n, first, last, x, now);
      }
    }
  }

  /** Enrolling the same full name twice inserts at most one face: whatever the
      first call did, if it succeeded the second call finds a row with that name
      LIKE the base and only folds the embedding in, so `numOfFaces` grows by one
      at most. */
  lemma EnrolTwiceAddsOneFace(t: Store, first: string, last: string, x: Vec, y: Vec, p1: string, p2: string, now: string)
    requires Valid(t, |x|) && |y| == |x| && |last| > 0
    requires NoBackslash(IdBase(first, last))
    requires |first| <= TextWidth && |last| <= TextWidth
    ensures var (t1, r1) := Enrol(t, first, last, x, p1, now);
      && Valid(t1, |y|)
      && var (t2, r2) := Enrol(t1, first, last, y, p2, now);
         r1.Ok? ==>
           && |t1.faces| <= |t.faces| + 1
           && t2.faces == t1.faces
           && (r2.Ok? ==> !r2.value.isNewFace)
  {
    EnrolValid(t, first, last, x, p1, now);
    EnrolFaces(t, first, last, x, p1, now);
    var (t1, r1) := Enrol(t, first, last, x, p1, now);
    var b := IdBase(first, last);
    if r1.Ok? {
      if LikeCount(t.faces.Keys, b) > 0 && SameName(t.faces, b, first, last) != {} {
        var n :| n in SameName(t.faces, b, first, last);
        EnrolFoldsIntoNamedRow(t1, first, last, y, p2, now, n);
      } else {
        // The first call inserted a face under a new id; that id is LIKE the base
        // and carries the same name, so the second call takes the fold branch.
        var n := NewId(t.faces, first, last);
        NewIdShape(t.faces, first, last);
        PrefixIsLike(n, b);
        EnrolFoldsIntoNamedRow(t1, first, last, y, p2, now, n);
      }
    }
  }

  /** Once some id LIKE the base has the same first and last name, `addFaces`
      takes the fold branch: Faces does not change and no new face is reported. */
  lemma EnrolFoldsIntoNamedRow(t: Store, first: string, last: string, x: Vec, target: string, now: string, n: string)
    requires Valid(t, |x|) && |last| > 0
    requires n in t.faces && t.faces[n].firstName == first && t.faces[n].lastName == last
    requires LikeMatch(n, IdBase(first, last) + "%")
    ensures var (t1, r) := Enrol(t, first, last, x, target, now);
      t1.faces == t.faces && (r.Ok? ==> !r.value.isNewFace)
  {
    var b := IdBase(first, last);
    assert n in SameName(t.faces, b, first, last);
    assert n in LikeIds(t.faces.Keys, b);
  }

  /** A successful enrolment of a new face returns an id that is now in Faces. */
  lemma EnrolNewIdStored(t: Store, first: string, last: string, emb: Vec, target: string, now: string)
    requires Valid(t, |emb|)
    ensures var (t1, r) := Enrol(t, first, last, emb, target, now);
      r.Ok? && r.value.isNewFace ==> r.value.id in t1.faces
  {
    if |last| > 0 {
      var b := IdBase(first, last);
      if !(LikeCount(t.faces.Keys, b) > 0 && SameName(t.faces, b, first, last) != {}) {
        var n := NewId(t.faces, first, last);
        NewIdShape(t.faces, first, last);
        assert Enrol(t, first, last, emb, target, now) == InsertNew(t, n, first, last, emb, now);
      }
    }
  }

  /** `addFaces` depends on Faces only through ids and names: a store that differs
      only in thumbnails takes the same branch and gives the same result. */
  lemma EnrolSameKeys(t: Store, t': Store, first: string, last: string, x: Vec, target: string, now: string)
    requires Valid(t, |x|) && Valid(t', |x|)
    requires t'.faces.Keys == t.faces.Keys && t'.encoding == t.encoding && t'.events == t.events
    requires forall id | id in t.faces :: t'.faces[id].firstName == t.faces[id].firstName && t'.faces[id].lastName == t.faces[id].lastName
    ensures Enrol(t', first, last, x, target, now).1 == Enrol(t, first, last, x, target, now).1
    ensures Enrol(t', first, last, x, target, now).0.faces.Keys == Enrol(t, first, last, x, target, now).0.faces.Keys
  {
    if |last| > 0 {
      var b := IdBase(first, last);
      assert SameName(t'.faces, b, first, last) == SameName(t.faces, b, first, last);
      if LikeCount(t.faces.Keys, b) > 0 && SameName(t.faces, b, first, last) != {} {
        UpdateMeanSameKeys(t, t', target, x, first, now);
      } else {
        var n := NewId(t.faces, first, last);
        assert NewId(t'.faces, first, last) == n;
        assert Enrol(t', first, last, x, target, now) == InsertNew(t', n, first, last, x, now);
        assert Enrol(t, first, last, x, target, now) == InsertNew(t, n, first, last, x, now);
        InsertNewSameKeys(t, t', n, first, last, x, now);
      }
    }
  }

  lemma UpdateMeanSameKeys(t: Store, t': Store, id: string, x: Vec, first: string, now: string)
    requires Valid(t, |x|) && Valid(t', |x|)
    requires t'.faces.Keys == t.faces.Keys && t'.encoding == t.encoding && t'.events == t.events
    ensures UpdateMean(t', id, x, first, now).1 == UpdateMean(t, id, x, first, now).1
    ensures UpdateMean(t', id, x, first, now).0.faces.Keys == UpdateMean(t, id, x, first, now).0.faces.Keys
  {
  }

  lemma InsertNewSameKeys(t: Store, t': Store, id: string, first: string, last: string, x: Vec, now: string)
    requires t'.faces.Keys == t.faces.Keys && t'.encoding == t.encoding && t'.events == t.events
    ensures InsertNew(t', id, first, last, x, now).1 == InsertNew(t, id, first, last, x, now).1
    ensures InsertNew(t', id, first, last, x, now).0.faces.Keys == InsertNew(t, id, first, last, x, now).0.faces.Keys
  {
  }

  // ---------------------------------------------------------------------------
  // Uniqueness of allocated ids

  /** `id` has the shape `addFaces` gives ids: the base of its own row's name and
      three digits; when that base holds no backslash, the digits' value is below
      twice the number of ids LIKE the base. */
  ghost predicate AllocatedId(faces: map<string, Face>, id: string)
    requires id in faces
  {
    var f := faces[id];
    |f.lastName| > 0 &&
    var b := IdBase(f.firstName, f.lastName);
    && |id| == |b| + 3 && id[..|b|] == b && AllDigits(id[|b|..])
    && (NoBackslash(b) ==> DigitsValue(id[|b|..]) < 2 * LikeCount(faces.Keys, b))
  }

  /** Every id of Faces has the shape `AllocatedId` describes. It holds of the
      empty table that `createTables` leaves and every operation keeps it, as long
      as fewer than 500 ids share a base (so that the doubled count fits in three
      digits, which database.py:187 assumes). */
  ghost predicate WellAllocated(faces: map<string, Face>) {
    forall id | id in faces :: AllocatedId(faces, id)
  }

  /** An allocated id is not the base `b` followed by a count at or above twice
      the number of ids LIKE `b`. */
  lemma AllocatedIdDiffers(faces: map<string, Face>, id: string, b: string, s: nat)
    requires id in faces && AllocatedId(faces, id)
    requires NoBackslash(b) && s < 1000 && s >= 2 * LikeCount(faces.Keys, b)
    ensures id != b + Suffix(s)
  {
    var f := faces[id];
    var b' := IdBase(f.firstName, f.lastName);
    var n := b + Suffix(s);
    SuffixRoundTrip(s);
    if |b'| == |b| {
      if b' == b {
        assert n[|b|..] == Suffix(s);
        assert DigitsValue(id[|b|..]) != DigitsValue(n[|b|..]);
      } else {
        assert n[..|b|] == b;
        assert id[..|b|] != n[..|b|];
      }
    }
  }

  /** In a well-allocated table the id `addFaces` would give a new face is never
      already a key of Faces, so the primary key never refuses it. */
  lemma AllocatedIdFresh(faces: map<string, Face>, first: string, last: string)
    requires WellAllocated(faces) && |last| > 0
    requires NoBackslash(IdBase(first, last))
    requires LikeCount(faces.Keys, IdBase(first, last)) < 500
    ensures NewId(faces, first, last) !in faces
  {
    var b := IdBase(first, last);
    var c := LikeCount(faces.Keys, b);
    var s := if c > 0 then c + c else 1;
    var n := b + Suffix(s);
    assert n == NewId(faces, first, last);
    forall id | id in faces
      ensures id != n
    {
      assert AllocatedId(faces, id);
      AllocatedIdDiffers(faces, id, b, s);
    }
  }

  lemma LikeCountAdd(ids: set<string>, n: string, b: string)
    requires n !in ids
    ensures LikeCount(ids + {n}, b) == LikeCount(ids, b) + (if LikeMatch(n, b + "%") then 1 else 0)
  {
    if LikeMatch(n, b + "%") {
      assert LikeIds(ids + {n}, b) == LikeIds(ids, b) + {n};
    } else {
      assert LikeIds(ids + {n}, b) == LikeIds(ids, b);
    }
  }

  /** Inserting a face under its base and a suffix below twice the new count keeps
      the table well allocated: counts never shrink when rows are added. */
  lemma InsertKeepsWellAllocated(faces: map<string, Face>, n: string, f0: Face, s0: nat)
    requires WellAllocated(faces) && n !in faces && |f0.lastName| > 0
    requires s0 < 1000 && n == IdBase(f0.firstName, f0.lastName) + Suffix(s0)
    requires NoBackslash(IdBase(f0.firstName, f0.lastName)) ==>
               s0 < 2 * (LikeCount(faces.Keys, IdBase(f0.firstName, f0.lastName)) + 1)
    ensures WellAllocated(faces[n := f0])
  {
    var faces' := faces[n := f0];
    assert faces'.Keys == faces.Keys + {n};
    forall id | id in faces' ensures AllocatedId(faces', id) {
      var f := faces'[id];
      var b := IdBase(f.firstName, f.lastName);
      LikeCountAdd(faces.Keys, n, b);
      if id == n {
        SuffixRoundTrip(s0);
        assert n[..|b|] == b && n[|b|..] == Suffix(s0);
        if NoBackslash(b) {
          PrefixIsLike(n, b);
        }
      } else {
        assert AllocatedId(faces, id);
      }
    }
  }

  /** `addFaces` keeps Faces well allocated when fewer than 500 ids are LIKE the
      base and the names fit their columns untruncated. */
  lemma EnrolKeepsWellAllocated(t: Store, first: string, last: string, x: Vec, target: string, now: string)
    requires Valid(t, |x|) && WellAllocated(t.faces)
    requires |first| <= TextWidth && |last| <= TextWidth
    requires |last| > 0 ==> LikeCount(t.faces.Keys, IdBase(first, last)) < 500
    ensures WellAllocated(Enrol(t, first, last, x, target, now).0.faces)
  {
    if |last| > 0 {
      EnrolFaces(t, first, last, x, target, now);
      NewFaceKeepsWellAllocated(t.faces, first, last, Enrol(t, first, last, x, target, now).0.faces);
    }
  }

  /** What `addFaces` leaves in Faces (the old table, or the old table with the
      new face under `NewId`) is well allocated. */
  lemma NewFaceKeepsWellAllocated(faces: map<string, Face>, first: string, last: string, faces': map<string, Face>)
    requires WellAllocated(faces) && |last| > 0
    requires LikeCount(faces.Keys, IdBase(first, last)) < 500
    requires var n := NewId(faces, first, last);
      faces' == faces || (n !in faces && faces' == faces[n := Face(first, last, None)])
    ensures WellAllocated(faces')
  {
    var n := NewId(faces, first, last);
    if faces' != faces {
      var b := IdBase(first, last);
      var c := LikeCount(faces.Keys, b);
      var s := if c > 0 then c + c else 1;
      InsertKeepsWellAllocated(faces, n, Face(first, last, None), s);
    }
  }

  /** Under the same assumptions, and with no backslash in the base, `addFaces`
      never fails on the primary key of Faces. */
  lemma EnrolNeverHitsPrimaryKey(t: Store, first: string, last: string, x: Vec, target: string, now: string)
    requires Valid(t, |x|) && WellAllocated(t.faces) && |last| > 0
    requires |first| <= TextWidth && |last| <= TextWidth
    requires NoBackslash(IdBase(first, last))
    requires LikeCount(t.faces.Keys, IdBase(first, last)) < 500
    ensures Enrol(t, first, last, x, target, now).1 != Err(DuplicateKey)
  {
    AllocatedIdFresh(t.faces, first, last);
    NewIdShape(t.faces, first, last);
    var b := IdBase(first, last);
    var n := NewId(t.faces, first, last);
    if !(LikeCount(t.faces.Keys, b) > 0 && SameName(t.faces, b, first, last) != {}) {
      assert Enrol(t, first, last, x, target, now) == InsertNew(t, n, first, last, x, now);
    } else {
      UpdateMeanFaults(t, target, x, first, now);
    }
  }

  /** `updateMeanEncoding` fails only on a missing row or a description too long. */
  lemma UpdateMeanFaults(t: Store, id: string, x: Vec, first: string, now: string)
    requires Valid(t, |x|)
    ensures UpdateMean(t, id, x, first, now).1 in {Ok(()), Err(NoSuchRow), Err(ValueTooLong)}
  {
  }

  // ---------------------------------------------------------------------------
  // The event log only grows

  /** The store operations that write. */
  datatype Op =
    | ThumbnailOp(id: string, img: string)
    | UpdateOp(id: string, x: Vec, first: string, now: string)
    | EnrolOp(first: string, last: string, x: Vec, target: string, now: string)
    | VerifyOp(id: string, now: string)
    | ResetOp

  predicate OpFits(op: Op, dim: nat) {
    match op
    case UpdateOp(_, x, _, _) => |x| == dim
    case EnrolOp(_, _, x, _, _) => |x| == dim
    case _ => true
  }

  /** The tables after one operation. */
  function Apply(t: Store, dim: nat, op: Op): (t1: Store)
    requires Valid(t, dim) && OpFits(op, dim)
    ensures Valid(t1, dim)
  {
    match op
    case ThumbnailOp(id, img) => AddThumbnailSpec(t, id, img, dim); AddThumbnail(t, id, img)
    case UpdateOp(id, x, first, now) => UpdateMeanValid(t, id, x, first, now); UpdateMean(t, id, x, first, now).0
    case EnrolOp(first, last, x, target, now) => EnrolValid(t, first, last, x, target, now); Enrol(t, first, last, x, target, now).0
    case VerifyOp(id, now) => Verify(t, id, now).0
    case ResetOp => Empty
  }

  /** Every operation but the reset keeps the events already logged, in place, and
      appends at most one; the reset empties the log. */
  lemma EventsAppendOnly(t: Store, dim: nat, op: Op)
    requires Valid(t, dim) && OpFits(op, dim)
    ensures var t1 := Apply(t, dim, op);
      && (op.ResetOp? ==> t1.events == [])
      && (!op.ResetOp? ==> t.events <= t1.events && |t1.events| <= |t.events| + 1)
  {
  }

  /** The tables after a run of operations. */
  function Run(t: Store, dim: nat, ops: seq<Op>): (t1: Store)
    requires Valid(t, dim) && forall k | 0 <= k < |ops| :: OpFits(ops[k], dim)
    ensures Valid(t1, dim)
    decreases |ops|
  {
    if ops == [] then t else Run(Apply(t, dim, ops[0]), dim, ops[1..])
  }

  /** Over any run without a reset, the log only grows: the events at the start are
      a prefix of the events at the end, and no more than one event per operation
      has been added. */
  lemma {:induction false} RunKeepsEvents(t: Store, dim: nat, ops: seq<Op>)
    requires Valid(t, dim) && forall k | 0 <= k < |ops| :: OpFits(ops[k], dim)
    requires forall k | 0 <= k < |ops| :: !ops[k].ResetOp?
    ensures t.events <= Run(t, dim, ops).events
    ensures |Run(t, dim, ops).events| <= |t.events| + |ops|
    decreases |ops|
  {
    if ops != [] {
      EventsAppendOnly(t, dim, ops[0]);
      RunKeepsEvents(Apply(t, dim, ops[0]), dim, ops[1..]);
    }
  }

  /** Every operation keeps Faces well allocated, given, for an enrolment, names
      that fit their columns and fewer than 500 ids LIKE the base. */
  lemma ApplyKeepsWellAllocated(t: Store, dim: nat, op: Op)
    requires Valid(t, dim) && OpFits(op, dim) && WellAllocated(t.faces)
    requires op.EnrolOp? ==>
      && |op.first| <= TextWidth && |op.last| <= TextWidth
      && (|op.last| > 0 ==> LikeCount(t.faces.Keys, IdBase(op.first, op.last)) < 500)
    ensures WellAllocated(Apply(t, dim, op).faces)
  {
    match op
    case EnrolOp(first, last, x, target, now) =>
      EnrolKeepsWellAllocated(t, first, last, x, target, now);
    case ThumbnailOp(id, img) =>
      var t1 := AddThumbnail(t, id, img);
      assert t1.faces.Keys == t.faces.Keys;
      forall k | k in t1.faces ensures AllocatedId(t1.faces, k) {
        assert AllocatedId(t.faces, k);
      }
    case _ =>
  }
}
