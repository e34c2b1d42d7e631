/** The administrator window of admin_window.py: enrolling a face from a photo
    (`on_add`) and verifying a photo against the store (`on_verify`, which calls
    `verification`). The window calls the store through snake_case names
    (`add_faces`, `fetch_encodings`, ...); they stand for the camelCase methods of
    `Database.VectorDB`. The photo, the face detector and the embedding model are
    not modelled: each method receives the embedding of the captured photo, and
    the recogniser's comparison is the function `recognise`. */
module Administration {
  import opened Common
  import opened Vectors
  import opened Identifiers
  import opened Tables
  import opened Database

  /** What `verification` returns: (is_recognised, display_text). */
  datatype Reply = Reply(recognised: bool, text: string)

  /** A recognised face closer than this has its embedding folded into the store. */
  const UpdateDistance: real := 0.7

  function Greeting(name: string): string {
    "Hi, " + name
  }

  /** `verification(img)` on the store `t`, where `fetch_encodings` listed `s` and
      `emb` is the photo's embedding. The loop over the entries returns in its first
      iteration on both branches, so only `s[0]` is compared: if it is recognised
      the face is verified, greeted by the name `verification` returns, and its
      embedding folded in when the distance is below 0.7; if not, the answer is
      (False, ""). No entry at all makes the function fall off its end and return
      None. */
  function AdminVerification(t: Store, s: seq<Entry>, emb: Vec, recognise: (Vec, Vec) -> Verdict, now: string): (r: (Store, Result<Option<Reply>>))
    requires Valid(t, |emb|)
    ensures r.0.faces == t.faces && r.0.encoding.Keys == t.encoding.Keys
    ensures t.events <= r.0.events && |r.0.events| <= |t.events| + 2
    ensures r.1 == Ok(None) <==> s == []
    ensures r.1.Ok? && r.1.value.Some? && !r.1.value.value.recognised ==> r.0 == t && r.1.value.value.text == ""
    ensures r.1.Ok? && r.1.value.Some? && r.1.value.value.recognised ==>
      && s != [] && (s[0].id == Stranger || s[0].id in t.faces)
      && r.1.value.value.text == Greeting(if s[0].id == Stranger then Stranger else t.faces[s[0].id].firstName)
  {
    if s == [] then (t, Ok(None))
    else
      var v := recognise(s[0].vector, emb);
      if !v.recognised then (t, Ok(Some(Reply(false, ""))))
      else
        VerifyValid(t, s[0].id, |emb|, now);
        var (t1, identity) := Verify(t, s[0].id, now);
        if identity.Err? then (t1, Err(identity.fault))
        else if v.dist < UpdateDistance then
          var (t2, u) := UpdateMean(t1, s[0].id, emb, identity.value, now);
          (t2, if u.Ok? then Ok(Some(Reply(true, Greeting(identity.value)))) else Err(u.fault))
        else (t1, Ok(Some(Reply(true, Greeting(identity.value)))))
  }

  /** `on_verify`: unpack what `verification` returned (None cannot be unpacked);
      a face not recognised is logged as a stranger and greeted "Hi, stranger".
      The result is the text shown under the thumbnail. */
  function AdminOnVerify(t: Store, s: seq<Entry>, emb: Vec, recognise: (Vec, Vec) -> Verdict, now: string): (r: (Store, Result<string>))
    requires Valid(t, |emb|)
    ensures r.0.faces == t.faces && r.0.encoding.Keys == t.encoding.Keys
    ensures t.events <= r.0.events && |r.0.events| <= |t.events| + 2
    ensures s == [] ==> r == (t, Err(CannotUnpack))
    ensures s != [] && !recognise(s[0].vector, emb).recognised ==> r.1 == Ok(Greeting(Stranger))
  {
    var (t1, r) := AdminVerification(t, s, emb, recognise, now);
    match r
    case Err(f) => (t1, Err(f))
    case Ok(None) => (t1, Err(CannotUnpack))
    case Ok(Some(reply)) =>
      if reply.recognised then (t1, Ok(reply.text))
      else (Verify(t1, Stranger, now).0, Ok(Greeting(Stranger)))
  }

  /** `on_add`: enrol the photo's embedding under the names typed in; for a new
      face store the photo's file name as its thumbnail and greet it. For a face
      that was only folded in, `display_text` is never assigned and displaying it
      raises UnboundLocalError. */
  function AdminOnAdd(t: Store, first: string, last: string, emb: Vec, target: string, fileName: string, now: string): (r: (Store, Result<string>))
    requires Valid(t, |emb|)
    ensures t.faces.Keys <= r.0.faces.Keys
    ensures t.events <= r.0.events && |r.0.events| <= |t.events| + 1
    ensures r.1.Ok? ==> r.1.value == Greeting(first) && t.faces.Keys < r.0.faces.Keys
  {
    var (t1, r) := Enrol(t, first, last, emb, target, now);
    match r
    case Err(f) => (t1, Err(f))
    case Ok(e) =>
      if e.isNewFace then (AddThumbnail(t1, e.id, fileName), Ok(Greeting(first)))
      else (t1, Err(UnboundVariable))
  }

  // ---------------------------------------------------------------------------
  // What the window promises

  /** Only the first entry listed is ever compared: two listings that start with
      the same entry give the same answer and the same store, whatever follows. */
  lemma OnlyFirstEntryCompared(t: Store, s: seq<Entry>, s': seq<Entry>, emb: Vec, recognise: (Vec, Vec) -> Verdict, now: string)
    requires Valid(t, |emb|) && s != [] && s' != [] && s[0] == s'[0]
    ensures AdminVerification(t, s, emb, recognise, now) == AdminVerification(t, s', emb, recognise, now)
    ensures AdminOnVerify(t, s, emb, recognise, now) == AdminOnVerify(t, s', emb, recognise, now)
  {
  }

  /** A recognised first entry of a registered face: exactly one "was verified"
      event is logged for it, the greeting carries its stored first name, Faces is
      unchanged, and its encoding is folded with the photo's embedding exactly when
      the distance is below 0.7 (then one more event records the update). */
  lemma RecognisedFirstEntry(t: Store, s: seq<Entry>, emb: Vec, recognise: (Vec, Vec) -> Verdict, now: string)
    requires Valid(t, |emb|) && s != [] && s[0].id in t.faces && s[0].id != Stranger
    requires recognise(s[0].vector, emb).recognised
    requires |VerifiedText(t.faces[s[0].id].firstName)| <= TextWidth
    requires |UpdatedText(t.faces[s[0].id].firstName)| <= TextWidth
    ensures var id := s[0].id;
      var first := t.faces[id].firstName;
      var v := recognise(s[0].vector, emb);
      var (t1, r) := AdminVerification(t, s, emb, recognise, now);
      && r == Ok(Some(Reply(true, "Hi, " + first)))
      && t1.faces == t.faces
      && (v.dist < 0.7 ==>
            var c := t.encoding[id];
            && t1.encoding == t.encoding[id := Centroid(Fold(c.vector, c.timesAdded, emb), c.timesAdded + 1)]
            && t1.events == t.events + [Event(Some(id), VerifiedText(first), now), Event(Some(id), UpdatedText(first), now)])
      && (!(v.dist < 0.7) ==>
            && t1.encoding == t.encoding
            && t1.events == t.events + [Event(Some(id), VerifiedText(first), now)])
      && AdminOnVerify(t, s, emb, recognise, now) == (t1, Ok("Hi, " + first))
  {
    var id := s[0].id;
    VerifyKnownSpec(t, id, |emb|, now);
    var (t1, _) := Verify(t, id, now);
    UpdateMeanSpec(t1, id, emb, t.faces[id].firstName, now);
  }

  /** The encoding store changes exactly when the first entry is recognised at a
      distance below 0.7 (for a registered face whose texts fit the log). */
  lemma FoldOnlyWhenClose(t: Store, s: seq<Entry>, emb: Vec, recognise: (Vec, Vec) -> Verdict, now: string)
    requires Valid(t, |emb|) && s != [] && s[0].id in t.faces && s[0].id != Stranger
    requires |VerifiedText(t.faces[s[0].id].firstName)| <= TextWidth
    requires |UpdatedText(t.faces[s[0].id].firstName)| <= TextWidth
    ensures var v := recognise(s[0].vector, emb);
      AdminVerification(t, s, emb, recognise, now).0.encoding != t.encoding <==> v.recognised && v.dist < 0.7
  {
    var v := recognise(s[0].vector, emb);
    if v.recognised {
      RecognisedFirstEntry(t, s, emb, recognise, now);
    }
  }

  /** A first entry that is not recognised: `verification` changes nothing and
      answers (False, ""), and `on_verify` then logs one event without an id and
      greets "Hi, stranger", changing nothing else. */
  lemma UnrecognisedIsStranger(t: Store, s: seq<Entry>, emb: Vec, recognise: (Vec, Vec) -> Verdict, now: string)
    requires Valid(t, |emb|) && s != []
    requires !recognise(s[0].vector, emb).recognised
    ensures AdminVerification(t, s, emb, recognise, now) == (t, Ok(Some(Reply(false, ""))))
    ensures AdminOnVerify(t, s, emb, recognise, now)
      == (t.(events := t.events + [Event(None, StrangerText, now)]), Ok("Hi, stranger"))
  {
    VerifyStrangerSpec(t, now);
    assert Greeting(Stranger) == "Hi, stranger";
  }

  /** With nothing enrolled, `verification` returns None and `on_verify` fails to
      unpack it; nothing is logged. */
  lemma EmptyStoreCannotUnpack(t: Store, emb: Vec, recognise: (Vec, Vec) -> Verdict, now: string)
    requires Valid(t, |emb|)
    ensures AdminVerification(t, [], emb, recognise, now) == (t, Ok(None))
    ensures AdminOnVerify(t, [], emb, recognise, now) == (t, Err(CannotUnpack))
  {
  }

  /** `on_add` stores a thumbnail exactly when `add_faces` inserted a new face, and
      then only on that face; otherwise the window fails on the unassigned
      `display_text` (or on the store's own error). */
  lemma ThumbnailOnlyForNewFace(t: Store, first: string, last: string, emb: Vec, target: string, fileName: string, now: string)
    requires Valid(t, |emb|)
    ensures var (t1, r1) := Enrol(t, first, last, emb, target, now);
      var (t2, r2) := AdminOnAdd(t, first, last, emb, target, fileName, now);
      && t2.encoding == t1.encoding && t2.events == t1.events && t2.faces.Keys == t1.faces.Keys
      && (r1.Ok? && r1.value.isNewFace ==>
            && r2 == Ok("Hi, " + first)
            && t2.faces[r1.value.id].thumbnail == Some(fileName)
            && forall id | id in t1.faces && id != r1.value.id :: t2.faces[id] == t1.faces[id])
      && (r1.Ok? && !r1.value.isNewFace ==> t2 == t1 && r2 == Err(UnboundVariable))
      && (r1.Err? ==> t2 == t1 && r2 == Err(r1.fault))
  {
    var (t1, r1) := Enrol(t, first, last, emb, target, now);
    EnrolValid(t, first, last, emb, target, now);
    EnrolNewIdStored(t, first, last, emb, target, now);
    if r1.Ok? && r1.value.isNewFace {
      AddThumbnailSpec(t1, r1.value.id, fileName, |emb|);
    }
  }


  /** Adding the same person twice through the window: when the first `on_add`
      succeeds, the second one only folds the embedding in and then fails on the
      unassigned `display_text`, with no new face. */
  lemma SecondAddFails(t: Store, first: string, last: string, x: Vec, y: Vec, p1: string, p2: string, f1: string, f2: string, now: string)
    requires Valid(t, |x|) && |y| == |x| && |last| > 0
    requires NoBackslash(IdBase(first, last))
    requires |first| <= TextWidth && |last| <= TextWidth
    ensures var (t1, r1) := AdminOnAdd(t, first, last, x, p1, f1, now);
      && Valid(t1, |y|)
      && var (t2, r2) := AdminOnAdd(t1, first, last, y, p2, f2, now);
         r1.Ok? ==> t2.faces.Keys == t1.faces.Keys && r2.Err?
  {
    var (e1, q1) := Enrol(t, first, last, x, p1, now);
    EnrolValid(t, first, last, x, p1, now);
    ThumbnailOnlyForNewFace(t, first, last, x, p1, f1, now);
    var (t1, r1) := AdminOnAdd(t, first, last, x, p1, f1, now);
    if q1.Ok? && q1.value.isNewFace {
      AddThumbnailSpec(e1, q1.value.id, f1, |x|);
    }
    if r1.Ok? {
      // The first call inserted a face under NewId with these names, and the
      // thumbnail left the names alone.
      var n := q1.value.id;
      EnrolFaces(t, first, last, x, p1, now);
      NewIdShape(t.faces, first, last);
      PrefixIsLike(n, IdBase(first, last));
      assert t1.faces[n].firstName == first && t1.faces[n].lastName == last;
      AddAfterNamedRowFails(t1, first, last, y, p2, f2, now, n);
    }
  }

  /** Once a row LIKE the base carries the same names, `on_add` adds no face and
      fails. */
  lemma AddAfterNamedRowFails(t: Store, first: string, last: string, emb: Vec, target: string, fileName: string, now: string, n: string)
    requires Valid(t, |emb|) && |last| > 0
    requires n in t.faces && t.faces[n].firstName == first && t.faces[n].lastName == last
    requires LikeMatch(n, IdBase(first, last) + "%")
    ensures var (t1, r) := AdminOnAdd(t, first, last, emb, target, fileName, now);
      t1.faces == t.faces && r.Err?
  {
    EnrolFoldsIntoNamedRow(t, first, last, emb, target, now, n);
  }

  // ---------------------------------------------------------------------------
  // The window

  class AdminWindow {
    const db: VectorDB
    /** The recogniser's `dist(target, this)`. */
    const recognise: (Vec, Vec) -> Verdict
    /** `known_encodings`, the listing `verification` fetched last. */
    var knownEncodings: seq<Entry>

    constructor (db: VectorDB, recognise: (Vec, Vec) -> Verdict)
      ensures this.db == db && this.recognise == recognise && knownEncodings == []
    {
      this.db := db;
      this.recognise := recognise;
      knownEncodings := [];
    }

    /** `verification(img)`, with `emb` the embedding of `img`. */
    method Verification(emb: Vec, now: string) returns (r: Result<Option<Reply>>)
      requires db.Valid() && |emb| == db.dim
      modifies this, db
      ensures db.Valid()
      ensures IsSnapshot(knownEncodings, old(db.encoding))
      ensures (db.State(), r) == AdminVerification(old(db.State()), knownEncodings, emb, recognise, now)
    {
      knownEncodings := db.FetchEncodings();
      for k := 0 to |knownEncodings|
        // both branches of the body return, so the loop never passes its first entry
        invariant k == 0
      {
        var faceID := knownEncodings[k].id;
        var trg := knownEncodings[k].vector;
        var v := recognise(trg, emb);
        if v.recognised {
          var identity := db.Verification(faceID, now);
          if identity.Err? {
            return Err(identity.fault);
          }
          var displayText := Greeting(identity.value);
          if v.dist < UpdateDistance {
            var updated := db.UpdateMeanEncoding(faceID, emb, identity.value, now);
            if updated.Err? {
              return Err(updated.fault);
            }
          }
          return Ok(Some(Reply(true, displayText)));
        } else {
          return Ok(Some(Reply(false, "")));
        }
      }
      r := Ok(None);
    }

    /** `on_verify`, with `emb` the embedding of the captured photo; the result is
        the text shown under the thumbnail. */
    method OnVerify(emb: Vec, now: string) returns (r: Result<string>)
      requires db.Valid() && |emb| == db.dim
      modifies this, db
      ensures db.Valid()
      ensures IsSnapshot(knownEncodings, old(db.encoding))
      ensures (db.State(), r) == AdminOnVerify(old(db.State()), knownEncodings, emb, recognise, now)
    {
      var answer := Verification(emb, now);
      if answer.Err? {
        return Err(answer.fault);
      }
      if answer.value.None? {
        // is_recognised, display_text = None
        return Err(CannotUnpack);
      }
      var reply := answer.value.value;
      var displayText := reply.text;
      if !reply.recognised {
        var _ := db.Verification(Stranger, now);
        displayText := Greeting(Stranger);
      }
      r := Ok(displayText);
    }

    /** `on_add`, with `emb` the embedding of the captured photo, `first` and
        `last` the names typed in and `fileName` the photo's file name. */
    method OnAdd(first: string, last: string, emb: Vec, fileName: string, now: string) returns (r: Result<string>, ghost target: string)
      requires db.Valid() && |emb| == db.dim
      modifies db
      ensures db.Valid()
      ensures (db.State(), r) == AdminOnAdd(old(db.State()), first, last, emb, target, fileName, now)
      ensures |last| > 0 && SameName(old(db.faces), IdBase(first, last), first, last) != {} ==>
                target in SameName(old(db.faces), IdBase(first, last), first, last)
    {
      var added;
      added, target := db.AddFaces(first, last, emb, now);
      if added.Err? {
        r := Err(added.fault);
        return;
      }
      var displayText: Option<string> := None;
      if added.value.isNewFace {
        db.AddThumbnail(added.value.id, fileName);
        displayText := Some(Greeting(first));
      }
      if displayText.None? {
        // display_text was never assigned
        r := Err(UnboundVariable);
        return;
      }
      r := Ok(displayText.value);
    }
  }
}
