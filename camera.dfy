/** The live camera of camera.py: the embeddings of the registered faces loaded
    once from the store (`loadKnownFaces`), and `verify`, which compares the
    embedding of one detected face with every loaded entry. The video stream, the
    detector and the drawing of boxes and name tags are not modelled; `verify`
    receives the embedding of the face, and the recogniser's comparison is the
    function `recognise`.

    `verify` asks the store for a name through `fetchName`, which database.py does
    not define; it is modelled as the first-name lookup of `Database.VectorDB.FetchName`. */
module Recognition {
  import opened Common
  import opened Vectors
  import opened Tables
  import opened Database

  const UnknownTag: string := "?unknown?"

  /** What `verify` returns: (name_tag, dist, is_recognised). */
  datatype Sighting = Sighting(nameTag: string, dist: real, recognised: bool)

  /** The variables of the loop in `verify` after it has compared the entries `s`:
      the name tag, and the verdict of the entry compared last (None before the
      first, when `dist` and `is_recognised` are still unassigned). */
  function Scan(t: Store, s: seq<Entry>, emb: Vec, recognise: (Vec, Vec) -> Verdict): (r: Result<(string, Option<Verdict>)>)
    ensures r.Err? ==> r == Err(NoSuchRow)
    ensures r.Ok? ==> if s == [] then r.value.1 == None else r.value.1 == Some(recognise(s[|s| - 1].vector, emb))
    ensures r.Ok? && r.value.0 != UnknownTag ==> exists i :: 0 <= i < |s| && s[i].id in t.faces && r.value.0 == t.faces[s[i].id].firstName
    decreases |s|
  {
    if s == [] then Ok((UnknownTag, None))
    else
      match Scan(t, s[..|s| - 1], emb, recognise)
      case Err(f) => Err(f)
      case Ok((tag, _)) =>
        var v := recognise(s[|s| - 1].vector, emb);
        if !v.recognised then Ok((tag, Some(v)))
        else
          match FirstNameOf(t, s[|s| - 1].id)
          case Ok(name) => Ok((name, Some(v)))
          case Err(f) => Err(f)
  }

  /** `verify(img)` on the store `t` with the loaded entries `s` and `emb` the
      embedding of `img`. With no entry, returning the unassigned `dist` raises
      UnboundLocalError. */
  function CameraVerify(t: Store, s: seq<Entry>, emb: Vec, recognise: (Vec, Vec) -> Verdict): (r: Result<Sighting>)
    ensures r == Err(UnboundVariable) <==> s == []
    ensures r.Err? ==> r.fault in {UnboundVariable, NoSuchRow}
    ensures r.Ok? ==> var v := recognise(s[|s| - 1].vector, emb); r.value.dist == v.dist && r.value.recognised == v.recognised
  {
    match Scan(t, s, emb, recognise)
    case Err(f) => Err(f)
    case Ok((_, None)) => Err(UnboundVariable)
    case Ok((tag, Some(v))) => Ok(Sighting(tag, v.dist, v.recognised))
  }

  /** The position of the last entry the recogniser accepts, if any. */
  function LastRecognised(s: seq<Entry>, emb: Vec, recognise: (Vec, Vec) -> Verdict): (k: Option<nat>)
    ensures k.Some? ==>
      && k.value < |s| && recognise(s[k.value].vector, emb).recognised
      && forall j | k.value < j < |s| :: !recognise(s[j].vector, emb).recognised
    ensures k.None? ==> forall j | 0 <= j < |s| :: !recognise(s[j].vector, emb).recognised
    decreases |s|
  {
    if s == [] then None
    else if recognise(s[|s| - 1].vector, emb).recognised then Some(|s| - 1)
    else LastRecognised(s[..|s| - 1], emb, recognise)
  }

  // ---------------------------------------------------------------------------
  // What the camera promises

  /** When every loaded id is registered, `verify` answers with the first name of
      the last entry the recogniser accepts ("?unknown?" when it accepts none), and
      with the distance and verdict of the LAST entry compared, not of the entry
      that gave the name; with no entry it fails on the unassigned variables. */
  lemma {:induction false} CameraVerifySpec(t: Store, s: seq<Entry>, emb: Vec, recognise: (Vec, Vec) -> Verdict)
    requires forall i | 0 <= i < |s| :: s[i].id in t.faces
    ensures s == [] ==> CameraVerify(t, s, emb, recognise) == Err(UnboundVariable)
    ensures s != [] ==>
      var v := recognise(s[|s| - 1].vector, emb);
      var k := LastRecognised(s, emb, recognise);
      CameraVerify(t, s, emb, recognise)
        == Ok(Sighting(if k.None? then UnknownTag else t.faces[s[k.value].id].firstName, v.dist, v.recognised))
  {
    ScanSpec(t, s, emb, recognise);
  }

  lemma {:induction false} ScanSpec(t: Store, s: seq<Entry>, emb: Vec, recognise: (Vec, Vec) -> Verdict)
    requires forall i | 0 <= i < |s| :: s[i].id in t.faces
    ensures var k := LastRecognised(s, emb, recognise);
      Scan(t, s, emb, recognise)
        == Ok((if k.None? then UnknownTag else t.faces[s[k.value].id].firstName,
               if s == [] then None else Some(recognise(s[|s| - 1].vector, emb))))
    decreases |s|
  {
    if s != [] {
      ScanSpec(t, s[..|s| - 1], emb, recognise);
    }
  }

  /** `verify` fails on the store exactly when some entry the recogniser accepts
      has no row in Faces. */
  lemma {:induction false} ScanFails(t: Store, s: seq<Entry>, emb: Vec, recognise: (Vec, Vec) -> Verdict)
    ensures Scan(t, s, emb, recognise).Err? <==>
      exists i :: 0 <= i < |s| && recognise(s[i].vector, emb).recognised && s[i].id !in t.faces
    ensures Scan(t, s, emb, recognise).Err? ==> Scan(t, s, emb, recognise) == Err(NoSuchRow)
    decreases |s|
  {
    if s != [] {
      var p := s[..|s| - 1];
      ScanFails(t, p, emb, recognise);
      if exists i :: 0 <= i < |p| && recognise(p[i].vector, emb).recognised && p[i].id !in t.faces {
        var i :| 0 <= i < |p| && recognise(p[i].vector, emb).recognised && p[i].id !in t.faces;
        assert s[i] == p[i];
      } else {
        forall i | 0 <= i < |s| - 1
          ensures !(recognise(s[i].vector, emb).recognised && s[i].id !in t.faces)
        {
          assert s[i] == p[i];
        }
      }
    }
  }

  /** Once the loop has failed on a prefix, the whole scan fails the same way. */
  lemma {:induction false} ScanErrSticky(t: Store, s: seq<Entry>, n: nat, emb: Vec, recognise: (Vec, Vec) -> Verdict)
    requires n <= |s| && Scan(t, s[..n], emb, recognise).Err?
    ensures Scan(t, s, emb, recognise) == Scan(t, s[..n], emb, recognise)
    decreases |s| - n
  {
    if n < |s| {
      assert s[..n + 1][..n] == s[..n];
      ScanErrSticky(t, s, n + 1, emb, recognise);
    } else {
      assert s[..n] == s;
    }
  }

  /** Every entry is compared: an entry appended to the listing that the recogniser
      accepts decides the name tag, whatever came before it. */
  lemma LastAcceptedEntryNames(t: Store, s: seq<Entry>, e: Entry, emb: Vec, recognise: (Vec, Vec) -> Verdict)
    requires forall i | 0 <= i < |s| :: s[i].id in t.faces
    requires e.id in t.faces && recognise(e.vector, emb).recognised
    ensures CameraVerify(t, s + [e], emb, recognise)
      == Ok(Sighting(t.faces[e.id].firstName, recognise(e.vector, emb).dist, true))
  {
    var s' := s + [e];
    assert s'[..|s|] == s;
    ScanSpec(t, s, emb, recognise);
  }

  // ---------------------------------------------------------------------------
  // The camera

  class Camera {
    const db: VectorDB
    /** The recogniser's `dist(target, this)`. */
    const recognise: (Vec, Vec) -> Verdict
    /** `KnownEmbs`, the listing loaded from the store. */
    var knownEmbs: seq<Entry>

    constructor (db: VectorDB, recognise: (Vec, Vec) -> Verdict)
      ensures this.db == db && this.recognise == recognise
      ensures IsSnapshot(knownEmbs, db.encoding)
    {
      this.db := db;
      this.recognise := recognise;
      knownEmbs := [];
      new;
      var _ := LoadKnownFaces();
    }

    /** `loadKnownFaces`: replace the loaded entries with the store's current
        listing of Encoding; the store does not change. */
    method LoadKnownFaces() returns (known: seq<Entry>)
      modifies this
      ensures IsSnapshot(knownEmbs, db.encoding) && known == knownEmbs
    {
      knownEmbs := [];
      knownEmbs := db.FetchEncodings();
      var _ := db.NumOfFaces();
      known := knownEmbs;
    }

    /** `verify(img)`, with `emb` the embedding of `img`. Neither the camera nor the
        store changes. */
    method Verify(emb: Vec) returns (r: Result<Sighting>)
      ensures r == CameraVerify(db.State(), knownEmbs, emb, recognise)
    {
      var nameTag := UnknownTag;
      var last: Option<Verdict> := None;
      var k := 0;
      while k < |knownEmbs|
        invariant 0 <= k <= |knownEmbs|
        invariant Scan(db.State(), knownEmbs[..k], emb, recognise) == Ok((nameTag, last))
      {
        assert knownEmbs[..k + 1][..k] == knownEmbs[..k];
        var trg := knownEmbs[k].vector;
        var v := recognise(trg, emb);
        if v.recognised {
          var name := db.FetchName(knownEmbs[k].id);
          if name.Err? {
            ScanErrSticky(db.State(), knownEmbs, k + 1, emb, recognise);
            return Err(name.fault);
          }
          nameTag := name.value;
        }
        last := Some(v);
        k := k + 1;
      }
      assert knownEmbs[..k] == knownEmbs;
      if last.None? {
        return Err(UnboundVariable);
      }
      r := Ok(Sighting(nameTag, last.value.dist, last.value.recognised));
    }
  }
}
