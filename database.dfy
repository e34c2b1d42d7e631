/** `vectorDB` of database.py: the PostgreSQL store of faces, their embeddings and
    the event log, as a class whose fields are the three tables. Each writing method
    performs the statements of its Python counterpart in order and is proved to
    leave the tables as the matching function of module `Tables` describes; the
    reading methods are proved against what they promise directly.

    The connection itself (user, password, host, autocommit) is not modelled: every
    statement takes effect at once, as it does under autocommit. */
module Database {
  import opened Common
  import opened Vectors
  import opened Identifiers
  import opened Tables

  class VectorDB {
    /** The length of the embeddings the recogniser produces. */
    const dim: nat
    var faces: map<string, Face>
    var encoding: map<string, Centroid>
    var events: seq<Event>

    function State(): Store
      reads this
    {
      Store(faces, encoding, events)
    }

    ghost predicate Valid()
      reads this
    {
      Tables.Valid(State(), dim)
    }

    /** Connecting: `stored` is what the tables of the connection's database
        already hold. The connection names no database, so these are the tables of
        the server's default database, whatever database name is given. */
    constructor (dim: nat, stored: Store)
      requires Tables.Valid(stored, dim)
      ensures this.dim == dim && State() == stored && Valid()
    {
      this.dim := dim;
      faces := stored.faces;
      encoding := stored.encoding;
      events := stored.events;
    }

    /** `createTables`: drop the three tables and create them again, empty. */
    method CreateTables()
      modifies this
      ensures State() == Empty && Valid()
    {
      faces := map[];
      encoding := map[];
      events := [];
    }

    /** `addThumbnail`: `UPDATE Faces SET thumbnail = .. WHERE ID = ..`. */
    method AddThumbnail(id: string, img: string)
      requires Valid()
      modifies this
      ensures Valid()
      ensures State() == Tables.AddThumbnail(old(State()), id, img)
    {
      if id in faces {
        faces := faces[id := faces[id].(thumbnail := Some(img))];
      }
      AddThumbnailSpec(old(State()), id, img, dim);
    }

    /** `INSERT INTO Events (ID, description) VALUES (..)`, stamped `now`. */
    method LogEvent(id: Option<string>, d: string, now: string) returns (r: Result<()>)
      modifies this
      ensures (State(), r) == Log(old(State()), id, d, now)
    {
      var stored := Fit(d, TextWidth);
      if stored.Err? {
        return Err(stored.fault);
      }
      events := events + [Event(id, stored.value, now)];
      r := Ok(());
    }

    /** `updateMeanEncoding(id, x, firstName)`. */
    method UpdateMeanEncoding(id: string, x: Vec, first: string, now: string) returns (r: Result<()>)
      requires Valid() && |x| == dim
      modifies this
      ensures Valid()
      ensures (State(), r) == UpdateMean(old(State()), id, x, first, now)
    {
      if id !in encoding {
        // fetchone() returned None, which the code unpacks
        return Err(NoSuchRow);
      }
      var row := encoding[id];
      var v := Fold(row.vector, row.timesAdded, x);
      encoding := encoding[id := Centroid(v, row.timesAdded + 1)];
      r := LogEvent(Some(id), UpdatedText(first), now);
      UpdateMeanValid(old(State()), id, x, first, now);
    }

    /** The three inserts of a new face under `id`. */
    method InsertFace(id: string, first: string, last: string, x: Vec, now: string) returns (r: Result<Enrolment>)
      requires Valid() && |x| == dim
      modifies this
      ensures Valid()
      ensures (State(), r) == InsertNew(old(State()), id, first, last, x, now)
    {
      var i := Fit(id, IdWidth);
      var f := Fit(first, TextWidth);
      var l := Fit(last, TextWidth);
      if i.Err? || f.Err? || l.Err? {
        return Err(ValueTooLong);
      }
      if i.value in faces {
        return Err(DuplicateKey);
      }
      faces := faces[i.value := Face(f.value, l.value, None)];
      encoding := encoding[i.value := Centroid(x, 1)];
      var logged := LogEvent(Some(i.value), NewFaceText(first), now);
      r := if logged.Ok? then Ok(Enrolment(true, id)) else Err(logged.fault);
    }

    /** `addFaces(firstName, lastName, x)`. When rows with the same name are LIKE
        the base, the loop over them keeps the last one the store lists; `target`
        is that row. */
    method AddFaces(first: string, last: string, x: Vec, now: string) returns (r: Result<Enrolment>, ghost target: string)
      requires Valid() && |x| == dim
      modifies this
      ensures Valid()
      ensures (State(), r) == Enrol(old(State()), first, last, x, target, now)
      ensures |last| > 0 && SameName(old(faces), IdBase(first, last), first, last) != {} ==>
                target in SameName(old(faces), IdBase(first, last), first, last)
    {
      target := "";
      if |last| == 0 {
        // lastName[0] raises IndexError
        r := Err(EmptyLastName);
        return;
      }
      var b := IdBase(first, last);
      var count := LikeCount(faces.Keys, b);
      if count > 0 {
        var matching := SameName(faces, b, first, last);
        if matching != {} {
          var id := b;
          var rows := matching;
          while rows != {}
            invariant rows <= matching
            invariant rows != matching ==> id in matching
            decreases |rows|
          {
            var row :| row in rows;
            id := row;
            rows := rows - {row};
          }
          target := id;
          var updated := UpdateMeanEncoding(id, x, first, now);
          r := if updated.Ok? then Ok(Enrolment(false, "")) else Err(updated.fault);
          return;
        }
        count := count + count;
      } else {
        count := 1;
      }
      r := InsertFace(b + Suffix(count), first, last, x, now);
    }

    /** `numOfFaces`: `SELECT COUNT(*) FROM Faces`. */
    method NumOfFaces() returns (count: nat)
      ensures count == |faces|
      ensures count == |encoding| || !Valid()
    {
      count := |faces|;
    }

    /** `fetchEncodings`: the dictionary {id: vector} of all of Encoding, in the
        order the store lists the rows. */
    method FetchEncodings() returns (s: seq<Entry>)
      ensures IsSnapshot(s, encoding)
    {
      var rest := encoding.Keys;
      s := [];
      while rest != {}
        invariant rest <= encoding.Keys
        invariant forall i | 0 <= i < |s| :: s[i].id in encoding && s[i].id !in rest && s[i].vector == encoding[s[i].id].vector
        invariant forall i, j | 0 <= i < j < |s| :: s[i].id != s[j].id
        invariant forall id | id in encoding && id !in rest :: exists i :: 0 <= i < |s| && s[i].id == id
        decreases |rest|
      {
        var id :| id in rest;
        var s' := s + [Entry(id, encoding[id].vector)];
        forall k | k in encoding && k !in rest - {id}
          ensures exists i :: 0 <= i < |s'| && s'[i].id == k
        {
          if k == id {
            assert s'[|s|].id == k;
          } else {
            var i :| 0 <= i < |s| && s[i].id == k;
            assert s'[i].id == k;
          }
        }
        s := s';
        rest := rest - {id};
      }
    }

    /** `fetchEncodingOf("first last")`: the id and vector of the first row of
        Faces with that first and last name, or None when there is none. */
    method FetchEncodingOf(identity: string) returns (r: Result<Option<Entry>>)
      ensures var w := Split(identity);
        && (|w| < 2 <==> r == Err(TooFewWords))
        && (|w| >= 2 ==>
              && (r == Ok(None) <==> forall id | id in faces :: !(faces[id].firstName == w[0] && faces[id].lastName == w[1]))
              && (r.Ok? && r.value.Some? ==>
                    var e := r.value.value;
                    && e.id in faces && faces[e.id].firstName == w[0] && faces[e.id].lastName == w[1]
                    && e.id in encoding && e.vector == encoding[e.id].vector)
              && (Valid() ==> r.Ok?))
    {
      var fullName := Split(identity);
      if |fullName| < 2 {
        // fullName[0] or fullName[1] raises IndexError
        return Err(TooFewWords);
      }
      var first, last := fullName[0], fullName[1];
      var rows := set id | id in faces && faces[id].firstName == first && faces[id].lastName == last;
      if rows == {} {
        forall id | id in faces
          ensures faces[id].firstName == first && faces[id].lastName == last ==> id in rows
        {
        }
        return Ok(None);
      }
      var id :| id in rows;
      if id !in encoding {
        // fetchone() returned None, which the code indexes
        return Err(NoSuchRow);
      }
      r := Ok(Some(Entry(id, encoding[id].vector)));
    }

    /** `SELECT firstName FROM Faces WHERE ID = ..` and `fetchone()[0]`, the lookup
        `verification` makes and the one the camera calls `fetchName`. */
    method FetchName(id: string) returns (r: Result<string>)
      ensures r.Ok? <==> id in faces
      ensures r.Ok? ==> r.value == faces[id].firstName
      ensures r.Err? ==> r.fault == NoSuchRow
    {
      if id !in faces {
        return Err(NoSuchRow);
      }
      r := Ok(faces[id].firstName);
    }

    /** `verification(id)`. */
    method Verification(id: string, now: string) returns (r: Result<string>)
      requires Valid()
      modifies this
      ensures Valid()
      ensures (State(), r) == Verify(old(State()), id, now)
    {
      if id == Stranger {
        // the description is a constant that fits VARCHAR(255)
        var _ := LogEvent(None, StrangerText, now);
        r := Ok(id);
      } else {
        var name := FetchName(id);
        if name.Err? {
          return Err(name.fault);
        }
        var logged := LogEvent(Some(id), VerifiedText(name.value), now);
        r := if logged.Ok? then Ok(name.value) else Err(logged.fault);
      }
      VerifyValid(old(State()), id, dim, now);
    }

    /** `fetchEventLogs`: one line per event, in the order the store lists the rows
        (the query has no ORDER BY), or the "system is new" text when there is no
        event. */
    method FetchEventLogs() returns (text: string)
      ensures text == NewSystemText <==> events == []
      ensures events != [] ==> exists rows :: multiset(rows) == multiset(events) && text == Render(rows)
    {
      if events == [] {
        return NewSystemText;
      }
      var rest := multiset(events);
      ghost var listed: seq<Event> := [];
      text := "";
      while rest != multiset{}
        invariant multiset(listed) + rest == multiset(events)
        invariant text == Render(listed)
        decreases |rest|
      {
        var row :| row in rest;
        assert (listed + [row])[..|listed|] == listed;
        text := text + Line(row);
        listed := listed + [row];
        rest := rest - multiset{row};
      }
      assert |listed| == |events|;
      RenderIsNotNewSystemText(listed);
    }
  }
}
