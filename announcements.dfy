/**
  The announcement service of the school management API: a public listing of
  the announcements active today, and a teacher-only listing, create, update
  and delete. The document collection becomes a map from id to record held by
  a `Service` object, the teacher collection a set of usernames, and the
  clock two string parameters (`today`, formatted as the service formats it,
  and `now`, the creation timestamp).
*/
module Announcements {
  import opened StringOrder

  /** The store's opaque document id. */
  type Id = nat

  datatype Option<T> = None | Some(value: T)

  /** A stored announcement document, without its id. `startDate` is `None` when the field is absent. */
  datatype Announcement = Announcement(
    message: string,
    startDate: Option<string>,
    endDate: string,
    createdBy: string,
    createdAt: string)

  /** A document as the listings return it: the record together with its id. */
  datatype Record = Record(id: Id, announcement: Announcement)

  /** The typed outcomes of a request: HTTP 401, 400, 404 and success. */
  datatype Outcome<T> = Unauthorized | InvalidInput | NotFound | Ok(value: T)

  /** The two filters the router passes to the collection's `find`. */
  datatype Query = ActiveOn(today: string) | All

  const UpdatedMessage := "Announcement updated successfully"
  const DeletedMessage := "Announcement deleted successfully"

  /**
    The active-window query: the start date is absent or not after `today`,
    and the end date is not before `today`, both in code-point string order
    (`StringOrder`), which MongoDB's default binary string comparison uses.
  */
  predicate IsActive(a: Announcement, today: string)
  {
    (a.startDate.None? || LessEq(a.startDate.value, today)) && LessEq(today, a.endDate)
  }

  predicate Matches(q: Query, a: Announcement)
  {
    match q
    case ActiveOn(today) => IsActive(a, today)
    case All => true
  }

  /** The documents of `store` that `q` selects. */
  ghost function Select(store: map<Id, Announcement>, q: Query): map<Id, Announcement>
  {
    map id | id in store && Matches(q, store[id]) :: store[id]
  }

  /** Python truthiness of an optional string argument: given and non-empty. */
  predicate Supplied(s: Option<string>)
  {
    s.Some? && s.value != ""
  }

  /** The document a create request builds; an omitted or empty start date becomes `today`. */
  function NewAnnouncement(message: string, endDate: string, username: string,
                           startDate: Option<string>, today: string, now: string): Announcement
  {
    Announcement(message, Some(if Supplied(startDate) then startDate.value else today),
                 endDate, username, now)
  }

  /** The `$set` an update request applies: message and end date always, start date only when supplied. */
  function Patched(a: Announcement, message: string, endDate: string, startDate: Option<string>): Announcement
  {
    a.(message := message, endDate := endDate,
       startDate := if Supplied(startDate) then Some(startDate.value) else a.startDate)
  }

  /** No two entries of a listing carry the same id. */
  predicate DistinctIds(rs: seq<Record>)
  {
    forall i, j :: 0 <= i < j < |rs| ==> rs[i].id != rs[j].id
  }

  /** What a listing promises: exactly the selected documents, each once. */
  ghost predicate Lists(rs: seq<Record>, selected: map<Id, Announcement>)
  {
    && DistinctIds(rs)
    && (forall r :: r in rs <==> r.id in selected && selected[r.id] == r.announcement)
  }

  /** A record that create accepts is active on its creation day exactly when its start date is not after that day. */
  lemma CreatedActiveIffStarted(message: string, endDate: string, username: string,
                                startDate: Option<string>, today: string, now: string)
    requires !Less(endDate, today)
    ensures IsActive(NewAnnouncement(message, endDate, username, startDate, today, now), today)
            <==> (!Supplied(startDate) || LessEq(startDate.value, today))
  {
    NotLessIsGreaterEq(endDate, today);
  }

  /** Update does not re-check the end date: an end date before `today` silently retires the record. */
  lemma PastEndDateDeactivates(a: Announcement, message: string, endDate: string,
                               startDate: Option<string>, today: string)
    requires Less(endDate, today)
    ensures !IsActive(Patched(a, message, endDate, startDate), today)
  {
    Trichotomy(endDate, today);
  }

  /** Applying the same update twice leaves the record as applying it once. */
  lemma PatchedIdempotent(a: Announcement, message: string, endDate: string, startDate: Option<string>)
    ensures Patched(Patched(a, message, endDate, startDate), message, endDate, startDate)
            == Patched(a, message, endDate, startDate)
  {
  }

  /** The active days of a record form an interval: active on `d1` and `d2` means active on every day between. */
  lemma ActiveWindowIsInterval(a: Announcement, d1: string, d: string, d2: string)
    requires IsActive(a, d1) && IsActive(a, d2)
    requires LessEq(d1, d) && LessEq(d, d2)
    ensures IsActive(a, d)
  {
    if a.startDate.Some? {
      LessEqTotalOrder(a.startDate.value, d1, d);
    }
    LessEqTotalOrder(d, d2, a.endDate);
  }

  /** Two worked cases of the active-window rule. */
  lemma ActiveExamples(message: string, createdBy: string, createdAt: string)
    ensures IsActive(Announcement(message, None, "2099-01-01", createdBy, createdAt), "2024-06-01")
    ensures !IsActive(Announcement(message, Some("2030-01-01"), "2099-01-01", createdBy, createdAt), "2024-06-01")
  {
    Trichotomy("2024-06-01", "2030-01-01");
  }

  /** The announcement collection together with the teacher registry it is guarded by. */
  class Service {
    var store: map<Id, Announcement>
    var teachers: set<string>
    var nextId: Id

    /** Every stored id is below the next id to hand out, so that id is fresh. */
    ghost predicate Valid()
      reads this
    {
      forall id :: id in store ==> id < nextId
    }

    constructor (teachers: set<string>)
      ensures Valid()
      ensures this.store == map[] && this.teachers == teachers
    {
      this.store := map[];
      this.teachers := teachers;
      this.nextId := 0;
    }

    /** The identity check: the username names a teacher document. */
    predicate IsTeacher(username: string)
      reads this
    {
      username in teachers
    }

    /** The collection's `find(q)`: every document that `q` selects, each once, in no particular order. */
    method Find(q: Query) returns (rs: seq<Record>)
      ensures Lists(rs, Select(store, q))
      ensures |rs| == |Select(store, q)|
    {
      var pending := store.Keys;
      ghost var listed: set<Id> := {};
      rs := [];
      while pending != {}
        invariant pending <= store.Keys
        invariant listed == set id | id in store.Keys - pending && Matches(q, store[id])
        invariant DistinctIds(rs) && |rs| == |listed|
        invariant forall r :: r in rs <==> r.id in listed && store[r.id] == r.announcement
        decreases pending
      {
        var id :| id in pending;
        if Matches(q, store[id]) {
          assert forall r :: r in rs ==> r.id != id;
          rs := rs + [Record(id, store[id])];
          listed := listed + {id};
        }
        pending := pending - {id};
      }
      assert Select(store, q).Keys == listed;
    }

    /** `GET /announcements`: the announcements active on `today`; no identity check. */
    method ListActive(today: string) returns (rs: seq<Record>)
      ensures Lists(rs, Select(store, ActiveOn(today))) && |rs| == |Select(store, ActiveOn(today))|
      ensures forall r :: r in rs <==> r.id in store && store[r.id] == r.announcement && IsActive(r.announcement, today)
    {
      rs := Find(ActiveOn(today));
    }

    /** `GET /announcements/all`: every announcement, unfiltered, for a known teacher. */
    method ListAll(username: string) returns (result: Outcome<seq<Record>>)
      ensures !IsTeacher(username) <==> result == Unauthorized
      ensures IsTeacher(username) ==> result.Ok? && Lists(result.value, store) && |result.value| == |store|
    {
      if !IsTeacher(username) {
        return Unauthorized;
      }
      var rs := Find(All);
      assert Select(store, All) == store;
      return Ok(rs);
    }

    /** `POST /announcements`. */
    method Create(username: string, message: string, endDate: string, startDate: Option<string>,
                  today: string, now: string) returns (result: Outcome<Record>)
      requires Valid()
      modifies this`store, this`nextId
      ensures Valid()
      ensures !old(IsTeacher(username)) ==> result == Unauthorized
      ensures old(IsTeacher(username)) && Less(endDate, today) ==> result == InvalidInput
      ensures old(IsTeacher(username)) && !Less(endDate, today) ==> result.Ok?
      ensures !result.Ok? ==> store == old(store)
      ensures result.Ok? ==>
        && result.value.id !in old(store)
        && result.value.announcement.message == message
        && result.value.announcement.endDate == endDate
        && result.value.announcement.createdBy == username
        && result.value.announcement.createdAt == now
        && result.value.announcement.startDate == Some(if Supplied(startDate) then startDate.value else today)
        && store == old(store)[result.value.id := result.value.announcement]
    {
      if !IsTeacher(username) {
        return Unauthorized;
      }
      if Less(endDate, today) {
        return InvalidInput;
      }
      var a := NewAnnouncement(message, endDate, username, startDate, today, now);
      var id := nextId;
      store := store[id := a];
      nextId := nextId + 1;
      return Ok(Record(id, a));
    }

    /** `PUT /announcements/{id}`; the end date is not checked against today. */
    method Update(username: string, id: Id, message: string, endDate: string, startDate: Option<string>)
      returns (result: Outcome<string>)
      requires Valid()
      modifies this`store
      ensures Valid()
      ensures !old(IsTeacher(username)) ==> result == Unauthorized
      ensures old(IsTeacher(username)) && id !in old(store) ==> result == NotFound
      ensures old(IsTeacher(username)) && id in old(store) ==> result == Ok(UpdatedMessage)
      ensures !result.Ok? ==> store == old(store)
      ensures result.Ok? ==>
        && id in store && store.Keys == old(store).Keys
        && (forall other :: other in store && other != id ==> store[other] == old(store)[other])
        && store[id].message == message && store[id].endDate == endDate
        && store[id].startDate == (if Supplied(startDate) then Some(startDate.value) else old(store)[id].startDate)
        && store[id].createdBy == old(store)[id].createdBy && store[id].createdAt == old(store)[id].createdAt
    {
      if !IsTeacher(username) {
        return Unauthorized;
      }
      if id !in store {
        return NotFound;
      }
      store := store[id := Patched(store[id], message, endDate, startDate)];
      return Ok(UpdatedMessage);
    }

    /** `DELETE /announcements/{id}`. */
    method Delete(username: string, id: Id) returns (result: Outcome<string>)
      requires Valid()
      modifies this`store
      ensures Valid()
      ensures !old(IsTeacher(username)) ==> result == Unauthorized
      ensures old(IsTeacher(username)) && id !in old(store) ==> result == NotFound
      ensures old(IsTeacher(username)) && id in old(store) ==> result == Ok(DeletedMessage)
      ensures !result.Ok? ==> store == old(store)
      ensures result.Ok? ==>
        && store.Keys == old(store).Keys - {id} && |store| == |old(store)| - 1
        && (forall other :: other in store ==> store[other] == old(store)[other])
    {
      if !IsTeacher(username) {
        return Unauthorized;
      }
      if id !in store {
        return NotFound;
      }
      store := store - {id};
      assert store.Keys == old(store).Keys - {id};
      return Ok(DeletedMessage);
    }
  }

  /**
    A client of the service: the public listing of an empty store is empty;
    an unknown user cannot create; a teacher creates an announcement without
    a start date and the public listing shows it; an update that supplies no
    start date keeps the stored one; after the teacher deletes it the listing
    no longer shows it, and a second delete finds nothing.
  */
  method ExamFridayScenario()
  {
    var today := "2024-06-01";
    var s := new Service({"t1"});
    assert !Less("2099-12-31", today) by {
      assert "2099-12-31"[1..] == "099-12-31" && today[1..] == "024-06-01";
      assert !Less("099-12-31", "024-06-01") by {
        assert "099-12-31"[1..] == "99-12-31" && "024-06-01"[1..] == "24-06-01";
      }
    }
    var listed := s.ListActive(today);
    assert Select(s.store, ActiveOn(today)) == map[];
    assert listed == [];
    var intruder := s.Create("mallory", "Exam Friday", "2099-12-31", None, today, "2024-06-01T08:00:00Z");
    assert intruder == Unauthorized && s.store == map[];
    var created := s.Create("t1", "Exam Friday", "2099-12-31", None, today, "2024-06-01T08:00:00Z");
    assert created.Ok? && created.value.announcement.createdBy == "t1";
    var record := created.value;
    CreatedActiveIffStarted("Exam Friday", "2099-12-31", "t1", None, today, "2024-06-01T08:00:00Z");
    listed := s.ListActive(today);
    assert record in listed;
    var updated := s.Update("t1", record.id, "Exam moved to Monday", "2099-12-31", Some(""));
    assert updated == Ok(UpdatedMessage);
    assert s.store[record.id].startDate == Some(today);
    assert s.store[record.id].message == "Exam moved to Monday";
    var gone := s.Delete("t1", record.id);
    assert gone == Ok(DeletedMessage);
    listed := s.ListActive(today);
    assert forall r :: r in listed ==> r.id != record.id;
    var again := s.Delete("t1", record.id);
    assert again == NotFound;
  }
}
