/** RegisteredFacesDB as the program holds it: the table behind the connection and the list
    mPersons that the mutators change in place after their statement has run. */
module PersonStore {
  import opened Collections
  import opened Options
  import opened PersonTable
  import opened PersonRuns
  import opened PersonLookups

  class RegisteredFaces {
    var table: seq<Row>
    var persons: seq<Person>

    function Current(): Db
      reads this
    {
      Db(table, persons)
    }

    constructor (rows: seq<Row>)
      ensures Current() == Db(rows, LoadAll(rows))
      ensures Loadable(rows) ==> Inv(Current())
    {
      table, persons := rows, [];
      new;
      for i := 0 to |rows|
        invariant table == rows && persons == LoadAll(rows)[..i]
      {
        persons := persons + [LoadPerson(rows[i])];
      }
      assert LoadAll(rows)[..|rows|] == LoadAll(rows);
    }

    /** The search loop that every mutator and reader runs over mPersons. */
    method Search(where: Person -> bool) returns (i: nat)
      ensures i == First(persons, where)
    {
      i := 0;
      while i < |persons| && !where(persons[i])
        invariant i <= |persons|
        invariant First(persons, where) == i + First(persons[i..], where)
      {
        i := i + 1;
      }
    }

    method RegPersonToDBAndRAM(uuid: string, p: Profile, feature: Blob, savedImage: Option<string>,
                               generated: string, now: string, ok: bool) returns (ret: bool)
      modifies this
      ensures ret == ok
      ensures Current() == Register(old(Current()), uuid, p, feature, savedImage, generated, now, ok)
    {
      var t := Registered(Current(), uuid, p, feature, generated, now);
      var image := RegisteredImage(Current(), p.idcard, savedImage);
      var userExists := First(table, RowWithIdcard(p.idcard)) < |table|;
      if !ok {
        return false;
      }
      if userExists {
        table := SqlUpdate(table, RowWithIdcard(p.idcard), (r: Row) => RegisterRow(r, t, image, |feature|));
        var i := Search(WithIdcard(p.idcard));
        if i < |persons| {
          persons := persons[i := t];
        } else {
          persons := persons + [t];
        }
      } else {
        table := table + [NewRow(t, image, |feature|)];
        persons := persons + [t];
      }
      return true;
    }

    method UpdatePersonToDBAndRAM(uuid: string, p: Profile, embedding: Blob, jpeg: Extraction, now: string, ok: bool)
      returns (code: int)
      modifies this
      ensures Current() == Update(old(Current()), uuid, p, embedding, jpeg, now, ok)
      ensures var known := exists i :: 0 <= i < |old(persons)| && old(persons)[i].facts.uuid == uuid;
              var unread := embedding == [] && jpeg.Extracted? && (jpeg.code != 0 || jpeg.feature == []);
              && (uuid == "" || !known || unread || !ok ==> Current() == old(Current()))
              && code == if uuid == "" then -1 else if !known then -5 else if unread then jpeg.code - 10
                         else if ok then 1 else -6
    {
      if uuid == "" {
        return -1;
      }
      var index := Search(WithUuid(uuid));
      if index == |persons| {
        return PERSON_NOT_EXIST;
      }
      if embedding == [] && jpeg.Extracted? && !(jpeg.code == 0 && jpeg.feature != []) {
        return jpeg.code - 10;
      }
      var t := UpdatedPerson(persons[index], p, embedding, jpeg, now);
      if !ok {
        return PERSON_DB_ERROR;
      }
      table := SqlUpdate(table, RowWithUuid(uuid), (r: Row) => UpdateRow(r, t));
      persons := persons[index := t];
      return 1;
    }

    method UpdatePersonDirectly(uuid: string, name: string, idcard: string, sex: string, feature: Blob,
                                now: string, ok: bool) returns (ret: bool)
      modifies this
      ensures ret == ok
      ensures Current() == UpdateDirectly(old(Current()), uuid, name, idcard, sex, feature, now, ok)
    {
      var f := DirectFeature(Current(), uuid, feature);
      if !ok {
        return false;
      }
      table := SqlUpdate(table, RowWithUuid(uuid),
                         (r: Row) => r.(facts := DirectFacts(r.facts, name, idcard, sex, f, now), featureSize := |f|));
      var i := Search(WithUuid(uuid));
      if i < |persons| {
        persons := persons[i := persons[i].(facts := DirectFacts(persons[i].facts, name, idcard, sex, f, now))];
      }
      return true;
    }

    method UpdatePersonFaceFeature(uuid: string, feature: Blob, savedImage: Option<string>, ok: bool)
      returns (ret: bool)
      modifies this
      ensures ret == (ok && IdcardInRam(old(Current()), uuid) != "")
      ensures Current() == UpdateFeature(old(Current()), uuid, feature, savedImage, ok)
    {
      var i := Search(WithUuid(uuid));
      if i == |persons| || persons[i].facts.idcard == "" || !ok {
        return false;
      }
      table := SqlUpdate(table, RowWithUuid(uuid),
                         (r: Row) => r.(facts := r.facts.(feature := feature), featureSize := |feature|,
                                        image := if savedImage.Some? then savedImage.value else r.image));
      persons := persons[i := persons[i].(facts := persons[i].facts.(feature := feature))];
      return true;
    }

    method UpdatePersonFingerprint(uuid: string, data: Blob, ok: bool) returns (ret: bool)
      modifies this
      ensures ret == (ok && uuid != "" && data != [] && HasUuid(old(table), uuid))
      ensures Current() == if ret then SetFingerprint(old(Current()), uuid, data, ok) else old(Current())
      ensures Aligned(old(Current())) && data != [] ==> Current() == SetFingerprint(old(Current()), uuid, data, ok)
    {
      if Aligned(Current()) {
        FirstAgrees(table, persons, RowWithUuid(uuid), WithUuid(uuid));
      }
      if uuid == "" || data == [] || !ok {
        return false;
      }
      var rowsAffected := First(table, RowWithUuid(uuid)) < |table|;
      table := SqlUpdate(table, RowWithUuid(uuid), (r: Row) => r.(facts := r.facts.(fingerprint := data)));
      if !rowsAffected {
        return false;
      }
      var i := Search(WithUuid(uuid));
      if i < |persons| {
        persons := persons[i := persons[i].(facts := persons[i].facts.(fingerprint := data))];
      }
      return true;
    }

    method DeletePersonFingerprint(uuid: string, ok: bool) returns (ret: bool)
      modifies this
      ensures ret == (ok && uuid != "")
      ensures Current() == SetFingerprint(old(Current()), uuid, [], ok)
    {
      if uuid == "" || !ok {
        return false;
      }
      table := SqlUpdate(table, RowWithUuid(uuid), (r: Row) => r.(facts := r.facts.(fingerprint := [])));
      var i := Search(WithUuid(uuid));
      if i < |persons| {
        persons := persons[i := persons[i].(facts := persons[i].facts.(fingerprint := []))];
      }
      return true;
    }

    method UpdatePersonFingerId(uuid: string, fingerId: int, ok: bool) returns (ret: bool)
      modifies this
      ensures ret == ok
      ensures Current() == SetFingerId(old(Current()), uuid, fingerId, ok)
    {
      if !ok {
        return false;
      }
      table := SqlUpdate(table, RowWithUuid(uuid), (r: Row) => r.(fingerId := fingerId));
      var i := Search(WithUuid(uuid));
      if i < |persons| {
        persons := persons[i := persons[i].(fingerId := fingerId)];
      }
      return true;
    }

    /** clearFingerprint: two statements, the second whatever became of the first. */
    method ClearFingerprint(uuid: string, deleted: bool, cleared: bool) returns (ret: bool)
      modifies this
      ensures ret == (deleted && uuid != "" && cleared)
      ensures Current() == Run(old(Current()), [Call(OpSetFingerprint(uuid, []), deleted),
                                                Call(OpSetFingerId(uuid, 0), cleared)])
    {
      ghost var calls := [Call(OpSetFingerprint(uuid, []), deleted), Call(OpSetFingerId(uuid, 0), cleared)];
      var deleteResult := DeletePersonFingerprint(uuid, deleted);
      var idResult := UpdatePersonFingerId(uuid, 0, cleared);
      ghost var db1 := Apply(old(Current()), calls[0].op, deleted);
      assert Run(old(Current()), calls) == Run(db1, calls[1..]);
      assert Run(db1, calls[1..]) == Run(Apply(db1, calls[1].op, cleared), calls[1..][1..]);
      assert calls[1..][1..] == [];
      return deleteResult && idResult;
    }

    method ClearAllFingerIds(ok: bool) returns (ret: bool)
      modifies this
      ensures ret == ok
      ensures Current() == ClearFingerIds(old(Current()), ok)
    {
      if !ok {
        return false;
      }
      table := SqlUpdate(table, (r: Row) => true, (r: Row) => r.(fingerId := 0));
      for i := 0 to |persons|
        invariant |persons| == |old(persons)| && table == ClearFingerIds(old(Current()), true).table
        invariant forall j :: 0 <= j < |persons| ==>
          persons[j] == if j < i then old(persons)[j].(fingerId := 0) else old(persons)[j]
      {
        persons := persons[i := persons[i].(fingerId := 0)];
      }
      return true;
    }

    method ClearAllRfidCards(ok: bool) returns (ret: bool)
      modifies this
      ensures ret == ok
      ensures Current() == ClearRfidCards(old(Current()), ok)
    {
      if !ok {
        return false;
      }
      table := SqlUpdate(table, (r: Row) => true, (r: Row) => r.(iccardnum := None));
      for i := 0 to |persons|
        invariant |persons| == |old(persons)| && table == ClearRfidCards(old(Current()), true).table
        invariant forall j :: 0 <= j < |persons| ==>
          persons[j] == if j < i then old(persons)[j].(iccard := "") else old(persons)[j]
      {
        persons := persons[i := persons[i].(iccard := "")];
      }
      return true;
    }

    method DelPersonByUuid(uuid: string, ok: bool) returns (ret: bool)
      modifies this
      ensures ret == ok
      ensures Current() == DeleteByUuid(old(Current()), uuid, ok)
    {
      if ok {
        table := SqlDelete(table, RowWithUuid(uuid));
      }
      var i := Search(WithUuid(uuid));
      if i < |persons| {
        persons := persons[..i] + persons[i + 1..];
      }
      return ok;
    }

    method DelPersonDBInfo(name: string, createtime: string, ok: bool) returns (ret: bool)
      modifies this
      ensures ret == ok
      ensures Current() == DeleteByName(old(Current()), name, createtime, ok)
    {
      if ok {
        table := SqlDelete(table, RowNamed(name, createtime));
      }
      var i := Search(PersonNamed(name, createtime));
      if i < |persons| {
        persons := persons[..i] + persons[i + 1..];
      }
      return ok;
    }

    method StoreUserWithoutFaceData(uuid: string, p: Profile, generated: string, now: string, ok: bool)
      returns (ret: bool)
      modifies this
      ensures ret == ok
      ensures Current() == Store(old(Current()), uuid, p, generated, now, ok)
    {
      var t := Stored(Current(), uuid, p, generated, now);
      var i := Search(Known(p.idcard, StoredUuid(uuid, generated)));
      var bFind := i < |persons|;
      persons := persons + [t];
      if !ok {
        return false;
      }
      if bFind {
        table := SqlUpdate(table, RowWithUuid(t.facts.uuid),
                           (r: Row) => RegisterRow(r, t, IMAGE_ROOT, |t.facts.feature|));
      } else {
        table := table + [NewRow(t, IMAGE_ROOT, 0)];
      }
      return true;
    }

    /** findUuidByEmployeeId returns what the table alone would give. */
    method FindUuidByEmployeeId(idcard: string) returns (uuid: Option<string>)
      ensures uuid == FindUuid(Current(), idcard)
      ensures Aligned(Current()) ==> uuid == QueryUuid(table, idcard)
    {
      if Aligned(Current()) {
        CacheReadsAreTableReads(Current(), idcard, "");
      }
      var i := Search(WithIdcard(idcard));
      if i < |persons| {
        return Some(persons[i].facts.uuid);
      }
      return QueryUuid(table, idcard);
    }

    method GetPersonFingerprint(uuid: string) returns (data: Option<Blob>)
      ensures data == FindFingerprint(Current(), uuid)
      ensures Aligned(Current()) ==> data == QueryFingerprint(table, uuid)
    {
      if Aligned(Current()) {
        CacheReadsAreTableReads(Current(), "", uuid);
      }
      if uuid == "" {
        return None;
      }
      var i := Search(WithUuid(uuid));
      if i < |persons| {
        return NonEmpty(persons[i].facts.fingerprint);
      }
      return QueryFingerprint(table, uuid);
    }

    /** getFingerId. */
    method GetFingerId(uuid: string) returns (fingerId: nat)
      ensures fingerId == FindFingerId(Current(), uuid) < 0x1_0000
    {
      var i := Search(WithUuid(uuid));
      if i < |persons| {
        return Uint16(persons[i].fingerId);
      }
      return QueryFingerId(table, uuid);
    }

    /** GetPersonByFingerId finds the owner of a positive id while ids are distinct. */
    method GetPersonByFingerId(fingerId: int) returns (person: Option<Person>)
      ensures person == FindByFinger(Current(), fingerId)
      ensures Aligned(Current()) && DistinctFingers(table) && fingerId > 0 ==>
                forall i :: 0 <= i < |table| && table[i].fingerId == fingerId ==>
                  person.Some? && person.value.facts.uuid == table[i].facts.uuid
    {
      var i := Search((p: Person) => p.fingerId == fingerId);
      person := if i < |persons| then Some(persons[i]) else None;
      if Aligned(Current()) && DistinctFingers(table) && fingerId > 0 {
        forall k | 0 <= k < |table| && table[k].fingerId == fingerId
          ensures person.Some? && person.value.facts.uuid == table[k].facts.uuid
        {
          FirstWithFinger(Current(), k, fingerId);
        }
      }
    }

    /** getNextAvailableFingerId never hands out an id that a row has. */
    method GetNextAvailableFingerId() returns (id: int)
      ensures id == NextFingerId(table) && id > 0
      ensures forall i :: 0 <= i < |table| ==> table[i].fingerId < id
    {
      id := NextFingerId(table);
    }
  }
}
