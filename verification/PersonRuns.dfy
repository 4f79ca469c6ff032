/** Cache agreement over every run of operations on the person table and its cache. */
module PersonRuns {
  import opened Collections
  import opened Options
  import opened PersonTable

  // ----- Agreement ------------------------------------------------------------------

  /** A cached person agrees with its row on every shared column; an empty sex is loaded as
      "unknow", and finger ids are compared when one of them is positive (the table
      defaults to -1, the cache to 0).  iccardnum, qr_code and the timestamps are not shared. */
  predicate Agree(r: Row, p: Person) {
    && p.facts == r.facts.(sex := p.facts.sex)
    && (p.facts.sex == r.facts.sex || (r.facts.sex == "" && p.facts.sex == "unknow"))
    && (r.fingerId > 0 || p.fingerId > 0 ==> r.fingerId == p.fingerId)
  }

  predicate Aligned(db: Db) {
    && |db.table| == |db.ram|
    && forall i :: 0 <= i < |db.table| ==> Agree(db.table[i], db.ram[i])
  }

  predicate UniqueUuids(t: seq<Row>) {
    forall i, j :: 0 <= i < j < |t| ==> t[i].facts.uuid != t[j].facts.uuid
  }

  predicate UniqueIdcards(t: seq<Row>) {
    forall i, j :: 0 <= i < j < |t| ==> t[i].facts.idcard != t[j].facts.idcard
  }

  /** Rows come back in the order of their primary key, which is positive. */
  predicate KeysAscend(t: seq<Row>) {
    && (forall i :: 0 <= i < |t| ==> t[i].facts.personId >= 1)
    && (forall i, j :: 0 <= i < j < |t| ==> t[i].facts.personId < t[j].facts.personId)
  }

  predicate Inv(db: Db) {
    Aligned(db) && UniqueUuids(db.table) && UniqueIdcards(db.table) && KeysAscend(db.table)
  }

  // ----- Operations and runs ----------------------------------------------------------

  datatype Op =
    | OpRegister(uuid: string, profile: Profile, feature: Blob, image: Option<string>, generated: string, now: string)
    | OpUpdate(uuid: string, profile: Profile, feature: Blob, jpeg: Extraction, now: string)
    | OpUpdateDirectly(uuid: string, name: string, idcard: string, sex: string, feature: Blob, now: string)
    | OpUpdateFeature(uuid: string, feature: Blob, image: Option<string>)
    | OpUpdateColumns(uuid: string, attendanceMode: string, tenantId: string, id: string, status: string)
    | OpSetFingerprint(uuid: string, data: Blob)  // empty data: DeletePersonFingerprint
    | OpSetFingerId(uuid: string, fingerId: int)
    | OpClearFingerIds
    | OpClearRfidCards
    | OpDelete(uuid: string)
    | OpDeleteByName(name: string, createtime: string)
    | OpStore(uuid: string, profile: Profile, generated: string, now: string)
    | OpWipe

  /** One operation whose statement succeeds iff ok. */
  function Apply(db: Db, op: Op, ok: bool): Db {
    match op
    case OpRegister(uuid, p, feature, image, generated, now) =>
      Register(db, uuid, p, feature, image, generated, now, ok)
    case OpUpdate(uuid, p, feature, jpeg, now) => Update(db, uuid, p, feature, jpeg, now, ok)
    case OpUpdateDirectly(uuid, name, idcard, sex, feature, now) =>
      UpdateDirectly(db, uuid, name, idcard, sex, feature, now, ok)
    case OpUpdateFeature(uuid, feature, image) => UpdateFeature(db, uuid, feature, image, ok)
    case OpUpdateColumns(uuid, mode, tenantId, id, status) => UpdateColumns(db, uuid, mode, tenantId, id, status, ok)
    case OpSetFingerprint(uuid, data) => SetFingerprint(db, uuid, data, ok)
    case OpSetFingerId(uuid, fingerId) => SetFingerId(db, uuid, fingerId, ok)
    case OpClearFingerIds => ClearFingerIds(db, ok)
    case OpClearRfidCards => ClearRfidCards(db, ok)
    case OpDelete(uuid) => DeleteByUuid(db, uuid, ok)
    case OpDeleteByName(name, createtime) => DeleteByName(db, name, createtime, ok)
    case OpStore(uuid, p, generated, now) => Store(db, uuid, p, generated, now, ok)
    case OpWipe => Wipe(db, ok)
  }

  /** Another row than that of uuid holds idcard. */
  predicate HeldByAnother(t: seq<Row>, uuid: string, idcard: string) {
    exists i :: 0 <= i < |t| && t[i].facts.uuid != uuid && t[i].facts.idcard == idcard
  }

  predicate HasUuid(t: seq<Row>, uuid: string) {
    First(t, RowWithUuid(uuid)) < |t|
  }

  predicate HasIdcard(t: seq<Row>, idcard: string) {
    First(t, RowWithIdcard(idcard)) < |t|
  }

  /** How many rows a DELETE with this WHERE removes. */
  function Matching(t: seq<Row>, where: Row -> bool): nat {
    |t| - |SqlDelete(t, where)|
  }

  /** What a caller has to see to, operation by operation, for agreement and uniqueness to
      survive together. */
  predicate Safe(db: Db, op: Op, ok: bool) {
    match op
    case OpRegister(uuid, p, _, _, generated, _) =>
      ok ==> HasIdcard(db.table, p.idcard) || !HasUuid(db.table, StoredUuid(uuid, generated))
    case OpUpdate(uuid, p, feature, jpeg, _) =>
      ok && UpdateRuns(db, uuid, feature, jpeg) && p.idcard != "" ==> !HeldByAnother(db.table, uuid, p.idcard)
    case OpUpdateDirectly(uuid, _, idcard, _, _, _) =>
      ok && HasUuid(db.table, uuid) ==> !HeldByAnother(db.table, uuid, idcard)
    case OpDelete(uuid) => ok || !HasUuid(db.table, uuid)
    case OpDeleteByName(name, createtime) =>
      Matching(db.table, RowNamed(name, createtime)) <= if ok then 1 else 0
    case OpStore(uuid, p, generated, _) =>
      ok && !HasIdcard(db.table, p.idcard) && !HasUuid(db.table, StoredUuid(uuid, generated))
    case OpWipe => ok || db.table == []
    case _ => true
  }

  // ----- Looking the same person up on both sides ---------------------------------------

  /** One UPDATE that touches at most one row, and the matching change of the cache. */
  lemma UpdateOne(db: Db, onRow: Row -> bool, onPerson: Person -> bool, assign: Row -> Row, change: Person -> Person)
    requires Inv(db)
    requires forall i :: 0 <= i < |db.table| ==> onRow(db.table[i]) == onPerson(db.ram[i])
    requires forall i, j :: 0 <= i < j < |db.table| ==> !(onRow(db.table[i]) && onRow(db.table[j]))
    requires forall i :: 0 <= i < |db.table| && onRow(db.table[i]) ==>
               var r := assign(db.table[i]);
               Agree(r, change(db.ram[i])) && r.facts.uuid == db.table[i].facts.uuid
               && r.facts.personId == db.table[i].facts.personId
    ensures var t := SqlUpdate(db.table, onRow, assign);
            Aligned(Db(t, ChangeFirst(db.ram, onPerson, change))) && UniqueUuids(t) && KeysAscend(t)
  {
    FirstAgrees(db.table, db.ram, onRow, onPerson);
    var i := First(db.table, onRow);
    var t := SqlUpdate(db.table, onRow, assign);
    forall j | 0 <= j < |t|
      ensures t[j] == if j == i then assign(db.table[j]) else db.table[j]
    {}
  }

  /** The same for an UPDATE that leaves idcards alone. */
  lemma UpdateByUuid(db: Db, uuid: string, assign: Row -> Row, change: Person -> Person)
    requires Inv(db)
    requires forall i :: 0 <= i < |db.table| && db.table[i].facts.uuid == uuid ==>
               var r := assign(db.table[i]);
               Agree(r, change(db.ram[i])) && r.facts.uuid == uuid && r.facts.idcard == db.table[i].facts.idcard
               && r.facts.personId == db.table[i].facts.personId
    ensures Inv(Db(SqlUpdate(db.table, RowWithUuid(uuid), assign), ChangeFirst(db.ram, WithUuid(uuid), change)))
  {
    UpdateOne(db, RowWithUuid(uuid), WithUuid(uuid), assign, change);
  }

  lemma UpdateByIdcard(db: Db, idcard: string, assign: Row -> Row, change: Person -> Person)
    requires Inv(db)
    requires forall i :: 0 <= i < |db.table| && db.table[i].facts.idcard == idcard ==>
               var r := assign(db.table[i]);
               Agree(r, change(db.ram[i])) && r.facts.uuid == db.table[i].facts.uuid && r.facts.idcard == idcard
               && r.facts.personId == db.table[i].facts.personId
    ensures Inv(Db(SqlUpdate(db.table, RowWithIdcard(idcard), assign), ChangeFirst(db.ram, WithIdcard(idcard), change)))
  {
    UpdateOne(db, RowWithIdcard(idcard), WithIdcard(idcard), assign, change);
  }

  // ----- Each operation --------------------------------------------------------------------

  /** Appending a row with a new idcard and the next key, and its cache entry. */
  lemma InsertExact(db: Db, r: Row, p: Person)
    requires Inv(db) && Agree(r, p)
    requires r.facts.personId == NextPersonId(db.table) && !HasIdcard(db.table, r.facts.idcard)
    ensures Inv(Db(db.table + [r], db.ram + [p])) <==> !HasUuid(db.table, r.facts.uuid)
  {
    var n := |db.table|;
    var t := db.table + [r];
    assert t[n] == r && forall i :: 0 <= i < n ==> t[i] == db.table[i];
    assert forall i :: 0 <= i < n ==> !RowWithIdcard(r.facts.idcard)(db.table[i]);
    var i := First(db.table, RowWithUuid(r.facts.uuid));
    if i < n {
      assert t[i].facts.uuid == t[n].facts.uuid;
    } else {
      assert forall i :: 0 <= i < n ==> !RowWithUuid(r.facts.uuid)(db.table[i]);
    }
  }

  lemma RegisteredAgrees(db: Db, i: nat, uuid: string, p: Profile, feature: Blob, generated: string, now: string,
                         image: string, featureSize: int)
    requires Inv(db) && i < |db.table| && db.table[i].facts.idcard == p.idcard
    ensures var t := Registered(db, uuid, p, feature, generated, now);
            Agree(RegisterRow(db.table[i], t, image, featureSize), t)
  {
    var r := First(db.table, RowWithIdcard(p.idcard));
    FirstAgrees(db.table, db.ram, RowWithIdcard(p.idcard), WithIdcard(p.idcard));
    assert RowWithIdcard(p.idcard)(db.table[i]);
    assert r == i;
    assert Agree(db.table[i], db.ram[i]);
  }

  lemma RegisterExact(db: Db, uuid: string, p: Profile, feature: Blob, image: Option<string>, generated: string,
                      now: string)
    requires Inv(db)
    ensures Inv(Register(db, uuid, p, feature, image, generated, now, true))
        <==> HasIdcard(db.table, p.idcard) || !HasUuid(db.table, StoredUuid(uuid, generated))
  {
    FirstAgrees(db.table, db.ram, RowWithIdcard(p.idcard), WithIdcard(p.idcard));
    var t := Registered(db, uuid, p, feature, generated, now);
    var path := RegisteredImage(db, p.idcard, image);
    if HasIdcard(db.table, p.idcard) {
      forall i | 0 <= i < |db.table| && db.table[i].facts.idcard == p.idcard
        ensures Agree(RegisterRow(db.table[i], t, path, |feature|), t)
      {
        RegisteredAgrees(db, i, uuid, p, feature, generated, now, path, |feature|);
      }
      hide Registered, Agree, RegisteredImage;
      UpdateByIdcard(db, p.idcard, (r: Row) => RegisterRow(r, t, path, |feature|), (o: Person) => t);
    } else {
      InsertExact(db, NewRow(t, path, |feature|), t);
    }
  }

  lemma UpdateExact(db: Db, uuid: string, p: Profile, feature: Blob, jpeg: Extraction, now: string)
    requires Inv(db) && UpdateRuns(db, uuid, feature, jpeg)
    ensures Inv(Update(db, uuid, p, feature, jpeg, now, true))
        <==> p.idcard == "" || !HeldByAnother(db.table, uuid, p.idcard)
  {
    FirstAgrees(db.table, db.ram, RowWithUuid(uuid), WithUuid(uuid));
    var i := First(db.table, RowWithUuid(uuid));
    var t := UpdatedPerson(db.ram[i], p, feature, jpeg, now);
    var after := Update(db, uuid, p, feature, jpeg, now, true);
    UpdateOne(db, RowWithUuid(uuid), WithUuid(uuid), (r: Row) => UpdateRow(r, t), (o: Person) => t);
    IdcardChanges(db, after, uuid, i, Or(p.idcard, db.table[i].facts.idcard));
  }

  /** When one row gets a new idcard, the table stays unique iff no other row holds it. */
  lemma IdcardChanges(db: Db, after: Db, uuid: string, i: nat, idcard: string)
    requires Inv(db) && i < |db.table| && db.table[i].facts.uuid == uuid
    requires Aligned(after) && UniqueUuids(after.table) && KeysAscend(after.table) && |after.table| == |db.table|
    requires after.table[i].facts.idcard == idcard
    requires forall j :: 0 <= j < |db.table| && j != i ==> after.table[j] == db.table[j]
    ensures Inv(after) <==> !HeldByAnother(db.table, uuid, idcard)
  {
    if HeldByAnother(db.table, uuid, idcard) {
      var j :| 0 <= j < |db.table| && db.table[j].facts.uuid != uuid && db.table[j].facts.idcard == idcard;
      assert after.table[j].facts.idcard == after.table[i].facts.idcard;
    }
  }

  lemma UpdateDirectlyExact(db: Db, uuid: string, name: string, idcard: string, sex: string, feature: Blob, now: string)
    requires Inv(db)
    ensures Inv(UpdateDirectly(db, uuid, name, idcard, sex, feature, now, true))
        <==> !HasUuid(db.table, uuid) || !HeldByAnother(db.table, uuid, idcard)
  {
    FirstAgrees(db.table, db.ram, RowWithUuid(uuid), WithUuid(uuid));
    var f := DirectFeature(db, uuid, feature);
    var after := UpdateDirectly(db, uuid, name, idcard, sex, feature, now, true);
    UpdateOne(db, RowWithUuid(uuid), WithUuid(uuid),
              (r: Row) => r.(facts := DirectFacts(r.facts, name, idcard, sex, f, now), featureSize := |f|),
              (p: Person) => p.(facts := DirectFacts(p.facts, name, idcard, sex, f, now)));
    var i := First(db.table, RowWithUuid(uuid));
    if i < |db.table| {
      IdcardChanges(db, after, uuid, i, idcard);
    } else {
      assert after.table == db.table;
    }
  }

  lemma {:induction false} SqlDeleteLength(t: seq<Row>, where: Row -> bool)
    ensures |SqlDelete(t, where)| <= |t|
    ensures (|SqlDelete(t, where)| == |t|) == (First(t, where) == |t|)
    ensures First(t, where) == |t| ==> SqlDelete(t, where) == t
  {
    if t == [] {
    } else {
      var rest := t[1..];
      SqlDeleteLength(rest, where);
      assert SqlDelete(t, where) == (if where(t[0]) then [] else [t[0]]) + SqlDelete(rest, where);
      assert First(t, where) == if where(t[0]) then 0 else 1 + First(rest, where);
      hide SqlDelete, First;
    }
  }

  /** A DELETE that removes at most one row removes the first one in question. */
  lemma {:induction false} SqlDeleteOne(t: seq<Row>, where: Row -> bool)
    requires |SqlDelete(t, where)| >= |t| - 1
    ensures var i := First(t, where);
            SqlDelete(t, where) == if i < |t| then t[..i] + t[i + 1..] else t
  {
    if t == [] {
      return;
    }
    var rest := t[1..];
    var i, d := First(rest, where), SqlDelete(rest, where);
    if where(t[0]) {
      SqlDeleteLength(rest, where);
      assert SqlDelete(t, where) == d;
    } else {
      assert SqlDelete(t, where) == [t[0]] + d && First(t, where) == i + 1;
      SqlDeleteOne(rest, where);
      hide SqlDelete, First;
      if i < |rest| {
        assert t[..i + 1] == [t[0]] + rest[..i] && t[i + 2..] == rest[i + 1..];
      }
    }
  }

  lemma {:induction false} SqlDeleteUnique(t: seq<Row>, uuid: string)
    requires UniqueUuids(t)
    ensures |SqlDelete(t, RowWithUuid(uuid))| >= |t| - 1
  {
    if t == [] {
    } else {
      if t[0].facts.uuid == uuid {
        assert forall j :: 0 <= j < |t[1..]| ==> t[1..][j] == t[j + 1];
        SqlDeleteLength(t[1..], RowWithUuid(uuid));
        var i := First(t[1..], RowWithUuid(uuid));
        assert i < |t| - 1 ==> t[i + 1].facts.uuid == uuid;
      } else {
        SqlDeleteUnique(t[1..], uuid);
      }
    }
  }

  /** Removing at most one row and its cache entry. */
  lemma RemoveBoth(db: Db, onRow: Row -> bool, onPerson: Person -> bool)
    requires Inv(db)
    requires forall i :: 0 <= i < |db.table| ==> onRow(db.table[i]) == onPerson(db.ram[i])
    ensures Inv(Db(SqlDelete(db.table, onRow), RemoveFirst(db.ram, onPerson)))
        <==> |SqlDelete(db.table, onRow)| >= |db.table| - 1
  {
    FirstAgrees(db.table, db.ram, onRow, onPerson);
    SqlDeleteLength(db.table, onRow);
    var i := First(db.table, onRow);
    if |SqlDelete(db.table, onRow)| >= |db.table| - 1 {
      SqlDeleteOne(db.table, onRow);
      if i < |db.table| {
        RemoveAt(db, i);
      }
    }
  }

  lemma RemoveAt(db: Db, i: nat)
    requires Inv(db) && i < |db.table|
    ensures Inv(Db(db.table[..i] + db.table[i + 1..], db.ram[..i] + db.ram[i + 1..]))
  {
    var t, ram := db.table[..i] + db.table[i + 1..], db.ram[..i] + db.ram[i + 1..];
    hide Agree;
    forall j | 0 <= j < |t|
      ensures var k := if j < i then j else j + 1;
              t[j] == db.table[k] && ram[j] == db.ram[k] && Agree(t[j], ram[j])
    {}
  }

  lemma StoreExact(db: Db, uuid: string, p: Profile, generated: string, now: string, ok: bool)
    requires Inv(db)
    ensures Inv(Store(db, uuid, p, generated, now, ok))
        <==> ok && !HasIdcard(db.table, p.idcard) && !HasUuid(db.table, StoredUuid(uuid, generated))
  {
    var u := StoredUuid(uuid, generated);
    FirstAgrees(db.table, db.ram, RowWithIdcard(p.idcard), WithIdcard(p.idcard));
    FirstAgrees(db.table, db.ram, RowWithUuid(u), WithUuid(u));
    var k := First(db.ram, Known(p.idcard, u));
    KnownExact(db.ram, p.idcard, u);
    if k == |db.ram| && ok {
      var t := Stored(db, uuid, p, generated, now);
      InsertExact(db, NewRow(t, IMAGE_ROOT, 0), t);
    }
  }

  lemma {:induction false} KnownExact(s: seq<Person>, idcard: string, uuid: string)
    ensures First(s, Known(idcard, uuid)) == |s|
        <==> First(s, WithIdcard(idcard)) == |s| && First(s, WithUuid(uuid)) == |s|
  {
    if s == [] {
    } else {
      KnownExact(s[1..], idcard, uuid);
    }
  }

  // ----- Main results: the invariant ---------------------------------------------------------

  lemma FieldUpdatesKeepInv(db: Db, op: Op)
    requires Inv(db)
    requires op.OpUpdateFeature? || op.OpUpdateColumns? || op.OpSetFingerprint?
    ensures Inv(Apply(db, op, true))
  {
    match op
    case OpUpdateFeature(uuid, feature, image) =>
      UpdateByUuid(db, uuid,
                   (r: Row) => r.(facts := r.facts.(feature := feature), featureSize := |feature|,
                                  image := if image.Some? then image.value else r.image),
                   (p: Person) => p.(facts := p.facts.(feature := feature)));
    case OpUpdateColumns(uuid, mode, tenantId, id, status) =>
      UpdateByUuid(db, uuid,
                   (r: Row) => r.(facts := r.facts.(attendanceMode := mode, tenantId := tenantId,
                                                    id := id, status := status)),
                   (p: Person) => p.(facts := p.facts.(attendanceMode := mode, tenantId := tenantId,
                                                       id := id, status := status)));
    case OpSetFingerprint(uuid, data) =>
      UpdateByUuid(db, uuid, (r: Row) => r.(facts := r.facts.(fingerprint := data)),
                   (p: Person) => p.(facts := p.facts.(fingerprint := data)));
  }

  lemma FingerUpdatesKeepInv(db: Db, op: Op)
    requires Inv(db)
    requires op.OpSetFingerId? || op.OpClearFingerIds? || op.OpClearRfidCards?
    ensures Inv(Apply(db, op, true))
  {
    match op
    case OpSetFingerId(uuid, fingerId) =>
      UpdateByUuid(db, uuid, (r: Row) => r.(fingerId := fingerId), (p: Person) => p.(fingerId := fingerId));
    case _ =>
  }

  lemma DeletesExact(db: Db, op: Op)
    requires Inv(db) && (op.OpDelete? || op.OpDeleteByName?)
    ensures Inv(Apply(db, op, true)) <==> Safe(db, op, true)
  {
    match op
    case OpDelete(uuid) =>
      SqlDeleteUnique(db.table, uuid);
      RemoveBoth(db, RowWithUuid(uuid), WithUuid(uuid));
    case OpDeleteByName(name, createtime) =>
      RemoveBoth(db, RowNamed(name, createtime), PersonNamed(name, createtime));
  }

  /** A DELETE that fails takes the person out of the cache all the same. */
  lemma FailedDeletesExact(db: Db, op: Op)
    requires Inv(db) && (op.OpDelete? || op.OpDeleteByName?)
    ensures Inv(Apply(db, op, false)) <==> Safe(db, op, false)
  {
    match op
    case OpDelete(uuid) =>
      FirstAgrees(db.table, db.ram, RowWithUuid(uuid), WithUuid(uuid));
    case OpDeleteByName(name, createtime) =>
      FirstAgrees(db.table, db.ram, RowNamed(name, createtime), PersonNamed(name, createtime));
      SqlDeleteLength(db.table, RowNamed(name, createtime));
  }

  /** From a state with agreement and unique uuids, idcards and keys, an operation leaves such a
      state exactly when it is safe. */
  lemma InvariantExact(db: Db, op: Op, ok: bool)
    requires Inv(db)
    ensures Inv(Apply(db, op, ok)) <==> Safe(db, op, ok)
  {
    hide Inv, Register, Update, UpdateDirectly, UpdateRuns, SqlDelete, First, Registered, Stored, Store;
    match op
    case OpRegister(uuid, p, feature, image, generated, now) =>
      RegisterExact(db, uuid, p, feature, image, generated, now);
      if !ok {
        FailureChangesNothing(db, op);
      }
    case OpUpdate(uuid, p, feature, jpeg, now) =>
      if ok && UpdateRuns(db, uuid, feature, jpeg) {
        UpdateExact(db, uuid, p, feature, jpeg, now);
      } else {
        UpdateRefused(db, uuid, p, feature, jpeg, now, ok);
      }
    case OpUpdateDirectly(uuid, name, idcard, sex, feature, now) =>
      UpdateDirectlyExact(db, uuid, name, idcard, sex, feature, now);
      if !ok {
        FailureChangesNothing(db, op);
      }
    case OpStore(uuid, p, generated, now) => StoreExact(db, uuid, p, generated, now, ok);
    case OpWipe => WipeExact(db, ok);
    case OpDelete(_) => if ok { DeletesExact(db, op); } else { FailedDeletesExact(db, op); }
    case OpDeleteByName(_, _) => if ok { DeletesExact(db, op); } else { FailedDeletesExact(db, op); }
    case _ =>
      if !ok {
        FailureChangesNothing(db, op);
      } else if op.OpUpdateFeature? || op.OpUpdateColumns? || op.OpSetFingerprint? {
        FieldUpdatesKeepInv(db, op);
      } else {
        FingerUpdatesKeepInv(db, op);
      }
  }

  lemma WipeExact(db: Db, ok: bool)
    requires Inv(db)
    ensures Inv(Wipe(db, ok)) <==> ok || db.table == []
  {}

  lemma UpdateRefused(db: Db, uuid: string, p: Profile, feature: Blob, jpeg: Extraction, now: string, ok: bool)
    requires !ok || !UpdateRuns(db, uuid, feature, jpeg)
    ensures Update(db, uuid, p, feature, jpeg, now, ok) == db
  {}

  /** A statement that fails changes neither side, except in the deletes, the wipe, and
      StoreUserWithoutFaceData, which change the cache regardless. */
  lemma FailureChangesNothing(db: Db, op: Op)
    requires !op.OpDelete? && !op.OpDeleteByName? && !op.OpStore? && !op.OpWipe?
    ensures Apply(db, op, false) == db
  {}

  datatype Call = Call(op: Op, ok: bool)

  function Run(db: Db, calls: seq<Call>): Db
    decreases |calls|
  {
    if calls == [] then db else Run(Apply(db, calls[0].op, calls[0].ok), calls[1..])
  }

  predicate SafeRun(db: Db, calls: seq<Call>)
    decreases |calls|
  {
    calls == [] || (Safe(db, calls[0].op, calls[0].ok)
                    && SafeRun(Apply(db, calls[0].op, calls[0].ok), calls[1..]))
  }

  /** A table as the loading loop finds it. */
  predicate Loadable(t: seq<Row>) {
    UniqueUuids(t) && UniqueIdcards(t) && KeysAscend(t)
  }

  /** The run of a prefix, call by call. */
  lemma RunPrefix(db: Db, calls: seq<Call>, n: nat)
    requires 0 < n <= |calls|
    ensures Run(db, calls[..n]) == Run(Apply(db, calls[0].op, calls[0].ok), calls[1..][..n - 1])
  {
    assert calls[..n][1..] == calls[1..][..n - 1];
  }

  /** Agreement and uniqueness hold all along a run exactly when every call of it is safe. */
  lemma {:induction false} InvariantOnEveryRun(db: Db, calls: seq<Call>)
    requires Inv(db)
    ensures SafeRun(db, calls) <==> forall n :: 0 <= n <= |calls| ==> Inv(Run(db, calls[..n]))
    decreases |calls|
  {
    hide Apply, Inv, Safe;
    assert Run(db, calls[..0]) == db;
    if calls == [] {
    } else {
      var next := Apply(db, calls[0].op, calls[0].ok);
      InvariantExact(db, calls[0].op, calls[0].ok);
      RunPrefix(db, calls, 1);
      assert Run(next, calls[1..][..0]) == next;
      if Inv(next) {
        InvariantOnEveryRun(next, calls[1..]);
        forall n | 0 < n <= |calls|
          ensures Inv(Run(db, calls[..n])) <==> Inv(Run(next, calls[1..][..n - 1]))
        {
          RunPrefix(db, calls, n);
        }
        forall n | 0 <= n <= |calls[1..]|
          ensures Inv(Run(next, calls[1..][..n])) <==> Inv(Run(db, calls[..n + 1]))
        {
          RunPrefix(db, calls, n + 1);
        }
      }
    }
  }

  // ----- What a DELETE leaves --------------------------------------------------------------

  /** A DELETE leaves the rows it does not match, in their order: places says where they were. */
  lemma {:induction false} DeleteLeaves(t: seq<Row>, where: Row -> bool) returns (places: seq<nat>)
    ensures |places| == |SqlDelete(t, where)|
    ensures forall j, k :: 0 <= j < k < |places| ==> places[j] < places[k]
    ensures forall k :: 0 <= k < |places| ==> places[k] < |t| && SqlDelete(t, where)[k] == t[places[k]]
    ensures forall i: nat :: i < |t| ==> (i in places <==> !where(t[i]))
  {
    if t == [] {
      places := [];
    } else {
      var n := |t| - 1;
      places := DeleteLeaves(t[..n], where);
      DeleteSnoc(t[..n], t[n], where);
      assert t[..n] + [t[n]] == t;
      if !where(t[n]) {
        places := places + [n];
      }
      forall i: nat | i < n
        ensures i in places <==> !where(t[i])
      {
        assert t[..n][i] == t[i];
      }
    }
  }

  lemma {:induction false} DeleteSnoc(t: seq<Row>, r: Row, where: Row -> bool)
    ensures SqlDelete(t + [r], where) == SqlDelete(t, where) + if where(r) then [] else [r]
  {
    if t == [] {
      assert [] + [r] == [r] && [r][1..] == [];
    } else {
      DeleteSnoc(t[1..], r, where);
      assert (t + [r])[0] == t[0] && (t + [r])[1..] == t[1..] + [r];
      ConcatAssociates(if where(t[0]) then [] else [t[0]], SqlDelete(t[1..], where), if where(r) then [] else [r]);
    }
  }

  lemma DeleteMembers(t: seq<Row>, where: Row -> bool, r: Row)
    ensures r in SqlDelete(t, where) <==> r in t && !where(r)
  {
    hide SqlDelete;
    var places := DeleteLeaves(t, where);
    if r in t && !where(r) {
      var i: nat :| i < |t| && t[i] == r;
      var k :| 0 <= k < |places| && places[k] == i;
      assert SqlDelete(t, where)[k] == r;
    }
  }
}
