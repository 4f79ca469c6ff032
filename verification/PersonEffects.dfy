/** What the operations store, column by column, and what they leave alone. */
module PersonEffects {
  import opened Collections
  import opened Options
  import opened PersonTable
  import opened PersonRuns

  // ----- Other people's rows -------------------------------------------------------------

  /** The operation is about the person of row r. */
  predicate Concerns(op: Op, r: Row) {
    match op
    case OpRegister(_, p, _, _, _, _) => r.facts.idcard == p.idcard
    case OpUpdate(uuid, _, _, _, _) => r.facts.uuid == uuid
    case OpUpdateDirectly(uuid, _, _, _, _, _) => r.facts.uuid == uuid
    case OpUpdateFeature(uuid, _, _) => r.facts.uuid == uuid
    case OpUpdateColumns(uuid, _, _, _, _) => r.facts.uuid == uuid
    case OpSetFingerprint(uuid, _) => r.facts.uuid == uuid
    case OpSetFingerId(uuid, _) => r.facts.uuid == uuid
    case OpDelete(uuid) => r.facts.uuid == uuid
    case OpDeleteByName(name, createtime) => r.facts.name == name && r.facts.createtime == createtime
    case OpStore(uuid, p, generated, _) => r.facts.idcard == p.idcard || r.facts.uuid == StoredUuid(uuid, generated)
    case OpClearFingerIds => true
    case OpClearRfidCards => true
    case OpWipe => true
  }

  /** No operation changes the row of someone it is not about. */
  lemma OthersUntouched(db: Db, op: Op, ok: bool, i: nat)
    requires Inv(db) && i < |db.table| && !Concerns(op, db.table[i])
    ensures db.table[i] in Apply(db, op, ok).table
  {
    hide Inv, Registered, Stored, StoredUuid, UpdateRuns, UpdatedPerson, First;
    match op
    case OpDelete(uuid) =>
      if ok {
        DeleteMembers(db.table, RowWithUuid(uuid), db.table[i]);
      }
    case OpDeleteByName(name, createtime) =>
      if ok {
        DeleteMembers(db.table, RowNamed(name, createtime), db.table[i]);
      }
    case OpStore(uuid, p, generated, now) => StoreTouchesOne(db, uuid, p, generated, now, ok, i);
    case OpClearFingerIds =>
    case OpClearRfidCards =>
    case OpWipe =>
    case _ => assert Apply(db, op, ok).table[i] == db.table[i];
  }

  lemma StoreTouchesOne(db: Db, uuid: string, p: Profile, generated: string, now: string, ok: bool, i: nat)
    requires Inv(db) && i < |db.table|
    requires db.table[i].facts.idcard != p.idcard && db.table[i].facts.uuid != StoredUuid(uuid, generated)
    ensures db.table[i] in Store(db, uuid, p, generated, now, ok).table
  {
    var k := First(db.ram, Known(p.idcard, StoredUuid(uuid, generated)));
    if k < |db.ram| {
      assert Agree(db.table[k], db.ram[k]) && Agree(db.table[i], db.ram[i]);
      assert k != i;
    }
    assert Store(db, uuid, p, generated, now, ok).table[i] == db.table[i];
  }

  // ----- What is stored ----------------------------------------------------------------------

  /** Each text that was given is stored, and one that was not given keeps its value. */
  predicate GivenOrKept(after: Facts, before: Facts, p: Profile) {
    && after.name == Or(p.name, before.name)
    && after.department == Or(p.department, before.department)
    && after.timeOfAccess == Or(p.timeOfAccess, before.timeOfAccess)
    && after.attendanceMode == Or(p.attendanceMode, before.attendanceMode)
    && after.tenantId == Or(p.tenantId, before.tenantId)
    && after.id == Or(p.id, before.id)
    && after.status == Or(p.status, before.status)
    && (p.sex != "" ==> after.sex == p.sex)
    && (p.sex == "" && before.sex != "" ==> after.sex == before.sex)
  }

  /** The person stays the same one, with the finger and the columns other parts look after. */
  predicate SamePerson(after: Row, before: Row) {
    && after.facts.uuid == before.facts.uuid && after.facts.personId == before.facts.personId
    && after.facts.fingerprint == before.facts.fingerprint && after.fingerId == before.fingerId
    && after.facts.personType == before.facts.personType
    && after.qrCode == before.qrCode && after.stamps == before.stamps
  }

  /** Registering someone whose idcard is there updates that row with what was given.  The
      kept values come from the cache and the others from the table; by agreement the row ends
      as if all had come from the row itself. */
  lemma RegisterStores(db: Db, i: nat, uuid: string, p: Profile, feature: Blob, image: Option<string>,
                       generated: string, now: string)
    requires Inv(db) && i < |db.table| && db.table[i].facts.idcard == p.idcard
    ensures var t := Register(db, uuid, p, feature, image, generated, now, true).table;
            var before := db.table[i];
            && |t| == |db.table|
            && SamePerson(t[i], before) && GivenOrKept(t[i].facts, before.facts, p)
            && t[i].facts.idcard == p.idcard && t[i].facts.createtime == now
            && t[i].facts.feature == (if feature != [] then feature else before.facts.feature)
            && (p.iccard != "" ==> t[i].iccardnum == Some(p.iccard))
            && (p.personalModuleId == 0 ==> t[i].facts.personalModuleId == before.facts.personalModuleId)
            && (p.personalModuleId != 0 ==> t[i].facts.personalModuleId == p.personalModuleId)
            && (image.Some? ==> t[i].image == image.value)
            && (image.None? && before.image != "" ==> t[i].image == before.image)
  {
    FirstAgrees(db.table, db.ram, RowWithIdcard(p.idcard), WithIdcard(p.idcard));
    assert RowWithIdcard(p.idcard)(db.table[i]);
    var r := First(db.table, RowWithIdcard(p.idcard));
    assert r <= i && r == i;
    assert Agree(db.table[i], db.ram[i]);
    hide First;
  }

  /** An update stores what was given in the row of its uuid and keeps the rest; only the
      personal module id is stored even when it is 0. */
  lemma UpdateStores(db: Db, i: nat, uuid: string, p: Profile, feature: Blob, jpeg: Extraction, now: string)
    requires Inv(db) && UpdateRuns(db, uuid, feature, jpeg) && i < |db.table| && db.table[i].facts.uuid == uuid
    ensures var t := Update(db, uuid, p, feature, jpeg, now, true).table;
            var before := db.table[i];
            && |t| == |db.table|
            && SamePerson(t[i], before) && GivenOrKept(t[i].facts, before.facts, p)
            && t[i].facts.idcard == Or(p.idcard, before.facts.idcard) && t[i].facts.createtime == now
            && t[i].facts.feature == UpdatedFeature(before.facts.feature, feature, jpeg)
            && t[i].featureSize == |t[i].facts.feature|
            && (p.iccard != "" ==> t[i].iccardnum == Some(p.iccard))
            && t[i].facts.personalModuleId == p.personalModuleId && t[i].image == before.image
  {
    FirstAgrees(db.table, db.ram, RowWithUuid(uuid), WithUuid(uuid));
    assert RowWithUuid(uuid)(db.table[i]);
    var r := First(db.table, RowWithUuid(uuid));
    assert r <= i && r == i;
    assert Agree(db.table[i], db.ram[i]);
    hide First;
  }

  /** The cards in the cache are not those in the table, so an update that names no card puts
      the cached card into the row.  After a sync of the cards, which empties the cached ones
      and writes the table only, such an update takes away all cards of the person.
      PersonCards follows a card over runs. */
  lemma UpdateRevertsCards(db: Db, i: nat, uuid: string, p: Profile, feature: Blob, jpeg: Extraction, now: string)
    requires Inv(db) && UpdateRuns(db, uuid, feature, jpeg) && i < |db.table| && db.table[i].facts.uuid == uuid
    requires p.iccard == ""
    ensures var t := Update(db, uuid, p, feature, jpeg, now, true).table;
            && (t[i].iccardnum == db.table[i].iccardnum <==> db.table[i].iccardnum == Some(db.ram[i].iccard))
            && (db.ram == ClearRfidCards(db, true).ram ==> t[i].iccardnum == Some(""))
  {
    FirstAgrees(db.table, db.ram, RowWithUuid(uuid), WithUuid(uuid));
    assert RowWithUuid(uuid)(db.table[i]);
    var r := First(db.table, RowWithUuid(uuid));
    assert r <= i && r == i;
    hide First;
  }

  /** A register that names no card does the same to the row of its idcard. */
  lemma RegisterRevertsCards(db: Db, i: nat, uuid: string, p: Profile, feature: Blob, image: Option<string>,
                             generated: string, now: string)
    requires Inv(db) && i < |db.table| && db.table[i].facts.idcard == p.idcard && p.iccard == ""
    ensures var t := Register(db, uuid, p, feature, image, generated, now, true).table;
            && (t[i].iccardnum == db.table[i].iccardnum <==> db.table[i].iccardnum == Some(db.ram[i].iccard))
            && (db.ram == ClearRfidCards(db, true).ram ==> t[i].iccardnum == Some(""))
  {
    FirstAgrees(db.table, db.ram, RowWithIdcard(p.idcard), WithIdcard(p.idcard));
    assert RowWithIdcard(p.idcard)(db.table[i]);
    var r := First(db.table, RowWithIdcard(p.idcard));
    assert r <= i && r == i;
    hide First, RegisteredImage;
  }
}
