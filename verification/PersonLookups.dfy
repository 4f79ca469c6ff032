/** What the readers of the cache get, and the finger ids that enrolment hands out. */
module PersonLookups {
  import opened Collections
  import opened Options
  import opened PersonTable
  import opened PersonRuns

  // ----- Readers ---------------------------------------------------------------------

  /** findUuidByEmployeeId: the cache first, then the table. */
  function FindUuid(db: Db, idcard: string): Option<string> {
    var i := First(db.ram, WithIdcard(idcard));
    if i < |db.ram| then Some(db.ram[i].facts.uuid) else QueryUuid(db.table, idcard)
  }

  /** SELECT uuid FROM person WHERE idcardnum = ? */
  function QueryUuid(t: seq<Row>, idcard: string): Option<string> {
    var i := First(t, RowWithIdcard(idcard));
    if i < |t| then Some(t[i].facts.uuid) else None
  }

  /** GetPersonFingerprint: None when it returns false. */
  function FindFingerprint(db: Db, uuid: string): Option<Blob> {
    var i := First(db.ram, WithUuid(uuid));
    if uuid == "" then None
    else if i < |db.ram| then NonEmpty(db.ram[i].facts.fingerprint)
    else QueryFingerprint(db.table, uuid)
  }

  function QueryFingerprint(t: seq<Row>, uuid: string): Option<Blob> {
    var i := First(t, RowWithUuid(uuid));
    if uuid == "" || i == |t| then None else NonEmpty(t[i].facts.fingerprint)
  }

  function NonEmpty(b: Blob): Option<Blob> {
    if b == [] then None else Some(b)
  }

  /** Conversion to uint16_t. */
  function Uint16(n: int): nat {
    n % 0x1_0000
  }

  /** getFingerId. */
  function FindFingerId(db: Db, uuid: string): nat {
    var i := First(db.ram, WithUuid(uuid));
    if i < |db.ram| then Uint16(db.ram[i].fingerId) else QueryFingerId(db.table, uuid)
  }

  function QueryFingerId(t: seq<Row>, uuid: string): nat {
    var i := First(t, RowWithUuid(uuid));
    if i < |t| then Uint16(t[i].fingerId) else 0
  }

  /** GetPersonByFingerId. */
  function FindByFinger(db: Db, fingerId: int): Option<Person> {
    var i := First(db.ram, (p: Person) => p.fingerId == fingerId);
    if i < |db.ram| then Some(db.ram[i]) else None
  }

  /** While table and cache agree, reading the cache first is reading the table. */
  lemma CacheReadsAreTableReads(db: Db, idcard: string, uuid: string)
    requires Aligned(db)
    ensures FindUuid(db, idcard) == QueryUuid(db.table, idcard)
    ensures FindFingerprint(db, uuid) == QueryFingerprint(db.table, uuid)
  {
    FirstAgrees(db.table, db.ram, RowWithIdcard(idcard), WithIdcard(idcard));
    FirstAgrees(db.table, db.ram, RowWithUuid(uuid), WithUuid(uuid));
    var i, j := First(db.table, RowWithIdcard(idcard)), First(db.table, RowWithUuid(uuid));
    assert i < |db.table| ==> Agree(db.table[i], db.ram[i]);
    assert j < |db.table| ==> Agree(db.table[j], db.ram[j]);
    hide First, Aligned;
  }

  /** For a finger id this holds exactly when the uuid has no row, or a positive id in it, or the two
      sides have the same id as far as 16 bits go: without a finger the cache may say 0 where the
      table says -1. */
  lemma FingerIdReadExact(db: Db, uuid: string)
    requires Aligned(db)
    ensures var i := First(db.table, RowWithUuid(uuid));
            FindFingerId(db, uuid) == QueryFingerId(db.table, uuid)
            <==> i == |db.table| || db.table[i].fingerId > 0
                 || (db.ram[i].fingerId - db.table[i].fingerId) % 0x1_0000 == 0
  {
    FirstAgrees(db.table, db.ram, RowWithUuid(uuid), WithUuid(uuid));
    var i := First(db.table, RowWithUuid(uuid));
    assert i < |db.table| ==> Agree(db.table[i], db.ram[i]);
    hide First, Aligned;
  }

  /** In any state, the first cached person of the key decides, whatever the table says; and the
      first row when nobody is cached. */
  lemma CacheComesFirst(db: Db, idcard: string, uuid: string)
    ensures var k, j := First(db.ram, WithIdcard(idcard)), First(db.table, RowWithIdcard(idcard));
            FindUuid(db, idcard) == if k < |db.ram| then Some(db.ram[k].facts.uuid)
                                    else if j < |db.table| then Some(db.table[j].facts.uuid) else None
    ensures var k, j := First(db.ram, WithUuid(uuid)), First(db.table, RowWithUuid(uuid));
            var data := if k < |db.ram| then db.ram[k].facts.fingerprint
                         else if j < |db.table| then db.table[j].facts.fingerprint else [];
            && FindFingerprint(db, uuid) == (if uuid == "" || data == [] then None else Some(data))
            && FindFingerId(db, uuid) == (if k < |db.ram| then db.ram[k].fingerId
                                          else if j < |db.table| then db.table[j].fingerId else 0) % 0x1_0000
  {
    hide First;
  }

  /** The finger id of someone without a finger depends on whether the cache was loaded since:
      a register caches 0, a reload reads the -1 of the table, which the caller gets as 65535. */
  lemma NoFingerReadsDiffer(uuid: string, p: Profile, now: string)
    requires |uuid| > 3
    ensures var db := Register(Db([], []), uuid, p, [], None, "", now, true);
            FindFingerId(db, uuid) == 0 && FindFingerId(Db(db.table, LoadAll(db.table)), uuid) == 65535
  {
    var db := Register(Db([], []), uuid, p, [], None, "", now, true);
    assert db.table[0].facts.uuid == uuid && db.table[0].fingerId == -1;
    assert LoadAll(db.table)[0] == LoadPerson(db.table[0]);
    assert WithUuid(uuid)(db.ram[0]) && WithUuid(uuid)(LoadAll(db.table)[0]);
  }

  // ----- Finger ids ---------------------------------------------------------------------

  predicate DistinctFingers(t: seq<Row>) {
    forall i, j :: 0 <= i < j < |t| && t[i].fingerId > 0 ==> t[i].fingerId != t[j].fingerId
  }

  /** Writing id into all rows of uuid keeps the positive ids distinct exactly when id is not
      positive, or uuid has no row, or it has one and nobody else has the id. */
  predicate FreshFor(t: seq<Row>, uuid: string, id: int) {
    var i := First(t, RowWithUuid(uuid));
    id <= 0 || forall j :: 0 <= j < |t| && j != i && i < |t| ==> t[j].facts.uuid != uuid && t[j].fingerId != id
  }

  lemma SetFingerIdExact(db: Db, uuid: string, id: int)
    requires DistinctFingers(db.table)
    ensures DistinctFingers(SetFingerId(db, uuid, id, true).table) <==> FreshFor(db.table, uuid, id)
  {
    var t := SetFingerId(db, uuid, id, true).table;
    var i := First(db.table, RowWithUuid(uuid));
    assert forall j :: 0 <= j < |t| ==> t[j].fingerId == if db.table[j].facts.uuid == uuid then id else db.table[j].fingerId;
    if !FreshFor(db.table, uuid, id) {
      var j :| 0 <= j < |t| && j != i && (db.table[j].facts.uuid == uuid || db.table[j].fingerId == id);
      assert t[i].fingerId == t[j].fingerId == id;
    }
  }

  /** The rows an operation leaves have the finger ids they had; added rows have none. */
  predicate FingersKept(t: seq<Row>, u: seq<Row>) {
    |t| <= |u| && forall i :: 0 <= i < |u| ==> u[i].fingerId == if i < |t| then t[i].fingerId else -1
  }

  lemma OtherOpsKeepFingers(db: Db, op: Op, ok: bool)
    requires !op.OpSetFingerId? && !op.OpClearFingerIds?
    requires !op.OpDelete? && !op.OpDeleteByName? && !op.OpWipe?
    ensures FingersKept(db.table, Apply(db, op, ok).table)
  {
    hide Registered, Stored, UpdateRuns, UpdatedPerson, First, StoredUuid;
  }

  lemma SqlDeleteFingers(t: seq<Row>, where: Row -> bool)
    requires DistinctFingers(t)
    ensures DistinctFingers(SqlDelete(t, where))
  {
    var places := DeleteLeaves(t, where);
    hide SqlDelete;
  }

  /** What a caller has to see to for the finger ids to stay distinct. */
  predicate FingerSafe(t: seq<Row>, op: Op) {
    match op
    case OpSetFingerId(uuid, id) => FreshFor(t, uuid, id)
    case _ => true
  }

  /** From any state with distinct positive finger ids, whatever the cache holds and whatever
      uuids are repeated, a call keeps them distinct exactly under its condition. */
  lemma FingersExact(db: Db, op: Op, ok: bool)
    requires DistinctFingers(db.table)
    ensures DistinctFingers(Apply(db, op, ok).table) <==> !ok || FingerSafe(db.table, op)
  {
    hide FreshFor, SetFingerId;
    match op
    case OpSetFingerId(uuid, id) =>
      SetFingerIdExact(db, uuid, id);
      SetFingerIdFails(db, uuid, id);
    case OpClearFingerIds =>
    case OpDelete(uuid) => SqlDeleteFingers(db.table, RowWithUuid(uuid));
    case OpDeleteByName(name, createtime) => SqlDeleteFingers(db.table, RowNamed(name, createtime));
    case OpWipe =>
    case _ =>
      OtherOpsKeepFingers(db, op, ok);
      hide Apply;
  }

  lemma SetFingerIdFails(db: Db, uuid: string, id: int)
    ensures SetFingerId(db, uuid, id, false) == db
  {}

  predicate FingerSafeRun(db: Db, calls: seq<Call>)
    decreases |calls|
  {
    calls == [] || ((calls[0].ok ==> FingerSafe(db.table, calls[0].op))
                    && FingerSafeRun(Apply(db, calls[0].op, calls[0].ok), calls[1..]))
  }

  /** Positive finger ids are distinct all along a run, through clears, deletes and failures of
      any kind, exactly when no call writes one that is taken, or writes one to an uuid that two
      rows have. */
  lemma {:induction false} FingersDistinctOnEveryRun(db: Db, calls: seq<Call>)
    requires DistinctFingers(db.table)
    ensures FingerSafeRun(db, calls) <==> forall n :: 0 <= n <= |calls| ==> DistinctFingers(Run(db, calls[..n]).table)
    decreases |calls|
  {
    hide Apply, DistinctFingers, FingerSafe;
    assert Run(db, calls[..0]) == db;
    if calls == [] {
    } else {
      var next := Apply(db, calls[0].op, calls[0].ok);
      FingersExact(db, calls[0].op, calls[0].ok);
      RunPrefix(db, calls, 1);
      assert Run(next, calls[1..][..0]) == next;
      if DistinctFingers(next.table) {
        FingersDistinctOnEveryRun(next, calls[1..]);
        forall n | 0 < n <= |calls|
          ensures DistinctFingers(Run(db, calls[..n]).table) <==> DistinctFingers(Run(next, calls[1..][..n - 1]).table)
        {
          RunPrefix(db, calls, n);
        }
        forall n | 0 <= n <= |calls[1..]|
          ensures DistinctFingers(Run(next, calls[1..][..n]).table) <==> DistinctFingers(Run(db, calls[..n + 1]).table)
        {
          RunPrefix(db, calls, n + 1);
        }
      }
    }
  }

  /** Uuids stay unique exactly when no register or store inserts one that is there. */
  lemma UuidsExact(db: Db, op: Op, ok: bool)
    requires UniqueUuids(db.table)
    ensures UniqueUuids(Apply(db, op, ok).table) <==> !InsertsRepeated(db, op, ok)
  {
    hide UpdateRuns, UpdatedPerson, MaxPersonId, StoredUuid;
    match op
    case OpRegister(_, _, _, _, _, _) => RegisterUuids(db, op, ok);
    case OpStore(_, _, _, _) => StoreUuids(db, op, ok);
    case OpDelete(uuid) => SqlDeleteUuids(db.table, RowWithUuid(uuid));
    case OpDeleteByName(name, createtime) => SqlDeleteUuids(db.table, RowNamed(name, createtime));
    case _ => hide First;
  }

  predicate InsertsRepeated(db: Db, op: Op, ok: bool) {
    ok && match op
      case OpRegister(uuid, p, _, _, generated, _) =>
        !HasIdcard(db.table, p.idcard) && HasUuid(db.table, StoredUuid(uuid, generated))
      case OpStore(uuid, p, generated, _) =>
        First(db.ram, Known(p.idcard, StoredUuid(uuid, generated))) == |db.ram|
        && HasUuid(db.table, StoredUuid(uuid, generated))
      case _ => false
  }

  lemma AppendUuid(t: seq<Row>, r: Row)
    requires UniqueUuids(t)
    ensures UniqueUuids(t + [r]) <==> !HasUuid(t, r.facts.uuid)
  {
    var u, i := t + [r], First(t, RowWithUuid(r.facts.uuid));
    assert u[|t|] == r && forall j :: 0 <= j < |t| ==> u[j] == t[j];
    if i < |t| {
      assert u[i].facts.uuid == u[|t|].facts.uuid;
    } else {
      assert forall j :: 0 <= j < |t| ==> !RowWithUuid(r.facts.uuid)(t[j]);
    }
  }

  lemma RegisterUuids(db: Db, op: Op, ok: bool)
    requires UniqueUuids(db.table) && op.OpRegister?
    ensures UniqueUuids(Apply(db, op, ok).table) <==> !InsertsRepeated(db, op, ok)
  {
    var t := Registered(db, op.uuid, op.profile, op.feature, op.generated, op.now);
    AppendUuid(db.table, NewRow(t, RegisteredImage(db, op.profile.idcard, op.image), |op.feature|));
    hide First, MaxPersonId;
  }

  lemma StoreUuids(db: Db, op: Op, ok: bool)
    requires UniqueUuids(db.table) && op.OpStore?
    ensures UniqueUuids(Apply(db, op, ok).table) <==> !InsertsRepeated(db, op, ok)
  {
    AppendUuid(db.table, NewRow(Stored(db, op.uuid, op.profile, op.generated, op.now), IMAGE_ROOT, 0));
    hide First, MaxPersonId;
  }

  lemma SqlDeleteUuids(t: seq<Row>, where: Row -> bool)
    requires UniqueUuids(t)
    ensures UniqueUuids(SqlDelete(t, where))
  {
    var places := DeleteLeaves(t, where);
    hide SqlDelete;
  }

  /** Identification finds whom enrolment stored exactly when the id fits uint16_t: a greater one
      comes out of getFingerId truncated, and finds somebody else or nobody. */
  lemma FingerFindsItsOwner(db: Db, uuid: string)
    requires Aligned(db) && UniqueUuids(db.table) && DistinctFingers(db.table) && HasUuid(db.table, uuid)
    requires db.table[First(db.table, RowWithUuid(uuid))].fingerId > 0
    ensures var p := FindByFinger(db, FindFingerId(db, uuid));
            p.Some? && p.value.facts.uuid == uuid
            <==> db.table[First(db.table, RowWithUuid(uuid))].fingerId < 0x1_0000
  {
    FingerIdReadExact(db, uuid);
    var i := First(db.table, RowWithUuid(uuid));
    var id := db.table[i].fingerId;
    var found := FindFingerId(db, uuid);
    assert found == Uint16(id);
    if id < 0x1_0000 {
      assert found == id;
      FirstWithFinger(db, i, id);
    } else {
      OtherFinger(db, i, found);
    }
  }

  /** Another finger id finds another person, or nobody. */
  lemma OtherFinger(db: Db, i: nat, id: int)
    requires Aligned(db) && UniqueUuids(db.table) && i < |db.table|
    requires db.table[i].fingerId > 0 && db.table[i].fingerId != id
    ensures var p := FindByFinger(db, id); p.None? || p.value.facts.uuid != db.table[i].facts.uuid
  {
    var j := First(db.ram, (p: Person) => p.fingerId == id);
    assert Agree(db.table[i], db.ram[i]);
    assert j < |db.ram| ==> Agree(db.table[j], db.ram[j]) && j != i;
  }

  /** In an agreeing cache the first person with a positive finger id stands where its row does. */
  lemma FirstWithFinger(db: Db, i: nat, id: int)
    requires Aligned(db) && DistinctFingers(db.table) && i < |db.table| && db.table[i].fingerId == id && id > 0
    ensures First(db.ram, (p: Person) => p.fingerId == id) == i
    ensures db.ram[i].facts.uuid == db.table[i].facts.uuid
  {
    var j := First(db.ram, (p: Person) => p.fingerId == id);
    assert Agree(db.table[i], db.ram[i]);
    assert j <= i && Agree(db.table[j], db.ram[j]);
  }

  // ----- What goes wrong outside the safe calls -------------------------------------------

  /** The featuresize column.  A register without a feature keeps the stored one but writes
      the size of its empty argument. */
  lemma FeatureSizeExact(db: Db, i: nat, uuid: string, p: Profile, feature: Blob, image: Option<string>,
                         generated: string, now: string)
    requires Inv(db) && i < |db.table| && db.table[i].facts.idcard == p.idcard
    ensures var r := Register(db, uuid, p, feature, image, generated, now, true).table[i];
            r.featureSize == |r.facts.feature| <==> feature != [] || db.table[i].facts.feature == []
  {
    assert RowWithIdcard(p.idcard)(db.table[i]);
    var r := First(db.table, RowWithIdcard(p.idcard));
    assert r <= i;
    assert r == i;
  }
}
