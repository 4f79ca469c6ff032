/** When a stored face feature is lost.  A person is followed by the primary key of the row,
    which no statement changes. */
module PersonFeatures {
  import opened Collections
  import opened PersonTable
  import opened PersonRuns

  /** The person with the key is there and has a feature. */
  predicate HasFeature(t: seq<Row>, key: int) {
    exists i :: 0 <= i < |t| && t[i].facts.personId == key && t[i].facts.feature != []
  }

  /** The operation, if its statement succeeds, leaves row r with a feature. */
  predicate Spares(db: Db, op: Op, r: Row) {
    match op
    case OpRegister(_, p, feature, _, _, _) =>
      var k := First(db.table, RowWithIdcard(p.idcard));
      r.facts.idcard != p.idcard || feature != [] || (k < |db.table| && db.table[k].facts.feature != [])
    case OpUpdate(uuid, _, feature, jpeg, _) =>
      var k := First(db.ram, WithUuid(uuid));
      r.facts.uuid != uuid || (UpdateRuns(db, uuid, feature, jpeg) ==>
                                 UpdatedFeature(db.ram[k].facts.feature, feature, jpeg) != [])
    case OpUpdateDirectly(uuid, _, _, _, feature, _) => r.facts.uuid != uuid || DirectFeature(db, uuid, feature) != []
    case OpUpdateFeature(uuid, feature, _) => r.facts.uuid != uuid || feature != [] || IdcardInRam(db, uuid) == ""
    case OpStore(uuid, p, generated, _) =>
      var k := First(db.ram, Known(p.idcard, StoredUuid(uuid, generated)));
      k < |db.ram| && r.facts.uuid == db.ram[k].facts.uuid ==> db.ram[k].facts.feature != []
    case OpDelete(uuid) => r.facts.uuid != uuid
    case OpDeleteByName(name, createtime) => r.facts.name != name || r.facts.createtime != createtime
    case OpWipe => false
    case _ => true
  }

  // ----- Keys -----------------------------------------------------------------------------

  lemma SqlDeleteKeys(t: seq<Row>, where: Row -> bool)
    requires KeysAscend(t)
    ensures KeysAscend(SqlDelete(t, where))
  {
    var places := DeleteLeaves(t, where);
    hide SqlDelete;
  }

  /** A DELETE leaves, under its key, each row that it does not match. */
  lemma KeyAfterDelete(t: seq<Row>, where: Row -> bool, i: nat)
    requires KeysAscend(t) && i < |t|
    ensures t[i] in SqlDelete(t, where) <==> !where(t[i])
    ensures forall r :: r in SqlDelete(t, where) && r.facts.personId == t[i].facts.personId ==> r == t[i]
  {
    hide SqlDelete;
    DeleteMembers(t, where, t[i]);
    forall r | r in SqlDelete(t, where) && r.facts.personId == t[i].facts.personId
      ensures r == t[i]
    {
      DeleteMembers(t, where, r);
      var k :| 0 <= k < |t| && t[k] == r;
    }
  }

  /** The rows stay where they are, under their keys; an added row comes last, with a new key. */
  ghost predicate RowsStay(t: seq<Row>, u: seq<Row>) {
    && |t| <= |u| <= |t| + 1
    && (forall i :: 0 <= i < |t| ==> u[i].facts.personId == t[i].facts.personId)
    && (|u| > |t| ==> u[|t|].facts.personId == NextPersonId(t))
  }

  lemma OtherOpsKeepRows(db: Db, op: Op, ok: bool)
    requires !op.OpDelete? && !op.OpDeleteByName? && !op.OpWipe?
    ensures RowsStay(db.table, Apply(db, op, ok).table)
  {
    hide UpdateRuns, UpdatedPerson, First, StoredUuid;
    if op.OpRegister? || op.OpStore? {
      InsertsKeepRows(db, op, ok);
    }
  }

  lemma InsertsKeepRows(db: Db, op: Op, ok: bool)
    requires op.OpRegister? || op.OpStore?
    ensures RowsStay(db.table, Apply(db, op, ok).table)
  {
    hide StoredUuid, MaxPersonId, Known;
  }

  lemma RowsStayAscend(t: seq<Row>, u: seq<Row>)
    requires KeysAscend(t) && RowsStay(t, u)
    ensures KeysAscend(u)
  {}

  lemma KeysKept(db: Db, op: Op, ok: bool)
    requires KeysAscend(db.table)
    ensures KeysAscend(Apply(db, op, ok).table)
  {
    match op
    case OpDelete(uuid) => SqlDeleteKeys(db.table, RowWithUuid(uuid));
    case OpDeleteByName(name, createtime) => SqlDeleteKeys(db.table, RowNamed(name, createtime));
    case OpWipe =>
    case _ =>
      OtherOpsKeepRows(db, op, ok);
      RowsStayAscend(db.table, Apply(db, op, ok).table);
  }

  // ----- One call -------------------------------------------------------------------------

  lemma FeatureAt(t: seq<Row>, i: nat)
    requires KeysAscend(t) && i < |t|
    ensures HasFeature(t, t[i].facts.personId) <==> t[i].facts.feature != []
  {}

  lemma FeatureAfterDelete(t: seq<Row>, where: Row -> bool, i: nat)
    requires KeysAscend(t) && i < |t| && t[i].facts.feature != []
    ensures HasFeature(SqlDelete(t, where), t[i].facts.personId) <==> !where(t[i])
  {
    KeyAfterDelete(t, where, i);
    hide SqlDelete, KeysAscend;
    var u := SqlDelete(t, where);
    assert forall j :: 0 <= j < |u| ==> u[j] in u;
  }

  /** An operation that keeps the rows in place: what becomes of the feature of row i. */
  lemma FeatureInPlace(db: Db, op: Op, i: nat)
    requires i < |db.table| && db.table[i].facts.feature != []
    requires !op.OpDelete? && !op.OpDeleteByName? && !op.OpWipe?
    ensures i < |Apply(db, op, true).table|
    ensures Apply(db, op, true).table[i].facts.feature != [] <==> Spares(db, op, db.table[i])
  {
    match op
    case OpRegister(_, p, _, _, _, _) => RegisterSpares(db, op, i);
    case OpStore(_, _, _, _) => StoreSpares(db, op, i);
    case _ =>
  }

  lemma RegisterSpares(db: Db, op: Op, i: nat)
    requires i < |db.table| && db.table[i].facts.feature != [] && op.OpRegister?
    ensures i < |Apply(db, op, true).table|
    ensures Apply(db, op, true).table[i].facts.feature != [] <==> Spares(db, op, db.table[i])
  {
    var k := First(db.table, RowWithIdcard(op.profile.idcard));
    assert db.table[i].facts.idcard == op.profile.idcard ==> RowWithIdcard(op.profile.idcard)(db.table[i]) && k <= i;
    hide First, RegisteredImage;
  }

  lemma StoreSpares(db: Db, op: Op, i: nat)
    requires i < |db.table| && db.table[i].facts.feature != [] && op.OpStore?
    ensures i < |Apply(db, op, true).table|
    ensures Apply(db, op, true).table[i].facts.feature != [] <==> Spares(db, op, db.table[i])
  {
    hide First, StoredUuid, MaxPersonId;
  }

  /** From any state, whatever the cache holds, a person with a feature has one after the call
      exactly when the statement fails or the call spares the row. */
  lemma FeatureExact(db: Db, op: Op, ok: bool, i: nat)
    requires KeysAscend(db.table) && i < |db.table| && db.table[i].facts.feature != []
    ensures HasFeature(Apply(db, op, ok).table, db.table[i].facts.personId) <==> !ok || Spares(db, op, db.table[i])
  {
    var after := Apply(db, op, ok);
    match op
    case OpDelete(uuid) => FeatureAfterDelete(db.table, RowWithUuid(uuid), i);
    case OpDeleteByName(name, createtime) => FeatureAfterDelete(db.table, RowNamed(name, createtime), i);
    case OpWipe =>
    case _ =>
      hide Apply, Spares;
      if ok {
        FeatureInPlace(db, op, i);
        OtherOpsKeepRows(db, op, ok);
        KeysKept(db, op, ok);
        FeatureAt(after.table, i);
      } else {
        FailureKeepsTable(db, op);
      }
  }

  lemma FailureKeepsTable(db: Db, op: Op)
    ensures Apply(db, op, false).table == db.table
  {}

  // ----- Runs -----------------------------------------------------------------------------

  predicate SparedRun(db: Db, calls: seq<Call>, key: int)
    decreases |calls|
  {
    calls == []
    || (&& (calls[0].ok ==> forall i :: 0 <= i < |db.table| && db.table[i].facts.personId == key ==>
                              Spares(db, calls[0].op, db.table[i]))
        && SparedRun(Apply(db, calls[0].op, calls[0].ok), calls[1..], key))
  }

  /** A person keeps a feature all along a run exactly when every successful call of it spares
      the person's row. */
  lemma {:induction false} FeatureOnEveryRun(db: Db, calls: seq<Call>, key: int)
    requires KeysAscend(db.table) && HasFeature(db.table, key)
    ensures SparedRun(db, calls, key) <==> forall n :: 0 <= n <= |calls| ==> HasFeature(Run(db, calls[..n]).table, key)
    decreases |calls|
  {
    assert Run(db, calls[..0]) == db;
    if calls == [] {
    } else {
      var next := Apply(db, calls[0].op, calls[0].ok);
      var i :| 0 <= i < |db.table| && db.table[i].facts.personId == key && db.table[i].facts.feature != [];
      FeatureExact(db, calls[0].op, calls[0].ok, i);
      KeysKept(db, calls[0].op, calls[0].ok);
      assert forall j :: 0 <= j < |db.table| && db.table[j].facts.personId == key ==> j == i;
      hide Apply, HasFeature, Spares, KeysAscend;
      RunPrefix(db, calls, 1);
      assert Run(next, calls[1..][..0]) == next;
      if HasFeature(next.table, key) {
        FeatureOnEveryRun(next, calls[1..], key);
        forall n | 0 < n <= |calls|
          ensures HasFeature(Run(db, calls[..n]).table, key) <==> HasFeature(Run(next, calls[1..][..n - 1]).table, key)
        {
          RunPrefix(db, calls, n);
        }
        forall n | 0 <= n <= |calls[1..]|
          ensures HasFeature(Run(next, calls[1..][..n]).table, key) <==> HasFeature(Run(db, calls[..n + 1]).table, key)
        {
          RunPrefix(db, calls, n + 1);
        }
      }
    }
  }

  // ----- While uuids and idcards are unique ---------------------------------------------------

  /** The call asks for the feature of row r, or for the whole row, to be removed. */
  predicate Asks(op: Op, r: Row) {
    match op
    case OpUpdateFeature(uuid, feature, _) => r.facts.uuid == uuid && feature == []
    case OpDelete(uuid) => r.facts.uuid == uuid
    case OpDeleteByName(name, createtime) => r.facts.name == name && r.facts.createtime == createtime
    case OpWipe => true
    case _ => false
  }

  /** Then a call spares every row with a feature unless it asks for the removal. */
  lemma OnlyAskedIsErased(db: Db, op: Op, i: nat)
    requires Inv(db) && i < |db.table| && db.table[i].facts.feature != [] && !Asks(op, db.table[i])
    ensures Spares(db, op, db.table[i])
  {
    hide Inv, Spares;
    match op
    case OpRegister(_, p, _, _, _, _) => UniqueRegister(db, op, i);
    case OpUpdate(_, _, _, _, _) => UniqueUpdate(db, op, i);
    case OpUpdateDirectly(_, _, _, _, _, _) => UniqueDirect(db, op, i);
    case OpStore(_, _, _, _) => UniqueStore(db, op, i);
    case _ => OthersSpare(db, op, i);
  }

  lemma OthersSpare(db: Db, op: Op, i: nat)
    requires i < |db.table| && !Asks(op, db.table[i])
    requires !op.OpRegister? && !op.OpUpdate? && !op.OpUpdateDirectly? && !op.OpStore?
    ensures Spares(db, op, db.table[i])
  {}

  lemma UniqueRegister(db: Db, op: Op, i: nat)
    requires Inv(db) && i < |db.table| && db.table[i].facts.feature != [] && op.OpRegister?
    ensures Spares(db, op, db.table[i])
  {
    var idcard := op.profile.idcard;
    var k := First(db.table, RowWithIdcard(idcard));
    assert db.table[i].facts.idcard == idcard ==> RowWithIdcard(idcard)(db.table[i]) && k <= i && k == i;
  }

  lemma UniqueUpdate(db: Db, op: Op, i: nat)
    requires Inv(db) && i < |db.table| && db.table[i].facts.feature != [] && op.OpUpdate?
    ensures Spares(db, op, db.table[i])
  {
    FirstAgrees(db.table, db.ram, RowWithUuid(op.uuid), WithUuid(op.uuid));
    var k := First(db.table, RowWithUuid(op.uuid));
    assert db.table[i].facts.uuid == op.uuid ==> RowWithUuid(op.uuid)(db.table[i]) && k <= i && k == i;
    assert Agree(db.table[i], db.ram[i]);
  }

  lemma UniqueDirect(db: Db, op: Op, i: nat)
    requires Inv(db) && i < |db.table| && db.table[i].facts.feature != [] && op.OpUpdateDirectly?
    ensures Spares(db, op, db.table[i])
  {
    var k := First(db.table, RowWithUuid(op.uuid));
    assert db.table[i].facts.uuid == op.uuid ==> RowWithUuid(op.uuid)(db.table[i]) && k <= i && k == i;
  }

  lemma UniqueStore(db: Db, op: Op, i: nat)
    requires Inv(db) && i < |db.table| && db.table[i].facts.feature != [] && op.OpStore?
    ensures Spares(db, op, db.table[i])
  {
    var k := First(db.ram, Known(op.profile.idcard, StoredUuid(op.uuid, op.generated)));
    if k < |db.ram| && db.table[i].facts.uuid == db.ram[k].facts.uuid {
      assert Agree(db.table[k], db.ram[k]);
      assert i == k;
    }
  }

  predicate NeverAsked(db: Db, calls: seq<Call>, key: int)
    decreases |calls|
  {
    calls == []
    || (&& (forall i :: 0 <= i < |db.table| && db.table[i].facts.personId == key ==> !Asks(calls[0].op, db.table[i]))
        && NeverAsked(Apply(db, calls[0].op, calls[0].ok), calls[1..], key))
  }

  /** Over a run that keeps uuids and idcards unique, a stored feature stays until a call asks
      for its removal. */
  lemma {:induction false} FeatureNeverErased(db: Db, calls: seq<Call>, key: int)
    requires Inv(db) && SafeRun(db, calls) && HasFeature(db.table, key) && NeverAsked(db, calls, key)
    ensures HasFeature(Run(db, calls).table, key)
    decreases |calls|
  {
    if calls == [] {
    } else {
      var op, ok := calls[0].op, calls[0].ok;
      var i :| 0 <= i < |db.table| && db.table[i].facts.personId == key && db.table[i].facts.feature != [];
      assert KeysAscend(db.table);
      hide Apply, Safe, Inv, HasFeature, Spares, KeysAscend;
      InvariantExact(db, op, ok);
      OnlyAskedIsErased(db, op, i);
      FeatureExact(db, op, ok, i);
      FeatureNeverErased(Apply(db, op, ok), calls[1..], key);
    }
  }
}
