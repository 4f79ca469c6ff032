/** When table and cache agree, with nothing assumed about uuids and idcards being unique. */
module PersonAgreement {
  import opened Collections
  import opened Options
  import opened PersonTable
  import opened PersonRuns

  // ----- What a statement writes ------------------------------------------------------------

  /** The WHERE of an operation that updates the rows of one person. */
  function Target(op: Op): Row -> bool {
    match op
    case OpRegister(_, p, _, _, _, _) => RowWithIdcard(p.idcard)
    case OpUpdate(uuid, _, _, _, _) => RowWithUuid(uuid)
    case OpUpdateDirectly(uuid, _, _, _, _, _) => RowWithUuid(uuid)
    case OpUpdateFeature(uuid, _, _) => RowWithUuid(uuid)
    case OpUpdateColumns(uuid, _, _, _, _) => RowWithUuid(uuid)
    case OpSetFingerprint(uuid, _) => RowWithUuid(uuid)
    case OpSetFingerId(uuid, _) => RowWithUuid(uuid)
    case _ => (r: Row) => false
  }

  /** Whether the operation gets as far as its statement and the statement succeeds. */
  predicate Writes(db: Db, op: Op, ok: bool) {
    ok && match op
      case OpUpdate(uuid, _, feature, jpeg, _) => UpdateRuns(db, uuid, feature, jpeg)
      case OpUpdateFeature(uuid, _, _) => IdcardInRam(db, uuid) != ""
      case OpSetFingerprint(uuid, _) => uuid != ""
      case _ => true
  }

  /** The cached sex p agrees with the written one. */
  predicate SexAs(p: Person, sex: string) {
    p.facts.sex == sex || (sex == "" && p.facts.sex == "unknow")
  }

  /** A cached person already has in every shared column what the statement of the operation
      writes there. */
  predicate Carries(db: Db, op: Op, p: Person) {
    match op
    case OpRegister(uuid, q, feature, _, generated, now) =>
      var t := Registered(db, uuid, q, feature, generated, now);
      && p.facts == t.facts.(uuid := p.facts.uuid, personId := p.facts.personId, idcard := p.facts.idcard,
                             fingerprint := p.facts.fingerprint, sex := p.facts.sex)
      && SexAs(p, t.facts.sex)
    case OpUpdate(uuid, q, feature, jpeg, now) =>
      var i := First(db.ram, WithUuid(uuid));
      i < |db.ram| &&
      var t := UpdatedPerson(db.ram[i], q, feature, jpeg, now);
      && p.facts == t.facts.(uuid := p.facts.uuid, personId := p.facts.personId, personType := p.facts.personType,
                             gids := p.facts.gids, pids := p.facts.pids, fingerprint := p.facts.fingerprint,
                             sex := p.facts.sex)
      && SexAs(p, t.facts.sex)
    case OpUpdateDirectly(uuid, name, idcard, sex, feature, now) =>
      && p.facts == DirectFacts(p.facts, name, idcard, p.facts.sex, DirectFeature(db, uuid, feature), now)
      && SexAs(p, sex)
    case OpUpdateFeature(_, feature, _) => p.facts.feature == feature
    case OpUpdateColumns(_, mode, tenantId, id, status) =>
      p.facts == p.facts.(attendanceMode := mode, tenantId := tenantId, id := id, status := status)
    case OpSetFingerprint(_, data) => p.facts.fingerprint == data
    case OpSetFingerId(_, id) => id > 0 || p.fingerId > 0 ==> p.fingerId == id
    case _ => true
  }

  /** The UPDATE hits every row of its WHERE, the loop changes the first cached person only: the
      others must carry already what is written. */
  predicate RepeatsCarry(db: Db, op: Op)
    requires |db.table| == |db.ram|
  {
    forall j :: First(db.table, Target(op)) < j < |db.table| && Target(op)(db.table[j]) ==> Carries(db, op, db.ram[j])
  }

  /** The condition under which an operation leaves table and cache in agreement. */
  predicate KeepsAgreement(db: Db, op: Op, ok: bool)
    requires |db.table| == |db.ram|
  {
    match op
    case OpDelete(uuid) => Matching(db.table, RowWithUuid(uuid)) <= if ok then 1 else 0
    case OpDeleteByName(name, createtime) => Matching(db.table, RowNamed(name, createtime)) <= if ok then 1 else 0
    case OpStore(uuid, p, generated, _) =>
      ok && !HasIdcard(db.table, p.idcard) && !HasUuid(db.table, StoredUuid(uuid, generated))
    case OpWipe => ok || db.table == []
    case _ => Writes(db, op, ok) ==> RepeatsCarry(db, op)
  }

  // ----- Updates --------------------------------------------------------------------------

  /** An UPDATE of all matches against a change of the first match. */
  lemma UpdateAligned(db: Db, onRow: Row -> bool, onPerson: Person -> bool, assign: Row -> Row, change: Person -> Person)
    requires Aligned(db)
    requires forall i :: 0 <= i < |db.table| ==> onRow(db.table[i]) == onPerson(db.ram[i])
    requires var i := First(db.table, onRow); i < |db.table| ==> Agree(assign(db.table[i]), change(db.ram[i]))
    ensures Aligned(Db(SqlUpdate(db.table, onRow, assign), ChangeFirst(db.ram, onPerson, change)))
        <==> forall j :: First(db.table, onRow) < j < |db.table| && onRow(db.table[j]) ==>
               Agree(assign(db.table[j]), db.ram[j])
  {
    hide Agree;
    FirstAgrees(db.table, db.ram, onRow, onPerson);
    var i := First(db.table, onRow);
    var t, s := SqlUpdate(db.table, onRow, assign), ChangeFirst(db.ram, onPerson, change);
    forall j | 0 <= j < |t|
      ensures t[j] == if onRow(db.table[j]) then assign(db.table[j]) else db.table[j]
      ensures s[j] == if j == i then change(db.ram[j]) else db.ram[j]
    {}
    if j :| i < j < |t| && onRow(db.table[j]) && !Agree(assign(db.table[j]), db.ram[j]) {
      assert !Agree(t[j], s[j]);
    }
  }

  lemma RegisterAligned(db: Db, op: Op)
    requires Aligned(db) && op.OpRegister?
    ensures Aligned(Apply(db, op, true)) <==> RepeatsCarry(db, op)
  {
    var idcard := op.profile.idcard;
    var t := Registered(db, op.uuid, op.profile, op.feature, op.generated, op.now);
    var image := RegisteredImage(db, idcard, op.image);
    FirstAgrees(db.table, db.ram, RowWithIdcard(idcard), WithIdcard(idcard));
    var i := First(db.table, RowWithIdcard(idcard));
    if i < |db.table| {
      assert Agree(db.table[i], db.ram[i]);
      assert Agree(RegisterRow(db.table[i], t, image, |op.feature|), t);
      UpdateAligned(db, RowWithIdcard(idcard), WithIdcard(idcard),
                    (r: Row) => RegisterRow(r, t, image, |op.feature|), (o: Person) => t);
      forall j | i < j < |db.table| && db.table[j].facts.idcard == idcard
        ensures Agree(RegisterRow(db.table[j], t, image, |op.feature|), db.ram[j]) <==> Carries(db, op, db.ram[j])
      {
        assert Agree(db.table[j], db.ram[j]);
      }
    }
  }

  lemma UpdateRunAligned(db: Db, op: Op)
    requires Aligned(db) && op.OpUpdate? && UpdateRuns(db, op.uuid, op.feature, op.jpeg)
    ensures Aligned(Apply(db, op, true)) <==> RepeatsCarry(db, op)
  {
    FirstAgrees(db.table, db.ram, RowWithUuid(op.uuid), WithUuid(op.uuid));
    var i := First(db.ram, WithUuid(op.uuid));
    var t := UpdatedPerson(db.ram[i], op.profile, op.feature, op.jpeg, op.now);
    assert Agree(db.table[i], db.ram[i]);
    UpdateAligned(db, RowWithUuid(op.uuid), WithUuid(op.uuid), (r: Row) => UpdateRow(r, t), (o: Person) => t);
    forall j | i < j < |db.table| && db.table[j].facts.uuid == op.uuid
      ensures Agree(UpdateRow(db.table[j], t), db.ram[j]) <==> Carries(db, op, db.ram[j])
    {
      assert Agree(db.table[j], db.ram[j]);
    }
  }

  lemma DirectAligned(db: Db, op: Op)
    requires Aligned(db) && op.OpUpdateDirectly?
    ensures Aligned(Apply(db, op, true)) <==> RepeatsCarry(db, op)
  {
    var f := DirectFeature(db, op.uuid, op.feature);
    FirstAgrees(db.table, db.ram, RowWithUuid(op.uuid), WithUuid(op.uuid));
    UpdateAligned(db, RowWithUuid(op.uuid), WithUuid(op.uuid),
                  (r: Row) => r.(facts := DirectFacts(r.facts, op.name, op.idcard, op.sex, f, op.now), featureSize := |f|),
                  (p: Person) => p.(facts := DirectFacts(p.facts, op.name, op.idcard, op.sex, f, op.now)));
    forall j | 0 <= j < |db.table|
      ensures Agree(db.table[j], db.ram[j])
    {}
  }

  lemma FeatureAligned(db: Db, op: Op)
    requires Aligned(db) && op.OpUpdateFeature? && Writes(db, op, true)
    ensures Aligned(Apply(db, op, true)) <==> RepeatsCarry(db, op)
  {
    UpdateAligned(db, RowWithUuid(op.uuid), WithUuid(op.uuid),
                  (r: Row) => r.(facts := r.facts.(feature := op.feature), featureSize := |op.feature|,
                                 image := if op.image.Some? then op.image.value else r.image),
                  (p: Person) => p.(facts := p.facts.(feature := op.feature)));
    forall j | 0 <= j < |db.table|
      ensures Agree(db.table[j], db.ram[j])
    {}
  }

  lemma ColumnsAligned(db: Db, op: Op)
    requires Aligned(db) && op.OpUpdateColumns?
    ensures Aligned(Apply(db, op, true)) <==> RepeatsCarry(db, op)
  {
    UpdateAligned(db, RowWithUuid(op.uuid), WithUuid(op.uuid),
                  (r: Row) => r.(facts := r.facts.(attendanceMode := op.attendanceMode, tenantId := op.tenantId,
                                                   id := op.id, status := op.status)),
                  (p: Person) => p.(facts := p.facts.(attendanceMode := op.attendanceMode, tenantId := op.tenantId,
                                                      id := op.id, status := op.status)));
    forall j | 0 <= j < |db.table|
      ensures Agree(db.table[j], db.ram[j])
    {}
  }

  lemma FingerprintAligned(db: Db, op: Op)
    requires Aligned(db) && op.OpSetFingerprint? && Writes(db, op, true)
    ensures Aligned(Apply(db, op, true)) <==> RepeatsCarry(db, op)
  {
    UpdateAligned(db, RowWithUuid(op.uuid), WithUuid(op.uuid),
                  (r: Row) => r.(facts := r.facts.(fingerprint := op.data)),
                  (p: Person) => p.(facts := p.facts.(fingerprint := op.data)));
    forall j | 0 <= j < |db.table|
      ensures Agree(db.table[j], db.ram[j])
    {}
  }

  lemma FingersAligned(db: Db, op: Op)
    requires Aligned(db) && op.OpSetFingerId?
    ensures Aligned(Apply(db, op, true)) <==> RepeatsCarry(db, op)
  {
    var id := op.fingerId;
    UpdateAligned(db, RowWithUuid(op.uuid), WithUuid(op.uuid), (r: Row) => r.(fingerId := id),
                  (p: Person) => p.(fingerId := id));
    forall j | 0 <= j < |db.table|
      ensures Agree(db.table[j], db.ram[j])
    {}
  }

  // ----- Deletes and inserts ------------------------------------------------------------------

  lemma DeleteAligned(db: Db, onRow: Row -> bool, onPerson: Person -> bool, ok: bool)
    requires Aligned(db)
    requires forall i :: 0 <= i < |db.table| ==> onRow(db.table[i]) == onPerson(db.ram[i])
    ensures Aligned(Db(if ok then SqlDelete(db.table, onRow) else db.table, RemoveFirst(db.ram, onPerson)))
        <==> Matching(db.table, onRow) <= if ok then 1 else 0
  {
    FirstAgrees(db.table, db.ram, onRow, onPerson);
    SqlDeleteLength(db.table, onRow);
    var i := First(db.table, onRow);
    hide Agree, SqlDelete, First;
    if ok && Matching(db.table, onRow) <= 1 {
      SqlDeleteOne(db.table, onRow);
      if i < |db.table| {
        RemovedAligned(db, i);
      }
    }
  }

  lemma RemovedAligned(db: Db, i: nat)
    requires Aligned(db) && i < |db.table|
    ensures Aligned(Db(db.table[..i] + db.table[i + 1..], db.ram[..i] + db.ram[i + 1..]))
  {
    hide Agree;
    var t, s := db.table[..i] + db.table[i + 1..], db.ram[..i] + db.ram[i + 1..];
    forall j | 0 <= j < |t|
      ensures Agree(t[j], s[j])
    {
      var k := if j < i then j else j + 1;
      assert t[j] == db.table[k] && s[j] == db.ram[k];
    }
  }

  lemma StoreAligned(db: Db, op: Op, ok: bool)
    requires Aligned(db) && op.OpStore?
    ensures Aligned(Apply(db, op, ok)) <==> KeepsAgreement(db, op, ok)
  {
    var u := StoredUuid(op.uuid, op.generated);
    FirstAgrees(db.table, db.ram, RowWithIdcard(op.profile.idcard), WithIdcard(op.profile.idcard));
    FirstAgrees(db.table, db.ram, RowWithUuid(u), WithUuid(u));
    KnownExact(db.ram, op.profile.idcard, u);
    var t := Stored(db, op.uuid, op.profile, op.generated, op.now);
    var after := Apply(db, op, ok);
    if KeepsAgreement(db, op, ok) {
      assert Agree(NewRow(t, IMAGE_ROOT, 0), t);
      assert after == Db(db.table + [NewRow(t, IMAGE_ROOT, 0)], db.ram + [t]);
    } else {
      assert |after.ram| == |db.ram| + 1 && |after.table| == |db.table|;
    }
  }

  lemma NothingWritten(db: Db, op: Op, ok: bool)
    requires !Writes(db, op, ok)
    requires !op.OpDelete? && !op.OpDeleteByName? && !op.OpStore? && !op.OpWipe?
    ensures Apply(db, op, ok) == db
  {}

  // ----- Main results -------------------------------------------------------------------------

  /** From any state in which table and cache agree, repeated uuids and idcards included, an
      operation leaves them in agreement exactly under its condition. */
  lemma AgreementExact(db: Db, op: Op, ok: bool)
    requires Aligned(db)
    ensures Aligned(Apply(db, op, ok)) <==> KeepsAgreement(db, op, ok)
  {
    hide Aligned, Apply, RepeatsCarry;
    match op
    case OpDelete(uuid) => DeleteByUuidAligned(db, uuid, ok);
    case OpDeleteByName(name, createtime) => DeleteByNameAligned(db, name, createtime, ok);
    case OpStore(_, _, _, _) => StoreAligned(db, op, ok);
    case OpWipe => WipeAligned(db, ok);
    case _ =>
      if !Writes(db, op, ok) {
        NothingWritten(db, op, ok);
      } else {
        UpdatesAligned(db, op);
      }
  }

  lemma UpdatesAligned(db: Db, op: Op)
    requires Aligned(db) && Writes(db, op, true)
    requires !op.OpDelete? && !op.OpDeleteByName? && !op.OpStore? && !op.OpWipe?
    ensures Aligned(Apply(db, op, true)) <==> RepeatsCarry(db, op)
  {
    hide Aligned, Apply, RepeatsCarry;
    match op
    case OpRegister(_, _, _, _, _, _) => RegisterAligned(db, op);
    case OpUpdate(_, _, _, _, _) => UpdateRunAligned(db, op);
    case OpUpdateDirectly(_, _, _, _, _, _) => DirectAligned(db, op);
    case OpSetFingerId(_, _) => FingersAligned(db, op);
    case OpClearFingerIds => ClearsAligned(db, op);
    case OpClearRfidCards => ClearsAligned(db, op);
    case OpUpdateFeature(_, _, _) => FeatureAligned(db, op);
    case OpUpdateColumns(_, _, _, _, _) => ColumnsAligned(db, op);
    case OpSetFingerprint(_, _) => FingerprintAligned(db, op);
  }

  lemma ClearsAligned(db: Db, op: Op)
    requires Aligned(db) && (op.OpClearFingerIds? || op.OpClearRfidCards?)
    ensures Aligned(Apply(db, op, true)) && RepeatsCarry(db, op)
  {}

  lemma WipeAligned(db: Db, ok: bool)
    requires Aligned(db)
    ensures Aligned(Apply(db, OpWipe, ok)) <==> ok || db.table == []
  {}

  lemma DeleteByUuidAligned(db: Db, uuid: string, ok: bool)
    requires Aligned(db)
    ensures Aligned(Apply(db, OpDelete(uuid), ok)) <==> KeepsAgreement(db, OpDelete(uuid), ok)
  {
    DeleteAligned(db, RowWithUuid(uuid), WithUuid(uuid), ok);
  }

  lemma DeleteByNameAligned(db: Db, name: string, createtime: string, ok: bool)
    requires Aligned(db)
    ensures Aligned(Apply(db, OpDeleteByName(name, createtime), ok))
        <==> KeepsAgreement(db, OpDeleteByName(name, createtime), ok)
  {
    DeleteAligned(db, RowNamed(name, createtime), PersonNamed(name, createtime), ok);
  }

  /** While uuids and idcards are unique, only deletes, the wipe and StoreUserWithoutFaceData can
      end the agreement; registers and updates never do, whatever uuid or idcard they bring. */
  lemma AgreementWhileUnique(db: Db, op: Op, ok: bool)
    requires Inv(db)
    ensures Aligned(Apply(db, op, ok)) <==>
            match op
            case OpDelete(uuid) => ok || !HasUuid(db.table, uuid)
            case OpDeleteByName(name, createtime) => Matching(db.table, RowNamed(name, createtime)) <= if ok then 1 else 0
            case OpStore(uuid, p, generated, _) =>
              ok && !HasIdcard(db.table, p.idcard) && !HasUuid(db.table, StoredUuid(uuid, generated))
            case OpWipe => ok || db.table == []
            case _ => true
  {
    AgreementExact(db, op, ok);
    hide Aligned, Apply, Carries, Writes, HasIdcard;
    match op
    case OpDelete(uuid) =>
      SqlDeleteUnique(db.table, uuid);
      SqlDeleteLength(db.table, RowWithUuid(uuid));
    case _ =>
  }

  /** A register under an idcard that a second row holds as well ends the agreement as soon as
      the clock has moved on: that row gets the new time, its cached person does not. */
  lemma RegisterUnderSharedIdcard(db: Db, op: Op, j: nat)
    requires Aligned(db) && op.OpRegister?
    requires First(db.table, RowWithIdcard(op.profile.idcard)) < j < |db.table|
    requires db.table[j].facts.idcard == op.profile.idcard && db.ram[j].facts.createtime != op.now
    ensures !Aligned(Apply(db, op, true))
  {
    AgreementExact(db, op, true);
    assert Target(op)(db.table[j]) && !Carries(db, op, db.ram[j]);
    hide Carries, Aligned, Apply;
  }

  predicate KeepsRun(db: Db, calls: seq<Call>)
    decreases |calls|
  {
    calls == [] || (|db.table| == |db.ram| && KeepsAgreement(db, calls[0].op, calls[0].ok)
                    && KeepsRun(Apply(db, calls[0].op, calls[0].ok), calls[1..]))
  }

  /** Table and cache agree all along a run exactly when every call of it meets its condition. */
  lemma {:induction false} AgreementOnEveryRun(db: Db, calls: seq<Call>)
    requires Aligned(db)
    ensures KeepsRun(db, calls) <==> forall n :: 0 <= n <= |calls| ==> Aligned(Run(db, calls[..n]))
    decreases |calls|
  {
    hide Apply, Agree, KeepsAgreement;
    assert Run(db, calls[..0]) == db;
    if calls == [] {
    } else {
      var next := Apply(db, calls[0].op, calls[0].ok);
      AgreementExact(db, calls[0].op, calls[0].ok);
      hide Aligned;
      RunPrefix(db, calls, 1);
      assert Run(next, calls[1..][..0]) == next;
      if Aligned(next) {
        AgreementOnEveryRun(next, calls[1..]);
        forall n | 0 < n <= |calls|
          ensures Aligned(Run(db, calls[..n])) <==> Aligned(Run(next, calls[1..][..n - 1]))
        {
          RunPrefix(db, calls, n);
        }
        forall n | 0 <= n <= |calls[1..]|
          ensures Aligned(Run(next, calls[1..][..n])) <==> Aligned(Run(db, calls[..n + 1]))
        {
          RunPrefix(db, calls, n + 1);
        }
      }
    }
  }

  /** The loading loop starts such a run exactly when every personid is positive: a smaller one
      is loaded as 1. */
  lemma LoadedAgrees(t: seq<Row>)
    ensures Aligned(Db(t, LoadAll(t))) <==> forall i :: 0 <= i < |t| ==> t[i].facts.personId >= 1
  {
    var s := LoadAll(t);
    forall i | 0 <= i < |t|
      ensures Agree(t[i], s[i]) <==> t[i].facts.personId >= 1
    {
      assert s[i] == LoadPerson(t[i]);
    }
  }
}
