/** What every operation leaves in the table and in the cache, column by column, stated without the
    functions that compute it. */
module PersonStored {
  import opened Collections
  import opened Options
  import opened PersonTable
  import opened PersonRuns

  // ----- Loading ------------------------------------------------------------------------

  /** A loaded person is its row, except that no sex is read as "unknow", no card as an empty one,
      a key below 1 as 1, and QR code and timestamps not at all. */
  lemma LoadedExact(t: seq<Row>, i: nat)
    requires i < |t|
    ensures var p := LoadAll(t)[i];
            && |LoadAll(t)| == |t|
            && p.facts.(sex := "", personId := 0) == t[i].facts.(sex := "", personId := 0)
            && (t[i].facts.sex != "" ==> p.facts.sex == t[i].facts.sex)
            && (t[i].facts.sex == "" ==> p.facts.sex == "unknow")
            && (t[i].facts.personId >= 1 ==> p.facts.personId == t[i].facts.personId)
            && (t[i].facts.personId < 1 ==> p.facts.personId == 1)
            && p.fingerId == t[i].fingerId && p.qrCode == "" && p.stamps == Stamps("", "", "", "", "")
            && (t[i].iccardnum.Some? ==> p.iccard == t[i].iccardnum.value)
            && (t[i].iccardnum.None? ==> p.iccard == "")
  {}

  // ----- New persons --------------------------------------------------------------------

  /** The texts are those given, with a default for the sex only. */
  predicate AsGiven(f: Facts, p: Profile, now: string) {
    && f.idcard == p.idcard && f.name == p.name && f.department == p.department
    && f.timeOfAccess == p.timeOfAccess && f.attendanceMode == p.attendanceMode
    && f.tenantId == p.tenantId && f.id == p.id && f.status == p.status
    && f.personalModuleId == p.personalModuleId && f.createtime == now
    && f.sex == (if p.sex == "" then "Unknown" else p.sex)
    && f.personType == 0 && f.gids == "0" && f.pids == "2"
  }

  /** The key is the least positive one above all others. */
  predicate NextKey(t: seq<Row>, key: int) {
    && key >= 1 && (forall i :: 0 <= i < |t| ==> t[i].facts.personId < key)
    && (key == 1 || exists i :: 0 <= i < |t| && t[i].facts.personId == key - 1)
  }

  lemma NextKeyExact(t: seq<Row>)
    ensures NextKey(t, NextPersonId(t))
  {}

  /** A row and a person as they are inserted together. */
  predicate Inserted(r: Row, q: Person, p: Profile, now: string, image: string, card: string) {
    && AsGiven(r.facts, p, now) && q.facts == r.facts && r.facts.fingerprint == []
    && r.image == image && r.featureSize == |r.facts.feature|
    && r.iccardnum == Some(card) && q.iccard == card
    && r.fingerId == -1 && q.fingerId == 0 && r.qrCode == None && q.qrCode == ""
    && r.stamps == q.stamps == Stamps("", "", "", "", "")
  }

  predicate GrownByOne<T(==)>(after: seq<T>, before: seq<T>) {
    |after| == |before| + 1 && after[..|before|] == before
  }

  /** A register of somebody unknown appends one row and one person, with what was given. */
  lemma RegisterStoresNew(db: Db, uuid: string, p: Profile, feature: Blob, image: Option<string>,
                          generated: string, now: string)
    requires Aligned(db) && !HasIdcard(db.table, p.idcard)
    ensures var after := Register(db, uuid, p, feature, image, generated, now, true);
            var n := |db.table|;
            && GrownByOne(after.table, db.table) && GrownByOne(after.ram, db.ram)
            && Inserted(after.table[n], after.ram[n], p, now, if image.Some? then image.value else "/mnt/user/",
                        if p.iccard == "" then "000000" else p.iccard)
            && after.table[n].facts.feature == feature
            && after.table[n].facts.uuid == (if |uuid| > 3 then uuid else generated)
            && NextKey(db.table, after.table[n].facts.personId)
  {
    FirstAgrees(db.table, db.ram, RowWithIdcard(p.idcard), WithIdcard(p.idcard));
    hide Aligned, First, Inserted;
    ComposedNew(db, uuid, p, feature, image, generated, now);
    hide Registered, RegisteredImage, NewRow;
  }

  lemma ComposedNew(db: Db, uuid: string, p: Profile, feature: Blob, image: Option<string>, generated: string,
                    now: string)
    requires First(db.table, RowWithIdcard(p.idcard)) == |db.table| && First(db.ram, WithIdcard(p.idcard)) == |db.ram|
    ensures var q := Registered(db, uuid, p, feature, generated, now);
            var r := NewRow(q, RegisteredImage(db, p.idcard, image), |feature|);
            && Inserted(r, q, p, now, if image.Some? then image.value else "/mnt/user/",
                        if p.iccard == "" then "000000" else p.iccard)
            && r.facts.feature == feature && r.facts.uuid == (if |uuid| > 3 then uuid else generated)
            && NextKey(db.table, r.facts.personId)
  {
    NextKeyExact(db.table);
    hide First, NextPersonId, NextKey;
  }

  /** StoreUserWithoutFaceData does the same for somebody with a new idcard and uuid, without a
      feature; whatever becomes of the statement, the person is in the cache. */
  lemma StoreStoresNew(db: Db, uuid: string, p: Profile, generated: string, now: string, ok: bool)
    requires var u := if |uuid| > 3 then uuid else generated;
             forall i :: 0 <= i < |db.ram| ==> db.ram[i].facts.idcard != p.idcard && db.ram[i].facts.uuid != u
    ensures var after := Store(db, uuid, p, generated, now, ok);
            var n, m := |db.table|, |db.ram|;
            && GrownByOne(after.ram, db.ram) && after.ram[m].facts.uuid == (if |uuid| > 3 then uuid else generated)
            && AsGiven(after.ram[m].facts, p, now) && after.ram[m].facts.feature == []
            && NextKey(db.table, after.ram[m].facts.personId)
            && (!ok ==> after.table == db.table)
            && (ok ==> GrownByOne(after.table, db.table)
                       && Inserted(after.table[n], after.ram[m], p, now, "/mnt/user/",
                                   if p.iccard == "" then "000000" else p.iccard))
  {
    NextKeyExact(db.table);
    hide First, NextPersonId, NextKey;
  }

  // ----- Known persons ------------------------------------------------------------------

  /** What a statement with the values of a person assigns: all shared columns but uuid, idcard,
      key and fingerprint. */
  predicate Assigned(after: Row, before: Row, q: Person) {
    && after.facts == q.facts.(uuid := before.facts.uuid, idcard := before.facts.idcard,
                               personId := before.facts.personId, fingerprint := before.facts.fingerprint)
    && after.iccardnum == Some(q.iccard)
    && after.fingerId == before.fingerId && after.qrCode == before.qrCode && after.stamps == before.stamps
  }

  /** For somebody the cache knows by idcard or uuid it appends another person, with the feature, the
      uuid and the key of the first such one, and writes the given texts, empty or not, over the
      rows of that uuid; feature and image included. */
  lemma StoreStoresKnown(db: Db, uuid: string, p: Profile, generated: string, now: string, ok: bool, k: nat)
    requires var u := if |uuid| > 3 then uuid else generated;
             && k < |db.ram| && (db.ram[k].facts.idcard == p.idcard || db.ram[k].facts.uuid == u)
             && forall i :: 0 <= i < k ==> db.ram[i].facts.idcard != p.idcard && db.ram[i].facts.uuid != u
    ensures var after := Store(db, uuid, p, generated, now, ok);
            var q, old' := after.ram[|db.ram|], db.ram[k].facts;
            && GrownByOne(after.ram, db.ram) && AsGiven(q.facts, p, now) && q.facts.fingerprint == []
            && q.facts.uuid == old'.uuid && q.facts.feature == old'.feature && q.facts.personId == old'.personId
            && q.fingerId == 0 && q.qrCode == "" && q.iccard == (if p.iccard == "" then "000000" else p.iccard)
            && |after.table| == |db.table|
            && (forall i :: 0 <= i < |db.table| ==>
                  if ok && db.table[i].facts.uuid == old'.uuid
                  then Assigned(after.table[i], db.table[i], q) && after.table[i].image == "/mnt/user/"
                       && after.table[i].featureSize == |q.facts.feature|
                  else after.table[i] == db.table[i])
  {
    assert Known(p.idcard, StoredUuid(uuid, generated))(db.ram[k]);
    assert First(db.ram, Known(p.idcard, StoredUuid(uuid, generated))) == k;
    hide First, StoredUuid, NextPersonId, Known;
  }

  /** A register of an idcard that is in the table but not in the cache keeps nothing but feature,
      uuid and key of the first row: what is not given is lost. */
  lemma RegisterStoresUncached(db: Db, uuid: string, p: Profile, feature: Blob, image: Option<string>,
                               generated: string, now: string)
    requires HasIdcard(db.table, p.idcard) && First(db.ram, WithIdcard(p.idcard)) == |db.ram|
    ensures var after := Register(db, uuid, p, feature, image, generated, now, true);
            var first := db.table[First(db.table, RowWithIdcard(p.idcard))];
            var q := after.ram[|db.ram|];
            && GrownByOne(after.ram, db.ram) && AsGiven(q.facts, p, now) && q.facts.fingerprint == []
            && q.facts.uuid == first.facts.uuid && q.facts.personId == first.facts.personId
            && q.facts.feature == (if feature != [] then feature else first.facts.feature)
            && q.fingerId == 0 && q.qrCode == "" && q.iccard == (if p.iccard == "" then "000000" else p.iccard)
            && |after.table| == |db.table|
            && (forall i :: 0 <= i < |db.table| ==>
                  if db.table[i].facts.idcard == p.idcard
                  then Assigned(after.table[i], db.table[i], q) && after.table[i].featureSize == |feature|
                       && ImageKept(after.table[i].image, first.image, image)
                  else after.table[i] == db.table[i])
  {
    hide First;
  }

  /** A saved image is stored, else the path that is there, else the root of all paths. */
  predicate ImageKept(after: string, before: string, image: Option<string>) {
    && (image.Some? ==> after == image.value)
    && (image.None? && before != "" ==> after == before)
    && (image.None? && before == "" ==> after == "/mnt/user/")
  }

  /** A given text is stored; otherwise the one that was there stays. */
  predicate Takes(after: string, given: string, before: string) {
    (given != "" ==> after == given) && (given == "" ==> after == before)
  }

  predicate TextsTaken(after: Facts, p: Profile, before: Facts) {
    && Takes(after.name, p.name, before.name) && Takes(after.sex, p.sex, before.sex)
    && Takes(after.department, p.department, before.department)
    && Takes(after.timeOfAccess, p.timeOfAccess, before.timeOfAccess)
    && Takes(after.attendanceMode, p.attendanceMode, before.attendanceMode)
    && Takes(after.tenantId, p.tenantId, before.tenantId) && Takes(after.id, p.id, before.id)
    && Takes(after.status, p.status, before.status)
  }

  /** What a register composes for somebody in the cache: given texts over cached ones. */
  predicate Recomposed(q: Person, p: Profile, before: Person, now: string) {
    && TextsTaken(q.facts, p, before.facts) && q.facts.idcard == p.idcard && q.facts.createtime == now
    && q.facts.personalModuleId == (if p.personalModuleId == 0 then before.facts.personalModuleId else p.personalModuleId)
    && q.facts.fingerprint == before.facts.fingerprint && q.facts.personType == before.facts.personType
    && q.facts.gids == before.facts.gids && q.facts.pids == before.facts.pids
    && Takes(q.iccard, p.iccard, before.iccard) && q.fingerId == before.fingerId && q.qrCode == before.qrCode
    && q.stamps == Stamps("", "", "", "", "")
  }

  /** A register of somebody on both sides: the first cached person of the idcard is composed anew,
      with the feature, uuid and key of the first row, and all rows of the idcard are assigned. */
  lemma RegisterStoresKnown(db: Db, uuid: string, p: Profile, feature: Blob, image: Option<string>,
                            generated: string, now: string)
    requires HasIdcard(db.table, p.idcard) && First(db.ram, WithIdcard(p.idcard)) < |db.ram|
    ensures var after := Register(db, uuid, p, feature, image, generated, now, true);
            var m := First(db.ram, WithIdcard(p.idcard));
            var first := db.table[First(db.table, RowWithIdcard(p.idcard))];
            var q := after.ram[m];
            && after.ram == db.ram[m := q] && Recomposed(q, p, db.ram[m], now)
            && q.facts.uuid == first.facts.uuid && q.facts.personId == first.facts.personId
            && q.facts.feature == (if feature != [] then feature else first.facts.feature)
            && |after.table| == |db.table|
            && (forall i :: 0 <= i < |db.table| ==>
                  if db.table[i].facts.idcard == p.idcard
                  then Assigned(after.table[i], db.table[i], q) && after.table[i].featureSize == |feature|
                       && ImageKept(after.table[i].image, first.image, image)
                  else after.table[i] == db.table[i])
  {
    hide First;
  }

  /** A register of somebody the cache alone knows appends a second cached person and a row. */
  lemma RegisterStoresUnlisted(db: Db, uuid: string, p: Profile, feature: Blob, image: Option<string>,
                               generated: string, now: string)
    requires !HasIdcard(db.table, p.idcard) && First(db.ram, WithIdcard(p.idcard)) < |db.ram|
    ensures var after := Register(db, uuid, p, feature, image, generated, now, true);
            var n := |db.table|;
            var q, r := after.ram[|db.ram|], after.table[n];
            && GrownByOne(after.ram, db.ram) && GrownByOne(after.table, db.table)
            && Recomposed(q, p, db.ram[First(db.ram, WithIdcard(p.idcard))], now)
            && q.facts.uuid == (if |uuid| > 3 then uuid else generated) && q.facts.feature == feature
            && NextKey(db.table, q.facts.personId)
            && r.facts == q.facts.(fingerprint := []) && r.fingerId == -1 && r.iccardnum == Some(q.iccard)
            && r.qrCode == None && r.stamps == Stamps("", "", "", "", "") && r.featureSize == |feature|
            && ImageKept(r.image, "", image)
  {
    NextKeyExact(db.table);
    hide First, NextPersonId, NextKey;
  }

  /** An update composes the first cached person of the uuid anew and assigns all rows of it. */
  lemma UpdateStoresKnown(db: Db, uuid: string, p: Profile, feature: Blob, jpeg: Extraction, now: string)
    requires UpdateRuns(db, uuid, feature, jpeg)
    ensures var after := Update(db, uuid, p, feature, jpeg, now, true);
            var m := First(db.ram, WithUuid(uuid));
            var q, before := after.ram[m], db.ram[m];
            && after.ram == db.ram[m := q]
            && TextsTaken(q.facts, p, before.facts) && Takes(q.facts.idcard, p.idcard, before.facts.idcard)
            && q.facts.createtime == now && q.facts.personalModuleId == p.personalModuleId
            && q.facts.feature == (if feature != [] then feature
                                   else if jpeg.Extracted? then jpeg.feature else before.facts.feature)
            && Takes(q.iccard, p.iccard, before.iccard)
            && q.facts.uuid == before.facts.uuid && q.facts.personId == before.facts.personId
            && q.facts.fingerprint == before.facts.fingerprint && q.facts.personType == before.facts.personType
            && q.facts.gids == before.facts.gids && q.facts.pids == before.facts.pids
            && q.fingerId == before.fingerId && q.qrCode == before.qrCode && q.stamps == before.stamps
            && |after.table| == |db.table|
            && (forall i :: 0 <= i < |db.table| ==>
                  var r := db.table[i];
                  if r.facts.uuid == uuid
                  then after.table[i] == r.(iccardnum := Some(q.iccard), featureSize := |q.facts.feature|,
                                            facts := q.facts.(uuid := r.facts.uuid, personId := r.facts.personId,
                                                              fingerprint := r.facts.fingerprint, gids := r.facts.gids,
                                                              pids := r.facts.pids, personType := r.facts.personType))
                  else after.table[i] == r)
  {
    hide First;
  }

  // ----- Single columns -----------------------------------------------------------------

  /** The rows of the uuid, and the first cached person with it, become as said; all else stays. */
  predicate RowsBecome(after: seq<Row>, before: seq<Row>, uuid: string, becomes: (Row, Row) -> bool) {
    |after| == |before| && forall i :: 0 <= i < |before| ==>
      if before[i].facts.uuid == uuid then becomes(after[i], before[i]) else after[i] == before[i]
  }

  predicate FirstBecomes(after: seq<Person>, before: seq<Person>, uuid: string, becomes: (Person, Person) -> bool) {
    |after| == |before| && forall i :: 0 <= i < |before| ==>
      if before[i].facts.uuid == uuid && (forall j :: 0 <= j < i ==> before[j].facts.uuid != uuid)
      then becomes(after[i], before[i]) else after[i] == before[i]
  }

  lemma DirectStores(db: Db, uuid: string, name: string, idcard: string, sex: string, feature: Blob, now: string,
                     stored: Blob)
    requires feature != [] ==> stored == feature
    requires feature == [] ==> stored == if HasUuid(db.table, uuid)
                                         then db.table[First(db.table, RowWithUuid(uuid))].facts.feature else []
    ensures var after := UpdateDirectly(db, uuid, name, idcard, sex, feature, now, true);
            && RowsBecome(after.table, db.table, uuid, (a: Row, b: Row) =>
                 && a.facts.name == name && a.facts.idcard == idcard && a.facts.sex == sex
                 && a.facts.createtime == now && a.facts.feature == stored && a.featureSize == |stored|
                 && b == a.(featureSize := b.featureSize,
                            facts := a.facts.(name := b.facts.name, idcard := b.facts.idcard, sex := b.facts.sex,
                                              createtime := b.facts.createtime, feature := b.facts.feature)))
            && FirstBecomes(after.ram, db.ram, uuid, (a: Person, b: Person) =>
                 && a.facts.name == name && a.facts.idcard == idcard && a.facts.sex == sex
                 && a.facts.createtime == now && a.facts.feature == stored
                 && b == a.(facts := a.facts.(name := b.facts.name, idcard := b.facts.idcard, sex := b.facts.sex,
                                              createtime := b.facts.createtime, feature := b.facts.feature)))
  {
    FirstIsWhere(db.ram, uuid);
    hide First;
  }

  lemma FirstIsWhere(s: seq<Person>, uuid: string)
    ensures forall i :: 0 <= i < |s| ==>
              (i == First(s, WithUuid(uuid)) <==>
               s[i].facts.uuid == uuid && forall j :: 0 <= j < i ==> s[j].facts.uuid != uuid)
  {
    var k := First(s, WithUuid(uuid));
    forall i | 0 <= i < |s| && s[i].facts.uuid == uuid && forall j :: 0 <= j < i ==> s[j].facts.uuid != uuid
      ensures i == k
    {
      assert WithUuid(uuid)(s[i]);
    }
    assert forall j :: 0 <= j < k ==> !WithUuid(uuid)(s[j]);
  }

  /** The face update does nothing for somebody who is not in the cache, or there without an idcard. */
  lemma FeatureStores(db: Db, uuid: string, feature: Blob, image: Option<string>)
    ensures var after := UpdateFeature(db, uuid, feature, image, true);
            var k := First(db.ram, WithUuid(uuid));
            if k == |db.ram| || db.ram[k].facts.idcard == "" then after == db else
            && RowsBecome(after.table, db.table, uuid, (a: Row, b: Row) =>
                 && a.facts.feature == feature && a.featureSize == |feature|
                 && a.image == (if image.Some? then image.value else b.image)
                 && b == a.(facts := a.facts.(feature := b.facts.feature), featureSize := b.featureSize, image := b.image))
            && FirstBecomes(after.ram, db.ram, uuid, (a: Person, b: Person) =>
                 a.facts.feature == feature && b == a.(facts := a.facts.(feature := b.facts.feature)))
  {
    FirstIsWhere(db.ram, uuid);
    hide First;
  }

  lemma ColumnsStore(db: Db, uuid: string, attendanceMode: string, tenantId: string, id: string, status: string)
    ensures var after := UpdateColumns(db, uuid, attendanceMode, tenantId, id, status, true);
            && RowsBecome(after.table, db.table, uuid, (a: Row, b: Row) =>
                 && a.facts.attendanceMode == attendanceMode && a.facts.tenantId == tenantId
                 && a.facts.id == id && a.facts.status == status
                 && b == a.(facts := a.facts.(attendanceMode := b.facts.attendanceMode, tenantId := b.facts.tenantId,
                                              id := b.facts.id, status := b.facts.status)))
            && FirstBecomes(after.ram, db.ram, uuid, (a: Person, b: Person) =>
                 && a.facts.attendanceMode == attendanceMode && a.facts.tenantId == tenantId
                 && a.facts.id == id && a.facts.status == status
                 && b == a.(facts := a.facts.(attendanceMode := b.facts.attendanceMode, tenantId := b.facts.tenantId,
                                              id := b.facts.id, status := b.facts.status)))
  {
    FirstIsWhere(db.ram, uuid);
    hide First;
  }

  lemma FingerprintStores(db: Db, uuid: string, data: Blob)
    ensures var after := SetFingerprint(db, uuid, data, true);
            if uuid == "" then after == db else
            && RowsBecome(after.table, db.table, uuid, (a: Row, b: Row) =>
                 a.facts.fingerprint == data && b == a.(facts := a.facts.(fingerprint := b.facts.fingerprint)))
            && FirstBecomes(after.ram, db.ram, uuid, (a: Person, b: Person) =>
                 a.facts.fingerprint == data && b == a.(facts := a.facts.(fingerprint := b.facts.fingerprint)))
  {
    FirstIsWhere(db.ram, uuid);
    hide First;
  }

  lemma FingerIdStores(db: Db, uuid: string, id: int)
    ensures var after := SetFingerId(db, uuid, id, true);
            && RowsBecome(after.table, db.table, uuid, (a: Row, b: Row) =>
                 a.fingerId == id && b == a.(fingerId := b.fingerId))
            && FirstBecomes(after.ram, db.ram, uuid, (a: Person, b: Person) =>
                 a.fingerId == id && b == a.(fingerId := b.fingerId))
  {
    FirstIsWhere(db.ram, uuid);
    hide First;
  }

  // ----- Everybody, and nobody ------------------------------------------------------------

  /** The two bulk clears reach every row and every cached person. */
  lemma ClearsReachAll(db: Db, i: nat)
    ensures var after := ClearFingerIds(db, true);
            && |after.table| == |db.table| && |after.ram| == |db.ram|
            && (i < |db.table| ==> after.table[i].fingerId == 0 && db.table[i] == after.table[i].(fingerId := db.table[i].fingerId))
            && (i < |db.ram| ==> after.ram[i].fingerId == 0 && db.ram[i] == after.ram[i].(fingerId := db.ram[i].fingerId))
    ensures var after := ClearRfidCards(db, true);
            && |after.table| == |db.table| && |after.ram| == |db.ram|
            && (i < |db.table| ==> after.table[i].iccardnum == None && db.table[i] == after.table[i].(iccardnum := db.table[i].iccardnum))
            && (i < |db.ram| ==> after.ram[i].iccard == "" && db.ram[i] == after.ram[i].(iccard := db.ram[i].iccard))
  {}

  /** The list has lost its first match, if there was one. */
  predicate LosesFirst(after: seq<Person>, before: seq<Person>, matches: Person -> bool) {
    if forall i :: 0 <= i < |before| ==> !matches(before[i]) then after == before
    else exists i :: 0 <= i < |before| && matches(before[i]) && (forall j :: 0 <= j < i ==> !matches(before[j]))
           && after == before[..i] + before[i + 1..]
  }

  lemma RemoveFirstExact(s: seq<Person>, where: Person -> bool, matches: Person -> bool)
    requires forall i :: 0 <= i < |s| ==> where(s[i]) == matches(s[i])
    ensures LosesFirst(RemoveFirst(s, where), s, matches)
  {
    hide First;
    var i := First(s, where);
    assert forall j :: 0 <= j < i ==> !matches(s[j]);
  }

  /** A delete takes its first match out of the cache whether or not it succeeds. */
  lemma DeletesUncache(db: Db, uuid: string, name: string, createtime: string, ok: bool)
    ensures LosesFirst(DeleteByUuid(db, uuid, ok).ram, db.ram, (p: Person) => p.facts.uuid == uuid)
    ensures LosesFirst(DeleteByName(db, name, createtime, ok).ram, db.ram,
                       (p: Person) => p.facts.name == name && p.facts.createtime == createtime)
    ensures !ok ==> DeleteByUuid(db, uuid, ok).table == DeleteByName(db, name, createtime, ok).table == db.table
  {
    hide LosesFirst, RemoveFirst, SqlDelete;
    RemoveFirstExact(db.ram, WithUuid(uuid), (p: Person) => p.facts.uuid == uuid);
    RemoveFirstExact(db.ram, PersonNamed(name, createtime),
                     (p: Person) => p.facts.name == name && p.facts.createtime == createtime);
  }

  /** A delete that succeeds takes away just the rows it names. */
  lemma DeleteTakes(db: Db, op: Op, r: Row)
    requires op.OpDelete? || op.OpDeleteByName?
    ensures r in Apply(db, op, true).table <==>
              r in db.table && if op.OpDelete? then r.facts.uuid != op.uuid
                               else !(r.facts.name == op.name && r.facts.createtime == op.createtime)
  {
    var where := if op.OpDelete? then RowWithUuid(op.uuid) else RowNamed(op.name, op.createtime);
    assert Apply(db, op, true).table == SqlDelete(db.table, where);
    hide Apply;
    DeleteMembers(db.table, where, r);
  }
}
