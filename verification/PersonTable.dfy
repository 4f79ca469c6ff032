/** The person table, its cache in RAM, and what each operation of RegisteredFacesDB does to
    the two.  SQL statements are functions on the sequence of rows; whether a statement
    succeeds is a parameter of the operation. */
module PersonTable {
  import opened Collections
  import opened Options

  type Blob = seq<int>

  /** The columns that the table and the cache share under every operation. */
  datatype Facts = Facts(
    uuid: string, idcard: string, name: string, sex: string, feature: Blob, fingerprint: Blob,
    personType: int, personId: int, gids: string, pids: string, createtime: string, timeOfAccess: string,
    department: string, attendanceMode: string, tenantId: string, id: string, status: string,
    personalModuleId: int)

  /** The five *_json_last_modified columns. */
  datatype Stamps = Stamps(employee: string, face: string, rfid: string, fingerprint: string, fourDoor: string)

  const NO_STAMPS := Stamps("", "", "", "", "")

  /** A row of table person (None is NULL). */
  datatype Row = Row(facts: Facts, fingerId: int, iccardnum: Option<string>, qrCode: Option<string>,
                     image: string, featureSize: int, stamps: Stamps)

  /** A PERSONS_t in mPersons. */
  datatype Person = Person(facts: Facts, fingerId: int, iccard: string, qrCode: string, stamps: Stamps)

  datatype Db = Db(table: seq<Row>, ram: seq<Person>)

  /** The arguments that register and update share. */
  datatype Profile = Profile(
    name: string, idcard: string, iccard: string, sex: string, department: string, timeOfAccess: string,
    attendanceMode: string, tenantId: string, id: string, status: string, personalModuleId: int)

  /** What extracting a feature from the image file named in an update gave. */
  datatype Extraction = NoImage | Extracted(code: int, feature: Blob)

  const IMAGE_ROOT := "/mnt/user/"
  const PERSON_NOT_EXIST := -5
  const PERSON_DB_ERROR := -6

  // ----- SQL ---------------------------------------------------------------------------

  function SqlUpdate(t: seq<Row>, where: Row -> bool, assign: Row -> Row): (r: seq<Row>)
    ensures |r| == |t|
  {
    seq(|t|, i requires 0 <= i < |t| => if where(t[i]) then assign(t[i]) else t[i])
  }

  function SqlDelete(t: seq<Row>, where: Row -> bool): (r: seq<Row>)
    ensures |r| <= |t|
  {
    if t == [] then []
    else (if where(t[0]) then [] else [t[0]]) + SqlDelete(t[1..], where)
  }

  function WithUuid(uuid: string): Person -> bool {
    (p: Person) => p.facts.uuid == uuid
  }

  function WithIdcard(idcard: string): Person -> bool {
    (p: Person) => p.facts.idcard == idcard
  }

  function RowWithUuid(uuid: string): Row -> bool {
    (r: Row) => r.facts.uuid == uuid
  }

  function RowWithIdcard(idcard: string): Row -> bool {
    (r: Row) => r.facts.idcard == idcard
  }

  /** A loop over mPersons that changes the first match and stops. */
  function ChangeFirst(s: seq<Person>, where: Person -> bool, change: Person -> Person): (r: seq<Person>)
    ensures |r| == |s|
  {
    var i := First(s, where);
    if i < |s| then s[i := change(s[i])] else s
  }

  function RemoveFirst(s: seq<Person>, where: Person -> bool): seq<Person> {
    var i := First(s, where);
    if i < |s| then s[..i] + s[i + 1..] else s
  }

  function MaxPersonId(t: seq<Row>): (m: int)
    ensures forall i :: 0 <= i < |t| ==> t[i].facts.personId <= m
    ensures m == 0 || exists i :: 0 <= i < |t| && t[i].facts.personId == m
  {
    if t == [] then 0
    else
      var m := MaxPersonId(t[1..]);
      if t[0].facts.personId > m then t[0].facts.personId else m
  }

  /** getPersonMaxid. */
  function NextPersonId(t: seq<Row>): int {
    var m := MaxPersonId(t);
    if m >= 1 then m + 1 else 1
  }

  /** SELECT MAX(finger_id) FROM person WHERE finger_id > 0, with NULL read as 0. */
  function MaxFingerId(t: seq<Row>): (m: int)
    ensures m >= 0
    ensures forall i :: 0 <= i < |t| ==> t[i].fingerId <= m
    ensures m == 0 || exists i :: 0 <= i < |t| && t[i].fingerId == m
  {
    if t == [] then 0
    else
      var m := MaxFingerId(t[1..]);
      if t[0].fingerId > m then t[0].fingerId else m
  }

  /** getNextAvailableFingerId. */
  function NextFingerId(t: seq<Row>): int {
    var m := MaxFingerId(t);
    if m >= 1 then m + 1 else 1
  }

  // ----- Loading ------------------------------------------------------------------------

  function OrEmpty(s: Option<string>): string {
    if s.Some? then s.value else ""
  }

  /** One turn of the loading loop: qr_code and the timestamps are not read. */
  function LoadPerson(r: Row): Person {
    Person(r.facts.(sex := if r.facts.sex == "" then "unknow" else r.facts.sex,
                    personId := if r.facts.personId < 1 then 1 else r.facts.personId),
           r.fingerId, OrEmpty(r.iccardnum), "", NO_STAMPS)
  }

  function LoadAll(t: seq<Row>): (s: seq<Person>)
    ensures |s| == |t|
  {
    seq(|t|, i requires 0 <= i < |t| => LoadPerson(t[i]))
  }

  // ----- Register -------------------------------------------------------------------------

  function Or(given: string, kept: string): string {
    if given == "" then kept else given
  }

  /** The person that RegPersonToDBAndRAM composes. */
  function Registered(db: Db, uuid: string, p: Profile, feature: Blob, generated: string, now: string): Person {
    var r := First(db.table, RowWithIdcard(p.idcard));
    var m := First(db.ram, WithIdcard(p.idcard));
    var exists' := r < |db.table|;
    var newFeature := if feature == [] && exists' && db.table[r].facts.feature != [] then db.table[r].facts.feature
                      else feature;
    var newUuid := if exists' then db.table[r].facts.uuid else if |uuid| > 3 then uuid else generated;
    var newId := if exists' then db.table[r].facts.personId else NextPersonId(db.table);
    if m < |db.ram| then
      var o := db.ram[m];
      Person(Facts(newUuid, p.idcard, Or(p.name, o.facts.name), Or(p.sex, o.facts.sex), newFeature,
                   o.facts.fingerprint, o.facts.personType, newId, o.facts.gids, o.facts.pids, now,
                   Or(p.timeOfAccess, o.facts.timeOfAccess), Or(p.department, o.facts.department),
                   Or(p.attendanceMode, o.facts.attendanceMode), Or(p.tenantId, o.facts.tenantId),
                   Or(p.id, o.facts.id), Or(p.status, o.facts.status),
                   if p.personalModuleId == 0 then o.facts.personalModuleId else p.personalModuleId),
             o.fingerId, Or(p.iccard, o.iccard), o.qrCode, NO_STAMPS)
    else
      Person(Facts(newUuid, p.idcard, p.name, Or(p.sex, "Unknown"), newFeature, [], 0, newId, "0", "2", now,
                   p.timeOfAccess, p.department, p.attendanceMode, p.tenantId, p.id, p.status, p.personalModuleId),
             0, Or(p.iccard, "000000"), "", NO_STAMPS)
  }

  function RegisteredImage(db: Db, idcard: string, savedImage: Option<string>): string {
    var r := First(db.table, RowWithIdcard(idcard));
    if savedImage.Some? then savedImage.value
    else if r < |db.table| && db.table[r].image != "" then db.table[r].image
    else IMAGE_ROOT
  }

  /** The UPDATE of a register: uuid, personid, fingerprint, finger_id, qr_code and the
      timestamps of the row stay; featuresize is the size of the argument. */
  function RegisterRow(r: Row, t: Person, image: string, featureSize: int): Row {
    r.(facts := t.facts.(uuid := r.facts.uuid, idcard := r.facts.idcard, personId := r.facts.personId,
                         fingerprint := r.facts.fingerprint),
       iccardnum := Some(t.iccard), image := image, featureSize := featureSize)
  }

  /** The INSERT of a register: the columns it does not name take their defaults. */
  function NewRow(t: Person, image: string, featureSize: int): Row {
    Row(t.facts.(fingerprint := []), -1, Some(t.iccard), None, image, featureSize, NO_STAMPS)
  }

  function Register(db: Db, uuid: string, p: Profile, feature: Blob, savedImage: Option<string>,
                    generated: string, now: string, ok: bool): Db
  {
    if !ok then db else
    var t := Registered(db, uuid, p, feature, generated, now);
    var image := RegisteredImage(db, p.idcard, savedImage);
    if First(db.table, RowWithIdcard(p.idcard)) < |db.table| then
      Db(SqlUpdate(db.table, RowWithIdcard(p.idcard), (r: Row) => RegisterRow(r, t, image, |feature|)),
         if First(db.ram, WithIdcard(p.idcard)) < |db.ram|
         then ChangeFirst(db.ram, WithIdcard(p.idcard), (o: Person) => t) else db.ram + [t])
    else
      Db(db.table + [NewRow(t, image, |feature|)], db.ram + [t])
  }

  // ----- Update ---------------------------------------------------------------------------

  /** Whether UpdatePersonToDBAndRAM gets as far as its UPDATE. */
  predicate UpdateRuns(db: Db, uuid: string, embedding: Blob, jpeg: Extraction) {
    && uuid != "" && First(db.ram, WithUuid(uuid)) < |db.ram|
    && (embedding != [] || jpeg.NoImage? || (jpeg.code == 0 && jpeg.feature != []))
  }

  function UpdatedFeature(kept: Blob, embedding: Blob, jpeg: Extraction): Blob {
    if embedding != [] then embedding else if jpeg.Extracted? then jpeg.feature else kept
  }

  function UpdatedPerson(o: Person, p: Profile, embedding: Blob, jpeg: Extraction, now: string): Person {
    o.(facts := o.facts.(
         name := Or(p.name, o.facts.name), idcard := Or(p.idcard, o.facts.idcard), sex := Or(p.sex, o.facts.sex),
         department := Or(p.department, o.facts.department),
         timeOfAccess := Or(p.timeOfAccess, o.facts.timeOfAccess),
         attendanceMode := Or(p.attendanceMode, o.facts.attendanceMode),
         tenantId := Or(p.tenantId, o.facts.tenantId), id := Or(p.id, o.facts.id),
         status := Or(p.status, o.facts.status), personalModuleId := p.personalModuleId,
         feature := UpdatedFeature(o.facts.feature, embedding, jpeg), createtime := now),
       iccard := Or(p.iccard, o.iccard))
  }

  /** The columns that the UPDATE of UpdatePersonToDBAndRAM assigns from the person t. */
  function UpdateRow(r: Row, t: Person): Row {
    r.(facts := r.facts.(
         name := t.facts.name, sex := t.facts.sex, idcard := t.facts.idcard, feature := t.facts.feature,
         timeOfAccess := t.facts.timeOfAccess, department := t.facts.department, createtime := t.facts.createtime,
         attendanceMode := t.facts.attendanceMode, tenantId := t.facts.tenantId, id := t.facts.id,
         status := t.facts.status, personalModuleId := t.facts.personalModuleId),
       iccardnum := Some(t.iccard), featureSize := |t.facts.feature|)
  }

  function Update(db: Db, uuid: string, p: Profile, embedding: Blob, jpeg: Extraction, now: string, ok: bool): Db {
    if !ok || !UpdateRuns(db, uuid, embedding, jpeg) then db else
    var i := First(db.ram, WithUuid(uuid));
    var t := UpdatedPerson(db.ram[i], p, embedding, jpeg, now);
    Db(SqlUpdate(db.table, RowWithUuid(uuid), (r: Row) => UpdateRow(r, t)), db.ram[i := t])
  }

  /** UpdatePersonDirectly writes its arguments as they are, empty or not. */
  function DirectFacts(f: Facts, name: string, idcard: string, sex: string, feature: Blob, now: string): Facts {
    f.(name := name, idcard := idcard, sex := sex, feature := feature, createtime := now)
  }

  function DirectFeature(db: Db, uuid: string, feature: Blob): Blob {
    var r := First(db.table, RowWithUuid(uuid));
    if feature != [] then feature else if r < |db.table| then db.table[r].facts.feature else []
  }

  function UpdateDirectly(db: Db, uuid: string, name: string, idcard: string, sex: string, feature: Blob,
                          now: string, ok: bool): Db
  {
    if !ok then db else
    var f := DirectFeature(db, uuid, feature);
    Db(SqlUpdate(db.table, RowWithUuid(uuid),
                 (r: Row) => r.(facts := DirectFacts(r.facts, name, idcard, sex, f, now), featureSize := |f|)),
       ChangeFirst(db.ram, WithUuid(uuid),
                   (p: Person) => p.(facts := DirectFacts(p.facts, name, idcard, sex, f, now))))
  }

  /** The idcard of the person in RAM; UpdatePersonFaceFeature gives up when it is empty. */
  function IdcardInRam(db: Db, uuid: string): string {
    var i := First(db.ram, WithUuid(uuid));
    if i < |db.ram| then db.ram[i].facts.idcard else ""
  }

  function UpdateFeature(db: Db, uuid: string, feature: Blob, savedImage: Option<string>, ok: bool): Db {
    if !ok || IdcardInRam(db, uuid) == "" then db else
    Db(SqlUpdate(db.table, RowWithUuid(uuid),
                 (r: Row) => r.(facts := r.facts.(feature := feature), featureSize := |feature|,
                                image := if savedImage.Some? then savedImage.value else r.image)),
       ChangeFirst(db.ram, WithUuid(uuid), (p: Person) => p.(facts := p.facts.(feature := feature))))
  }

  function UpdateColumns(db: Db, uuid: string, attendanceMode: string, tenantId: string, id: string,
                         status: string, ok: bool): Db
  {
    if !ok then db else
    Db(SqlUpdate(db.table, RowWithUuid(uuid),
                 (r: Row) => r.(facts := r.facts.(attendanceMode := attendanceMode, tenantId := tenantId,
                                                  id := id, status := status))),
       ChangeFirst(db.ram, WithUuid(uuid),
                   (p: Person) => p.(facts := p.facts.(attendanceMode := attendanceMode, tenantId := tenantId,
                                                       id := id, status := status))))
  }

  // ----- Fingers ---------------------------------------------------------------------------

  function SetFingerprint(db: Db, uuid: string, data: Blob, ok: bool): Db {
    if !ok || uuid == "" then db else
    Db(SqlUpdate(db.table, RowWithUuid(uuid), (r: Row) => r.(facts := r.facts.(fingerprint := data))),
       ChangeFirst(db.ram, WithUuid(uuid), (p: Person) => p.(facts := p.facts.(fingerprint := data))))
  }

  function SetFingerId(db: Db, uuid: string, fingerId: int, ok: bool): Db {
    if !ok then db else
    Db(SqlUpdate(db.table, RowWithUuid(uuid), (r: Row) => r.(fingerId := fingerId)),
       ChangeFirst(db.ram, WithUuid(uuid), (p: Person) => p.(fingerId := fingerId)))
  }

  function ClearFingerIds(db: Db, ok: bool): Db {
    if !ok then db else
    Db(SqlUpdate(db.table, (r: Row) => true, (r: Row) => r.(fingerId := 0)),
       seq(|db.ram|, i requires 0 <= i < |db.ram| => db.ram[i].(fingerId := 0)))
  }

  function ClearRfidCards(db: Db, ok: bool): Db {
    if !ok then db else
    Db(SqlUpdate(db.table, (r: Row) => true, (r: Row) => r.(iccardnum := None)),
       seq(|db.ram|, i requires 0 <= i < |db.ram| => db.ram[i].(iccard := "")))
  }

  // ----- Deletes ------------------------------------------------------------------------------

  /** DelPersonByPersionUUIDFromDBAndRAM: the cache entry goes even when the statement fails. */
  function DeleteByUuid(db: Db, uuid: string, ok: bool): Db {
    Db(if ok then SqlDelete(db.table, RowWithUuid(uuid)) else db.table,
       RemoveFirst(db.ram, WithUuid(uuid)))
  }

  function RowNamed(name: string, createtime: string): Row -> bool {
    (r: Row) => r.facts.name == name && r.facts.createtime == createtime
  }

  function PersonNamed(name: string, createtime: string): Person -> bool {
    (p: Person) => p.facts.name == name && p.facts.createtime == createtime
  }

  /** DelPersonDBInfo: every matching row, but only the first matching cache entry. */
  function DeleteByName(db: Db, name: string, createtime: string, ok: bool): Db {
    Db(if ok then SqlDelete(db.table, RowNamed(name, createtime)) else db.table,
       RemoveFirst(db.ram, PersonNamed(name, createtime)))
  }

  /** The effect of ClearAllDataForTenantChange on the persons. */
  function Wipe(db: Db, ok: bool): Db {
    Db(if ok then [] else db.table, [])
  }

  // ----- StoreUserWithoutFaceData --------------------------------------------------------------

  function StoredUuid(uuid: string, generated: string): string {
    if |uuid| > 3 then uuid else generated
  }

  function Known(idcard: string, uuid: string): Person -> bool {
    (q: Person) => q.facts.idcard == idcard || q.facts.uuid == uuid
  }

  function Stored(db: Db, uuid: string, p: Profile, generated: string, now: string): Person {
    var u := StoredUuid(uuid, generated);
    var i := First(db.ram, Known(p.idcard, u));
    var t := Person(Facts(u, p.idcard, p.name, Or(p.sex, "Unknown"), [], [], 0, NextPersonId(db.table), "0", "2", now,
                          p.timeOfAccess, p.department, p.attendanceMode, p.tenantId, p.id, p.status,
                          p.personalModuleId),
                    0, Or(p.iccard, "000000"), "", NO_STAMPS);
    if i < |db.ram| then
      var o := db.ram[i].facts;
      t.(facts := t.facts.(uuid := o.uuid, feature := o.feature, personId := o.personId))
    else t
  }

  /** The cache grows before the statement runs, whatever becomes of the statement. */
  function Store(db: Db, uuid: string, p: Profile, generated: string, now: string, ok: bool): Db {
    var t := Stored(db, uuid, p, generated, now);
    var known := First(db.ram, Known(p.idcard, StoredUuid(uuid, generated))) < |db.ram|;
    Db(if !ok then db.table
       else if known then
         SqlUpdate(db.table, RowWithUuid(t.facts.uuid), (r: Row) => RegisterRow(r, t, IMAGE_ROOT, |t.facts.feature|))
       else db.table + [NewRow(t, IMAGE_ROOT, 0)],
       db.ram + [t])
  }
}
