/** Enrolment of a finger at the form: one button takes an id from the allocator and puts the
    finger into the sensor under it, another writes print and id of the held finger to a person.
    Between the two presses anything can happen to the table. */
module FingerEnrolment {
  import opened Collections
  import opened Options
  import opened PersonTable
  import opened PersonRuns
  import opened PersonLookups

  // ----- The held finger --------------------------------------------------------------------

  /** mFingerTemplate: the id and the size of the backup in two bytes each, then the backup. */
  function Packed(id: nat, backup: Blob): Blob {
    [id / 256, id % 256, |backup| / 256 % 256, |backup| % 256] + backup
  }

  function ReadId(held: Blob): (id: nat)
    ensures id < 0x1_0000
  {
    if |held| < 4 then 0 else (held[0] * 256 + held[1]) % 0x1_0000
  }

  lemma PackedBack(id: nat, backup: Blob)
    requires id < 0x1_0000
    ensures ReadId(Packed(id, backup)) == id && |Packed(id, backup)| >= 4
    ensures var held := Packed(id, backup);
            held[4..] == backup && (|backup| < 0x1_0000 ==> held[2] * 256 + held[3] == |backup| && 0 <= held[3] < 256)
  {
  }

  /** A press of the capture button holds the enrolled finger under the next id of the allocator, or
      nothing. */
  lemma CaptureHolds(desk: Desk, enrolled: bool, backup: Blob)
    ensures var after := Take(desk, CaptureFinger(enrolled, backup));
            && after.db == desk.db && (!enrolled ==> after.held == [])
            && (enrolled ==> |after.held| >= 4 && after.held[4..] == backup
                             && ReadId(after.held) == NextFingerId(desk.db.table) % 0x1_0000)
  {
    PackedBack(CapturedId(desk.db.table), backup);
  }

  /** What a press of the register button stores: print and id of the held finger, for the person of
      the employee id; and it lets go of the finger exactly if both were stored. */
  lemma RegisterFingerStores(desk: Desk, employee: string, printOk: bool, idOk: bool, i: nat)
    requires |desk.held| >= 4 && employee != "" && i < |desk.db.table|
    requires FindUuid(desk.db, employee) == Some(desk.db.table[i].facts.uuid) && desk.db.table[i].facts.uuid != ""
    ensures var after := Take(desk, RegisterFinger(employee, printOk, idOk));
            var before, row := desk.db.table[i], after.db.table[i];
            && |after.db.table| == |desk.db.table|
            && row.facts == before.facts.(fingerprint := if printOk then desk.held else before.facts.fingerprint)
            && row.fingerId == (if idOk then ReadId(desk.held) else before.fingerId)
            && after.held == (if printOk && idOk then [] else desk.held)
  {
    var uuid := desk.db.table[i].facts.uuid;
    assert RowWithUuid(uuid)(desk.db.table[i]);
    assert HasUuid(desk.db.table, uuid);
    hide First, FindUuid, ReadId;
  }

  /** And without a held finger, an employee id or a person for it, it does nothing. */
  lemma NothingToRegister(desk: Desk, employee: string, printOk: bool, idOk: bool)
    ensures |desk.held| < 4 || employee == "" || FindUuid(desk.db, employee).None? || FindUuid(desk.db, employee) == Some("")
        ==> Take(desk, RegisterFinger(employee, printOk, idOk)) == desk
  {}

  /** The persons, and the held finger (empty: none). */
  datatype Desk = Desk(db: Db, held: Blob)

  datatype Press =
    | CaptureFinger(enrolled: bool, backup: Blob)  // backup is empty when the download fails
    | RegisterFinger(employee: string, printOk: bool, idOk: bool)
    | ResetForm
    | Elsewhere(op: Op, ok: bool)

  /** The id a capture takes: the allocator's, converted to uint16_t. */
  function CapturedId(t: seq<Row>): nat {
    Uint16(NextFingerId(t))
  }

  /** Whom the register button is going to write to. */
  function Enrollee(desk: Desk, employee: string): Option<string> {
    var u := FindUuid(desk.db, employee);
    if |desk.held| < 4 || employee == "" || u.None? || u.value == "" then None else u
  }

  /** UpdatePersonFingerprint succeeds. */
  predicate PrintStored(desk: Desk, uuid: string, printOk: bool) {
    printOk && HasUuid(desk.db.table, uuid)
  }

  /** The register button: the id is written whatever became of the print, and the finger is let
      go of only if both were stored. */
  function Registered(desk: Desk, employee: string, printOk: bool, idOk: bool): Desk {
    match Enrollee(desk, employee)
    case None => desk
    case Some(uuid) =>
      var stored := PrintStored(desk, uuid, printOk);
      var db := if stored then SetFingerprint(desk.db, uuid, desk.held, true) else desk.db;
      Desk(SetFingerId(db, uuid, ReadId(desk.held), idOk), if stored && idOk then [] else desk.held)
  }

  function Take(desk: Desk, press: Press): Desk {
    match press
    case CaptureFinger(enrolled, backup) =>
      desk.(held := if enrolled then Packed(CapturedId(desk.db.table), backup) else [])
    case RegisterFinger(employee, printOk, idOk) => Registered(desk, employee, printOk, idOk)
    case ResetForm => desk.(held := [])
    case Elsewhere(op, ok) => desk.(db := Apply(desk.db, op, ok))
  }

  /** The finger id that a press writes, and to whom. */
  function IdWrite(desk: Desk, press: Press): Option<(string, int)> {
    match press
    case RegisterFinger(employee, _, idOk) =>
      var u := Enrollee(desk, employee);
      if idOk && u.Some? then Some((u.value, ReadId(desk.held))) else None
    case Elsewhere(op, ok) => if ok && op.OpSetFingerId? then Some((op.uuid, op.fingerId)) else None
    case _ => None
  }

  // ----- One press --------------------------------------------------------------------------

  /** Rows with the same uuids and finger ids. */
  ghost predicate SameIds(t: seq<Row>, u: seq<Row>) {
    |t| == |u| && forall i :: 0 <= i < |t| ==> t[i].facts.uuid == u[i].facts.uuid && t[i].fingerId == u[i].fingerId
  }

  /** A register press does to uuids and ids what a write of the id alone does. */
  lemma RegisteredIds(desk: Desk, employee: string, printOk: bool, idOk: bool)
    requires Enrollee(desk, employee).Some?
    ensures SameIds(Registered(desk, employee, printOk, idOk).db.table,
                    SetFingerId(desk.db, Enrollee(desk, employee).value, ReadId(desk.held), idOk).table)
  {
    hide Enrollee, ReadId;
  }

  lemma SameIdsDistinct(t: seq<Row>, u: seq<Row>)
    requires SameIds(t, u)
    ensures DistinctFingers(t) <==> DistinctFingers(u)
  {}

  /** What a press must not do. */
  predicate PressSafe(desk: Desk, press: Press) {
    match press
    case RegisterFinger(_, _, _) =>
      var w := IdWrite(desk, press);
      w.Some? ==> FreshFor(desk.db.table, w.value.0, w.value.1)
    case Elsewhere(op, ok) => ok ==> FingerSafe(desk.db.table, op)
    case _ => true
  }

  /** From any state with distinct positive finger ids a press keeps them distinct exactly when it
      writes no id or one that is fresh for the person at the time of writing. */
  lemma PressExact(desk: Desk, press: Press)
    requires DistinctFingers(desk.db.table)
    ensures DistinctFingers(Take(desk, press).db.table) <==> PressSafe(desk, press)
  {
    hide DistinctFingers, FreshFor, Enrollee, ReadId, FingerSafe, SetFingerId, Apply, SameIds;
    match press
    case RegisterFinger(employee, printOk, idOk) =>
      var u := Enrollee(desk, employee);
      if u.Some? {
        RegisteredIds(desk, employee, printOk, idOk);
        SameIdsDistinct(Registered(desk, employee, printOk, idOk).db.table,
                        SetFingerId(desk.db, u.value, ReadId(desk.held), idOk).table);
        SetFingerIdExact(desk.db, u.value, ReadId(desk.held));
        SetFingerIdFails(desk.db, u.value, ReadId(desk.held));
      }
    case Elsewhere(op, ok) => FingersExact(desk.db, op, ok);
    case _ =>
  }

  // ----- Runs of presses --------------------------------------------------------------------

  function PressRun(desk: Desk, ps: seq<Press>): Desk
    decreases |ps|
  {
    if ps == [] then desk else PressRun(Take(desk, ps[0]), ps[1..])
  }

  lemma PressPrefix(desk: Desk, ps: seq<Press>, n: nat)
    requires 0 < n <= |ps|
    ensures PressRun(desk, ps[..n]) == PressRun(Take(desk, ps[0]), ps[1..][..n - 1])
  {
    assert ps[..n][1..] == ps[1..][..n - 1];
  }

  predicate SafePresses(desk: Desk, ps: seq<Press>)
    decreases |ps|
  {
    ps == [] || (PressSafe(desk, ps[0]) && SafePresses(Take(desk, ps[0]), ps[1..]))
  }

  /** Positive finger ids are distinct all along a run of presses, with anything in between,
      exactly when every press that writes an id writes one that is then fresh. */
  lemma {:induction false} DistinctOnEveryPressRun(desk: Desk, ps: seq<Press>)
    requires DistinctFingers(desk.db.table)
    ensures SafePresses(desk, ps)
        <==> forall n :: 0 <= n <= |ps| ==> DistinctFingers(PressRun(desk, ps[..n]).db.table)
    decreases |ps|
  {
    hide Take, DistinctFingers, PressSafe;
    assert PressRun(desk, ps[..0]) == desk;
    if ps == [] {
    } else {
      var next := Take(desk, ps[0]);
      PressExact(desk, ps[0]);
      PressPrefix(desk, ps, 1);
      assert PressRun(next, ps[1..][..0]) == next;
      if DistinctFingers(next.db.table) {
        DistinctOnEveryPressRun(next, ps[1..]);
        forall n | 0 < n <= |ps|
          ensures DistinctFingers(PressRun(desk, ps[..n]).db.table)
              <==> DistinctFingers(PressRun(next, ps[1..][..n - 1]).db.table)
        {
          PressPrefix(desk, ps, n);
        }
        forall n | 0 <= n <= |ps[1..]|
          ensures DistinctFingers(PressRun(next, ps[1..][..n]).db.table)
              <==> DistinctFingers(PressRun(desk, ps[..n + 1]).db.table)
        {
          PressPrefix(desk, ps, n + 1);
        }
      }
    }
  }

  // ----- What a capture gives ---------------------------------------------------------------

  /** Nobody has the id. */
  predicate NoneHas(t: seq<Row>, id: int) {
    id <= 0 || forall i :: 0 <= i < |t| ==> t[i].fingerId != id
  }

  /** All ids fit uint16_t. */
  predicate IdsFit(t: seq<Row>) {
    forall i :: 0 <= i < |t| ==> t[i].fingerId < 0x1_0000
  }

  /** A capture gives an id above all others exactly while the greatest is below 65535; the
      conversion makes it 0 exactly when the next id is a multiple of 65536. */
  lemma CapturedExact(t: seq<Row>)
    ensures MaxFingerId(t) < 0xFFFF <==> CapturedId(t) > 0 && forall i :: 0 <= i < |t| ==> t[i].fingerId < CapturedId(t)
    ensures CapturedId(t) == 0 <==> (MaxFingerId(t) + 1) % 0x1_0000 == 0
    ensures IdsFit(t) ==> (CapturedId(t) > 0 <==> MaxFingerId(t) < 0xFFFF) && NoneHas(t, CapturedId(t))
  {
    hide MaxFingerId, Uint16, NextFingerId;
    var m := MaxFingerId(t);
    CapturedTruncated(t);
    if m >= 0xFFFF {
      var i :| 0 <= i < |t| && t[i].fingerId == m;
      assert CapturedId(t) <= 0xFFFF <= t[i].fingerId;
    }
  }

  lemma CapturedTruncated(t: seq<Row>)
    ensures var m, c := MaxFingerId(t), CapturedId(t);
            c <= 0xFFFF && (m < 0xFFFF ==> c == m + 1) && (m == 0xFFFF ==> c == 0) && (c == 0 <==> (m + 1) % 0x1_0000 == 0)
  {
    hide MaxFingerId;
  }

  /** At most one row has the uuid. */
  predicate AtMostOne(t: seq<Row>, uuid: string) {
    forall i, j :: 0 <= i < j < |t| && t[i].facts.uuid == uuid ==> t[j].facts.uuid != uuid
  }

  /** Only rows of uuid have the id. */
  predicate OnlyHeldBy(t: seq<Row>, id: int, uuid: string) {
    forall i :: 0 <= i < |t| && t[i].fingerId == id ==> t[i].facts.uuid == uuid
  }

  /** An id is fresh for a person who has a row exactly when it is no finger id, or the person has
      one row and no other person has the id. */
  lemma FreshExact(t: seq<Row>, uuid: string, id: int)
    requires HasUuid(t, uuid)
    ensures FreshFor(t, uuid, id) <==> id <= 0 || (AtMostOne(t, uuid) && OnlyHeldBy(t, id, uuid))
  {
    var k := First(t, RowWithUuid(uuid));
    if FreshFor(t, uuid, id) && id > 0 {
      forall i | 0 <= i < |t| && t[i].fingerId == id
        ensures t[i].facts.uuid == uuid
      {
        assert i == k;
      }
      forall i, j | 0 <= i < j < |t| && t[i].facts.uuid == uuid
        ensures t[j].facts.uuid != uuid
      {
        assert i == k;
      }
    }
    if id > 0 && AtMostOne(t, uuid) && OnlyHeldBy(t, id, uuid) {
      forall j | 0 <= j < |t| && j != k
        ensures t[j].facts.uuid != uuid && t[j].fingerId != id
      {
        assert t[k].facts.uuid == uuid;
      }
    }
  }

  // ----- How long a held id stays fresh -------------------------------------------------------

  /** The press gives the id to somebody other than uuid. */
  predicate GivesAway(desk: Desk, press: Press, id: int, uuid: string) {
    var w := IdWrite(desk, press);
    w.Some? && w.value.1 == id && w.value.0 != uuid && HasUuid(desk.db.table, w.value.0)
  }

  /** The press takes the finger id of row r away, or the row. */
  predicate Frees(desk: Desk, press: Press, r: Row) {
    var w := IdWrite(desk, press);
    || (w.Some? && w.value.0 == r.facts.uuid && w.value.1 != r.fingerId)
    || (press.Elsewhere? && press.ok && match press.op
          case OpClearFingerIds => true
          case OpWipe => true
          case OpDelete(u) => r.facts.uuid == u
          case OpDeleteByName(name, createtime) => r.facts.name == name && r.facts.createtime == createtime
          case _ => false)
  }

  /** Rows keep uuid and finger id; an added row has no finger. */
  predicate IdsKept(t: seq<Row>, u: seq<Row>) {
    && |t| <= |u|
    && (forall i :: 0 <= i < |t| ==> u[i].facts.uuid == t[i].facts.uuid && u[i].fingerId == t[i].fingerId)
    && (forall i :: |t| <= i < |u| ==> u[i].fingerId == -1)
  }

  lemma OtherOpsKeepIds(db: Db, op: Op, ok: bool)
    requires !op.OpSetFingerId? && !op.OpClearFingerIds? && !op.OpDelete? && !op.OpDeleteByName? && !op.OpWipe?
    ensures IdsKept(db.table, Apply(db, op, ok).table)
  {
    hide PersonTable.Registered, Stored, UpdateRuns, UpdatedPerson, First, StoredUuid;
  }

  /** What a press that writes an id does to the ids. */
  lemma WriteIds(desk: Desk, press: Press)
    requires IdWrite(desk, press).Some?
    ensures var w := IdWrite(desk, press).value;
            var t, u := desk.db.table, Take(desk, press).db.table;
            |u| == |t| && forall i :: 0 <= i < |t| ==>
              && u[i].facts.uuid == t[i].facts.uuid
              && u[i].fingerId == if t[i].facts.uuid == w.0 then w.1 else t[i].fingerId
  {
    hide Enrollee, ReadId;
    if press.RegisterFinger? {
      RegisteredIds(desk, press.employee, press.printOk, press.idOk);
      hide Take;
    }
  }

  /** And what any other press does. */
  lemma QuietIds(desk: Desk, press: Press)
    requires IdWrite(desk, press).None?
    requires press.Elsewhere? ==> !press.op.OpClearFingerIds? && !press.op.OpDelete? && !press.op.OpDeleteByName? && !press.op.OpWipe?
    ensures IdsKept(desk.db.table, Take(desk, press).db.table)
  {
    hide Apply, Enrollee, ReadId, SetFingerId;
    match press
    case Elsewhere(op, ok) =>
      if op.OpSetFingerId? {
        SetFingerIdFails(desk.db, op.uuid, op.fingerId);
        SetFingerOp(desk.db, op, ok);
      } else {
        OtherOpsKeepIds(desk.db, op, ok);
      }
    case RegisterFinger(employee, printOk, idOk) =>
      var u := Enrollee(desk, employee);
      if u.Some? {
        RegisteredIds(desk, employee, printOk, idOk);
        SetFingerIdFails(desk.db, u.value, ReadId(desk.held));
      }
    case _ =>
  }

  lemma SetFingerOp(db: Db, op: Op, ok: bool)
    requires op.OpSetFingerId?
    ensures Apply(db, op, ok) == SetFingerId(db, op.uuid, op.fingerId, ok)
  {}

  /** Clears and deletes leave only rows with the ids they had, or with none. */
  lemma RemovalIds(desk: Desk, press: Press)
    requires press.Elsewhere?
    requires press.op.OpClearFingerIds? || press.op.OpDelete? || press.op.OpDeleteByName? || press.op.OpWipe?
    ensures forall r :: r in Take(desk, press).db.table && r.fingerId > 0 ==> r in desk.db.table
    ensures forall r :: r in desk.db.table && !Frees(desk, press, r) ==> r in Take(desk, press).db.table
  {
    var t := desk.db.table;
    match press.op
    case OpDelete(uuid) => Removed(t, RowWithUuid(uuid));
    case OpDeleteByName(name, createtime) => Removed(t, RowNamed(name, createtime));
    case _ =>
  }

  lemma Removed(t: seq<Row>, where: Row -> bool)
    ensures forall r :: r in SqlDelete(t, where) <==> r in t && !where(r)
  {
    forall r: Row
      ensures r in SqlDelete(t, where) <==> r in t && !where(r)
    {
      DeleteMembers(t, where, r);
    }
  }

  predicate Removes(press: Press) {
    press.Elsewhere? && (press.op.OpClearFingerIds? || press.op.OpDelete? || press.op.OpDeleteByName? || press.op.OpWipe?)
  }

  /** As long as a press does not give the id away, it stays with uuid or nobody. */
  lemma StaysFreshStep(desk: Desk, press: Press, id: int, uuid: string)
    requires id > 0 && OnlyHeldBy(desk.db.table, id, uuid) && !GivesAway(desk, press, id, uuid)
    ensures OnlyHeldBy(Take(desk, press).db.table, id, uuid)
  {
    var t, u := desk.db.table, Take(desk, press).db.table;
    hide Take, IdWrite, Frees;
    if Removes(press) {
      RemovalIds(desk, press);
      forall i | 0 <= i < |u| && u[i].fingerId == id
        ensures u[i].facts.uuid == uuid
      {
        assert u[i] in t;
      }
    } else if IdWrite(desk, press).None? {
      QuietIds(desk, press);
    } else {
      WriteIds(desk, press);
      var w := IdWrite(desk, press).value;
      forall i | 0 <= i < |u| && u[i].fingerId == id
        ensures u[i].facts.uuid == uuid
      {
        if t[i].facts.uuid == w.0 {
          assert RowWithUuid(w.0)(t[i]);
          assert HasUuid(t, w.0);
        }
      }
    }
  }

  predicate HasRow(t: seq<Row>, id: int, uuid: string) {
    exists i :: 0 <= i < |t| && t[i].fingerId == id && t[i].facts.uuid == uuid
  }

  /** As long as a press frees no row with the id, who has it keeps it. */
  lemma StaysTakenStep(desk: Desk, press: Press, id: int, other: string)
    requires id > 0 && HasRow(desk.db.table, id, other)
    requires forall r :: r in desk.db.table && r.fingerId == id ==> !Frees(desk, press, r)
    ensures HasRow(Take(desk, press).db.table, id, other)
  {
    var t, u := desk.db.table, Take(desk, press).db.table;
    var i :| 0 <= i < |t| && t[i].fingerId == id && t[i].facts.uuid == other;
    assert t[i] in t;
    if Removes(press) {
      RemovalIds(desk, press);
      var j :| 0 <= j < |u| && u[j] == t[i];
    } else if IdWrite(desk, press).None? {
      QuietIds(desk, press);
      hide Take;
      assert u[i].fingerId == id;
    } else {
      WriteIds(desk, press);
      hide Take;
      assert u[i].fingerId == id;
    }
  }

  predicate GivenAway(desk: Desk, ps: seq<Press>, id: int, uuid: string)
    decreases |ps|
  {
    ps != [] && (GivesAway(desk, ps[0], id, uuid) || GivenAway(Take(desk, ps[0]), ps[1..], id, uuid))
  }

  /** A held id that nobody else has stays fresh for uuid, over any run of presses and operations,
      as long as it is not given to somebody else. */
  lemma {:induction false} HeldStaysFresh(desk: Desk, ps: seq<Press>, id: int, uuid: string)
    requires id > 0 && OnlyHeldBy(desk.db.table, id, uuid) && !GivenAway(desk, ps, id, uuid)
    ensures OnlyHeldBy(PressRun(desk, ps).db.table, id, uuid)
    decreases |ps|
  {
    hide Take, OnlyHeldBy, GivesAway;
    if ps == [] {
    } else {
      StaysFreshStep(desk, ps[0], id, uuid);
      HeldStaysFresh(Take(desk, ps[0]), ps[1..], id, uuid);
    }
  }

  predicate NothingFreed(desk: Desk, ps: seq<Press>, id: int)
    decreases |ps|
  {
    ps == [] || ((forall r :: r in desk.db.table && r.fingerId == id ==> !Frees(desk, ps[0], r))
                 && NothingFreed(Take(desk, ps[0]), ps[1..], id))
  }

  lemma {:induction false} StaysTaken(desk: Desk, ps: seq<Press>, id: int, other: string)
    requires id > 0 && HasRow(desk.db.table, id, other) && NothingFreed(desk, ps, id)
    ensures HasRow(PressRun(desk, ps).db.table, id, other)
    decreases |ps|
  {
    hide Take, HasRow, Frees;
    if ps == [] {
    } else {
      StaysTakenStep(desk, ps[0], id, other);
      StaysTaken(Take(desk, ps[0]), ps[1..], id, other);
    }
  }

  lemma GivenIsTaken(desk: Desk, press: Press, id: int, uuid: string) returns (other: string)
    requires GivesAway(desk, press, id, uuid)
    ensures other != uuid && HasRow(Take(desk, press).db.table, id, other)
  {
    other := IdWrite(desk, press).value.0;
    WriteIds(desk, press);
    var i := First(desk.db.table, RowWithUuid(other));
    hide Take, IdWrite;
    assert Take(desk, press).db.table[i].fingerId == id;
  }

  /** If the id is not taken from anybody in between, that is exact: after the run it is with uuid
      or nobody exactly when no press gave it to somebody else. */
  lemma {:induction false} HeldFreshExact(desk: Desk, ps: seq<Press>, id: int, uuid: string)
    requires id > 0 && OnlyHeldBy(desk.db.table, id, uuid) && NothingFreed(desk, ps, id)
    ensures OnlyHeldBy(PressRun(desk, ps).db.table, id, uuid) <==> !GivenAway(desk, ps, id, uuid)
    decreases |ps|
  {
    if ps == [] {
    } else {
      var next := Take(desk, ps[0]);
      if GivesAway(desk, ps[0], id, uuid) {
        var other := GivenIsTaken(desk, ps[0], id, uuid);
        hide Take, Frees, GivesAway;
        StaysTaken(next, ps[1..], id, other);
      } else {
        hide Take, Frees, OnlyHeldBy, GivesAway;
        StaysFreshStep(desk, ps[0], id, uuid);
        HeldFreshExact(next, ps[1..], id, uuid);
      }
    }
  }

  // ----- Sound enrolment ----------------------------------------------------------------------

  /** The finger id of somebody is written, but the print is not stored: the finger is still held,
      and the next press gives its id to whoever is in the form then. */
  predicate HalfFailed(desk: Desk, press: Press) {
    var w := IdWrite(desk, press);
    press.RegisterFinger? && w.Some? && HasUuid(desk.db.table, w.value.0) && !press.printOk
  }

  /** No half-failed registration, no raw write of a finger id, no insert of a repeated uuid. */
  predicate Clean(desk: Desk, press: Press) {
    && !HalfFailed(desk, press)
    && (press.Elsewhere? ==> && !InsertsRepeated(desk.db, press.op, press.ok)
                             && !(press.ok && press.op.OpSetFingerId? && press.op.fingerId > 0))
  }

  ghost predicate Sound(desk: Desk) {
    && UniqueUuids(desk.db.table) && DistinctFingers(desk.db.table) && IdsFit(desk.db.table)
    && (desk.held == [] || NoneHas(desk.db.table, ReadId(desk.held)))
  }

  /** Ids that fit go on fitting, unless an operation other than enrolment writes a greater one:
      the register button reads its id from two bytes. */
  lemma FitExact(desk: Desk, press: Press)
    requires IdsFit(desk.db.table)
    ensures IdsFit(Take(desk, press).db.table)
        <==> !(press.Elsewhere? && press.ok && press.op.OpSetFingerId? && press.op.fingerId >= 0x1_0000
               && HasUuid(desk.db.table, press.op.uuid))
  {
    var t, u := desk.db.table, Take(desk, press).db.table;
    if Removes(press) {
      RemovalIds(desk, press);
      hide Take, Frees;
      forall i | 0 <= i < |u|
        ensures u[i].fingerId < 0x1_0000
      {
        assert u[i] in u;
        if u[i].fingerId > 0 {
          assert u[i] in t;
        }
      }
    } else if IdWrite(desk, press).None? {
      QuietIds(desk, press);
      hide Take;
    } else {
      WriteIds(desk, press);
      var w := IdWrite(desk, press).value;
      var k := First(t, RowWithUuid(w.0));
      hide Take;
      assert k < |t| ==> u[k].fingerId == w.1;
      assert k == |t| ==> forall i :: 0 <= i < |t| ==> !RowWithUuid(w.0)(t[i]);
    }
  }

  lemma SoundUuids(desk: Desk, press: Press)
    requires UniqueUuids(desk.db.table) && Clean(desk, press)
    ensures UniqueUuids(Take(desk, press).db.table)
  {
    match press
    case Elsewhere(op, ok) => UuidsExact(desk.db, op, ok);
    case RegisterFinger(employee, printOk, idOk) =>
      if Enrollee(desk, employee).Some? {
        RegisteredIds(desk, employee, printOk, idOk);
        hide Enrollee, ReadId;
      }
    case _ =>
  }

  /** Where uuids are unique, an id that nobody has is fresh for everybody. */
  lemma NobodysIsFresh(t: seq<Row>, uuid: string, id: int)
    requires UniqueUuids(t) && NoneHas(t, id)
    ensures FreshFor(t, uuid, id)
  {
    if HasUuid(t, uuid) {
      FreshExact(t, uuid, id);
    }
  }

  lemma SoundSafe(desk: Desk, press: Press)
    requires Sound(desk) && Clean(desk, press)
    ensures PressSafe(desk, press)
  {
    hide DistinctFingers, IdsFit, FreshFor, InsertsRepeated;
    match press
    case RegisterFinger(_, _, _) =>
      var w := IdWrite(desk, press);
      if w.Some? {
        NobodysIsFresh(desk.db.table, w.value.0, w.value.1);
      }
    case Elsewhere(op, ok) =>
      if ok && op.OpSetFingerId? {
        NobodysIsFresh(desk.db.table, op.uuid, op.fingerId);
      }
    case _ =>
  }

  /** What is held after a press is nobody's. */
  lemma SoundHeld(desk: Desk, press: Press)
    requires Sound(desk) && Clean(desk, press)
    ensures var d := Take(desk, press); d.held == [] || NoneHas(d.db.table, ReadId(d.held))
  {
    var d := Take(desk, press);
    match press
    case CaptureFinger(enrolled, backup) =>
      CapturedExact(desk.db.table);
      PackedBack(CapturedId(desk.db.table), backup);
    case ResetForm =>
    case _ =>
      var id := ReadId(desk.held);
      if d.held != [] && id > 0 {
        assert d.held == desk.held;
        NobodyGetsIt(desk, press, id);
      }
  }

  lemma NobodyGetsIt(desk: Desk, press: Press, id: int)
    requires id > 0 && NoneHas(desk.db.table, id) && Clean(desk, press)
    requires press.RegisterFinger? ==> id == ReadId(desk.held) && Take(desk, press).held != []
    ensures NoneHas(Take(desk, press).db.table, id)
  {
    var t, u := desk.db.table, Take(desk, press).db.table;
    if Removes(press) {
      RemovalIds(desk, press);
      hide Take, Frees;
      forall i | 0 <= i < |u|
        ensures u[i].fingerId != id
      {
        assert u[i] in u;
      }
    } else if IdWrite(desk, press).None? {
      QuietIds(desk, press);
      hide Take;
    } else {
      WriteIds(desk, press);
      var w := IdWrite(desk, press).value;
      assert press.RegisterFinger? ==> !HasUuid(t, w.0);
      hide Take;
      assert press.RegisterFinger? ==> forall i :: 0 <= i < |t| ==> !RowWithUuid(w.0)(t[i]);
    }
  }

  predicate CleanRun(desk: Desk, ps: seq<Press>)
    decreases |ps|
  {
    ps == [] || (Clean(desk, ps[0]) && CleanRun(Take(desk, ps[0]), ps[1..]))
  }

  /** While no registration fails by half, no raw id is written and no uuid inserted twice, a run
      of captures, registrations, resets and other operations keeps positive finger ids distinct
      and within 16 bits, however often the allocator runs out. */
  lemma {:induction false} SoundOnEveryRun(desk: Desk, ps: seq<Press>)
    requires Sound(desk) && CleanRun(desk, ps)
    ensures Sound(PressRun(desk, ps))
    decreases |ps|
  {
    if ps == [] {
    } else {
      SoundUuids(desk, ps[0]);
      SoundSafe(desk, ps[0]);
      SoundHeld(desk, ps[0]);
      hide Take, Clean, UniqueUuids, DistinctFingers, IdsFit, NoneHas, PressSafe, ReadId;
      PressExact(desk, ps[0]);
      CleanFits(desk, ps[0]);
      SoundOnEveryRun(Take(desk, ps[0]), ps[1..]);
    }
  }

  /** And while table and cache agree, everybody with a finger is found by it: ids that do not come
      back from getFingerId whole are never written. */
  lemma EnrolledIsFound(desk: Desk, uuid: string)
    requires Sound(desk) && Aligned(desk.db) && HasUuid(desk.db.table, uuid)
    requires desk.db.table[First(desk.db.table, RowWithUuid(uuid))].fingerId > 0
    ensures var p := FindByFinger(desk.db, FindFingerId(desk.db, uuid)); p.Some? && p.value.facts.uuid == uuid
  {
    hide Aligned, UniqueUuids, DistinctFingers, FindByFinger, FindFingerId;
    FingerFindsItsOwner(desk.db, uuid);
  }

  lemma CleanFits(desk: Desk, press: Press)
    requires IdsFit(desk.db.table) && Clean(desk, press)
    ensures IdsFit(Take(desk, press).db.table)
  {
    FitExact(desk, press);
    hide Take, IdsFit;
  }

  // ----- The half-failed registration -----------------------------------------------------------

  /** From any state in which a finger with a positive id is held: a registration of a that stores
      the id but not the print, and then one of b, leave a and b with the same finger id. */
  lemma HalfFailedThenAnother(desk: Desk, a: string, b: string, printOk: bool)
    requires ReadId(desk.held) > 0 && Enrollee(desk, a).Some? && Enrollee(desk, b).Some?
    requires Enrollee(desk, a).value != Enrollee(desk, b).value
    requires HasUuid(desk.db.table, Enrollee(desk, a).value) && HasUuid(desk.db.table, Enrollee(desk, b).value)
    ensures var d := PressRun(desk, [RegisterFinger(a, false, true), RegisterFinger(b, printOk, true)]);
            !DistinctFingers(d.db.table)
  {
    var p, q := RegisterFinger(a, false, true), RegisterFinger(b, printOk, true);
    var ua, ub, id := Enrollee(desk, a).value, Enrollee(desk, b).value, ReadId(desk.held);
    var d1 := Take(desk, p);
    SameEnrollee(desk, a, b);
    var d2 := Take(d1, q);
    WriteIds(desk, p);
    WriteIds(d1, q);
    var i, j := First(desk.db.table, RowWithUuid(ua)), First(desk.db.table, RowWithUuid(ub));
    hide Take, Enrollee, ReadId, First;
    assert d2.db.table[i].fingerId == id && d2.db.table[j].fingerId == id && i != j;
    SharedFinger(d2.db.table, i, j);
    PressTwo(desk, p, q);
  }

  lemma SharedFinger(t: seq<Row>, i: nat, j: nat)
    requires i < |t| && j < |t| && i != j && t[i].fingerId == t[j].fingerId > 0
    ensures !DistinctFingers(t)
  {
    assert i < j || j < i;
  }

  lemma PressTwo(desk: Desk, p: Press, q: Press)
    ensures PressRun(desk, [p, q]) == Take(Take(desk, p), q)
  {
    hide Take;
    assert [p, q][1..] == [q] && [q][1..] == [];
    assert PressRun(Take(desk, p), [q]) == PressRun(Take(Take(desk, p), q), []);
  }

  lemma SameFacts(db: Db, uuid: string, id: int)
    ensures var d := SetFingerId(db, uuid, id, true);
            && |d.table| == |db.table| && |d.ram| == |db.ram|
            && (forall i :: 0 <= i < |db.table| ==> d.table[i].facts == db.table[i].facts)
            && (forall i :: 0 <= i < |db.ram| ==> d.ram[i].facts == db.ram[i].facts)
  {
    hide First;
  }

  /** The first press changes neither the held finger nor whom an employee id leads to. */
  lemma SameEnrollee(desk: Desk, a: string, b: string)
    requires Enrollee(desk, a).Some?
    ensures var d := Take(desk, RegisterFinger(a, false, true)); d.held == desk.held && Enrollee(d, b) == Enrollee(desk, b)
  {
    var d := Take(desk, RegisterFinger(a, false, true));
    var ua, id := Enrollee(desk, a).value, ReadId(desk.held);
    assert d == Desk(SetFingerId(desk.db, ua, id, true), desk.held);
    hide Take, ReadId;
    SameFacts(desk.db, ua, id);
    hide SetFingerId;
    FirstAgrees(desk.db.ram, d.db.ram, WithIdcard(b), WithIdcard(b));
    FirstAgrees(desk.db.table, d.db.table, RowWithIdcard(b), RowWithIdcard(b));
    hide First;
  }
}

/** The two buttons of AddUserFrm, with the held finger in the field mFingerTemplate. */
module AddUserForm {
  import opened Options
  import opened PersonTable
  import opened PersonRuns
  import opened PersonLookups
  import opened PersonStore
  import opened FingerEnrolment

  class AddUserFrm {
    const faceDB: RegisteredFaces
    var mFingerTemplate: Blob

    function Current(): Desk
      reads this, faceDB
    {
      Desk(faceDB.Current(), mFingerTemplate)
    }

    constructor (faceDB: RegisteredFaces)
      ensures this.faceDB == faceDB && mFingerTemplate == []
    {
      this.faceDB, this.mFingerTemplate := faceDB, [];
    }

    /** slotCaptureFingerButton; ready: the sensor is, or could be made, ready. */
    method CaptureFingerButton(employee: string, ready: bool, enrolled: bool, backup: Blob)
      modifies this
      ensures Current() == if employee == "" || !ready then old(Current())
                           else Take(old(Current()), CaptureFinger(enrolled, backup))
    {
      if employee == "" || !ready {
        return;
      }
      var next := faceDB.GetNextAvailableFingerId();
      var sensorFingerId := Uint16(next);
      mFingerTemplate := [];
      if !enrolled {
        return;
      }
      mFingerTemplate := Packed(sensorFingerId, backup);
    }

    /** slotRegFingerButton. */
    method RegFingerButton(employee: string, userName: string, printOk: bool, idOk: bool)
      modifies this, faceDB
      ensures Current() == if employee == "" || userName == "" then old(Current())
                           else Take(old(Current()), RegisterFinger(employee, printOk, idOk))
    {
      if employee == "" || userName == "" || mFingerTemplate == [] || |mFingerTemplate| < 4 {
        return;
      }
      var sensorFingerId := ReadId(mFingerTemplate);
      var uuid := faceDB.FindUuidByEmployeeId(employee);
      if uuid.None? || uuid.value == "" {
        return;
      }
      var dbSuccess := faceDB.UpdatePersonFingerprint(uuid.value, mFingerTemplate, printOk);
      var idSuccess := faceDB.UpdatePersonFingerId(uuid.value, sensorFingerId, idOk);
      if dbSuccess && idSuccess {
        mFingerTemplate := [];
      }
    }

    /** The part of clearFormAndResetUI that concerns fingers. */
    method ClearFormAndResetUI()
      modifies this
      ensures Current() == Take(old(Current()), ResetForm)
    {
      mFingerTemplate := [];
    }
  }
}
