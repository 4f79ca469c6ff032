/** Two people: what goes wrong when an idcard is shared, and when a registration fails by half. */
module PersonExamples {
  import opened Collections
  import opened Options
  import opened PersonTable
  import opened PersonRuns
  import opened PersonLookups
  import opened FingerEnrolment

  function Someone(uuid: string, idcard: string, name: string, feature: Blob, personId: int): Row {
    Row(Facts(uuid, idcard, name, "F", feature, [], 0, personId, "0", "2", "t", "", "", "", "", "", "", 0),
        -1, None, None, "", 0, NO_STAMPS)
  }

  /** A profile that gives a name and an idcard. */
  function Named(name: string, idcard: string): Profile {
    Profile(name, idcard, "", "", "", "", "", "", "", "", 0)
  }

  /** A register under an idcard that two rows hold renames both, but only one cache entry. */
  lemma RegisterRenamesBoth(db: Db, name: string, idcard: string)
    requires |db.table| == |db.ram| == 2 && name != ""
    requires db.table[0].facts.idcard == db.table[1].facts.idcard == db.ram[0].facts.idcard == idcard
    ensures var after := Register(db, "", Named(name, idcard), [], None, "", "t", true);
            && |after.table| == |after.ram| == 2
            && after.table[1].facts.name == name && after.ram[1] == db.ram[1]
  {
    assert RowWithIdcard(idcard)(db.table[0]) && WithIdcard(idcard)(db.ram[0]);
    assert First(db.table, RowWithIdcard(idcard)) == 0 && First(db.ram, WithIdcard(idcard)) == 0;
    hide First;
  }

  /** Ben gets the idcard of Ann. */
  lemma IdcardShared()
    ensures var rows := [Someone("uuid-a", "1", "Ann", [], 1), Someone("uuid-b", "2", "Ben", [7], 2)];
            var db := Update(Db(rows, LoadAll(rows)), "uuid-b", Named("", "1"), [], NoImage, "t", true);
            && Loadable(rows) && |db.table| == |db.ram| == 2
            && db.table[0].facts.idcard == db.table[1].facts.idcard == db.ram[0].facts.idcard == "1"
            && db.ram[1].facts.name == "Ben"
            && db.table[0].facts.feature == [] && db.table[1].facts.feature == [7]
  {
    var rows := [Someone("uuid-a", "1", "Ann", [], 1), Someone("uuid-b", "2", "Ben", [7], 2)];
    var ram := LoadAll(rows);
    assert "uuid-a"[5] != "uuid-b"[5] && "1"[0] != "2"[0];
    assert ram[0] == LoadPerson(rows[0]) && ram[1] == LoadPerson(rows[1]);
    assert !WithUuid("uuid-b")(ram[0]) && WithUuid("uuid-b")(ram[1]);
    assert First(ram, WithUuid("uuid-b")) == 1;
    hide First, LoadAll;
  }

  /** Giving Ben the idcard of Ann and then registering under that idcard renames both rows,
      but only the first cache entry: Ben's row and Ben's entry differ from then on. */
  lemma SharedIdcardBreaksAgreement()
    ensures var rows := [Someone("uuid-a", "1", "Ann", [], 1), Someone("uuid-b", "2", "Ben", [7], 2)];
            var calls := [Call(OpUpdate("uuid-b", Named("", "1"), [], NoImage, "t"), true),
                          Call(OpRegister("", Named("Cyd", "1"), [], None, "", "t"), true)];
            var db := Run(Db(rows, LoadAll(rows)), calls);
            Loadable(rows) && |db.table| == |db.ram| == 2
            && db.table[1].facts.name == "Cyd" && db.ram[1].facts.name == "Ben"
  {
    hide Update, Register, LoadAll, Someone, Loadable;
    var rows := [Someone("uuid-a", "1", "Ann", [], 1), Someone("uuid-b", "2", "Ben", [7], 2)];
    var db := Update(Db(rows, LoadAll(rows)), "uuid-b", Named("", "1"), [], NoImage, "t", true);
    IdcardShared();
    RegisterRenamesBoth(db, "Cyd", "1");
    var calls := [Call(OpUpdate("uuid-b", Named("", "1"), [], NoImage, "t"), true),
                  Call(OpRegister("", Named("Cyd", "1"), [], None, "", "t"), true)];
    assert Run(Db(rows, LoadAll(rows)), calls) == Run(db, calls[1..]);
    assert calls[1..][1..] == [];
  }

  /** The register looks for the stored feature in the first row and writes what it finds into
      every row of the idcard. */
  lemma RegisterErasesSecond(db: Db, idcard: string)
    requires |db.table| == |db.ram| == 2
    requires db.table[0].facts.idcard == db.table[1].facts.idcard == db.ram[0].facts.idcard == idcard
    requires db.table[0].facts.feature == []
    ensures var after := Register(db, "", Named("", idcard), [], None, "", "t", true);
            |after.table| == 2 && after.table[1].facts.feature == []
  {
    assert RowWithIdcard(idcard)(db.table[0]);
    assert First(db.table, RowWithIdcard(idcard)) == 0;
    hide First;
  }

  /** Ben has a feature, Ann has none.  Ben gets the idcard of Ann, and a register under that
      idcard, which brings no feature, erases Ben's; nobody asked for that. */
  lemma SharedIdcardErasesFeature()
    ensures var rows := [Someone("uuid-a", "1", "Ann", [], 1), Someone("uuid-b", "2", "Ben", [7], 2)];
            var calls := [Call(OpUpdate("uuid-b", Named("", "1"), [], NoImage, "t"), true),
                          Call(OpRegister("", Named("", "1"), [], None, "", "t"), true)];
            var db := Run(Db(rows, LoadAll(rows)), calls);
            Loadable(rows) && rows[1].facts.feature == [7] && |db.table| == 2 && db.table[1].facts.feature == []
  {
    var rows := [Someone("uuid-a", "1", "Ann", [], 1), Someone("uuid-b", "2", "Ben", [7], 2)];
    assert rows[1].facts.feature == [7];
    hide Update, Register, LoadAll, Someone, Loadable;
    var db := Update(Db(rows, LoadAll(rows)), "uuid-b", Named("", "1"), [], NoImage, "t", true);
    IdcardShared();
    RegisterErasesSecond(db, "1");
    var calls := [Call(OpUpdate("uuid-b", Named("", "1"), [], NoImage, "t"), true),
                  Call(OpRegister("", Named("", "1"), [], None, "", "t"), true)];
    assert Run(Db(rows, LoadAll(rows)), calls) == Run(db, calls[1..]);
    assert calls[1..][1..] == [];
  }

  lemma WhoIsWho(held: Blob)
    requires |held| >= 4
    ensures var rows := [Someone("uuid-a", "1", "Ann", [], 1), Someone("uuid-b", "2", "Ben", [7], 2)];
            var desk := Desk(Db(rows, LoadAll(rows)), held);
            && Enrollee(desk, "1") == Some("uuid-a") && Enrollee(desk, "2") == Some("uuid-b")
            && HasUuid(rows, "uuid-a") && HasUuid(rows, "uuid-b") && "uuid-a" != "uuid-b"
            && UniqueUuids(rows) && DistinctFingers(rows) && IdsFit(rows) && CapturedId(rows) == 1
  {
    var rows := [Someone("uuid-a", "1", "Ann", [], 1), Someone("uuid-b", "2", "Ben", [7], 2)];
    var ram := LoadAll(rows);
    assert "uuid-a"[5] != "uuid-b"[5] && "1"[0] != "2"[0];
    assert ram[0] == LoadPerson(rows[0]) && ram[1] == LoadPerson(rows[1]);
    assert WithIdcard("1")(ram[0]) && !WithIdcard("2")(ram[0]) && WithIdcard("2")(ram[1]);
    assert First(ram, WithIdcard("1")) == 0 && First(ram, WithIdcard("2")) == 1;
    assert RowWithUuid("uuid-a")(rows[0]) && RowWithUuid("uuid-b")(rows[1]);
    hide First, LoadAll;
  }

  /** Everything is in order, and the only id comes from the allocator.  A finger is captured; its
      registration for Ann stores the id but not the print; the same finger is then registered for
      Ben, with success.  Both end with finger id 1. */
  lemma HalfFailedRegistration(backup: Blob)
    ensures var rows := [Someone("uuid-a", "1", "Ann", [], 1), Someone("uuid-b", "2", "Ben", [7], 2)];
            var start := Desk(Db(rows, LoadAll(rows)), []);
            var presses := [CaptureFinger(true, backup), RegisterFinger("1", false, true), RegisterFinger("2", true, true)];
            Sound(start) && !DistinctFingers(PressRun(start, presses).db.table)
  {
    hide Someone, LoadAll, Enrollee, Packed, ReadId, CapturedId, DistinctFingers, UniqueUuids, IdsFit, HasUuid;
    var rows := [Someone("uuid-a", "1", "Ann", [], 1), Someone("uuid-b", "2", "Ben", [7], 2)];
    var start := Desk(Db(rows, LoadAll(rows)), []);
    var held := Packed(CapturedId(rows), backup);
    var desk := start.(held := held);
    WhoIsWho([0, 0, 0, 0]);
    PackedBack(1, backup);
    WhoIsWho(held);
    HalfFailedThenAnother(desk, "1", "2", true);
    var rest := [RegisterFinger("1", false, true), RegisterFinger("2", true, true)];
    var presses := [CaptureFinger(true, backup)] + rest;
    assert presses[1..] == rest;
    assert Take(start, presses[0]) == desk;
    assert presses == [CaptureFinger(true, backup), RegisterFinger("1", false, true), RegisterFinger("2", true, true)];
  }
}
