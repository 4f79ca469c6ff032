/** What becomes of a stored card.  The syncs of the cards write the table only, so the cards in
    the cache are older ones, and some operations write those into the table. */
module PersonCards {
  import opened Collections
  import opened Options
  import opened PersonTable
  import opened PersonRuns
  import opened PersonFeatures

  /** The person with the key is there and has just these cards (None is NULL). */
  predicate HasCards(t: seq<Row>, key: int, cards: Option<string>) {
    exists i :: 0 <= i < |t| && t[i].facts.personId == key && t[i].iccardnum == cards
  }

  /** The cards a register or store writes when the cache knows nobody. */
  const NO_CARD := "000000"

  /** The operation, if its statement succeeds, leaves row r with the cards it has. */
  predicate KeepsCards(db: Db, op: Op, r: Row) {
    match op
    case OpRegister(_, p, _, _, _, _) =>
      var k := First(db.ram, WithIdcard(p.idcard));
      var cached := if k < |db.ram| then db.ram[k].iccard else NO_CARD;
      r.facts.idcard != p.idcard || r.iccardnum == Some(Or(p.iccard, cached))
    case OpUpdate(uuid, p, feature, jpeg, _) =>
      var k := First(db.ram, WithUuid(uuid));
      r.facts.uuid != uuid || (UpdateRuns(db, uuid, feature, jpeg) ==>
                                 r.iccardnum == Some(Or(p.iccard, db.ram[k].iccard)))
    case OpStore(uuid, p, generated, _) =>
      var k := First(db.ram, Known(p.idcard, StoredUuid(uuid, generated)));
      k < |db.ram| && r.facts.uuid == db.ram[k].facts.uuid ==> r.iccardnum == Some(Or(p.iccard, NO_CARD))
    case OpClearRfidCards => r.iccardnum == None
    case OpDelete(uuid) => r.facts.uuid != uuid
    case OpDeleteByName(name, createtime) => r.facts.name != name || r.facts.createtime != createtime
    case OpWipe => false
    case _ => true
  }

  // ----- One call -------------------------------------------------------------------------

  lemma CardsAfterDelete(t: seq<Row>, where: Row -> bool, i: nat)
    requires KeysAscend(t) && i < |t|
    ensures HasCards(SqlDelete(t, where), t[i].facts.personId, t[i].iccardnum) <==> !where(t[i])
  {
    KeyAfterDelete(t, where, i);
    hide SqlDelete, KeysAscend;
    var u := SqlDelete(t, where);
    assert forall j :: 0 <= j < |u| ==> u[j] in u;
  }

  lemma CardsInPlace(db: Db, op: Op, i: nat)
    requires i < |db.table| && !op.OpDelete? && !op.OpDeleteByName? && !op.OpWipe?
    ensures i < |Apply(db, op, true).table|
    ensures Apply(db, op, true).table[i].iccardnum == db.table[i].iccardnum <==> KeepsCards(db, op, db.table[i])
  {
    match op
    case OpRegister(_, _, _, _, _, _) => RegisterKeepsCards(db, op, i);
    case OpStore(_, _, _, _) => StoreKeepsCards(db, op, i);
    case _ => hide First;
  }

  lemma RegisterKeepsCards(db: Db, op: Op, i: nat)
    requires i < |db.table| && op.OpRegister?
    ensures i < |Apply(db, op, true).table|
    ensures Apply(db, op, true).table[i].iccardnum == db.table[i].iccardnum <==> KeepsCards(db, op, db.table[i])
  {
    var k := First(db.table, RowWithIdcard(op.profile.idcard));
    assert db.table[i].facts.idcard == op.profile.idcard ==> RowWithIdcard(op.profile.idcard)(db.table[i]) && k <= i;
    hide First, RegisteredImage;
  }

  lemma StoreKeepsCards(db: Db, op: Op, i: nat)
    requires i < |db.table| && op.OpStore?
    ensures i < |Apply(db, op, true).table|
    ensures Apply(db, op, true).table[i].iccardnum == db.table[i].iccardnum <==> KeepsCards(db, op, db.table[i])
  {
    hide First, StoredUuid, MaxPersonId;
  }

  lemma CardsAt(t: seq<Row>, i: nat, cards: Option<string>)
    requires KeysAscend(t) && i < |t|
    ensures HasCards(t, t[i].facts.personId, cards) <==> t[i].iccardnum == cards
  {}

  /** From any state, whatever the cache holds, a person has the same cards after the call exactly
      when the statement fails, the call is about somebody else, or it writes the same ones. */
  lemma CardsExact(db: Db, op: Op, ok: bool, i: nat)
    requires KeysAscend(db.table) && i < |db.table|
    ensures HasCards(Apply(db, op, ok).table, db.table[i].facts.personId, db.table[i].iccardnum)
        <==> !ok || KeepsCards(db, op, db.table[i])
  {
    var after := Apply(db, op, ok);
    match op
    case OpDelete(uuid) => CardsAfterDelete(db.table, RowWithUuid(uuid), i);
    case OpDeleteByName(name, createtime) => CardsAfterDelete(db.table, RowNamed(name, createtime), i);
    case OpWipe =>
    case _ =>
      hide Apply, KeepsCards;
      if ok {
        CardsInPlace(db, op, i);
        OtherOpsKeepRows(db, op, ok);
        KeysKept(db, op, ok);
        CardsAt(after.table, i, db.table[i].iccardnum);
      } else {
        FailureKeepsTable(db, op);
      }
  }

  // ----- Runs -----------------------------------------------------------------------------

  predicate CardSafeRun(db: Db, calls: seq<Call>, key: int)
    decreases |calls|
  {
    calls == []
    || (&& (calls[0].ok ==> forall i :: 0 <= i < |db.table| && db.table[i].facts.personId == key ==>
                              KeepsCards(db, calls[0].op, db.table[i]))
        && CardSafeRun(Apply(db, calls[0].op, calls[0].ok), calls[1..], key))
  }

  /** The cards that a sync has left in a row stay there all along a run exactly until a successful
      call clears them, deletes the person, or is a register, update or store of the person
      that writes other ones. */
  lemma {:induction false} CardsOnEveryRun(db: Db, calls: seq<Call>, key: int, cards: Option<string>)
    requires KeysAscend(db.table) && HasCards(db.table, key, cards)
    ensures CardSafeRun(db, calls, key)
        <==> forall n :: 0 <= n <= |calls| ==> HasCards(Run(db, calls[..n]).table, key, cards)
    decreases |calls|
  {
    assert Run(db, calls[..0]) == db;
    if calls == [] {
    } else {
      var next := Apply(db, calls[0].op, calls[0].ok);
      var i :| 0 <= i < |db.table| && db.table[i].facts.personId == key && db.table[i].iccardnum == cards;
      CardsExact(db, calls[0].op, calls[0].ok, i);
      KeysKept(db, calls[0].op, calls[0].ok);
      assert forall j :: 0 <= j < |db.table| && db.table[j].facts.personId == key ==> j == i;
      hide Apply, HasCards, KeepsCards, KeysAscend;
      RunPrefix(db, calls, 1);
      assert Run(next, calls[1..][..0]) == next;
      if HasCards(next.table, key, cards) {
        CardsOnEveryRun(next, calls[1..], key, cards);
        forall n | 0 < n <= |calls|
          ensures HasCards(Run(db, calls[..n]).table, key, cards)
              <==> HasCards(Run(next, calls[1..][..n - 1]).table, key, cards)
        {
          RunPrefix(db, calls, n);
        }
        forall n | 0 <= n <= |calls[1..]|
          ensures HasCards(Run(next, calls[1..][..n]).table, key, cards)
              <==> HasCards(Run(db, calls[..n + 1]).table, key, cards)
        {
          RunPrefix(db, calls, n + 1);
        }
      }
    }
  }
}
