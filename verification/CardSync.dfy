/** syncRfidJson and syncFourDoorControllerJson: lists of entries folded into the table. */
module CardSync {
  import opened Collections
  import opened Options
  import opened CardEntries
  import opened PersonTable
  import opened PersonStore

  // ----- What a list of entries says of each employee -----------------------------------

  /** The cards of one employee, in the order of the entries. */
  function CardsOf(entries: seq<string>, employee: string): seq<string> {
    if entries == [] then [] else
    var k := RfidKind(entries[|entries| - 1]);
    CardsOf(entries[..|entries| - 1], employee)
    + if k.Assigned? && k.employee == employee then [k.code] else []
  }

  /** The code of the last entry for the employee. */
  function LastCode(entries: seq<string>, employee: string): Option<string> {
    if entries == [] then None else
    var k := QrKind(entries[|entries| - 1]);
    if k.Assigned? && k.employee == employee then Some(k.code) else LastCode(entries[..|entries| - 1], employee)
  }

  predicate IsAssigned(k: Kind) {
    k.Assigned?
  }

  predicate IsUnassigned(k: Kind) {
    k.Unassigned?
  }

  function Count(entries: seq<string>, kind: string -> Kind, which: Kind -> bool): nat {
    if entries == [] then 0 else
    Count(entries[..|entries| - 1], kind, which) + if which(kind(entries[|entries| - 1])) then 1 else 0
  }

  /** The number of cards in all groups together. */
  ghost function GroupSizes(groups: map<string, seq<string>>): nat
    decreases groups.Keys
  {
    if groups == map[] then 0 else
    var k :| k in groups;
    |groups[k]| + GroupSizes(groups - {k})
  }

  lemma {:induction false} GroupSizesWithout(groups: map<string, seq<string>>, k: string)
    requires k in groups
    ensures GroupSizes(groups) == |groups[k]| + GroupSizes(groups - {k})
    decreases groups.Keys
  {
    var j :| j in groups && GroupSizes(groups) == |groups[j]| + GroupSizes(groups - {j});
    if j == k {
    } else {
      GroupSizesWithout(groups - {j}, k);
      GroupSizesWithout(groups - {k}, j);
      assert groups - {j} - {k} == groups - {k} - {j};
    }
  }

  lemma GroupSizesUpdate(groups: map<string, seq<string>>, k: string, cards: seq<string>)
    ensures GroupSizes(groups[k := cards]) == GroupSizes(groups) + |cards| - if k in groups then |groups[k]| else 0
  {
    var g := groups[k := cards];
    GroupSizesWithout(g, k);
    if k in groups {
      GroupSizesWithout(groups, k);
      assert g - {k} == groups - {k};
    } else {
      assert g - {k} == groups;
    }
  }

  /** The cards of an employee are those of the entries assigned to the employee, each once, in the
      order of the entries. */
  lemma {:induction false} CardsInOrder(entries: seq<string>, employee: string) returns (places: seq<nat>)
    ensures |places| == |CardsOf(entries, employee)|
    ensures forall j, k :: 0 <= j < k < |places| ==> places[j] < places[k]
    ensures forall k :: 0 <= k < |places| ==>
              places[k] < |entries| && RfidKind(entries[places[k]]) == Assigned(employee, CardsOf(entries, employee)[k])
    ensures forall i :: 0 <= i < |entries| && RfidKind(entries[i]).Assigned? && RfidKind(entries[i]).employee == employee ==>
              i in places
  {
    hide RfidKind;
    if entries == [] {
      places := [];
    } else {
      var n := |entries| - 1;
      places := CardsInOrder(entries[..n], employee);
      var k := RfidKind(entries[n]);
      if k.Assigned? && k.employee == employee {
        places := places + [n];
      }
      forall i | 0 <= i < n && RfidKind(entries[i]).Assigned? && RfidKind(entries[i]).employee == employee
        ensures i in places
      {
        assert entries[..n][i] == entries[i];
      }
    }
  }

  /** Whether groups lists exactly the employees with a card, each with its cards. */
  ghost predicate Groups(groups: map<string, seq<string>>, entries: seq<string>) {
    forall e :: (e in groups <==> CardsOf(entries, e) != []) && (e in groups ==> groups[e] == CardsOf(entries, e))
  }

  lemma NoGroups()
    ensures Groups(map[], []) && GroupSizes(map[]) == 0
  {}

  /** One more entry: at most the group of its employee grows. */
  lemma GroupsGrow(groups: map<string, seq<string>>, entries: seq<string>, i: nat)
    requires i < |entries| && Groups(groups, entries[..i])
    ensures var k := RfidKind(entries[i]);
            if k.Assigned? then
              var cards := if k.employee in groups then groups[k.employee] else [];
              Groups(groups[k.employee := cards + [k.code]], entries[..i + 1])
            else Groups(groups, entries[..i + 1])
  {
    hide RfidKind;
    var k := RfidKind(entries[i]);
    forall e
      ensures CardsOf(entries[..i + 1], e)
           == CardsOf(entries[..i], e) + if k.Assigned? && k.employee == e then [k.code] else []
    {
      assert entries[..i + 1][..i] == entries[..i];
    }
  }

  /** The first loop of syncRfidJson: a group for each listed employee holds the employee's
      cards in order, the three counters cover all entries, and no card is lost. */
  method GroupCards(entries: seq<string>)
    returns (groups: map<string, seq<string>>, placed: nat, unassigned: nat, invalid: nat)
    ensures Groups(groups, entries)
    ensures placed + unassigned + invalid == |entries|
    ensures placed == Count(entries, RfidKind, IsAssigned) == GroupSizes(groups)
    ensures unassigned == Count(entries, RfidKind, IsUnassigned)
    ensures "" !in groups
  {
    hide RfidKind, CardsOf, Groups, GroupSizes;
    NoGroups();
    assert entries[..0] == [];
    groups, placed, unassigned, invalid := map[], 0, 0, 0;
    for i := 0 to |entries|
      invariant Groups(groups, entries[..i]) && "" !in groups
      invariant placed + unassigned + invalid == i
      invariant placed == Count(entries[..i], RfidKind, IsAssigned) == GroupSizes(groups)
      invariant unassigned == Count(entries[..i], RfidKind, IsUnassigned)
    {
      assert entries[..i + 1][..i] == entries[..i];
      GroupsGrow(groups, entries, i);
      match RfidKind(entries[i]) {
        case Invalid => invalid := invalid + 1;
        case Unassigned => unassigned := unassigned + 1;
        case Assigned(employee, card) =>
          AssignedHasName(entries[i]);
          var cards := if employee in groups then groups[employee] else [];
          GroupSizesUpdate(groups, employee, cards + [card]);
          groups := groups[employee := cards + [card]];
          placed := placed + 1;
      }
    }
    assert entries[..|entries|] == entries;
  }

  lemma AssignedHasName(entry: string)
    ensures RfidKind(entry).Assigned? ==> RfidKind(entry).employee != ""
    ensures QrKind(entry).Assigned? ==> QrKind(entry).employee != "" && QrKind(entry).code != ""
  {}

  /** The loop of syncFourDoorControllerJson: the last assignment of an employee wins. */
  method AssignCodes(entries: seq<string>) returns (codes: map<string, string>, valid: nat, unassigned: nat, invalid: nat)
    ensures forall e :: e in codes <==> LastCode(entries, e).Some?
    ensures forall e :: e in codes ==> LastCode(entries, e) == Some(codes[e]) && codes[e] != ""
    ensures valid + unassigned + invalid == |entries| && "" !in codes
    ensures valid == Count(entries, QrKind, IsAssigned)
    ensures unassigned == Count(entries, QrKind, IsUnassigned)
  {
    hide QrKind;
    codes, valid, unassigned, invalid := map[], 0, 0, 0;
    for i := 0 to |entries|
      invariant forall e :: e in codes <==> LastCode(entries[..i], e).Some?
      invariant forall e :: e in codes ==> LastCode(entries[..i], e) == Some(codes[e]) && codes[e] != ""
      invariant valid + unassigned + invalid == i && "" !in codes
      invariant valid == Count(entries[..i], QrKind, IsAssigned)
      invariant unassigned == Count(entries[..i], QrKind, IsUnassigned)
    {
      assert entries[..i + 1][..i] == entries[..i];
      AssignedHasName(entries[i]);
      match QrKind(entries[i]) {
        case Invalid => invalid := invalid + 1;
        case Unassigned => unassigned := unassigned + 1;
        case Assigned(employee, code) =>
          codes := codes[employee := code];
          valid := valid + 1;
      }
    }
    assert entries[..|entries|] == entries;
  }

  // ----- The table afterwards --------------------------------------------------------------

  /** The employees that a sync knows: the nonempty idcards in RAM. */
  function KnownIdcards(ram: seq<Person>): set<string> {
    set i | 0 <= i < |ram| && ram[i].facts.idcard != "" :: ram[i].facts.idcard
  }

  function Join(cards: seq<string>): string {
    if cards == [] then "" else if |cards| == 1 then cards[0] else cards[0] + "," + Join(cards[1..])
  }

  /** One more card comes behind a comma. */
  lemma {:induction false} JoinSnoc(cards: seq<string>, card: string)
    ensures Join([]) == "" && Join(cards + [card]) == if cards == [] then card else Join(cards) + "," + card
  {
    if |cards| <= 1 {
    } else {
      JoinSnoc(cards[1..], card);
      assert (cards + [card])[1..] == cards[1..] + [card];
      hide Join;
      ConcatAssociates(cards[0] + ",", Join(cards[1..]) + ",", card);
      ConcatAssociates(cards[0] + ",", Join(cards[1..]), ",");
    }
  }

  /** iccardnum after syncRfidJson.  cleared: the bulk clear succeeded; written: the employees
      whose own UPDATE succeeds. */
  function CardsAfter(r: Row, entries: seq<string>, known: set<string>, cleared: bool, written: set<string>)
    : Option<string>
  {
    var e := r.facts.idcard;
    if CardsOf(entries, e) != [] && e in known && e in written then Some(Join(CardsOf(entries, e)))
    else if cleared then None
    else r.iccardnum
  }

  function SetCards(r: Row, cards: Option<string>): Row {
    r.(iccardnum := cards)
  }

  function SetCode(r: Row, code: Option<string>): Row {
    r.(qrCode := code)
  }

  /** after is before with the cards written of all listed employees except those in todo. */
  ghost predicate CardsWritten(after: seq<Row>, before: seq<Row>, groups: map<string, seq<string>>, todo: set<string>,
                               known: set<string>, written: set<string>)
  {
    && |after| == |before|
    && forall i :: 0 <= i < |after| ==>
         var e := before[i].facts.idcard;
         after[i] == if e in groups && e !in todo && e in known && e in written
                     then SetCards(before[i], Some(Join(groups[e]))) else before[i]
  }

  lemma CardsWrittenStart(t: seq<Row>, groups: map<string, seq<string>>, known: set<string>, written: set<string>)
    ensures CardsWritten(t, t, groups, groups.Keys, known, written)
  {}

  lemma CardsWrittenStep(after: seq<Row>, before: seq<Row>, groups: map<string, seq<string>>, todo: set<string>,
                         known: set<string>, written: set<string>, e: string)
    requires e in groups && e in todo && CardsWritten(after, before, groups, todo, known, written)
    ensures var cards := Some(Join(groups[e]));
            var u := if e in known && e in written
                     then SqlUpdate(after, RowWithIdcard(e), (r: Row) => SetCards(r, cards)) else after;
            CardsWritten(u, before, groups, todo - {e}, known, written)
  {
    hide Join;
  }

  lemma CountStep(todo: set<string>, e: string, known: set<string>, written: set<string>)
    requires e in todo
    ensures |todo * known * written| == |(todo - {e}) * known * written| + (if e in known && e in written then 1 else 0)
    ensures |todo - known| == |todo - {e} - known| + (if e in known then 0 else 1)
  {
    if e in known {
      assert todo - {e} - known == todo - known;
      assert (todo - {e}) * known * written == todo * known * written - {e};
    } else {
      assert todo - {e} - known == todo - known - {e};
      assert (todo - {e}) * known * written == todo * known * written;
    }
  }

  /** The loop over the groups: one UPDATE for each employee that is known. */
  method WriteCards(db: RegisteredFaces, groups: map<string, seq<string>>, known: set<string>, written: set<string>)
    returns (updated: nat, notFound: nat)
    modifies db`table
    ensures CardsWritten(db.table, old(db.table), groups, {}, known, written)
    ensures updated == |groups.Keys * known * written| && notFound == |groups.Keys - known|
  {
    hide CardsWritten, Join;
    updated, notFound := 0, 0;
    var todo := groups.Keys;
    CardsWrittenStart(db.table, groups, known, written);
    while todo != {}
      invariant todo <= groups.Keys
      invariant updated + |todo * known * written| == |groups.Keys * known * written|
      invariant notFound + |todo - known| == |groups.Keys - known|
      invariant CardsWritten(db.table, old(db.table), groups, todo, known, written)
      decreases todo
    {
      var e :| e in todo;
      CardsWrittenStep(db.table, old(db.table), groups, todo, known, written, e);
      CountStep(todo, e, known, written);
      if e !in known {
        notFound := notFound + 1;
      } else if e in written {
        var cards := Some(Join(groups[e]));
        db.table := SqlUpdate(db.table, RowWithIdcard(e), (r: Row) => SetCards(r, cards));
        updated := updated + 1;
      }
      todo := todo - {e};
    }
  }

  /** The bulk clear and the loop together. */
  lemma ClearedAndWritten(before: Db, after: seq<Row>, groups: map<string, seq<string>>, entries: seq<string>,
                          known: set<string>, cleared: bool, written: set<string>)
    requires Groups(groups, entries)
    requires CardsWritten(after, ClearRfidCards(before, cleared).table, groups, {}, known, written)
    ensures |after| == |before.table|
    ensures forall i :: 0 <= i < |after| ==>
              var r := before.table[i];
              after[i] == SetCards(r, CardsAfter(r, entries, known, cleared, written))
  {
    hide CardsOf, Join;
  }

  /** Every row has the joined cards of its employee if listed and known, else NULL. */
  ghost predicate CardsAreThoseListed(t: seq<Row>, entries: seq<string>, known: set<string>) {
    forall i :: 0 <= i < |t| ==>
      var e := t[i].facts.idcard;
      t[i].iccardnum == if CardsOf(entries, e) != [] && e in known then Some(Join(CardsOf(entries, e))) else None
  }

  lemma ListedCards(before: seq<Row>, after: seq<Row>, entries: seq<string>, known: set<string>, written: set<string>)
    requires |after| == |before| && known <= written
    requires forall i :: 0 <= i < |after| ==>
               after[i] == SetCards(before[i], CardsAfter(before[i], entries, known, true, written))
    ensures CardsAreThoseListed(after, entries, known)
  {
    hide CardsOf, Join;
  }

  /** syncRfidJson on an array of entries: bulk clear, then one UPDATE for each listed employee
      that is known in RAM. */
  method SyncRfid(db: RegisteredFaces, entries: seq<string>, cleared: bool, written: set<string>)
    returns (groups: map<string, seq<string>>, updated: nat, notFound: nat)
    modifies db
    ensures |db.table| == |old(db.table)|
    ensures forall i :: 0 <= i < |db.table| ==>
              var r := old(db.table)[i];
              var e := r.facts.idcard;
              var listed := CardsOf(entries, e) != [] && e in KnownIdcards(old(db.persons)) && e in written;
              db.table[i] == r.(iccardnum := if listed then Some(Join(CardsOf(entries, e)))
                                             else if cleared then None else r.iccardnum)
    ensures cleared && KnownIdcards(old(db.persons)) <= written ==>
              CardsAreThoseListed(db.table, entries, KnownIdcards(old(db.persons)))
    ensures db.persons == ClearRfidCards(old(db.Current()), cleared).ram
    ensures Groups(groups, entries)
    ensures updated == |groups.Keys * KnownIdcards(old(db.persons)) * written|
    ensures notFound == |groups.Keys - KnownIdcards(old(db.persons))|
  {
    hide CardsWritten, CardsAreThoseListed, Groups, ClearRfidCards, Count, GroupSizes, Join, CardsOf;
    ghost var before := db.Current();
    var placed, unassigned, invalid;
    groups, placed, unassigned, invalid := GroupCards(entries);
    var known := KnownIdcards(db.persons);
    var _ := db.ClearAllRfidCards(cleared);
    updated, notFound := WriteCards(db, groups, known, written);
    ClearedAndWritten(before, db.table, groups, entries, known, cleared, written);
    if cleared && known <= written {
      ListedCards(before.table, db.table, entries, known, written);
    }
  }

  /** The middle loop of syncFourDoorControllerJson. */
  method WriteCodes(db: RegisteredFaces, codes: map<string, string>, known: set<string>, written: set<string>)
    modifies db`table
    ensures |db.table| == |old(db.table)|
    ensures forall i :: 0 <= i < |db.table| ==>
              var r := old(db.table)[i];
              var e := r.facts.idcard;
              db.table[i] == if e in codes && e in known && e in written then SetCode(r, Some(codes[e])) else r
  {
    var todo := codes.Keys;
    while todo != {}
      invariant todo <= codes.Keys && |db.table| == |old(db.table)|
      invariant forall i :: 0 <= i < |db.table| ==>
                  var r := old(db.table)[i];
                  var e := r.facts.idcard;
                  db.table[i] == if e in codes && e !in todo && e in known && e in written
                                 then SetCode(r, Some(codes[e])) else r
      decreases todo
    {
      var e :| e in todo;
      if e in known && e in written {
        var code := Some(codes[e]);
        db.table := SqlUpdate(db.table, RowWithIdcard(e), (r: Row) => SetCode(r, code));
      }
      todo := todo - {e};
    }
  }

  /** The third pass: everyone in RAM who is not listed loses the code. */
  method ClearOthers(db: RegisteredFaces, codes: map<string, string>, written: set<string>)
    modifies db`table
    ensures |db.table| == |old(db.table)|
    ensures forall i :: 0 <= i < |db.table| ==>
              var r := old(db.table)[i];
              var e := r.facts.idcard;
              db.table[i] == if e !in codes && e in KnownIdcards(db.persons) && e in written then SetCode(r, None) else r
  {
    var users := db.persons;
    for j := 0 to |users|
      invariant |db.table| == |old(db.table)|
      invariant forall i :: 0 <= i < |db.table| ==>
                  var r := old(db.table)[i];
                  var e := r.facts.idcard;
                  db.table[i] == if e !in codes && e in KnownIdcards(users[..j]) && e in written
                                 then SetCode(r, None) else r
    {
      var e := users[j].facts.idcard;
      KnownGrows(users, j);
      if e != "" && e !in codes && e in written {
        db.table := SqlUpdate(db.table, RowWithIdcard(e), (r: Row) => SetCode(r, None));
      }
    }
    assert users[..|users|] == users;
  }

  predicate Assigns(entry: string, e: string) {
    QrKind(entry).Assigned? && QrKind(entry).employee == e
  }

  /** The last assignment of an employee wins. */
  lemma {:induction false} LastAssignmentWins(entries: seq<string>, e: string, i: nat)
    requires i < |entries| && Assigns(entries[i], e)
    requires forall j :: i < j < |entries| ==> !Assigns(entries[j], e)
    ensures LastCode(entries, e) == Some(QrKind(entries[i]).code)
  {
    hide QrKind;
    var n := |entries| - 1;
    if i >= n {
    } else {
      assert !Assigns(entries[n], e);
      LastAssignmentWins(entries[..n], e, i);
    }
  }

  /** Entries of other employees count for nothing. */
  lemma {:induction false} OthersDoNotCount(entries: seq<string>, e: string)
    requires forall j :: 0 <= j < |entries| ==> !Assigns(entries[j], e)
    ensures LastCode(entries, e) == None
  {
    hide QrKind;
    if entries == [] {
    } else {
      assert !Assigns(entries[|entries| - 1], e);
      OthersDoNotCount(entries[..|entries| - 1], e);
    }
  }

  /** There is no code exactly when no entry assigns one. */
  lemma NoCodeIffUnlisted(entries: seq<string>, e: string)
    ensures LastCode(entries, e).None? <==> forall j :: 0 <= j < |entries| ==> !Assigns(entries[j], e)
  {
    if forall j :: 0 <= j < |entries| ==> !Assigns(entries[j], e) {
      OthersDoNotCount(entries, e);
    } else {
      var i := LastAssignment(entries, e);
      LastAssignmentWins(entries, e, i);
    }
  }

  lemma {:induction false} LastAssignment(entries: seq<string>, e: string) returns (i: nat)
    requires exists j :: 0 <= j < |entries| && Assigns(entries[j], e)
    ensures i < |entries| && Assigns(entries[i], e) && forall j :: i < j < |entries| ==> !Assigns(entries[j], e)
  {
    hide Assigns;
    i := |entries| - 1;
    if Assigns(entries[i], e) {
    } else {
      i := LastAssignment(entries[..i], e);
    }
  }

  /** syncFourDoorControllerJson on an array of entries: bulk clear, one UPDATE for each listed
      employee known in RAM, then one for each person in RAM that is not listed. */
  method SyncFourDoor(db: RegisteredFaces, entries: seq<string>, cleared: bool, written: set<string>)
    modifies db`table
    ensures |db.table| == |old(db.table)|
    ensures forall i :: 0 <= i < |db.table| ==>
              var r := old(db.table)[i];
              var e := r.facts.idcard;
              db.table[i] == r.(qrCode := if e in KnownIdcards(db.persons) && e in written then LastCode(entries, e)
                                          else if cleared then None else r.qrCode)
    ensures forall i :: 0 <= i < |db.table| ==>
              var e := db.table[i].facts.idcard;
              e in KnownIdcards(db.persons) && e in written ==>
                && db.table[i].qrCode == LastCode(entries, e)
                && (db.table[i].qrCode.None? <==> forall j :: 0 <= j < |entries| ==> !Assigns(entries[j], e))
  {
    hide LastCode, Assigns;
    forall e: string
      ensures LastCode(entries, e).None? <==> forall j :: 0 <= j < |entries| ==> !Assigns(entries[j], e)
    {
      NoCodeIffUnlisted(entries, e);
    }
    var codes, _, _, _ := AssignCodes(entries);
    if cleared {
      db.table := SqlUpdate(db.table, (r: Row) => true, (r: Row) => SetCode(r, None));
    }
    WriteCodes(db, codes, KnownIdcards(db.persons), written);
    ClearOthers(db, codes, written);
  }

  lemma KnownGrows(ram: seq<Person>, j: nat)
    requires j < |ram|
    ensures var e := ram[j].facts.idcard;
            KnownIdcards(ram[..j + 1]) == KnownIdcards(ram[..j]) + (if e != "" then {e} else {})
    ensures KnownIdcards(ram[..j + 1]) <= KnownIdcards(ram)
  {
    var a, b := ram[..j], ram[..j + 1];
    forall e | e in KnownIdcards(a)
      ensures e in KnownIdcards(b)
    {
      var i :| 0 <= i < |a| && a[i].facts.idcard != "" && e == a[i].facts.idcard;
      assert b[i] == a[i];
    }
    assert b[j] == ram[j];
    forall e | e in KnownIdcards(b)
      ensures e in KnownIdcards(ram)
    {
      var i :| 0 <= i < |b| && b[i].facts.idcard != "" && e == b[i].facts.idcard;
      assert ram[i] == b[i];
    }
  }
}
