// The slot table of tracked faces: getCoreFace and the frame loop of BaiduFaceManager.cpp.  The
// slots hold the id of the tracker plus one, the list of live faces holds the id itself.

module FaceSlots {
  import opened Collections

  const MAX_FACES := 10
  const WORD := 0x1_0000_0000

  type Word = x: int | 0 <= x < WORD

  datatype Rect = Rect(x: Word, y: Word, width: Word, height: Word)
  datatype Kind = Unknown | Moving | Search | Regist | Post | Match | Delete
  datatype Payload = Payload(trackCount: Word, live: bool, kind: Kind, rect: Rect)
  datatype Face = Face(trackId: Word, payload: Payload)

  /** A face of the tracker; accepted says that it is tracked and clear enough. */
  datatype Tracked = Tracked(id: Word, accepted: bool, rect: Rect)

  const BLANK := Payload(0, false, Unknown, Rect(0, 0, 0, 0))

  /** What a slot holds for a tracker id: an unsigned int, incremented. */
  function Key(id: Word): Word {
    (id + 1) % WORD
  }

  /** The test of the inner loop: a zero entry lists nothing. */
  predicate Listed(key: Word, exist: seq<Word>) {
    key != 0 && key in exist
  }

  function HasKey(key: Word): Face -> bool {
    (f: Face) => f.trackId == key
  }

  function Unlisted(exist: seq<Word>): Face -> bool {
    (f: Face) => !Listed(f.trackId, exist)
  }

  predicate Hit(slots: seq<Face>, id: Word) {
    exists k :: 0 <= k < |slots| && slots[k].trackId == Key(id)
  }

  /** The slot getCoreFace answers with. */
  function Chosen(slots: seq<Face>, id: Word, exist: seq<Word>): (k: nat)
    requires |slots| > 0
    ensures k < |slots|
  {
    if Hit(slots, id) then First(slots, HasKey(Key(id)))
    else
      var i := First(slots, Unlisted(exist));
      if i < |slots| then i else 0
  }

  /** The slots afterwards: a miss wipes the chosen slot and gives it to the face. */
  function Taken(slots: seq<Face>, id: Word, exist: seq<Word>): (after: seq<Face>)
    requires |slots| > 0
    ensures |after| == |slots| && after[Chosen(slots, id, exist)].trackId == Key(id)
  {
    if Hit(slots, id) then slots else slots[Chosen(slots, id, exist) := Face(Key(id), BLANK)]
  }

  // ----- One call ----------------------------------------------------------------------------

  /** No two slots hold the same face. */
  predicate UniqueIds(slots: seq<Face>) {
    forall i, j :: 0 <= i < j < |slots| && slots[i].trackId != 0 ==> slots[i].trackId != slots[j].trackId
  }

  lemma UniqueKept(slots: seq<Face>, id: Word, exist: seq<Word>)
    requires |slots| > 0 && UniqueIds(slots)
    ensures UniqueIds(Taken(slots, id, exist))
  {
    hide Chosen;
    assert Hit(slots, id) || forall k :: 0 <= k < |slots| ==> slots[k].trackId != Key(id);
  }

  /** Which slot a miss overwrites: the first that is not listed, or the very first if all are. */
  lemma EvictedExact(slots: seq<Face>, id: Word, exist: seq<Word>, k: nat)
    requires k < |slots| && !Hit(slots, id)
    ensures Taken(slots, id, exist)[k] != slots[k] <==>
            && (forall j :: 0 <= j < k ==> Listed(slots[j].trackId, exist))
            && (Listed(slots[k].trackId, exist) ==> k == 0 && forall j :: 0 <= j < |slots| ==> Listed(slots[j].trackId, exist))
  {
    assert slots[k].trackId != Key(id);
  }

  /** A listed slot goes only if all slots are listed. */
  lemma ListedSurvives(slots: seq<Face>, id: Word, exist: seq<Word>, k: nat)
    requires k < |slots| && Listed(slots[k].trackId, exist)
    requires exists j :: 0 <= j < |slots| && !Listed(slots[j].trackId, exist)
    ensures Taken(slots, id, exist)[k] == slots[k]
  {
    if !Hit(slots, id) {
      EvictedExact(slots, id, exist, k);
    }
  }

  // ----- The list of live faces never lists all slots -----------------------------------------

  function IdSet(slots: seq<Face>): set<Word> {
    set i | 0 <= i < |slots| :: slots[i].trackId
  }

  lemma {:induction false} DistinctCount(slots: seq<Face>)
    requires UniqueIds(slots) && forall i :: 0 <= i < |slots| ==> slots[i].trackId != 0
    ensures |IdSet(slots)| == |slots|
  {
    if slots == [] {
    } else {
      var rest := slots[..|slots| - 1];
      var last := slots[|slots| - 1].trackId;
      DistinctCount(rest);
      assert IdSet(slots) == IdSet(rest) + {last} by {
        forall x | x in IdSet(slots)
          ensures x in IdSet(rest) + {last}
        {
          var i :| 0 <= i < |slots| && slots[i].trackId == x;
          assert i < |rest| ==> rest[i].trackId == x;
        }
        forall x | x in IdSet(rest)
          ensures x in IdSet(slots)
        {
          var i :| 0 <= i < |rest| && rest[i].trackId == x;
          assert slots[i].trackId == x;
        }
        assert slots[|slots| - 1].trackId in IdSet(slots);
      }
      assert last !in IdSet(rest);
    }
  }

  function Entries(exist: seq<Word>): set<Word> {
    set j | 0 <= j < |exist| :: exist[j]
  }

  lemma {:induction false} EntryCount(exist: seq<Word>)
    ensures |Entries(exist)| <= |exist|
  {
    if exist == [] {
    } else {
      var rest := exist[..|exist| - 1];
      EntryCount(rest);
      assert Entries(exist) <= Entries(rest) + {exist[|exist| - 1]} by {
        forall x | x in Entries(exist)
          ensures x in Entries(rest) + {exist[|exist| - 1]}
        {
          var j :| 0 <= j < |exist| && exist[j] == x;
          assert j < |rest| ==> rest[j] == x;
        }
      }
      SubsetSize(Entries(exist), Entries(rest) + {exist[|exist| - 1]});
    }
  }

  /** The last entry of the list stays zero, so it lists at most nine faces, and one of the ten
      slots is free: the fallback to slot 0 is dead. */
  lemma NeverAllListed(slots: seq<Face>, exist: seq<Word>)
    requires |slots| == MAX_FACES == |exist| && exist[MAX_FACES - 1] == 0 && UniqueIds(slots)
    ensures exists k :: 0 <= k < |slots| && !Listed(slots[k].trackId, exist)
  {
    if forall k :: 0 <= k < |slots| ==> Listed(slots[k].trackId, exist) {
      var nine := exist[..MAX_FACES - 1];
      DistinctCount(slots);
      EntryCount(nine);
      forall x | x in IdSet(slots)
        ensures x in Entries(nine)
      {
        var i :| 0 <= i < |slots| && slots[i].trackId == x;
        assert Listed(x, exist);
        var j :| 0 <= j < |exist| && exist[j] == x;
        assert nine[j] == x;
      }
      SubsetSize(IdSet(slots), Entries(nine));
      assert false;
    }
  }

  // ----- Frames ------------------------------------------------------------------------------

  /** The slots and the list, which is kept from frame to frame. */
  datatype Table = Table(slots: seq<Face>, exist: seq<Word>)

  const NO_FACE := Face(0, BLANK)

  const EMPTY := Table(
    [NO_FACE, NO_FACE, NO_FACE, NO_FACE, NO_FACE, NO_FACE, NO_FACE, NO_FACE, NO_FACE, NO_FACE],
    [0, 0, 0, 0, 0, 0, 0, 0, 0, 0])

  /** What the frame loop writes into the slot of a face. */
  function Seen(p: Payload, rect: Rect): Payload {
    Payload(if p.live then (p.trackCount + 1) % WORD else p.trackCount, p.live, if p.kind == Match then Match else Moving, rect)
  }

  predicate Sized(tb: Table) {
    |tb.slots| == MAX_FACES == |tb.exist|
  }

  function SeeFace(tb: Table, i: nat, f: Tracked): (after: Table)
    requires Sized(tb) && i + 1 < MAX_FACES
    ensures Sized(after)
  {
    var k := Chosen(tb.slots, f.id, tb.exist);
    var slots := Taken(tb.slots, f.id, tb.exist);
    Table(slots[k := Face(slots[k].trackId, Seen(slots[k].payload, f.rect))], tb.exist[i := f.id])
  }

  /** The frame loop from face i on: it stops before the tenth face. */
  function SeeFrame(tb: Table, faces: seq<Tracked>, i: nat): (after: Table)
    requires Sized(tb) && i < MAX_FACES && i <= |faces|
    ensures Sized(after)
    decreases |faces| - i
  {
    if i == |faces| || i + 1 == MAX_FACES then tb
    else SeeFrame(if faces[i].accepted then SeeFace(tb, i, faces[i]) else tb, faces, i + 1)
  }

  /** A frame, or another part of the program writing to a face it was given. */
  datatype Event = FrameSeen(faces: seq<Tracked>) | Edited(k: nat, payload: Payload)

  function Step(tb: Table, e: Event): (after: Table)
    requires Sized(tb)
    ensures Sized(after)
  {
    match e
    case FrameSeen(faces) => SeeFrame(tb, faces, 0)
    case Edited(k, payload) =>
      if k < MAX_FACES then tb.(slots := tb.slots[k := Face(tb.slots[k].trackId, payload)]) else tb
  }

  function Run(events: seq<Event>): (tb: Table)
    ensures Sized(tb)
  {
    if events == [] then EMPTY else Step(Run(events[..|events| - 1]), events[|events| - 1])
  }

  ghost predicate Inv(tb: Table) {
    Sized(tb) && UniqueIds(tb.slots) && tb.exist[MAX_FACES - 1] == 0
  }

  /** After a face was seen exactly one slot may have changed: it holds the key of the face, its
      place in the picture, one more sighting if it is alive, and MATCH only if it was matched
      before; a face that had no slot starts from a blank one. */
  lemma FaceIsUpToDate(tb: Table, i: nat, f: Tracked)
    requires Sized(tb) && i + 1 < MAX_FACES
    ensures var after := SeeFace(tb, i, f);
            exists k :: 0 <= k < MAX_FACES
              && after.slots == tb.slots[k := after.slots[k]] && after.exist == tb.exist[i := f.id]
              && after.slots[k].trackId == (f.id + 1) % 0x1_0000_0000 && after.slots[k].payload.rect == f.rect
              && var before := if Hit(tb.slots, f.id) then tb.slots[k].payload else BLANK;
              && (Hit(tb.slots, f.id) ==>
                    tb.slots[k].trackId == Key(f.id) && forall j :: 0 <= j < k ==> tb.slots[j].trackId != Key(f.id))
              && after.slots[k].payload.live == before.live
              && after.slots[k].payload.trackCount
                 == (if before.live then (before.trackCount + 1) % 0x1_0000_0000 else before.trackCount)
              && after.slots[k].payload.kind == if before.kind == Match then Match else Moving
  {
    var k := Chosen(tb.slots, f.id, tb.exist);
    var after := SeeFace(tb, i, f);
    assert after.slots == tb.slots[k := after.slots[k]];
    assert Hit(tb.slots, f.id) ==> tb.slots[k].trackId == Key(f.id);
  }

  /** A frame puts the id of each accepted one of its first nine faces into the entry of the list
      with the place of the face, and leaves the other entries as they were. */
  lemma {:induction false} FrameLists(tb: Table, faces: seq<Tracked>, i: nat)
    requires Sized(tb) && i < MAX_FACES && i <= |faces|
    ensures forall j :: 0 <= j < 10 ==>
              SeeFrame(tb, faces, i).exist[j] == if i <= j < |faces| && j < 9 && faces[j].accepted then faces[j].id else tb.exist[j]
    decreases |faces| - i
  {
    if i == |faces| || i + 1 == MAX_FACES {
    } else {
      hide Chosen, Taken, Seen;
      FrameLists(if faces[i].accepted then SeeFace(tb, i, faces[i]) else tb, faces, i + 1);
    }
  }

  lemma SeeFaceKeepsInv(tb: Table, i: nat, f: Tracked)
    requires Inv(tb) && i + 1 < MAX_FACES
    ensures Inv(SeeFace(tb, i, f))
  {
    UniqueKept(tb.slots, f.id, tb.exist);
    hide Chosen, Taken, Seen;
  }

  lemma {:induction false} FrameKeepsInv(tb: Table, faces: seq<Tracked>, i: nat)
    requires Inv(tb) && i < MAX_FACES && i <= |faces|
    ensures Inv(SeeFrame(tb, faces, i))
    decreases |faces| - i
  {
    hide SeeFace, UniqueIds;
    if i >= |faces| || i + 1 >= MAX_FACES {
    } else {
      if faces[i].accepted {
        SeeFaceKeepsInv(tb, i, faces[i]);
        FrameKeepsInv(SeeFace(tb, i, faces[i]), faces, i + 1);
      } else {
        FrameKeepsInv(tb, faces, i + 1);
      }
    }
  }

  lemma {:induction false} RunKeepsInv(events: seq<Event>)
    ensures Inv(Run(events))
  {
    if events == [] {
    } else {
      var tb := Run(events[..|events| - 1]);
      RunKeepsInv(events[..|events| - 1]);
      match events[|events| - 1]
      case FrameSeen(faces) => FrameKeepsInv(tb, faces, 0);
      case Edited(_, _) =>
    }
  }

  /** After every run the faces are in different slots, and whatever face comes next, the list
      protects every slot it names. */
  lemma SlotsOnEveryRun(events: seq<Event>, id: Word, k: nat)
    requires k < MAX_FACES
    ensures var tb := Run(events);
            && UniqueIds(tb.slots)
            && (Listed(tb.slots[k].trackId, tb.exist) ==> Taken(tb.slots, id, tb.exist)[k] == tb.slots[k])
  {
    var tb := Run(events);
    RunKeepsInv(events);
    NeverAllListed(tb.slots, tb.exist);
    if Listed(tb.slots[k].trackId, tb.exist) {
      ListedSurvives(tb.slots, id, tb.exist, k);
    }
  }

  // ----- What the list does not protect --------------------------------------------------------

  /** No face of the frame has the id after another one's. */
  predicate Spaced(faces: seq<Tracked>) {
    forall j, k :: 0 <= j < |faces| && 0 <= k < |faces| ==> Key(faces[j].id) != faces[k].id
  }

  /** The key of the last accepted face; the greatest id, whose key is 0, leaves no trace. */
  function LastKey(faces: seq<Tracked>, start: Word): Word {
    if faces == [] then start else
    var f := faces[|faces| - 1];
    if f.accepted && Key(f.id) != 0 then Key(f.id) else LastKey(faces[..|faces| - 1], start)
  }

  ghost predicate OnlySlotZero(tb: Table, faces: seq<Tracked>) {
    && Sized(tb)
    && (forall k :: 1 <= k < MAX_FACES ==> tb.slots[k].trackId == 0)
    && (tb.slots[0].trackId == 0 || exists j :: 0 <= j < |faces| && tb.slots[0].trackId == Key(faces[j].id))
    && (forall k :: 0 <= k < MAX_FACES && tb.exist[k] != 0 ==> exists j :: 0 <= j < |faces| && tb.exist[k] == faces[j].id)
  }

  lemma SpacedStep(tb: Table, faces: seq<Tracked>, i: nat)
    requires Spaced(faces) && OnlySlotZero(tb, faces) && i < |faces| && i + 1 < MAX_FACES
    ensures OnlySlotZero(SeeFace(tb, i, faces[i]), faces)
    ensures SeeFace(tb, i, faces[i]).slots[0].trackId
         == if Key(faces[i].id) != 0 then Key(faces[i].id) else tb.slots[0].trackId
  {
    var id := faces[i].id;
    assert !Listed(tb.slots[0].trackId, tb.exist);
    if !Hit(tb.slots, id) {
      assert First(tb.slots, Unlisted(tb.exist)) == 0;
    }
    assert Key(id) == 0 ==> tb.slots[1].trackId == Key(id);
    hide Listed, First, Seen;
  }

  lemma {:induction false} SpacedFrame(tb: Table, faces: seq<Tracked>, i: nat, start: Word)
    requires Spaced(faces) && i <= |faces| && i < MAX_FACES && OnlySlotZero(tb, faces)
    requires tb.slots[0].trackId == LastKey(faces[..i], start)
    ensures var last := if |faces| < MAX_FACES then |faces| else MAX_FACES - 1;
            var after := SeeFrame(tb, faces, i);
            OnlySlotZero(after, faces) && after.slots[0].trackId == LastKey(faces[..last], start)
    decreases |faces| - i
  {
    if i >= |faces| || i + 1 >= MAX_FACES {
    } else {
      hide SeeFace, OnlySlotZero, Spaced;
      assert faces[..i + 1][..i] == faces[..i];
      if faces[i].accepted {
        SpacedStep(tb, faces, i);
        SpacedFrame(SeeFace(tb, i, faces[i]), faces, i + 1, start);
      } else {
        SpacedFrame(tb, faces, i + 1, start);
      }
    }
  }

  /** The list holds ids and the slots hold ids plus one, so in a frame of spaced faces no face is
      protected from the next one: in an empty table all of them go through slot 0, at the end
      that slot holds the last of the first nine, and all other slots are empty. */
  lemma SpacedFacesShareSlotZero(faces: seq<Tracked>)
    requires Spaced(faces)
    ensures var after := Run([FrameSeen(faces)]);
            var last := if |faces| < MAX_FACES then |faces| else MAX_FACES - 1;
            && after.slots[0].trackId == LastKey(faces[..last], 0)
            && forall k :: 1 <= k < MAX_FACES ==> after.slots[k].trackId == 0
  {
    assert faces[..0] == [] && LastKey([], 0) == 0;
    SpacedFrame(EMPTY, faces, 0, 0);
    var events := [FrameSeen(faces)];
    assert Run(events[..0]) == EMPTY;
  }

  /** Two faces that appear in an empty table get the same slot: the first loses it in the very
      frame it got it, with nine slots free. */
  lemma SecondFaceEvictsFirst(a: Tracked, b: Tracked)
    requires a.accepted && b.accepted && a.id != b.id && Key(a.id) != 0 && Key(b.id) != 0
    ensures var after := Run([FrameSeen([a, b])]);
            after.slots[0].trackId == Key(b.id) && !Hit(after.slots, a.id)
  {
    hide SeeFace, Listed;
    var first := SeeFace(EMPTY, 0, a);
    NothingListed(0, EMPTY.exist);
    MissTakesSlotZero(EMPTY, 0, a);
    OnlyListed(EMPTY.exist[0 := a.id], a.id, Key(a.id));
    MissTakesSlotZero(first, 1, b);
    hide EMPTY;
    var faces, second := [a, b], SeeFace(first, 1, b);
    assert SeeFrame(second, faces, 2) == second;
    assert SeeFrame(EMPTY, faces, 0) == SeeFrame(first, faces, 1) == second;
    var events := [FrameSeen(faces)];
    assert Run(events[..0]) == EMPTY;
  }

  /** A miss with an unlisted slot 0 takes it. */
  lemma MissTakesSlotZero(tb: Table, i: nat, f: Tracked)
    requires Sized(tb) && i + 1 < MAX_FACES && !Hit(tb.slots, f.id) && !Listed(tb.slots[0].trackId, tb.exist)
    ensures var after := SeeFace(tb, i, f);
            && after.slots[0].trackId == Key(f.id) && after.exist == tb.exist[i := f.id]
            && forall k :: 1 <= k < MAX_FACES ==> after.slots[k] == tb.slots[k]
  {
    assert First(tb.slots, Unlisted(tb.exist)) == 0;
    hide First, Hit, Seen;
  }

  lemma NothingListed(key: Word, exist: seq<Word>)
    requires forall j :: 0 <= j < |exist| ==> exist[j] == 0
    ensures !Listed(key, exist)
  {}

  lemma OnlyListed(exist: seq<Word>, id: Word, key: Word)
    requires forall j :: 0 <= j < |exist| ==> exist[j] == 0 || exist[j] == id
    requires key != id
    ensures !Listed(key, exist)
  {}
}

module FaceTable {
  import opened FaceSlots

  /** The part of BaiduFaceManager that owns the slots. */
  class BaiduFaceManager {
    const coreFaces: array<Face>
    const existTrackID: array<Word>

    ghost predicate Valid()
      reads this
    {
      coreFaces.Length == MAX_FACES == existTrackID.Length
    }

    ghost function State(): Table
      reads this, coreFaces, existTrackID
    {
      Table(coreFaces[..], existTrackID[..])
    }

    constructor ()
      ensures Valid() && State() == EMPTY && fresh(coreFaces) && fresh(existTrackID)
    {
      coreFaces := new Face[MAX_FACES](_ => Face(0, BLANK));
      existTrackID := new Word[MAX_FACES](_ => 0);
    }

    static ghost function ListOf(nExistTrackID: array?<Word>): seq<Word>
      reads nExistTrackID
    {
      if nExistTrackID == null then [] else nExistTrackID[..]
    }

    /** getCoreFace: find the slot of the face, or give it one. */
    method GetCoreFace(nTrackID: Word, nExistTrackID: array?<Word>) returns (found: nat)
      requires Valid() && (nExistTrackID == null || nExistTrackID.Length == MAX_FACES)
      modifies coreFaces
      ensures found == Chosen(old(coreFaces[..]), nTrackID, ListOf(nExistTrackID)) < MAX_FACES
      ensures coreFaces[..] == Taken(old(coreFaces[..]), nTrackID, ListOf(nExistTrackID))
    {
      hide Listed;
      var trackID := Key(nTrackID);
      for i := 0 to MAX_FACES
        invariant coreFaces[..] == old(coreFaces[..])
        invariant forall k :: 0 <= k < i ==> coreFaces[k].trackId != trackID
      {
        if coreFaces[i].trackId == trackID {
          assert coreFaces[..][i].trackId == trackID;
          return i;
        }
      }
      found := 0;
      ghost var exist := ListOf(nExistTrackID);
      for i := 0 to MAX_FACES
        invariant found == 0 && coreFaces[..] == old(coreFaces[..])
        invariant forall k :: 0 <= k < i ==> Listed(coreFaces[k].trackId, exist)
      {
        var listed := false;
        if nExistTrackID != null {
          listed := IsListed(coreFaces[i].trackId, nExistTrackID);
        }
        assert listed == Listed(coreFaces[i].trackId, exist) by { NothingListed(coreFaces[i].trackId, []); }
        if !listed {
          found := i;
          break;
        }
      }
      coreFaces[found] := Face(trackID, BLANK);
    }

    /** The inner loop. */
    static method IsListed(key: Word, nExistTrackID: array<Word>) returns (listed: bool)
      ensures listed == Listed(key, nExistTrackID[..])
    {
      for j := 0 to nExistTrackID.Length
        invariant forall k :: 0 <= k < j ==> !(key == nExistTrackID[k] && nExistTrackID[k] != 0)
      {
        if key == nExistTrackID[j] && nExistTrackID[j] != 0 {
          return true;
        }
      }
      return false;
    }

    /** The loop over the tracked faces of a frame. */
    method SeeFaces(faces: seq<Tracked>)
      requires Valid()
      modifies coreFaces, existTrackID
      ensures State() == SeeFrame(old(State()), faces, 0)
    {
      hide SeeFace;
      var i := 0;
      while i < |faces|
        invariant 0 <= i <= |faces| && i < MAX_FACES
        invariant SeeFrame(State(), faces, i) == SeeFrame(old(State()), faces, 0)
      {
        if i + 1 == MAX_FACES {
          break;
        }
        if faces[i].accepted {
          UpdateFace(i, faces[i]);
        }
        i := i + 1;
      }
    }

    method UpdateFace(i: nat, f: Tracked)
      requires Valid() && i + 1 < MAX_FACES
      modifies coreFaces, existTrackID
      ensures State() == SeeFace(old(State()), i, f)
    {
      hide Chosen, Taken, Seen;
      var k := GetCoreFace(f.id, existTrackID);
      var face := coreFaces[k];
      coreFaces[k] := Face(face.trackId, Seen(face.payload, f.rect));
      existTrackID[i] := f.id;
    }
  }
}
