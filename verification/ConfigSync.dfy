/** The configuration protocol of MqttHeartbeatManager: heartbeats, heartbeat responses with
    the server's file times, config requests, config responses, and the table of requests
    that are still pending.  The clock, the broker and the downloads are parameters. */
module ConfigSync {
  import opened Collections

  /** The files in the order in which they are examined. */
  const FILES: seq<string> := ["employees.json", "faces.json", "doors.json", "access_levels.json", "rfid.json",
                               "fingerprints.json", "four_door_controller.json"]

  const EXPIRY_SECONDS := 60

  /** What crosses the interface, in order: a config_request handed to the broker (at the time
      sent, the expiry check having read the clock at now), and a file synced. */
  datatype Event =
    | Asked(files: seq<string>, now: int, sent: int, accepted: bool)
    | Synced(file: string)

  datatype Manager = Manager(pending: seq<string>, expiry: map<string, int>, stamps: map<string, string>,
                             connected: bool, firstHeartbeat: bool, log: seq<Event>)

  /** QString order. */
  predicate Less(a: string, b: string) {
    if b == "" then false
    else if a == "" then true
    else if a[0] != b[0] then a[0] < b[0]
    else Less(a[1..], b[1..])
  }

  lemma {:induction false} LessIrreflexive(a: string)
    ensures !Less(a, a)
  {
    if a == "" {
    } else {
      LessIrreflexive(a[1..]);
    }
  }

  /** The elements of s that are not dropped, in order. */
  function Keep(s: seq<string>, drop: set<string>): (r: seq<string>)
    ensures forall f {:trigger f in r} :: f in r <==> f in s && f !in drop
  {
    if s == [] then [] else (if s[0] in drop then [] else [s[0]]) + Keep(s[1..], drop)
  }

  lemma {:induction false} KeepSplit(a: seq<string>, b: seq<string>, drop: set<string>)
    ensures Keep(a + b, drop) == Keep(a, drop) + Keep(b, drop)
  {
    if a == [] {
      assert a + b == b;
    } else {
      KeepSplit(a[1..], b, drop);
      assert (a + b)[0] == a[0] && (a + b)[1..] == a[1..] + b;
      ConcatAssociates(if a[0] in drop then [] else [a[0]], Keep(a[1..], drop), Keep(b, drop));
    }
  }

  lemma {:induction false} KeepKeep(s: seq<string>, a: set<string>, b: set<string>)
    ensures Keep(Keep(s, a), b) == Keep(s, a + b)
  {
    if s == [] {
    } else {
      KeepKeep(s[1..], a, b);
      var first := if s[0] in a then [] else [s[0]];
      KeepSplit(first, Keep(s[1..], a), b);
      assert Keep(first, b) == if s[0] in a + b then [] else [s[0]];
    }
  }

  lemma {:induction false} KeepNothing(s: seq<string>)
    ensures Keep(s, {}) == s
  {
    if s == [] {
    } else {
      KeepNothing(s[1..]);
    }
  }

  function Elements(s: seq<string>): set<string> {
    set f | f in s
  }

  // ----- Requests ------------------------------------------------------------------------

  function LocalStamp(m: Manager, f: string): string {
    if f in m.stamps then m.stamps[f] else ""
  }

  /** The server holds f newer, by the string comparison of the heartbeat handler. */
  predicate Newer(m: Manager, manifest: map<string, string>, f: string) {
    f in manifest && (LocalStamp(m, f) == "" || Less(LocalStamp(m, f), manifest[f]))
  }

  /** getChangedJsonFiles on the files fs. */
  function Changed(fs: seq<string>, m: Manager, manifest: map<string, string>): (r: seq<string>)
    ensures forall f {:trigger f in r} :: f in r <==> f in fs && Newer(m, manifest, f) && f !in m.pending
  {
    if fs == [] then []
    else (if Newer(m, manifest, fs[0]) && fs[0] !in m.pending then [fs[0]] else []) + Changed(fs[1..], m, manifest)
  }

  lemma {:induction false} ChangedSplit(a: seq<string>, b: seq<string>, m: Manager, manifest: map<string, string>)
    ensures Changed(a + b, m, manifest) == Changed(a, m, manifest) + Changed(b, m, manifest)
  {
    if a == [] {
      assert a + b == b;
    } else {
      ChangedSplit(a[1..], b, m, manifest);
      assert (a + b)[0] == a[0] && (a + b)[1..] == a[1..] + b;
      hide Newer;
      var head := if Newer(m, manifest, a[0]) && a[0] !in m.pending then [a[0]] else [];
      ConcatAssociates(head, Changed(a[1..], m, manifest), Changed(b, m, manifest));
    }
  }

  function Stale(expiry: map<string, int>, now: int): set<string> {
    set f | f in expiry && now - expiry[f] > EXPIRY_SECONDS
  }

  function Purge(m: Manager, now: int): Manager {
    m.(pending := Keep(m.pending, Stale(m.expiry, now)), expiry := m.expiry - Stale(m.expiry, now))
  }

  function AddPending(m: Manager, files: seq<string>, sent: int): Manager
    decreases |files|
  {
    if files == [] then m
    else if files[0] in m.pending then AddPending(m, files[1..], sent)
    else AddPending(m.(pending := m.pending + [files[0]], expiry := m.expiry[files[0] := sent]), files[1..], sent)
  }

  /** publishConfigRequest.  A request that the broker rejects takes its files off the pending
      list, but leaves their expiry times. */
  function Publish(m: Manager, files: seq<string>, now: int, sent: int, accepted: bool): Manager {
    if !m.connected || files == [] then m else
    var a := AddPending(Purge(m, now), files, sent);
    var b := if accepted then a else a.(pending := Keep(a.pending, Elements(files)));
    b.(log := m.log + [Asked(files, now, sent, accepted)])
  }

  /** handleHeartbeatResponse, for a response that lists files with their times. */
  function HeartbeatResponse(m: Manager, manifest: map<string, string>, now: int, sent: int, accepted: bool): Manager {
    Publish(m, Changed(FILES, m, manifest), now, sent, accepted)
  }

  /** publishHeartbeat; the first one that is sent requests every file. */
  function Heartbeat(m: Manager, published: bool, now: int, sent: int, accepted: bool): Manager {
    if !m.connected || !published || !m.firstHeartbeat then m
    else Publish(m.(firstHeartbeat := false), FILES, now, sent, accepted)
  }

  // ----- Responses ------------------------------------------------------------------------

  /** One file of a config_response: whether url and last_modified are there, whether its
      status is "available", and whether the download and the parsing succeeded. */
  datatype Item = Item(file: string, stamp: string, complete: bool, available: bool, ok: bool)

  /** The files whose sync compares epochs once more before it applies the content. */
  predicate Guarded(f: string) {
    f == "rfid.json" || f == "fingerprints.json" || f == "four_door_controller.json"
  }

  /** The sync finds the content no newer, and reports success without doing anything. */
  predicate Skips(m: Manager, f: string, stamp: string, epoch: string -> int) {
    Guarded(f) && LocalStamp(m, f) != "" && epoch(stamp) <= epoch(LocalStamp(m, f))
  }

  predicate Processed(i: Item) {
    i.complete && i.available && i.ok && i.file in FILES
  }

  /** syncSpecificJson. */
  function Sync(m: Manager, i: Item, epoch: string -> int): Manager {
    if !Processed(i) then m else
    m.(stamps := if Skips(m, i.file, i.stamp, epoch) then m.stamps else m.stamps[i.file := i.stamp],
       pending := Keep(m.pending, {i.file}), expiry := m.expiry - {i.file}, log := m.log + [Synced(i.file)])
  }

  /** handleConfigResponse. */
  function ConfigResponse(m: Manager, items: seq<Item>, epoch: string -> int): Manager
    decreases |items|
  {
    if items == [] then m else ConfigResponse(Sync(m, items[0], epoch), items[1..], epoch)
  }

  // ----- Runs --------------------------------------------------------------------------------

  datatype Step =
    | SendHeartbeat(published: bool, now: int, sent: int, accepted: bool)
    | OnHeartbeatResponse(manifest: map<string, string>, now: int, sent: int, accepted: bool)
    | OnConfigResponse(items: seq<Item>)
    | OnConnect(success: bool)
    | OnDisconnect

  function Take(m: Manager, s: Step, epoch: string -> int): Manager {
    match s
    case SendHeartbeat(published, now, sent, accepted) => Heartbeat(m, published, now, sent, accepted)
    case OnHeartbeatResponse(manifest, now, sent, accepted) => HeartbeatResponse(m, manifest, now, sent, accepted)
    case OnConfigResponse(items) => ConfigResponse(m, items, epoch)
    case OnConnect(success) => m.(connected := success)
    case OnDisconnect => m.(connected := false)
  }

  function Run(m: Manager, steps: seq<Step>, epoch: string -> int): Manager
    decreases |steps|
  {
    if steps == [] then m else Run(Take(m, steps[0], epoch), steps[1..], epoch)
  }

  function Initial(stamps: map<string, string>): Manager {
    Manager([], map[], stamps, false, true, [])
  }
}

/** What the pending table means, stated file by file on the log alone. */
module PendingTable {
  import opened Options
  import opened ConfigSync

  /** The life of one file: the time at which it last became pending, if it still is. */
  function Watch(slot: Option<int>, e: Event, f: string): Option<int> {
    match e
    case Synced(g) => if f == g then None else slot
    case Asked(files, now, sent, accepted) =>
      var live := if slot.Some? && now - slot.value > EXPIRY_SECONDS then None else slot;
      if f !in files then live
      else if !accepted then None
      else if live.Some? then live
      else Some(sent)
  }

  function PendingSince(log: seq<Event>, f: string): Option<int> {
    if log == [] then None else Watch(PendingSince(log[..|log| - 1], f), log[|log| - 1], f)
  }

  predicate NoDuplicates(s: seq<string>) {
    forall i, j :: 0 <= i < j < |s| ==> s[i] != s[j]
  }

  /** The list and the expiry map hold exactly what the log says of each file. */
  ghost predicate Faithful(m: Manager) {
    && NoDuplicates(m.pending)
    && (forall f :: f in m.pending <==> PendingSince(m.log, f).Some?)
    && (forall f :: f in m.pending ==> f in m.expiry && Some(m.expiry[f]) == PendingSince(m.log, f))
  }

  lemma {:induction false} KeepHasNoDuplicates(s: seq<string>, drop: set<string>)
    requires NoDuplicates(s)
    ensures NoDuplicates(Keep(s, drop))
  {
    if s == [] {
    } else {
      var t := s[1..];
      assert forall i :: 0 <= i < |t| ==> t[i] == s[i + 1];
      KeepHasNoDuplicates(t, drop);
      assert s[0] !in t && s[0] !in Keep(t, drop);
    }
  }

  lemma {:induction false} AddPendingAdds(m: Manager, files: seq<string>, sent: int)
    requires NoDuplicates(m.pending)
    ensures var a := AddPending(m, files, sent);
            && NoDuplicates(a.pending)
            && (forall f :: f in a.pending <==> f in m.pending || f in files)
            && (forall f :: f in m.pending && f in m.expiry ==> f in a.expiry && a.expiry[f] == m.expiry[f])
            && (forall f :: f in files && f !in m.pending ==> f in a.expiry && a.expiry[f] == sent)
            && a == m.(pending := a.pending, expiry := a.expiry)
    decreases |files|
  {
    if files == [] {
    } else {
      var m' := if files[0] in m.pending then m
                else m.(pending := m.pending + [files[0]], expiry := m.expiry[files[0] := sent]);
      AddPendingAdds(m', files[1..], sent);
    }
  }

  lemma PublishFaithful(m: Manager, files: seq<string>, now: int, sent: int, accepted: bool)
    requires Faithful(m)
    ensures Faithful(Publish(m, files, now, sent, accepted))
  {
    if m.connected && files != [] {
      var e := Asked(files, now, sent, accepted);
      var p := Purge(m, now);
      var a := AddPending(p, files, sent);
      var b := Publish(m, files, now, sent, accepted);
      KeepHasNoDuplicates(m.pending, Stale(m.expiry, now));
      AddPendingAdds(p, files, sent);
      KeepHasNoDuplicates(a.pending, Elements(files));
      assert b.log[..|b.log| - 1] == m.log;
      forall f
        ensures f in b.pending <==> PendingSince(b.log, f).Some?
        ensures f in b.pending ==> f in b.expiry && Some(b.expiry[f]) == PendingSince(b.log, f)
      {
        assert PendingSince(b.log, f) == Watch(PendingSince(m.log, f), e, f);
        assert f in p.pending <==> f in m.pending && f !in Stale(m.expiry, now);
      }
    }
  }

  lemma SyncFaithful(m: Manager, i: Item, epoch: string -> int)
    requires Faithful(m)
    ensures Faithful(Sync(m, i, epoch))
  {
    if Processed(i) {
      var b := Sync(m, i, epoch);
      KeepHasNoDuplicates(m.pending, {i.file});
      assert b.log[..|b.log| - 1] == m.log;
      forall f
        ensures PendingSince(b.log, f) == Watch(PendingSince(m.log, f), Synced(i.file), f)
      {}
    }
  }

  lemma {:induction false} ConfigResponseFaithful(m: Manager, items: seq<Item>, epoch: string -> int)
    requires Faithful(m)
    ensures Faithful(ConfigResponse(m, items, epoch))
    decreases |items|
  {
    if items == [] {
    } else {
      SyncFaithful(m, items[0], epoch);
      ConfigResponseFaithful(Sync(m, items[0], epoch), items[1..], epoch);
    }
  }

  lemma TakeFaithful(m: Manager, s: Step, epoch: string -> int)
    requires Faithful(m)
    ensures Faithful(Take(m, s, epoch))
  {
    match s
    case SendHeartbeat(_, now, sent, accepted) =>
      PublishFaithful(m.(firstHeartbeat := false), FILES, now, sent, accepted);
    case OnHeartbeatResponse(manifest, now, sent, accepted) =>
      PublishFaithful(m, Changed(FILES, m, manifest), now, sent, accepted);
    case OnConfigResponse(items) => ConfigResponseFaithful(m, items, epoch);
    case _ =>
  }

  lemma {:induction false} RunFaithful(m: Manager, steps: seq<Step>, epoch: string -> int)
    requires Faithful(m)
    ensures Faithful(Run(m, steps, epoch))
    decreases |steps|
  {
    if steps == [] {
    } else {
      TakeFaithful(m, steps[0], epoch);
      RunFaithful(Take(m, steps[0], epoch), steps[1..], epoch);
    }
  }

  /** The pending table on every run, whatever is lost, replayed or rejected: no duplicates, and
      each file is pending, since the time in the expiry map, exactly when the log says so. */
  lemma PendingTableOnEveryRun(stamps: map<string, string>, steps: seq<Step>, epoch: string -> int)
    ensures Faithful(Run(Initial(stamps), steps, epoch))
  {
    RunFaithful(Initial(stamps), steps, epoch);
  }

  /** Nothing in e ends a wait for f that began at since. */
  predicate KeepsWaiting(e: Event, f: string, since: int) {
    match e
    case Synced(g) => f != g
    case Asked(files, now, _, accepted) => now - since <= EXPIRY_SECONDS && (f in files ==> accepted)
  }

  /** A pending file was named in an accepted request, sent at its expiry entry, and ever since
      has neither been synced, nor named in a rejected request, nor been older than 60 s when
      some request went out. */
  lemma {:induction false} PendingWasAsked(log: seq<Event>, f: string)
    requires PendingSince(log, f).Some?
    ensures exists i :: 0 <= i < |log| && log[i].Asked? && log[i].accepted && f in log[i].files
              && log[i].sent == PendingSince(log, f).value
              && forall j :: i < j < |log| ==> KeepsWaiting(log[j], f, log[i].sent)
  {
    var n := |log| - 1;
    var before := PendingSince(log[..n], f);
    if before.Some? && KeepsWaiting(log[n], f, before.value) {
      PendingWasAsked(log[..n], f);
      var i :| 0 <= i < n && log[..n][i].Asked? && log[..n][i].accepted && f in log[..n][i].files
               && log[..n][i].sent == before.value
               && forall j :: i < j < n ==> KeepsWaiting(log[..n][j], f, log[..n][i].sent);
      assert log[i].sent == before.value;
      forall j | i < j < |log|
        ensures KeepsWaiting(log[j], f, log[i].sent)
      {
        assert j < n ==> log[..n][j] == log[j];
      }
    } else {
      assert log[n].Asked? && log[n].sent == PendingSince(log, f).value;
    }
  }

  /** After an accepted request no pending entry is more than 60 s older than its clock. */
  lemma NothingStaleAfterRequest(m: Manager, files: seq<string>, now: int, sent: int, f: string)
    requires Faithful(m) && m.connected && files != [] && now <= sent
    ensures var b := Publish(m, files, now, sent, true);
            f in b.pending ==> f in b.expiry && now - b.expiry[f] <= EXPIRY_SECONDS
  {
    KeepHasNoDuplicates(m.pending, Stale(m.expiry, now));
    AddPendingAdds(Purge(m, now), files, sent);
  }

  // ----- Suppression and retry ------------------------------------------------------------

  /** A heartbeat response puts a request on the wire exactly when the device is connected and
      some file is newer on the server without being pending; the request then names exactly
      those files. */
  lemma ResponseRequestsExactly(m: Manager, manifest: map<string, string>, now: int, sent: int, accepted: bool)
    ensures var b := HeartbeatResponse(m, manifest, now, sent, accepted);
            var wanted := set f | f in FILES && Newer(m, manifest, f) && f !in m.pending;
            if m.connected && wanted != {} then
              exists files :: Elements(files) == wanted && b.log == m.log + [Asked(files, now, sent, accepted)]
            else b == m
  {
    var files := Changed(FILES, m, manifest);
    var wanted := set f | f in FILES && Newer(m, manifest, f) && f !in m.pending;
    assert Elements(files) == wanted;
    if files != [] {
      assert files[0] in wanted;
    } else {
      assert wanted == {};
    }
    if m.connected && files != [] {
      AddPendingLog(Purge(m, now), files, sent);
    }
  }

  lemma {:induction false} AddPendingLog(m: Manager, files: seq<string>, sent: int)
    ensures AddPending(m, files, sent).log == m.log
    decreases |files|
  {
    if files == [] {
    } else {
      AddPendingLog(if files[0] in m.pending then m
                    else m.(pending := m.pending + [files[0]], expiry := m.expiry[files[0] := sent]), files[1..], sent);
    }
  }

  /** A request that goes out more than 60 s after f became pending, and does not name f, frees
      f; the next response that still lists f as newer requests it again. */
  lemma FreedAndRequestedAgain(m: Manager, files: seq<string>, now: int, sent: int, accepted: bool,
                               f: string, manifest: map<string, string>)
    requires Faithful(m) && m.connected && files != []
    requires f in m.pending && now - m.expiry[f] > EXPIRY_SECONDS && f !in files
    requires f in FILES && Newer(m, manifest, f)
    ensures var b := Publish(m, files, now, sent, accepted);
            f !in b.pending && f in Changed(FILES, b, manifest)
  {
    KeepHasNoDuplicates(m.pending, Stale(m.expiry, now));
    AddPendingAdds(Purge(m, now), files, sent);
  }

  // ----- The lock-out ------------------------------------------------------------------------

  /** The log only grows. */
  lemma TakeLog(m: Manager, s: Step, epoch: string -> int)
    ensures m.log <= Take(m, s, epoch).log
  {
    match s
    case SendHeartbeat(_, now, sent, accepted) => PublishLog(m.(firstHeartbeat := false), FILES, now, sent, accepted);
    case OnHeartbeatResponse(manifest, now, sent, accepted) =>
      PublishLog(m, Changed(FILES, m, manifest), now, sent, accepted);
    case OnConfigResponse(items) => ResponseLog(m, items, epoch);
    case _ =>
  }

  lemma PublishLog(m: Manager, files: seq<string>, now: int, sent: int, accepted: bool)
    ensures m.log <= Publish(m, files, now, sent, accepted).log
    ensures m.connected && files != [] ==> |Publish(m, files, now, sent, accepted).log| == |m.log| + 1
  {
    AddPendingLog(Purge(m, now), files, sent);
  }

  /** A config response grows the log exactly when it has a file to process, and else changes
      nothing. */
  lemma {:induction false} ResponseLog(m: Manager, items: seq<Item>, epoch: string -> int)
    ensures m.log <= ConfigResponse(m, items, epoch).log
    ensures if exists i :: i in items && Processed(i) then |ConfigResponse(m, items, epoch).log| > |m.log|
            else ConfigResponse(m, items, epoch) == m
    decreases |items|
  {
    if items == [] {
    } else {
      ResponseLog(Sync(m, items[0], epoch), items[1..], epoch);
    }
  }

  lemma {:induction false} RunLog(m: Manager, steps: seq<Step>, epoch: string -> int)
    ensures m.log <= Run(m, steps, epoch).log
    decreases |steps|
  {
    if steps == [] {
    } else {
      TakeLog(m, steps[0], epoch);
      RunLog(Take(m, steps[0], epoch), steps[1..], epoch);
    }
  }

  /** Every file that the server lists newer is waited for. */
  predicate AllWaitedFor(m: Manager, manifest: map<string, string>) {
    forall f :: f in FILES && Newer(m, manifest, f) ==> f in m.pending
  }

  /** Any number of heartbeat responses, however late, changes nothing at all exactly when the
      device is not connected or each of them lists as newer only files that are pending. */
  lemma {:induction false} LostRequestNeverRetried(m: Manager, steps: seq<Step>, epoch: string -> int)
    requires forall s :: s in steps ==> s.OnHeartbeatResponse?
    ensures Run(m, steps, epoch) == m <==> !m.connected || forall s :: s in steps ==> AllWaitedFor(m, s.manifest)
    decreases |steps|
  {
    if steps == [] {
    } else {
      var s := steps[0];
      ResponseRequestsExactly(m, s.manifest, s.now, s.sent, s.accepted);
      var b := Take(m, s, epoch);
      if !m.connected || AllWaitedFor(m, s.manifest) {
        assert b == m;
        LostRequestNeverRetried(m, steps[1..], epoch);
        assert forall r :: r in steps ==> r == s || r in steps[1..];
      } else {
        var f :| f in FILES && Newer(m, s.manifest, f) && f !in m.pending;
        assert f in Changed(FILES, m, s.manifest);
        assert |b.log| == |m.log| + 1;
        RunLog(b, steps[1..], epoch);
        assert s in steps;
      }
    }
  }

  /** The boot request has gone out and every file is waited for. */
  predicate LockedOut(m: Manager) {
    !m.firstHeartbeat && forall f :: f in FILES ==> f in m.pending
  }

  predicate HasProcessed(s: Step) {
    s.OnConfigResponse? && exists i :: i in s.items && Processed(i)
  }

  lemma LockedStep(m: Manager, s: Step, epoch: string -> int)
    requires LockedOut(m)
    ensures var b := Take(m, s, epoch);
            if HasProcessed(s) then |b.log| > |m.log| else b == m.(connected := b.connected)
  {
    match s
    case OnHeartbeatResponse(manifest, now, sent, accepted) => ResponseRequestsExactly(m, manifest, now, sent, accepted);
    case OnConfigResponse(items) => ResponseLog(m, items, epoch);
    case _ =>
  }

  /** From a lock-out, a run changes nothing but the connection exactly when no config response
      in it brings a file: heartbeats, heartbeat responses of any content, however late, and new
      connections do not get a single request out. */
  lemma {:induction false} LockedOutUntilResponse(m: Manager, steps: seq<Step>, epoch: string -> int)
    requires LockedOut(m)
    ensures var b := Run(m, steps, epoch);
            b == m.(connected := b.connected) <==> forall s :: s in steps ==> !HasProcessed(s)
    decreases |steps|
  {
    if steps == [] {
    } else {
      var s := steps[0];
      var b := Take(m, s, epoch);
      LockedStep(m, s, epoch);
      if HasProcessed(s) {
        RunLog(b, steps[1..], epoch);
        assert s in steps;
      } else {
        LockedOutUntilResponse(b, steps[1..], epoch);
        assert forall r :: r in steps ==> r == s || r in steps[1..];
        RunLog(b, steps[1..], epoch);
      }
    }
  }

  /** So a boot whose config response gets lost is never repaired by the protocol: in every run
      from the start that connects, sends its first heartbeat and sees no config response, the one
      request is all that ever goes out, and what was outdated stays outdated. */
  lemma BootRequestIsTheOnlyOne(stamps: map<string, string>, now: int, sent: int, steps: seq<Step>, epoch: string -> int)
    requires forall s :: s in steps ==> !HasProcessed(s)
    ensures var b := Run(Initial(stamps), [OnConnect(true), SendHeartbeat(true, now, sent, true)] + steps, epoch);
            && b.log == [Asked(FILES, now, sent, true)] && b.stamps == stamps
            && forall f :: f in FILES ==> f in b.pending && f in b.expiry && b.expiry[f] == sent
  {
    hide Run, LockedOut, HasProcessed, Heartbeat;
    var m := Initial(stamps).(connected := true);
    BootHeartbeat(stamps, now, sent);
    RunTwo(Initial(stamps), OnConnect(true), SendHeartbeat(true, now, sent, true), steps, epoch);
    LockedOutUntilResponse(Heartbeat(m, true, now, sent, true), steps, epoch);
  }

  lemma RunTwo(m: Manager, a: Step, b: Step, steps: seq<Step>, epoch: string -> int)
    ensures Run(m, [a, b] + steps, epoch) == Run(Take(Take(m, a, epoch), b, epoch), steps, epoch)
  {
    hide Take;
    assert ([a, b] + steps)[1..] == [b] + steps && ([b] + steps)[1..] == steps;
  }

  lemma BootHeartbeat(stamps: map<string, string>, now: int, sent: int)
    ensures var b := Heartbeat(Initial(stamps).(connected := true), true, now, sent, true);
            && LockedOut(b) && b.log == [Asked(FILES, now, sent, true)] && b.stamps == stamps
            && forall f :: f in FILES ==> f in b.pending && f in b.expiry && b.expiry[f] == sent
  {
    var m := Initial(stamps).(connected := true, firstHeartbeat := false);
    assert NoDuplicates(m.pending);
    assert Purge(m, now).pending == [] && Purge(m, now).log == [];
    AddPendingAdds(Purge(m, now), FILES, sent);
    hide AddPending, FILES;
  }
}

/** With a server that does not change, syncing makes progress and comes to rest. */
module SyncConvergence {
  import opened ConfigSync

  /** The files the server holds newer. */
  function Outdated(m: Manager, manifest: map<string, string>): set<string> {
    set f | f in FILES && Newer(m, manifest, f)
  }

  /** Every file of the response that is going to be applied has the time of the manifest. */
  predicate Matches(items: seq<Item>, manifest: map<string, string>) {
    forall i :: i in items && Processed(i) ==> i.file in manifest && i.stamp == manifest[i.file]
  }

  /** Syncing an outdated file makes it current exactly when the server gives it a time and the
      epoch comparison, where there is one, agrees with the string comparison that requested
      the file.  Where it does not, the file counts as synced and stays outdated for good. */
  lemma SyncExact(m: Manager, i: Item, manifest: map<string, string>, epoch: string -> int)
    requires Matches([i], manifest) && Processed(i) && i.file in Outdated(m, manifest)
    ensures var b := Sync(m, i, epoch);
            i.file !in Outdated(b, manifest) <==> i.stamp != "" && !Skips(m, i.file, i.stamp, epoch)
  {
    assert i in [i];
    LessIrreflexive(i.stamp);
  }

  /** The sync of this item stores its time. */
  predicate Stores(m: Manager, i: Item, epoch: string -> int) {
    Processed(i) && !Skips(m, i.file, i.stamp, epoch)
  }

  /** One sync takes the file whose time it stores off the outdated ones, and leaves the others
      alone; an empty time that is stored makes the file outdated instead. */
  lemma SyncTakesOne(m: Manager, i: Item, manifest: map<string, string>, epoch: string -> int)
    requires Matches([i], manifest)
    ensures Outdated(Sync(m, i, epoch), manifest)
         == if !Stores(m, i, epoch) then Outdated(m, manifest)
            else if i.stamp == "" then Outdated(m, manifest) + {i.file}
            else Outdated(m, manifest) - {i.file}
  {
    if Processed(i) {
      assert i in [i];
      LessIrreflexive(i.stamp);
    }
  }

  /** By how much the sync of this item brings the number of outdated files down. */
  function Gain(m: Manager, i: Item, manifest: map<string, string>, epoch: string -> int): int {
    if !Stores(m, i, epoch) then 0
    else if i.stamp == "" then (if i.file in Outdated(m, manifest) then 0 else -1)
    else if i.file in Outdated(m, manifest) then 1 else 0
  }

  /** The files that a response makes current, less those that it makes outdated. */
  function Progress(m: Manager, items: seq<Item>, manifest: map<string, string>, epoch: string -> int): int
    decreases |items|
  {
    if items == [] then 0 else
    Gain(m, items[0], manifest, epoch) + Progress(Sync(m, items[0], epoch), items[1..], manifest, epoch)
  }

  /** No file that is going to be applied comes with an empty time. */
  predicate Timed(items: seq<Item>) {
    forall i :: i in items && Processed(i) ==> i.stamp != ""
  }

  lemma {:induction false} ResponseProgress(m: Manager, items: seq<Item>, manifest: map<string, string>,
                                            epoch: string -> int)
    requires Matches(items, manifest)
    ensures Timed(items) ==> Outdated(ConfigResponse(m, items, epoch), manifest) <= Outdated(m, manifest)
    ensures |Outdated(ConfigResponse(m, items, epoch), manifest)| + Progress(m, items, manifest, epoch)
         == |Outdated(m, manifest)|
    decreases |items|
  {
    if items == [] {
    } else {
      assert Matches([items[0]], manifest);
      SyncTakesOne(m, items[0], manifest, epoch);
      hide Outdated, Sync;
      ResponseProgress(Sync(m, items[0], epoch), items[1..], manifest, epoch);
    }
  }

  lemma PublishKeepsStamps(m: Manager, files: seq<string>, now: int, sent: int, accepted: bool)
    ensures Publish(m, files, now, sent, accepted).stamps == m.stamps
  {
    AddPendingKeepsStamps(Purge(m, now), files, sent);
  }

  lemma {:induction false} AddPendingKeepsStamps(m: Manager, files: seq<string>, sent: int)
    ensures AddPending(m, files, sent).stamps == m.stamps
    decreases |files|
  {
    if files == [] {
    } else {
      AddPendingKeepsStamps(if files[0] in m.pending then m
                            else m.(pending := m.pending + [files[0]], expiry := m.expiry[files[0] := sent]),
                            files[1..], sent);
    }
  }

  /** Only config responses store times. */
  lemma OthersKeepStamps(m: Manager, s: Step, epoch: string -> int)
    requires !s.OnConfigResponse?
    ensures Take(m, s, epoch).stamps == m.stamps
  {
    hide Publish;
    match s
    case SendHeartbeat(_, now, sent, accepted) =>
      PublishKeepsStamps(m.(firstHeartbeat := false), FILES, now, sent, accepted);
    case OnHeartbeatResponse(l, now, sent, accepted) =>
      PublishKeepsStamps(m, Changed(FILES, m, l), now, sent, accepted);
    case _ =>
  }

  lemma SameStamps(m: Manager, b: Manager, manifest: map<string, string>)
    requires b.stamps == m.stamps
    ensures Outdated(b, manifest) == Outdated(m, manifest)
  {
    assert forall f :: LocalStamp(b, f) == LocalStamp(m, f);
  }

  /** The progress of a whole run. */
  function RunProgress(m: Manager, steps: seq<Step>, manifest: map<string, string>, epoch: string -> int): int
    decreases |steps|
  {
    if steps == [] then 0 else
    var here := if steps[0].OnConfigResponse? then Progress(m, steps[0].items, manifest, epoch) else 0;
    here + RunProgress(Take(m, steps[0], epoch), steps[1..], manifest, epoch)
  }

  /** Sync converges.  Against a fixed manifest, over every run, the outdated files become fewer by
      exactly the number of syncs that apply one, less the number of those that store an empty time
      for a current one; without empty times none becomes outdated. */
  lemma {:induction false} Converges(m: Manager, steps: seq<Step>, manifest: map<string, string>, epoch: string -> int)
    requires forall s :: s in steps && s.OnConfigResponse? ==> Matches(s.items, manifest)
    ensures var b := Run(m, steps, epoch);
            && |Outdated(b, manifest)| + RunProgress(m, steps, manifest, epoch) == |Outdated(m, manifest)|
            && ((forall s :: s in steps && s.OnConfigResponse? ==> Timed(s.items)) ==>
                  Outdated(b, manifest) <= Outdated(m, manifest))
    decreases |steps|
  {
    if steps == [] {
    } else {
      var s := steps[0];
      hide Outdated, Sync, Publish;
      if s.OnConfigResponse? {
        ResponseProgress(m, s.items, manifest, epoch);
      } else {
        OthersKeepStamps(m, s, epoch);
        SameStamps(m, Take(m, s, epoch), manifest);
      }
      hide Take, Progress;
      Converges(Take(m, s, epoch), steps[1..], manifest, epoch);
    }
  }

  /** Once nothing is outdated, nothing is outdated after any further run that stores no empty
      time, or makes up for each one it stores; and then no heartbeat response of that server
      publishes a request. */
  lemma QuietAtRest(m: Manager, steps: seq<Step>, manifest: map<string, string>, epoch: string -> int,
                    now: int, sent: int, accepted: bool)
    requires forall s :: s in steps && s.OnConfigResponse? ==> Matches(s.items, manifest)
    requires Outdated(m, manifest) == {}
    ensures var b := Run(m, steps, epoch);
            && (Outdated(b, manifest) == {} <==> RunProgress(m, steps, manifest, epoch) == 0)
            && ((forall s :: s in steps && s.OnConfigResponse? ==> Timed(s.items)) ==> Outdated(b, manifest) == {})
            && (Outdated(b, manifest) == {} ==> HeartbeatResponse(b, manifest, now, sent, accepted) == b)
  {
    Converges(m, steps, manifest, epoch);
    var b := Run(m, steps, epoch);
    hide RunProgress, Run;
    var files := Changed(FILES, b, manifest);
    assert forall f :: f in files ==> f in Outdated(b, manifest);
    SomeElement(files);
  }

  lemma SomeElement(s: seq<string>)
    ensures s != [] ==> exists f :: f in s
  {
    if s != [] {
      assert s[0] in s;
    }
  }
}
