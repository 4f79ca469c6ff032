/** What the handlers of the configuration protocol leave behind, stated on lists, maps and times. */
module ConfigEffects {
  import opened Collections
  import opened ConfigSync
  import opened PendingTable
  import opened SyncConvergence

  // ----- The order of times ---------------------------------------------------------------

  /** The strings are the same up to place n, where a ends or has the smaller character. */
  predicate LessAt(a: string, b: string, n: nat) {
    n <= |a| && n < |b| && a[..n] == b[..n] && (n == |a| || a[n] < b[n])
  }

  lemma HeadsOf(a: string, b: string, n: nat)
    requires LessAt(a, b, n)
    ensures n > 0 ==> a[0] == b[0]
  {
    if n > 0 {
      assert a[..n][0] == a[0] && b[..n][0] == b[0];
    }
  }

  lemma {:induction false} LessExact(a: string, b: string)
    ensures Less(a, b) <==> exists n: nat :: LessAt(a, b, n)
  {
    if a == "" || b == "" || a[0] != b[0] {
      assert Less(a, b) ==> LessAt(a, b, 0);
      forall n: nat | LessAt(a, b, n)
        ensures n == 0
      {
        HeadsOf(a, b, n);
      }
    } else {
      LessExact(a[1..], b[1..]);
      if n: nat :| LessAt(a[1..], b[1..], n) {
        assert a[..n + 1] == [a[0]] + a[1..][..n] && b[..n + 1] == [b[0]] + b[1..][..n];
        assert LessAt(a, b, n + 1);
      }
      if n: nat :| LessAt(a, b, n) {
        assert n > 0;
        assert a[1..][..n - 1] == a[..n][1..] && b[1..][..n - 1] == b[..n][1..];
        assert LessAt(a[1..], b[1..], n - 1);
      }
    }
  }

  // ----- What a config response stores ------------------------------------------------------

  /** One item: it is applied if it is complete, available, downloaded and known; then its time is
      stored, whatever time was there, unless the file is guarded and no later by the epochs. */
  lemma SyncStores(m: Manager, i: Item, epoch: string -> int, f: string)
    ensures var b := Sync(m, i, epoch);
            var applied := i.complete && i.available && i.ok && i.file in FILES;
            var guarded := i.file == "rfid.json" || i.file == "fingerprints.json" || i.file == "four_door_controller.json";
            var local := LocalStamp(m, i.file);
            var stored := applied && !(guarded && local != "" && epoch(i.stamp) <= epoch(local));
            && LocalStamp(b, f) == (if stored && f == i.file then i.stamp else LocalStamp(m, f))
            && (f in b.pending <==> f in m.pending && !(applied && f == i.file))
            && (f in b.expiry <==> f in m.expiry && !(applied && f == i.file))
            && (f in b.expiry ==> b.expiry[f] == m.expiry[f])
            && b.log == (if applied then m.log + [Synced(i.file)] else m.log)
            && b.connected == m.connected && b.firstHeartbeat == m.firstHeartbeat
  {}

  /** Once a time is stored, the file is requested from a later manifest exactly if that one has a
      greater time (or the stored one is empty), be it smaller or greater than the time before; and
      every other file as before. */
  lemma NewerAfterSync(m: Manager, i: Item, epoch: string -> int, manifest: map<string, string>, f: string)
    requires Stores(m, i, epoch)
    ensures var b := Sync(m, i, epoch);
            Newer(b, manifest, f) <==>
              if f == i.file then f in manifest && (i.stamp == "" || Less(i.stamp, manifest[f]))
              else Newer(m, manifest, f)
  {}

  lemma {:induction false} ResponseSnoc(m: Manager, items: seq<Item>, i: Item, epoch: string -> int)
    ensures ConfigResponse(m, items + [i], epoch) == Sync(ConfigResponse(m, items, epoch), i, epoch)
    decreases |items|
  {
    hide Sync;
    if items == [] {
      assert [i][1..] == [] && [] + [i] == [i];
    } else {
      ResponseSnoc(Sync(m, items[0], epoch), items[1..], i, epoch);
      assert (items + [i])[1..] == items[1..] + [i];
    }
  }

  /** After a response the time of a file is that of the last item for it that was stored when its
      turn came, and the old one when there was none (-1). */
  lemma {:induction false} LastStoredTime(m: Manager, items: seq<Item>, epoch: string -> int, f: string) returns (k: int)
    ensures -1 <= k < |items|
    ensures LocalStamp(ConfigResponse(m, items, epoch), f) == if k == -1 then LocalStamp(m, f) else items[k].stamp
    ensures k >= 0 ==> items[k].file == f && Stores(ConfigResponse(m, items[..k], epoch), items[k], epoch)
    ensures forall j :: k < j < |items| && items[j].file == f ==>
              !Stores(ConfigResponse(m, items[..j], epoch), items[j], epoch)
    decreases |items|
  {
    hide ConfigResponse, Sync, Processed, Skips;
    if items == [] {
      k := -1;
      NothingArrived(m, epoch);
    } else {
      var n := |items| - 1;
      var before := ConfigResponse(m, items[..n], epoch);
      assert items == items[..n] + [items[n]];
      ResponseSnoc(m, items[..n], items[n], epoch);
      SyncTime(before, items[n], epoch, f);
      k := LastStoredTime(m, items[..n], epoch, f);
      forall j | 0 <= j < n
        ensures items[..n][..j] == items[..j] && items[..n][j] == items[j]
      {}
      if items[n].file == f && Stores(before, items[n], epoch) {
        k := n;
      }
    }
  }

  lemma NothingArrived(m: Manager, epoch: string -> int)
    ensures ConfigResponse(m, [], epoch) == m
  {}

  lemma SyncTime(m: Manager, i: Item, epoch: string -> int, f: string)
    ensures LocalStamp(Sync(m, i, epoch), f) == if Stores(m, i, epoch) && i.file == f then i.stamp else LocalStamp(m, f)
  {}

  // ----- What a request leaves --------------------------------------------------------------

  function OnePending(m: Manager, f: string, sent: int): Manager {
    if f in m.pending then m else m.(pending := m.pending + [f], expiry := m.expiry[f := sent])
  }

  lemma AddPendingStep(m: Manager, files: seq<string>, sent: int)
    requires files != []
    ensures AddPending(m, files, sent) == AddPending(OnePending(m, files[0], sent), files[1..], sent)
  {}

  lemma {:induction false} AddPendingList(m: Manager, files: seq<string>, sent: int)
    requires NoDuplicates(files)
    ensures AddPending(m, files, sent).pending == m.pending + Keep(files, Elements(m.pending))
    decreases |files|
  {
    if files == [] {
    } else {
      var f, rest := files[0], files[1..];
      var b := OnePending(m, f, sent);
      AddPendingStep(m, files, sent);
      RestNoDuplicates(files);
      hide AddPending, NoDuplicates;
      AddPendingList(b, rest, sent);
      KeepSame(rest, Elements(b.pending), Elements(m.pending));
      ConcatAssociates(m.pending, [f], Keep(rest, Elements(m.pending)));
    }
  }

  lemma RestNoDuplicates(files: seq<string>)
    requires files != [] && NoDuplicates(files)
    ensures NoDuplicates(files[1..]) && files[0] !in files[1..]
  {
    assert forall i :: 0 <= i < |files| - 1 ==> files[1..][i] == files[i + 1];
  }

  lemma {:induction false} AddPendingTimes(m: Manager, files: seq<string>, sent: int, f: string)
    requires NoDuplicates(files)
    ensures var a := AddPending(m, files, sent);
            && a == m.(pending := a.pending, expiry := a.expiry)
            && if f in files && f !in m.pending then f in a.expiry && a.expiry[f] == sent
               else (f in a.expiry <==> f in m.expiry) && (f in a.expiry ==> a.expiry[f] == m.expiry[f])
    decreases |files|
  {
    if files == [] {
    } else {
      AddPendingStep(m, files, sent);
      RestNoDuplicates(files);
      hide AddPending, NoDuplicates;
      AddPendingTimes(OnePending(m, files[0], sent), files[1..], sent, f);
      assert f in files <==> f == files[0] || f in files[1..];
    }
  }

  lemma {:induction false} KeepSame(s: seq<string>, a: set<string>, b: set<string>)
    requires forall f :: f in s ==> (f in a <==> f in b)
    ensures Keep(s, a) == Keep(s, b)
  {
    if s == [] {
    } else {
      KeepSame(s[1..], a, b);
    }
  }

  /** A request that goes out drops what is older than 60 s, keeps the rest in place and puts the
      files it names, as far as they are new, behind it with the time of sending; one that is
      rejected leaves none of its files on the list, but their times in the map. */
  lemma PublishExact(m: Manager, files: seq<string>, now: int, sent: int, accepted: bool)
    requires NoDuplicates(files)
    ensures var b := Publish(m, files, now, sent, accepted);
            var aged := set f | f in m.expiry && now - m.expiry[f] > 60;
            var kept := Keep(m.pending, aged);
            if !m.connected || files == [] then b == m else
            && b.log == m.log + [Asked(files, now, sent, accepted)]
            && b.stamps == m.stamps && b.connected && b.firstHeartbeat == m.firstHeartbeat
            && (accepted ==> b.pending == kept + Keep(files, Elements(kept)))
            && (!accepted ==> b.pending == Keep(m.pending, aged + Elements(files)))
            && (forall f :: if f in files && f !in kept then f in b.expiry && b.expiry[f] == sent
                            else (f in b.expiry <==> f in m.expiry && f !in aged)
                                 && (f in b.expiry ==> b.expiry[f] == m.expiry[f]))
  {
    var p := Purge(m, now);
    var aged := set f | f in m.expiry && now - m.expiry[f] > 60;
    assert aged == Stale(m.expiry, now);
    AddPendingList(p, files, sent);
    AddPendingTimes(p, files, sent, "");
    forall f
      ensures var a := AddPending(p, files, sent);
              if f in files && f !in p.pending then f in a.expiry && a.expiry[f] == sent
              else (f in a.expiry <==> f in p.expiry) && (f in a.expiry ==> a.expiry[f] == p.expiry[f])
    {
      AddPendingTimes(p, files, sent, f);
    }
    if !accepted {
      KeepSplit(p.pending, Keep(files, Elements(p.pending)), Elements(files));
      KeepKeep(m.pending, aged, Elements(files));
      KeepNone(Keep(files, Elements(p.pending)), Elements(files));
    }
  }

  lemma {:induction false} KeepNone(s: seq<string>, drop: set<string>)
    requires forall f :: f in s ==> f in drop
    ensures Keep(s, drop) == []
  {
    if s == [] {
    } else {
      KeepNone(s[1..], drop);
    }
  }

  /** A heartbeat response asks for the changed files in the order in which they are examined. */
  lemma {:induction false} ChangedInOrder(fs: seq<string>, m: Manager, manifest: map<string, string>) returns (places: seq<nat>)
    ensures |places| == |Changed(fs, m, manifest)|
    ensures forall j, k :: 0 <= j < k < |places| ==> places[j] < places[k]
    ensures forall k :: 0 <= k < |places| ==> places[k] < |fs| && Changed(fs, m, manifest)[k] == fs[places[k]]
    ensures forall i: nat :: i < |fs| ==> (i in places <==> Newer(m, manifest, fs[i]) && fs[i] !in m.pending)
  {
    hide Newer;
    if fs == [] {
      places := [];
    } else {
      var n := |fs| - 1;
      places := ChangedInOrder(fs[..n], m, manifest);
      assert fs == fs[..n] + [fs[n]];
      ChangedSplit(fs[..n], [fs[n]], m, manifest);
      ChangedOne(fs[n], m, manifest);
      hide Changed;
      if Newer(m, manifest, fs[n]) && fs[n] !in m.pending {
        places := places + [n];
      }
      forall i: nat | i < n
        ensures fs[..n][i] == fs[i]
      {}
    }
  }

  lemma ChangedOne(f: string, m: Manager, manifest: map<string, string>)
    ensures Changed([f], m, manifest) == if Newer(m, manifest, f) && f !in m.pending then [f] else []
  {
    hide Newer;
    assert [f][1..] == [];
  }

  // ----- Heartbeats -------------------------------------------------------------------------

  /** Of any number of heartbeats only the first one that is sent asks for files, for all of them,
      and it does so once, whether or not the broker accepts the request. */
  lemma {:induction false} OneBootRequest(m: Manager, beats: seq<Step>, epoch: string -> int)
    requires forall s :: s in beats ==> s.SendHeartbeat?
    ensures var b := Run(m, beats, epoch);
            if !m.connected || !m.firstHeartbeat || (forall s :: s in beats ==> !s.published) then b == m
            else exists k :: 0 <= k < |beats| && beats[k].published && (forall j :: 0 <= j < k ==> !beats[j].published)
                   && !b.firstHeartbeat
                   && b.log == m.log + [Asked(FILES, beats[k].now, beats[k].sent, beats[k].accepted)]
    decreases |beats|
  {
    hide Publish, FILES;
    if beats == [] {
    } else {
      var s, rest := beats[0], beats[1..];
      var next := Take(m, s, epoch);
      assert forall r :: r in beats <==> r == s || r in rest;
      OneBootRequest(next, rest, epoch);
      if m.connected && m.firstHeartbeat {
        if s.published {
          BootRequest(m, s);
          assert beats[0].published;
        } else if r :| r in rest && r.published {
          var k :| 0 <= k < |rest| && rest[k].published && (forall j :: 0 <= j < k ==> !rest[j].published)
            && Run(next, rest, epoch).log == m.log + [Asked(FILES, rest[k].now, rest[k].sent, rest[k].accepted)];
          assert beats[k + 1] == rest[k] && forall j :: 0 < j < k + 1 ==> beats[j] == rest[j - 1];
        }
      }
    }
  }

  lemma BootRequest(m: Manager, s: Step)
    requires m.connected && s.SendHeartbeat?
    ensures var b := Publish(m.(firstHeartbeat := false), FILES, s.now, s.sent, s.accepted);
            !b.firstHeartbeat && b.connected && b.log == m.log + [Asked(FILES, s.now, s.sent, s.accepted)]
  {
    assert NoDuplicates(FILES);
    PublishExact(m.(firstHeartbeat := false), FILES, s.now, s.sent, s.accepted);
  }
}
