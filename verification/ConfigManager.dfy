/** MqttHeartbeatManager as the program holds it: the list of pending files, the map of their
    expiry times and the local file times, changed step by step by the message handlers. */
module ConfigManager {
  import opened ConfigSync
  import opened PendingTable

  class HeartbeatManager {
    var pending: seq<string>
    var expiry: map<string, int>
    var stamps: map<string, string>
    var connected: bool
    var firstHeartbeat: bool
    ghost var log: seq<Event>

    ghost function Current(): Manager
      reads this
    {
      Manager(pending, expiry, stamps, connected, firstHeartbeat, log)
    }

    constructor (stamps: map<string, string>)
      ensures Current() == Initial(stamps) && Faithful(Current())
    {
      this.pending, this.expiry, this.stamps := [], map[], stamps;
      this.connected, this.firstHeartbeat, this.log := false, true, [];
      new;
      RunFaithful(Initial(stamps), [], (s: string) => 0);
    }

    /** QStringList::removeAll. */
    method RemoveAll(f: string)
      modifies this`pending
      ensures pending == Keep(old(pending), {f})
    {
      var s, kept := pending, [];
      for i := 0 to |s|
        invariant kept == Keep(s[..i], {f})
      {
        KeepSplit(s[..i], [s[i]], {f});
        assert s[..i + 1] == s[..i] + [s[i]];
        if s[i] != f {
          kept := kept + [s[i]];
        }
      }
      assert s[..|s|] == s;
      pending := kept;
    }

    /** getChangedJsonFiles examines FILES in this way, one after the other. */
    method GetChangedJsonFiles(names: seq<string>, manifest: map<string, string>) returns (files: seq<string>)
      ensures files == Changed(names, Current(), manifest)
    {
      files := [];
      for i := 0 to |names|
        invariant files == Changed(names[..i], Current(), manifest)
      {
        var f := names[i];
        ChangedSplit(names[..i], [f], Current(), manifest);
        assert names[..i + 1] == names[..i] + [f];
        if f in manifest {
          var local := if f in stamps then stamps[f] else "";
          if (local == "" || Less(local, manifest[f])) && f !in pending {
            files := files + [f];
          }
        }
      }
      assert names[..|names|] == names;
    }

    /** The expiry check at the head of publishConfigRequest. */
    method ClearStale(now: int)
      modifies this`pending, this`expiry
      ensures Current() == Purge(old(Current()), now)
    {
      var stale: seq<string> := [];
      var keys := expiry.Keys;
      while keys != {}
        invariant keys <= expiry.Keys && expiry == old(expiry) && pending == old(pending)
        invariant Elements(stale) == Stale(expiry, now) - keys
        decreases keys
      {
        var f :| f in keys;
        keys := keys - {f};
        assert Elements(stale + [f]) == Elements(stale) + {f};
        if now - expiry[f] > EXPIRY_SECONDS {
          stale := stale + [f];
        }
      }
      assert Elements(stale) == Stale(expiry, now);
      KeepNothing(pending);
      assert Elements(stale[..0]) == {};
      for i := 0 to |stale|
        invariant pending == Keep(old(pending), Elements(stale[..i]))
        invariant expiry == old(expiry) - Elements(stale[..i])
      {
        assert Elements(stale[..i + 1]) == Elements(stale[..i]) + {stale[i]};
        KeepKeep(old(pending), Elements(stale[..i]), {stale[i]});
        RemoveAll(stale[i]);
        expiry := expiry - {stale[i]};
      }
      assert stale[..|stale|] == stale;
    }

    method MarkPending(files: seq<string>, sent: int)
      modifies this`pending, this`expiry
      ensures Current() == AddPending(old(Current()), files, sent)
    {
      ghost var m := Current();
      for i := 0 to |files|
        invariant AddPending(Current(), files[i..], sent) == AddPending(m, files, sent)
      {
        if files[i] !in pending {
          pending := pending + [files[i]];
          expiry := expiry[files[i] := sent];
        }
      }
    }

    /** The loop that takes the files of a rejected request off the list. */
    method Unmark(files: seq<string>)
      modifies this`pending
      ensures pending == Keep(old(pending), Elements(files))
    {
      KeepNothing(pending);
      assert Elements(files[..0]) == {};
      for i := 0 to |files|
        invariant pending == Keep(old(pending), Elements(files[..i]))
      {
        assert Elements(files[..i + 1]) == Elements(files[..i]) + {files[i]};
        KeepKeep(old(pending), Elements(files[..i]), {files[i]});
        RemoveAll(files[i]);
      }
      assert files[..|files|] == files;
    }

    method PublishConfigRequest(files: seq<string>, now: int, sent: int, accepted: bool) returns (ret: bool)
      requires Faithful(Current())
      modifies this
      ensures Current() == Publish(old(Current()), files, now, sent, accepted)
      ensures ret == (old(connected) && files != [] && accepted)
      ensures Faithful(Current())
    {
      PublishFaithful(Current(), files, now, sent, accepted);
      if !connected {
        return false;
      }
      if files == [] {
        return false;
      }
      ClearStale(now);
      MarkPending(files, sent);
      log := log + [Asked(files, now, sent, accepted)];
      if !accepted {
        Unmark(files);
        return false;
      }
      return true;
    }

    method HandleHeartbeatResponse(manifest: map<string, string>, now: int, sent: int, accepted: bool)
      requires Faithful(Current())
      modifies this
      ensures Current() == HeartbeatResponse(old(Current()), manifest, now, sent, accepted)
      ensures Faithful(Current())
    {
      var changedFiles := GetChangedJsonFiles(FILES, manifest);
      if changedFiles != [] {
        var _ := PublishConfigRequest(changedFiles, now, sent, accepted);
      }
    }

    method PublishHeartbeat(published: bool, now: int, sent: int, accepted: bool) returns (ret: bool)
      requires Faithful(Current())
      modifies this
      ensures Current() == Heartbeat(old(Current()), published, now, sent, accepted)
      ensures ret == (old(connected) && published)
      ensures Faithful(Current())
    {
      if !connected || !published {
        return false;
      }
      if firstHeartbeat {
        firstHeartbeat := false;
        var _ := PublishConfigRequest(FILES, now, sent, accepted);
      }
      return true;
    }

    method SyncSpecificJson(i: Item, epoch: string -> int) returns (success: bool)
      requires i.complete && i.available && Faithful(Current())
      modifies this
      ensures Current() == Sync(old(Current()), i, epoch) && Faithful(Current())
      ensures success == Processed(i)
    {
      SyncFaithful(Current(), i, epoch);
      if !i.ok || i.file !in FILES {
        return false;
      }
      var local := if i.file in stamps then stamps[i.file] else "";
      if !(Guarded(i.file) && epoch(i.stamp) <= epoch(local) && local != "") {
        stamps := stamps[i.file := i.stamp];
      }
      RemoveAll(i.file);
      expiry := expiry - {i.file};
      log := log + [Synced(i.file)];
      return true;
    }

    method HandleConfigResponse(items: seq<Item>, epoch: string -> int)
      requires Faithful(Current())
      modifies this
      ensures Current() == ConfigResponse(old(Current()), items, epoch) && Faithful(Current())
    {
      for k := 0 to |items|
        invariant Faithful(Current())
        invariant ConfigResponse(Current(), items[k..], epoch) == ConfigResponse(old(Current()), items, epoch)
      {
        if items[k].complete && items[k].available {
          var _ := SyncSpecificJson(items[k], epoch);
        }
      }
    }
  }
}
