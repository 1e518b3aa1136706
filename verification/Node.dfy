/** The auto-heal and restore code of pkg/node/autoheal.go and pkg/node/node.go, as it works on the keystore's
    shared objects and on persistence, proved against the transitions of AutoHeal. Writes succeed. */
module Nodes {
  import opened Results
  import opened PrimeField
  import opened KeyStores
  import opened AutoHeal

  /** A persisted key version; every version is saved with its active flag set. */
  datatype Saved = Saved(version: KeyStores.Version, privateShare: Option<Elem>)

  /** The part of pkg/persistence/interface.go used here, as an ideal store. */
  class Persistence {
    var saved: seq<Saved>
    var active: KeyStores.Version
    var poisoned: seq<KeyStores.Version>
    var record: Option<NodeRecord>

    /** Versions are listed in ascending order. */
    ghost predicate Valid()
      reads this
    {
      Ascending(saved)
    }

    ghost function Contents(): Disk
      reads this
    {
      Disk(VersionsOf(saved), active, (set v | v in poisoned), record)
    }

    constructor ()
      ensures Valid() && saved == [] && Contents() == FRESH.disk
    {
      saved, active, poisoned, record := [], 0, [], None;
    }

    method SaveKeyShareVersion(s: Saved)
      requires Valid() && s.version !in VersionsOf(saved)
      modifies `saved
      ensures Valid() && s in saved && (forall t :: t in old(saved) ==> t in saved)
      ensures VersionsOf(saved) == old(VersionsOf(saved)) + {s.version}
    {
      var k := 0;
      while k < |saved| && saved[k].version < s.version
        invariant k <= |saved| && forall i :: 0 <= i < k ==> saved[i].version < s.version
      {
        k := k + 1;
      }
      assert k < |saved| ==> saved[k] in saved && saved[k].version in VersionsOf(saved);
      InsertedAscending(saved, k, s);
      InsertedVersions(saved, k, s);
      saved := saved[..k] + [s] + saved[k..];
    }

    method AddPoisonedVersion(v: KeyStores.Version)
      modifies `poisoned
      ensures Contents() == old(Contents()).(poisoned := old(Contents()).poisoned + {v})
    {
      if v !in poisoned {
        poisoned := poisoned + [v];
      }
    }
  }

  ghost predicate Ascending(saved: seq<Saved>) {
    forall i, j :: 0 <= i < j < |saved| ==> saved[i].version < saved[j].version
  }

  lemma InsertedAscending(saved: seq<Saved>, k: nat, s: Saved)
    requires Ascending(saved) && k <= |saved|
    requires k > 0 ==> saved[k - 1].version < s.version
    requires k < |saved| ==> s.version < saved[k].version
    ensures Ascending(saved[..k] + [s] + saved[k..])
  {
    var r := saved[..k] + [s] + saved[k..];
    forall i, j | 0 <= i < j < |r|
      ensures r[i].version < r[j].version
    {
      assert r[i] == if i < k then saved[i] else if i == k then s else saved[i - 1];
      assert r[j] == if j < k then saved[j] else if j == k then s else saved[j - 1];
    }
  }

  lemma InsertedVersions(saved: seq<Saved>, k: nat, s: Saved)
    requires k <= |saved|
    ensures var r := saved[..k] + [s] + saved[k..];
            && (forall t :: t in r <==> t in saved || t == s)
            && VersionsOf(r) == VersionsOf(saved) + {s.version}
  {
    var r := saved[..k] + [s] + saved[k..];
    assert saved == saved[..k] + saved[k..];
    assert forall t :: t in r <==> t in saved || t == s;
  }

  ghost function VersionsOf(saved: seq<Saved>): set<KeyStores.Version> {
    set s | s in saved :: s.version
  }

  ghost predicate Descending(s: seq<KeyStores.Version>) {
    forall i, j :: 0 <= i < j < |s| ==> s[i] >= s[j]
  }

  lemma InsertDescending(s: seq<KeyStores.Version>, k: nat, v: KeyStores.Version)
    requires Descending(s) && k <= |s|
    requires (forall i :: 0 <= i < k ==> s[i] > v) && (k < |s| ==> s[k] <= v)
    ensures var r := s[..k] + [v] + s[k..]; Descending(r) && multiset(r) == multiset(s) + multiset{v}
  {
    assert s == s[..k] + s[k..];
  }

  /** The sorted local copy that rollbackTarget takes. */
  method SortedDescending(versions: seq<KeyStores.Version>) returns (sorted: seq<KeyStores.Version>)
    ensures Descending(sorted) && multiset(sorted) == multiset(versions)
  {
    sorted := [];
    for n := 0 to |versions|
      invariant Descending(sorted) && multiset(sorted) == multiset(versions[..n])
    {
      var v := versions[n];
      var k := 0;
      while k < |sorted| && sorted[k] > v
        invariant k <= |sorted| && forall i :: 0 <= i < k ==> sorted[i] > v
      {
        k := k + 1;
      }
      assert versions[..n + 1] == versions[..n] + [v];
      InsertDescending(sorted, k, v);
      sorted := sorted[..k] + [v] + sorted[k..];
    }
    assert versions[..|versions|] == versions;
  }

  /** rollbackTarget: the walk over the sorted copy finds the greatest usable version. */
  method FindRollbackTarget(lkg: KeyStores.Version, v: KeyStores.Version, versions: seq<KeyStores.Version>,
                            poisoned: set<KeyStores.Version>)
    returns (target: Option<KeyStores.Version>)
    ensures target == RollbackTarget(lkg, v, (set w | w in versions), poisoned)
    ensures 0 < lkg < v && lkg !in poisoned ==> target == Some(lkg)
    ensures !(0 < lkg < v && lkg !in poisoned) ==>
              && (target.Some? <==> exists w :: w in versions && w < v && w !in poisoned)
              && (target.Some? ==> target.value in versions && target.value < v && target.value !in poisoned)
              && forall w :: w in versions && w < v && w !in poisoned ==> target.Some? && w <= target.value
  {
    hide RollbackTarget;
    if lkg > 0 && lkg < v && lkg !in poisoned {
      TargetIs(Some(lkg), lkg, v, (set w | w in versions), poisoned);
      return Some(lkg);
    }
    var sorted := SortedDescending(versions);
    SameMembers(sorted, versions);
    for k := 0 to |sorted|
      invariant forall i :: 0 <= i < k ==> !(sorted[i] < v && sorted[i] !in poisoned)
    {
      if sorted[k] < v && sorted[k] !in poisoned {
        FirstIsGreatest(sorted, k, v, poisoned);
        TargetIs(Some(sorted[k]), lkg, v, (set w | w in versions), poisoned);
        return Some(sorted[k]);
      }
    }
    TargetIs(None, lkg, v, (set w | w in versions), poisoned);
    return None;
  }

  lemma SameMembers(a: seq<KeyStores.Version>, b: seq<KeyStores.Version>)
    requires multiset(a) == multiset(b)
    ensures forall w :: w in a <==> w in b
  {
    assert forall w :: w in a <==> w in multiset(a);
    assert forall w :: w in b <==> w in multiset(b);
  }

  lemma FirstIsGreatest(sorted: seq<KeyStores.Version>, k: nat, v: KeyStores.Version, poisoned: set<KeyStores.Version>)
    requires Descending(sorted) && k < |sorted|
    requires forall i :: 0 <= i < k ==> !(sorted[i] < v && sorted[i] !in poisoned)
    ensures forall w :: w in sorted && w < v && w !in poisoned ==> w <= sorted[k]
  {
    forall w | w in sorted && w < v && w !in poisoned
      ensures w <= sorted[k]
    {
      var i :| 0 <= i < |sorted| && sorted[i] == w;
      assert i >= k;
    }
  }

  /** The target in its own terms. */
  lemma TargetIs(t: Option<KeyStores.Version>, lkg: KeyStores.Version, v: KeyStores.Version,
                 versions: set<KeyStores.Version>, poisoned: set<KeyStores.Version>)
    requires 0 < lkg < v && lkg !in poisoned ==> t == Some(lkg)
    requires !(0 < lkg < v && lkg !in poisoned) ==>
               && (t.Some? ==> t.value in versions && t.value < v && t.value !in poisoned)
               && forall w :: w in versions && w < v && w !in poisoned ==> t.Some? && w <= t.value
    ensures t == RollbackTarget(lkg, v, versions, poisoned)
  {
    var good := GoodBelow(v, versions, poisoned);
    assert forall w :: w in good <==> w in versions && w < v && w !in poisoned;
  }

  class Node {
    const keyStore: KeyStore
    const persistence: Persistence
    var abortTracker: Tracker

    /** The active object is a stored one, version numbers are distinct, and every stored object's share is
        the persisted one. */
    ghost predicate Valid()
      reads this, keyStore, keyStore.keyVersions, keyStore.activeVersion, persistence
    {
      && keyStore.Valid() && persistence.Valid()
      && (keyStore.activeVersion != null ==> keyStore.activeVersion in keyStore.keyVersions)
      && (forall i, j :: 0 <= i < j < |keyStore.keyVersions| ==>
            keyStore.keyVersions[i].version != keyStore.keyVersions[j].version)
      && (forall v :: v in keyStore.keyVersions ==> Saved(v.version, v.privateShare) in persistence.saved)
    }

    /** The state of AutoHeal that this node is in. */
    ghost function View(): NodeState
      reads this, keyStore, persistence
    {
      NodeState(Memory((set v | v in keyStore.keyVersions :: v.version), keyStore.ActiveNumber(), keyStore.poisoned, abortTracker),
                persistence.Contents())
    }

    constructor (persistence: Persistence)
      requires persistence.Valid()
      ensures Valid() && fresh(keyStore) && this.persistence == persistence
      ensures keyStore.keyVersions == [] && keyStore.pendingVersion == null
      ensures View() == NodeState(FRESH.mem, persistence.Contents())
    {
      keyStore := new KeyStore();
      this.persistence := persistence;
      abortTracker := ZERO_TRACKER;
    }

    /** recordMPKAbort. */
    method RecordMPKAbort(active: KeyStores.Version, majority: KeyStores.Version) returns (demote: bool)
      modifies `abortTracker
      ensures (abortTracker, demote) == RecordAbort(old(abortTracker), active, majority)
    {
      if abortTracker.source != active {
        abortTracker := Tracker(active, 0);
      }
      if majority != active {
        return false;
      }
      abortTracker := abortTracker.(aborts := abortTracker.aborts + 1);
      return abortTracker.aborts >= DEMOTION_THRESHOLD;
    }

    /** persistAbortTracker: a load, a merge and a save. */
    method PersistAbortTracker()
      modifies persistence`record
      ensures persistence.Contents() == SaveTracker(old(persistence.Contents()), abortTracker)
    {
      var st := if persistence.record.Some? then persistence.record.value else NodeRecord(ZERO_TRACKER, 0);
      persistence.record := Some(st.(tracker := abortTracker));
    }

    method PersistedVersions() returns (nums: seq<KeyStores.Version>)
      ensures (set w | w in nums) == VersionsOf(persistence.saved)
    {
      nums := [];
      for k := 0 to |persistence.saved|
        invariant (set w | w in nums) == VersionsOf(persistence.saved[..k])
      {
        assert persistence.saved[..k + 1] == persistence.saved[..k] + [persistence.saved[k]];
        assert VersionsOf(persistence.saved[..k + 1]) ==
               VersionsOf(persistence.saved[..k]) + {persistence.saved[k].version};
        nums := nums + [persistence.saved[k].version];
      }
      assert persistence.saved[..|persistence.saved|] == persistence.saved;
    }

    method PerformRollback(poisonedVersion: KeyStores.Version)
      requires Valid()
      modifies `abortTracker, keyStore, keyStore.activeVersion, keyStore.keyVersions, persistence
      ensures Valid() && keyStore.keyVersions == old(keyStore.keyVersions)
      ensures View() == AutoHeal.PerformRollback(old(View()), poisonedVersion)
    {
      keyStore.MarkPoisoned(poisonedVersion);
      persistence.AddPoisonedVersion(poisonedVersion);
      var lkg := if persistence.record.Some? then persistence.record.value.lastKnownGood else 0;
      var nums := PersistedVersions();
      var target := FindRollbackTarget(lkg, poisonedVersion, nums, keyStore.poisoned);
      if target.None? {
        return;
      }
      RePoint(target.value);
    }

    /** Makes the store's own object for the target active and resets the tracker to it, or changes nothing. */
    method RePoint(target: KeyStores.Version)
      requires Valid()
      modifies `abortTracker, keyStore`activeVersion, keyStore.activeVersion, keyStore.keyVersions
      modifies persistence`active, persistence`record
      ensures Valid()
      ensures var s, t := old(View()), Tracker(target, 0);
              View() ==
              if target in s.mem.poisoned || target !in s.mem.stored then s
              else NodeState(s.mem.(active := Some(target), tracker := t), SaveTracker(s.disk.(active := target), t))
    {
      var r := keyStore.SetActiveVersionByTimestamp(target);
      StoredNumbers();
      if r.Err? {
        return;
      }
      persistence.active := target;
      abortTracker := Tracker(target, 0);
      PersistAbortTracker();
    }

    lemma StoredNumbers()
      ensures forall v :: v in keyStore.Numbers() <==> v in View().mem.stored
    {
      forall v | v in keyStore.Numbers()
        ensures v in View().mem.stored
      {
        var k :| 0 <= k < |keyStore.Numbers()| && keyStore.Numbers()[k] == v;
        assert keyStore.keyVersions[k] in keyStore.keyVersions;
      }
      forall v | v in View().mem.stored
        ensures v in keyStore.Numbers()
      {
        var o :| o in keyStore.keyVersions && o.version == v;
        var k :| 0 <= k < |keyStore.keyVersions| && keyStore.keyVersions[k] == o;
        assert keyStore.Numbers()[k] == v;
      }
    }

    /** A round dealt from `active` failed MPK validation, the cluster having agreed on `majority`. */
    method OnMPKValidationAbort(active: KeyStores.Version, majority: KeyStores.Version)
      requires Valid()
      modifies `abortTracker, keyStore, keyStore.activeVersion, keyStore.keyVersions, persistence
      ensures Valid() && keyStore.keyVersions == old(keyStore.keyVersions)
      ensures View() == OnAbort(old(View()), active, majority)
    {
      var demote := RecordMPKAbort(active, majority);
      PersistAbortTracker();
      if demote {
        PerformRollback(active);
      }
    }

    /** The end of a round that stores a key: save it, point at it, and only then add it to the keystore. */
    method CommitVersion(version: KeyStores.Version, privateShare: Option<Elem>)
      requires Valid() && version !in View().mem.stored && version !in View().disk.versions
      modifies keyStore, keyStore.activeVersion, persistence
      ensures Valid() && View() == StoreVersion(old(View()), version)
      ensures |keyStore.keyVersions| == |old(keyStore.keyVersions)| + 1
      ensures keyStore.keyVersions[..|old(keyStore.keyVersions)|] == old(keyStore.keyVersions)
      ensures var last := keyStore.keyVersions[|old(keyStore.keyVersions)|];
              last.version == version && last.privateShare == privateShare && keyStore.activeVersion == last
    {
      persistence.SaveKeyShareVersion(Saved(version, privateShare));
      persistence.active := version;
      var o := new KeyShareVersion(version, privateShare, true);
      keyStore.AddVersion(o);
    }

    method RecordSuccessfulReshare(source: KeyStores.Version)
      modifies `abortTracker, persistence`record
      ensures View() == RecordSuccess(old(View()), source)
    {
      abortTracker := abortTracker.(aborts := 0);
      var st := if persistence.record.Some? then persistence.record.value else NodeRecord(ZERO_TRACKER, 0);
      st := st.(tracker := st.tracker.(aborts := 0));
      if source > 0 {
        st := st.(lastKnownGood := source);
      }
      persistence.record := Some(st);
    }

    /** persistBoundary: the merge keeps the auto-heal fields that are already there. */
    method PersistBoundary()
      modifies persistence`record
      ensures View() == OnBoundary(old(View()))
    {
      var st := if persistence.record.Some? then persistence.record.value else NodeRecord(ZERO_TRACKER, 0);
      persistence.record := Some(st);
    }

    /** RestoreState on a node that was just constructed. The pointer is applied before the poisoned set, so a
        node that was left on a poisoned version (the floor) comes back on it. */
    method RestoreState()
      requires Valid() && keyStore.keyVersions == [] && keyStore.pendingVersion == null
      requires View().mem == FRESH.mem
      modifies `abortTracker, keyStore
      ensures Valid() && persistence.Contents() == old(persistence.Contents())
      ensures View() == AutoHeal.RestoreState(old(persistence.Contents()))
      ensures |keyStore.keyVersions| == |persistence.saved|
      ensures forall i :: 0 <= i < |persistence.saved| ==>
                keyStore.keyVersions[i].version == persistence.saved[i].version &&
                keyStore.keyVersions[i].privateShare == persistence.saved[i].privateShare
    {
      hide AutoHeal.RestoreState, VersionsOf;
      LoadVersions();
      ApplyPointer();
      RestorePoisoned();
      RestoreTracker();
      RestoredIs(persistence.Contents(), View().mem);
    }

    /** The four restored parts make the restored state. */
    lemma RestoredIs(d: Disk, m: Memory)
      requires m.stored == d.versions && m.poisoned == d.poisoned
      requires m.active ==
               if d.active > 0 && d.active in d.versions then Some(d.active)
               else if d.versions == {} then None else Some(Greatest(d.versions))
      requires m.tracker ==
               if d.record.Some? && m.active == Some(d.record.value.tracker.source) then d.record.value.tracker
               else ZERO_TRACKER
      ensures NodeState(m, d) == AutoHeal.RestoreState(d)
    {
    }

    /** The persisted count is kept only if it is about the version that is active now. */
    method RestoreTracker()
      modifies `abortTracker
      ensures abortTracker ==
              if persistence.record.None? then old(abortTracker)
              else if keyStore.ActiveNumber() == Some(persistence.record.value.tracker.source) then
                persistence.record.value.tracker
              else ZERO_TRACKER
    {
      if persistence.record.Some? {
        var st := persistence.record.value;
        if keyStore.activeVersion != null && st.tracker.source == keyStore.activeVersion.version {
          abortTracker := st.tracker;
        } else {
          abortTracker := Tracker(0, 0);
        }
      }
    }

    /** The persisted pointer wins over whatever loading left active, if it names a loaded version. */
    method ApplyPointer()
      requires Valid() && keyStore.pendingVersion == null
      modifies keyStore`activeVersion, keyStore.keyVersions
      ensures Valid()
      ensures keyStore.ActiveNumber() ==
              if persistence.active > 0 && persistence.active in View().mem.stored then Some(persistence.active)
              else old(keyStore.ActiveNumber())
    {
      if persistence.active > 0 {
        var k := keyStore.Find(persistence.active);
        StoredNumbers();
        if k < |keyStore.keyVersions| {
          assert keyStore.keyVersions[k] in keyStore.keyVersions;
          keyStore.SetActiveVersion(keyStore.keyVersions[k]);
        }
      }
    }

    method RestorePoisoned()
      requires keyStore.poisoned == {}
      modifies keyStore`poisoned
      ensures keyStore.poisoned == persistence.Contents().poisoned
    {
      for k := 0 to |persistence.poisoned|
        invariant keyStore.poisoned == set v | v in persistence.poisoned[..k]
      {
        assert persistence.poisoned[..k + 1] == persistence.poisoned[..k] + [persistence.poisoned[k]];
        keyStore.MarkPoisoned(persistence.poisoned[k]);
      }
      assert persistence.poisoned[..|persistence.poisoned|] == persistence.poisoned;
    }

    /** Each persisted version becomes a new object flagged active, so the last one added stays active. */
    method LoadVersions()
      requires Valid() && keyStore.keyVersions == [] && keyStore.pendingVersion == null && keyStore.activeVersion == null
      modifies keyStore
      ensures Valid() && (forall i :: 0 <= i < |keyStore.keyVersions| ==> fresh(keyStore.keyVersions[i]))
      ensures View().mem.stored == VersionsOf(persistence.saved)
      ensures keyStore.ActiveNumber() ==
              if VersionsOf(persistence.saved) == {} then None else Some(Greatest(VersionsOf(persistence.saved)))
      ensures keyStore.poisoned == old(keyStore.poisoned) && keyStore.pendingVersion == null
      ensures |keyStore.keyVersions| == |persistence.saved|
      ensures forall i :: 0 <= i < |persistence.saved| ==>
                keyStore.keyVersions[i].version == persistence.saved[i].version &&
                keyStore.keyVersions[i].privateShare == persistence.saved[i].privateShare
    {
      var saved := persistence.saved;
      for k := 0 to |saved|
        invariant keyStore.Valid() && |keyStore.keyVersions| == k
        invariant (forall i :: 0 <= i < k ==> fresh(keyStore.keyVersions[i])) && keyStore.pendingVersion == null
        invariant forall i :: 0 <= i < k ==>
                    keyStore.keyVersions[i].version == saved[i].version &&
                    keyStore.keyVersions[i].privateShare == saved[i].privateShare
        invariant keyStore.activeVersion == if k == 0 then null else keyStore.keyVersions[k - 1]
        invariant keyStore.poisoned == old(keyStore.poisoned)
      {
        var o := new KeyShareVersion(saved[k].version, saved[k].privateShare, true);
        keyStore.AddVersion(o);
      }
      LoadedAll();
    }

    /** Objects matching the persisted versions one by one are exactly those versions. */
    lemma LoadedAll()
      requires |keyStore.keyVersions| == |persistence.saved| && persistence.Valid()
      requires forall i :: 0 <= i < |persistence.saved| ==> keyStore.keyVersions[i].version == persistence.saved[i].version
      ensures View().mem.stored == VersionsOf(persistence.saved)
      ensures VersionsOf(persistence.saved) == {} <==> persistence.saved == []
      ensures persistence.saved != [] ==>
                persistence.saved[|persistence.saved| - 1].version == Greatest(VersionsOf(persistence.saved))
    {
      var saved := persistence.saved;
      forall v
        ensures v in View().mem.stored <==> v in VersionsOf(saved)
      {
        if v in VersionsOf(saved) {
          var s :| s in saved && s.version == v;
          var k :| 0 <= k < |saved| && saved[k] == s;
          assert keyStore.keyVersions[k] in keyStore.keyVersions;
        }
        if v in View().mem.stored {
          var o :| o in keyStore.keyVersions && o.version == v;
          var k :| 0 <= k < |saved| && keyStore.keyVersions[k] == o;
          assert saved[k] in saved;
        }
      }
      if saved != [] {
        var last := saved[|saved| - 1];
        assert last in saved && last.version in VersionsOf(saved);
        assert IsGreatest(last.version, VersionsOf(saved));
      }
    }
  }

  /** The process stops and a new node is built over the same persistence: nobody can tell the two apart, and
      every stored version has the share it had. */
  method Restart(n: Node) returns (m: Node)
    requires n.Valid() && Consistent(n.View())
    ensures fresh(m) && m.Valid() && m.persistence == n.persistence
    ensures m.View() == AutoHeal.RestoreState(n.View().disk) && Alike(m.View(), n.View())
    ensures forall o, o' :: o in n.keyStore.keyVersions && o' in m.keyStore.keyVersions && o.version == o'.version ==>
              o.privateShare == o'.privateShare
  {
    m := new Node(n.persistence);
    m.RestoreState();
    RestartIsAlike(n.View());
    forall o, o' | o in n.keyStore.keyVersions && o' in m.keyStore.keyVersions && o.version == o'.version
      ensures o.privateShare == o'.privateShare
    {
      var saved := n.persistence.saved;
      var k :| 0 <= k < |saved| && saved[k] == Saved(o.version, o.privateShare);
      var j :| 0 <= j < |saved| && m.keyStore.keyVersions[j] == o';
      assert saved[k].version == saved[j].version;
    }
  }

  /** One event handled by the code is one step of the state machine. */
  method Handle(n: Node, e: Event, privateShare: Option<Elem>) returns (m: Node)
    requires n.Valid() && Consistent(n.View()) && Enabled(n.View(), e)
    modifies n`abortTracker, n.keyStore, n.keyStore.activeVersion, n.keyStore.keyVersions, n.persistence
    ensures m.Valid() && m.View() == Step(old(n.View()), e)
  {
    m := n;
    match e
    case Abort(majority) =>
      n.OnMPKValidationAbort(n.keyStore.activeVersion.version, majority);
    case Success(v, source) =>
      n.CommitVersion(v, privateShare);
      n.RecordSuccessfulReshare(source);
    case Create(v) =>
      n.CommitVersion(v, privateShare);
    case Boundary =>
      n.PersistBoundary();
    case Restart =>
      m := Restart(n);
  }
}
