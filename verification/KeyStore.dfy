/** pkg/keystore/keystore.go: key versions as shared objects with an active flag, the active and pending
    pointers, and the poisoned set. The mutex is not represented: one call at a time. */
module KeyStores {
  import opened Results
  import opened PrimeField

  type Version = int

  /** types.KeyShareVersion: an object whose flag the store updates in place. */
  class KeyShareVersion {
    const version: Version
    const privateShare: Option<Elem>
    var isActive: bool

    constructor (version: Version, privateShare: Option<Elem>, isActive: bool)
      ensures this.version == version && this.privateShare == privateShare && this.isActive == isActive
    {
      this.version := version;
      this.privateShare := privateShare;
      this.isActive := isActive;
    }
  }

  // Version resolution, on version numbers ------------------------------------------------------

  /** GetKeyVersionAtTime: the greatest version not above the timestamp that is not poisoned. */
  function AtTime(vs: seq<Version>, poisoned: set<Version>, timestamp: Version): Option<Version> {
    if vs == [] then None
    else
      var last := vs[|vs| - 1];
      var best := AtTime(vs[..|vs| - 1], poisoned, timestamp);
      if last !in poisoned && last <= timestamp && (best.None? || last > best.value) then Some(last) else best
  }

  ghost predicate IsAnswer(r: Option<Version>, vs: seq<Version>, poisoned: set<Version>, timestamp: Version) {
    && (r.Some? ==> r.value in vs && r.value !in poisoned && r.value <= timestamp)
    && forall v :: v in vs && v !in poisoned && v <= timestamp ==> r.Some? && v <= r.value
  }

  lemma {:induction false} AtTimeIsAnswer(vs: seq<Version>, poisoned: set<Version>, timestamp: Version)
    ensures IsAnswer(AtTime(vs, poisoned, timestamp), vs, poisoned, timestamp)
  {
    if vs != [] {
      var front := vs[..|vs| - 1];
      AtTimeIsAnswer(front, poisoned, timestamp);
      assert forall v :: v in vs <==> v in front || v == vs[|vs| - 1];
    }
  }

  /** There is one answer: the resolution is exactly the greatest good version not above the timestamp. */
  lemma ResolutionIsGreatest(r: Option<Version>, vs: seq<Version>, poisoned: set<Version>, timestamp: Version)
    ensures r == AtTime(vs, poisoned, timestamp) <==> IsAnswer(r, vs, poisoned, timestamp)
  {
    AtTimeIsAnswer(vs, poisoned, timestamp);
  }

  /** A later timestamp never resolves to an earlier version. */
  lemma ResolutionIsMonotone(vs: seq<Version>, poisoned: set<Version>, t1: Version, t2: Version)
    requires t1 <= t2 && AtTime(vs, poisoned, t1).Some?
    ensures AtTime(vs, poisoned, t2).Some? && AtTime(vs, poisoned, t1).value <= AtTime(vs, poisoned, t2).value
  {
    AtTimeIsAnswer(vs, poisoned, t1);
    AtTimeIsAnswer(vs, poisoned, t2);
  }

  /** Poisoning a version changes only the answers that were that version, to the next lower good one. */
  lemma PoisoningMovesOnlyItsAnswers(vs: seq<Version>, poisoned: set<Version>, p: Version, timestamp: Version)
    ensures var before := AtTime(vs, poisoned, timestamp);
            AtTime(vs, poisoned + {p}, timestamp) ==
            if before == Some(p) then AtTime(vs, poisoned, p - 1) else before
  {
    AtTimeIsAnswer(vs, poisoned, timestamp);
    AtTimeIsAnswer(vs, poisoned, p - 1);
    AtTimeIsAnswer(vs, poisoned + {p}, timestamp);
  }

  class KeyStore {
    var keyVersions: seq<KeyShareVersion>
    var activeVersion: KeyShareVersion?
    var pendingVersion: KeyShareVersion?
    var poisoned: set<Version>

    /** At most one stored object is flagged active, and it is the active pointer. */
    ghost predicate Flags()
      reads this, keyVersions, activeVersion
    {
      && (activeVersion != null ==> activeVersion.isActive)
      && (forall v :: v in keyVersions && v.isActive ==> v == activeVersion)
    }

    /** A pending object is neither stored nor active yet. */
    ghost predicate PendingApart()
      reads this
    {
      pendingVersion != null ==> pendingVersion !in keyVersions && pendingVersion != activeVersion
    }

    ghost predicate Valid()
      reads this, keyVersions, activeVersion
    {
      Flags() && PendingApart()
    }

    /** The stored version numbers, in the order they were added. */
    function Numbers(): (s: seq<Version>)
      reads this
      ensures |s| == |keyVersions| && forall i :: 0 <= i < |s| ==> s[i] == keyVersions[i].version
    {
      seq(|keyVersions|, i requires 0 <= i < |keyVersions| reads this => keyVersions[i].version)
    }

    function ActiveNumber(): Option<Version>
      reads this
    {
      if activeVersion == null then None else Some(activeVersion.version)
    }

    constructor ()
      ensures Valid() && keyVersions == [] && activeVersion == null && pendingVersion == null && poisoned == {}
    {
      keyVersions, activeVersion, pendingVersion, poisoned := [], null, null, {};
    }

    /** Adds an object the store does not know yet. */
    method AddVersion(version: KeyShareVersion)
      requires Valid() && version !in keyVersions && version != activeVersion && version != pendingVersion
      modifies `keyVersions, `activeVersion, activeVersion
      ensures Valid() && keyVersions == old(keyVersions) + [version]
      ensures activeVersion == if old(version.isActive) then version else old(activeVersion)
      ensures version.isActive == old(version.isActive)
      ensures old(version.isActive) && old(activeVersion) != null ==> !old(activeVersion).isActive
    {
      keyVersions := keyVersions + [version];
      if version.isActive {
        if activeVersion != null {
          activeVersion.isActive := false;
        }
        activeVersion := version;
      }
    }

    /** Any object may be activated, the pending one too; then the pending object is no longer apart. */
    method SetActiveVersion(version: KeyShareVersion)
      requires Flags()
      modifies `activeVersion, activeVersion, version
      ensures Flags() && activeVersion == version && version.isActive
      ensures PendingApart() <==> pendingVersion == null || (pendingVersion !in keyVersions && pendingVersion != version)
      ensures old(activeVersion) != null && old(activeVersion) != version ==> !old(activeVersion).isActive
    {
      if activeVersion != null {
        activeVersion.isActive := false;
      }
      version.isActive := true;
      activeVersion := version;
    }

    /** The position of the first stored object with this version number, if any. */
    method Find(version: Version) returns (k: nat)
      ensures k <= |keyVersions| && forall i :: 0 <= i < k ==> keyVersions[i].version != version
      ensures k < |keyVersions| ==> keyVersions[k].version == version
    {
      k := 0;
      while k < |keyVersions| && keyVersions[k].version != version
        invariant k <= |keyVersions| && forall i :: 0 <= i < k ==> keyVersions[i].version != version
      {
        k := k + 1;
      }
    }

    /** Activates the store's own object for the version; refuses a poisoned or unknown version and then
        changes nothing. */
    method SetActiveVersionByTimestamp(version: Version) returns (r: Result<()>)
      requires Valid()
      modifies `activeVersion, activeVersion, keyVersions
      ensures Valid()
      ensures r.Ok? <==> version !in poisoned && version in Numbers()
      ensures r.Ok? ==> activeVersion != null && activeVersion in keyVersions && activeVersion.version == version
      ensures r.Ok? ==> exists k: nat :: IsFirst(k, version) && activeVersion == keyVersions[k]
      ensures r.Ok? && old(activeVersion) != null && old(activeVersion) != activeVersion ==> !old(activeVersion).isActive
      ensures r.Err? ==> activeVersion == old(activeVersion) && forall v :: v in keyVersions ==> v.isActive == old(v.isActive)
    {
      if version in poisoned {
        return Err("cannot activate poisoned version");
      }
      var k := Find(version);
      if k == |keyVersions| {
        return Err("no such key version in keystore");
      }
      assert Numbers()[k] == version;
      SetActiveVersion(keyVersions[k]);
      return Ok(());
    }

    method MarkPoisoned(version: Version)
      modifies `poisoned
      ensures poisoned == old(poisoned) + {version}
    {
      poisoned := poisoned + {version};
    }

    method GetActivePrivateShare() returns (r: Result<Option<Elem>>)
      ensures r == if activeVersion == null then Err("no active key version") else Ok(activeVersion.privateShare)
    {
      if activeVersion == null {
        return Err("no active key version");
      }
      return Ok(activeVersion.privateShare);
    }

    method SetPendingVersion(version: KeyShareVersion?)
      requires Valid()
      requires version != null ==> version !in keyVersions && version != activeVersion
      modifies `pendingVersion
      ensures Valid() && pendingVersion == version
    {
      pendingVersion := version;
    }

    /** Promotes the pending object; refuses when there is none or it is poisoned. The promoted object ends up flagged
        exactly if it was not the active one already: the former active object is unflagged last. */
    method ActivatePendingVersion() returns (r: Result<()>)
      requires Flags()
      modifies this, activeVersion, pendingVersion
      ensures poisoned == old(poisoned)
      ensures old(Valid()) ==> Valid()
      ensures r.Ok? <==> old(pendingVersion) != null && old(pendingVersion).version !in poisoned
      ensures r.Ok? ==>
                && activeVersion == old(pendingVersion) && pendingVersion == null
                && keyVersions == old(keyVersions) + [old(pendingVersion)]
                && (activeVersion.isActive <==> old(activeVersion) != old(pendingVersion))
                && (old(activeVersion) != null ==> !old(activeVersion).isActive)
      ensures r.Err? ==>
                && keyVersions == old(keyVersions) && activeVersion == old(activeVersion)
                && pendingVersion == old(pendingVersion) && Flags()
                && (pendingVersion != null ==> pendingVersion.isActive == old(pendingVersion.isActive))
    {
      if pendingVersion == null {
        return Err("no pending version to activate");
      }
      if pendingVersion.version in poisoned {
        return Err("cannot activate poisoned pending version");
      }
      pendingVersion.isActive := true;
      if activeVersion != null {
        activeVersion.isActive := false;
      }
      activeVersion := pendingVersion;
      keyVersions := keyVersions + [activeVersion];
      pendingVersion := null;
      return Ok(());
    }

    /** Position k holds the first stored object with this version number. */
    ghost predicate IsFirst(k: nat, version: Version)
      reads this
    {
      k < |keyVersions| && keyVersions[k].version == version && forall i :: 0 <= i < k ==> keyVersions[i].version != version
    }

    /** The exact version's share, never a neighbour's: there is none for a poisoned or unknown version. */
    method GetPrivateShareForVersion(version: Version) returns (r: Result<Elem>)
      ensures version in poisoned || version !in Numbers() ==> r.Err?
      ensures version !in poisoned ==>
                forall k: nat :: IsFirst(k, version) ==>
                  match keyVersions[k].privateShare
                  case None => r.Err?
                  case Some(share) => r == Ok(share)
    {
      if version in poisoned {
        return Err("key version is poisoned and must not be used");
      }
      var k := Find(version);
      if k == |keyVersions| {
        return Err("no such key version in keystore");
      }
      if keyVersions[k].privateShare.None? {
        return Err("key version has no private share");
      }
      return Ok(keyVersions[k].privateShare.value);
    }

    method ClearPendingVersion()
      requires Valid()
      modifies `pendingVersion
      ensures Valid() && pendingVersion == null
    {
      pendingVersion := null;
    }

    /** Resolves a timestamp to a stored object. */
    method GetKeyVersionAtTime(timestamp: Version) returns (best: KeyShareVersion?)
      ensures (if best == null then None else Some(best.version)) == AtTime(Numbers(), poisoned, timestamp)
      ensures best != null ==> best in keyVersions
    {
      best := null;
      ghost var numbers := Numbers();
      for k := 0 to |keyVersions|
        invariant (if best == null then None else Some(best.version)) == AtTime(numbers[..k], poisoned, timestamp)
        invariant best != null ==> best in keyVersions
      {
        var version := keyVersions[k];
        assert numbers[..k + 1][..k] == numbers[..k];
        if version.version !in poisoned && version.version <= timestamp {
          if best == null || version.version > best.version {
            best := version;
          }
        }
      }
      assert numbers[..|keyVersions|] == numbers;
    }
  }
}
