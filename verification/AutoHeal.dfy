/** The auto-heal state machine of pkg/node/autoheal.go together with RestoreState of pkg/node/node.go: what
    each event does to a node's memory and to what it has persisted. Node.dfy proves the imperative code
    against these functions; here are the properties of whole runs. */
module AutoHeal {
  import opened Results
  import opened Lists

  type Version = int

  const DEMOTION_THRESHOLD := 3

  // State -------------------------------------------------------------------------------------

  datatype Tracker = Tracker(source: Version, aborts: nat)

  /** persistence.NodeState, the auto-heal part. */
  datatype NodeRecord = NodeRecord(tracker: Tracker, lastKnownGood: Version)

  /** What persistence holds. A version is saved before it becomes active. */
  datatype Disk = Disk(versions: set<Version>, active: Version, poisoned: set<Version>, record: Option<NodeRecord>)

  datatype Memory = Memory(stored: set<Version>, active: Option<Version>, poisoned: set<Version>, tracker: Tracker)

  datatype NodeState = NodeState(mem: Memory, disk: Disk)

  const ZERO_TRACKER := Tracker(0, 0)

  /** A node that has never run. */
  const FRESH := NodeState(Memory({}, None, {}, ZERO_TRACKER), Disk({}, 0, {}, None))

  function LastKnownGood(d: Disk): Version {
    if d.record.Some? then d.record.value.lastKnownGood else 0
  }

  // Transitions -------------------------------------------------------------------------------

  /** recordMPKAbort: the new tracker, and whether to demote. */
  function RecordAbort(t: Tracker, active: Version, majority: Version): (Tracker, bool) {
    var t' := if t.source != active then Tracker(active, 0) else t;
    if majority != active then (t', false)
    else (Tracker(active, t'.aborts + 1), t'.aborts + 1 >= DEMOTION_THRESHOLD)
  }

  ghost predicate IsGreatest(v: Version, s: set<Version>) {
    v in s && forall w :: w in s ==> w <= v
  }

  lemma {:induction false} GreatestExists(s: set<Version>)
    requires |s| > 0
    ensures exists v :: IsGreatest(v, s)
  {
    var v := Member(s);
    var rest := s - {v};
    assert forall w :: w in s ==> w == v || w in rest;
    if |rest| == 0 {
      assert IsGreatest(v, s);
    } else {
      GreatestExists(rest);
      var w :| IsGreatest(w, rest);
      assert IsGreatest(if w > v then w else v, s);
    }
  }

  ghost function Greatest(s: set<Version>): (v: Version)
    requires s != {}
    ensures IsGreatest(v, s)
  {
    GreatestExists(s);
    var v :| IsGreatest(v, s);
    v
  }

  /** Stored versions that a rollback may walk back to. */
  function GoodBelow(v: Version, versions: set<Version>, poisoned: set<Version>): set<Version> {
    set w | w in versions && w < v && w !in poisoned
  }

  /** The last known good version is taken without asking whether this node stores it. */
  predicate UsableLkg(lkg: Version, v: Version, poisoned: set<Version>) {
    0 < lkg < v && lkg !in poisoned
  }

  /** rollbackTarget. */
  ghost function RollbackTarget(lkg: Version, v: Version, versions: set<Version>, poisoned: set<Version>): Option<Version> {
    if UsableLkg(lkg, v, poisoned) then Some(lkg)
    else if GoodBelow(v, versions, poisoned) == {} then None
    else Some(Greatest(GoodBelow(v, versions, poisoned)))
  }

  function SaveTracker(d: Disk, t: Tracker): Disk {
    d.(record := Some(NodeRecord(t, LastKnownGood(d))))
  }

  /** performRollback: poison the version, then re-point active to the target, or stay put (the floor) when
      there is no target or the target is not stored. */
  ghost function PerformRollback(s: NodeState, v: Version): NodeState {
    var mem := s.mem.(poisoned := s.mem.poisoned + {v});
    var disk := s.disk.(poisoned := s.disk.poisoned + {v});
    var target := RollbackTarget(LastKnownGood(disk), v, disk.versions, mem.poisoned);
    if target.None? || target.value in mem.poisoned || target.value !in mem.stored then NodeState(mem, disk)
    else
      var t := Tracker(target.value, 0);
      NodeState(mem.(active := target, tracker := t), SaveTracker(disk.(active := target.value), t))
  }

  datatype Event =
    | Abort(majority: Version)                          // a round failed MPK validation
    | Success(newVersion: Version, source: Version)     // a round passed and was stored
    | Create(newVersion: Version)                       // DKG, or joining a running cluster
    | Boundary                                          // persistBoundary at an interval block
    | Restart                                           // the process is restarted from disk

  /** onMPKValidationAbort; the round dealt from the active version. */
  ghost function OnAbort(s: NodeState, active: Version, majority: Version): NodeState {
    var (t, demote) := RecordAbort(s.mem.tracker, active, majority);
    var s' := NodeState(s.mem.(tracker := t), SaveTracker(s.disk, t));
    if demote then PerformRollback(s', active) else s'
  }

  /** Saving a new version, pointing at it, and adding it (flagged active) to the keystore. */
  function StoreVersion(s: NodeState, v: Version): NodeState {
    NodeState(s.mem.(stored := s.mem.stored + {v}, active := Some(v)),
              s.disk.(versions := s.disk.versions + {v}, active := v))
  }

  /** recordSuccessfulReshare. */
  function RecordSuccess(s: NodeState, source: Version): NodeState {
    var prior := if s.disk.record.Some? then s.disk.record.value else NodeRecord(ZERO_TRACKER, 0);
    NodeState(s.mem.(tracker := s.mem.tracker.(aborts := 0)),
              s.disk.(record := Some(NodeRecord(prior.tracker.(aborts := 0),
                                                if source > 0 then source else prior.lastKnownGood))))
  }

  function OnBoundary(s: NodeState): NodeState {
    if s.disk.record.None? then s.(disk := s.disk.(record := Some(NodeRecord(ZERO_TRACKER, 0)))) else s
  }

  /** RestoreState: every persisted version was saved with its active flag set, so the greatest one is active
      until the persisted pointer is applied; the abort count is kept only if it is about the active version. */
  ghost function RestoreState(d: Disk): NodeState {
    var active :=
      if d.active > 0 && d.active in d.versions then Some(d.active)
      else if d.versions == {} then None else Some(Greatest(d.versions));
    var tracker :=
      if d.record.Some? && active == Some(d.record.value.tracker.source) then d.record.value.tracker else ZERO_TRACKER;
    NodeState(Memory(d.versions, active, d.poisoned, tracker), d)
  }

  /** The restored state in its own terms: everything persisted, the persisted pointer if it names a persisted
      version and otherwise the greatest persisted version, and the abort count only if it is about that version. */
  lemma RestoredExactly(d: Disk)
    ensures var s := RestoreState(d);
            && s.disk == d && s.mem.stored == d.versions && s.mem.poisoned == d.poisoned
            && (d.active > 0 && d.active in d.versions ==> s.mem.active == Some(d.active))
            && (!(d.active > 0 && d.active in d.versions) ==>
                  if d.versions == {} then s.mem.active == None
                  else s.mem.active.Some? && s.mem.active.value in d.versions &&
                       forall w :: w in d.versions ==> w <= s.mem.active.value)
            && (if d.record.Some? && s.mem.active == Some(d.record.value.tracker.source)
                then s.mem.tracker == d.record.value.tracker
                else s.mem.tracker.source == 0 && s.mem.tracker.aborts == 0)
  {
  }

  /** New versions are fresh positive timestamps; only a node with an active version reshares; only a node
      without one is created or joins. */
  predicate Enabled(s: NodeState, e: Event) {
    match e
    case Abort(_) => s.mem.active.Some?
    case Success(v, _) => s.mem.active.Some? && v > 0 && v !in s.mem.stored
    case Create(v) => s.mem.active.None? && v > 0 && v !in s.mem.stored
    case Boundary => true
    case Restart => true
  }

  ghost function Step(s: NodeState, e: Event): NodeState
    requires Enabled(s, e)
  {
    match e
    case Abort(m) => OnAbort(s, s.mem.active.value, m)
    case Success(v, source) => RecordSuccess(StoreVersion(s, v), source)
    case Create(v) => StoreVersion(s, v)
    case Boundary => OnBoundary(s)
    case Restart => RestoreState(s.disk)
  }

  /** The demotion decision taken at an event. */
  predicate Demotes(s: NodeState, e: Event) {
    e.Abort? && s.mem.active.Some? && RecordAbort(s.mem.tracker, s.mem.active.value, e.majority).1
  }

  // Runs --------------------------------------------------------------------------------------

  ghost predicate IsRun(s: NodeState, es: seq<Event>)
    decreases |es|, 0
  {
    es == [] || (IsRun(s, es[..|es| - 1]) && Enabled(After(s, es[..|es| - 1]), es[|es| - 1]))
  }

  ghost function After(s: NodeState, es: seq<Event>): NodeState
    requires IsRun(s, es)
    decreases |es|, 1
  {
    if es == [] then s else Step(After(s, es[..|es| - 1]), es[|es| - 1])
  }

  /** The aborts that count against the current active version. */
  function Count(t: Tracker, active: Option<Version>): nat {
    if active == Some(t.source) then t.aborts else 0
  }

  function DiskTracker(d: Disk): Tracker {
    if d.record.Some? then d.record.value.tracker else ZERO_TRACKER
  }

  /** What every event keeps: memory and disk agree on everything a restart needs. */
  ghost predicate Consistent(s: NodeState) {
    && s.mem.stored == s.disk.versions && s.mem.poisoned == s.disk.poisoned && s.mem.poisoned <= s.mem.stored
    && (forall v :: v in s.mem.stored ==> v > 0)
    && (s.mem.active.Some? ==> s.mem.active.value in s.mem.stored && s.disk.active == s.mem.active.value)
    && (s.mem.active.None? ==> s.mem.stored == {} && s.mem.tracker.aborts == 0 && DiskTracker(s.disk).aborts == 0)
    && Count(s.mem.tracker, s.mem.active) == Count(DiskTracker(s.disk), s.mem.active)
  }

  lemma RollbackConsistent(s: NodeState, v: Version)
    requires Consistent(s) && s.mem.active == Some(v)
    ensures Consistent(PerformRollback(s, v))
  {
  }

  lemma StepConsistent(s: NodeState, e: Event)
    requires Consistent(s) && Enabled(s, e)
    ensures Consistent(Step(s, e))
  {
    if e.Abort? {
      var v := s.mem.active.value;
      var (t, demote) := RecordAbort(s.mem.tracker, v, e.majority);
      var s' := NodeState(s.mem.(tracker := t), SaveTracker(s.disk, t));
      assert Consistent(s');
      if demote {
        RollbackConsistent(s', v);
      }
    }
  }

  lemma {:induction false} RunConsistent(s: NodeState, es: seq<Event>)
    requires Consistent(s) && IsRun(s, es)
    ensures Consistent(After(s, es))
    decreases |es|
  {
    hide Consistent, Step, Enabled;
    if es != [] {
      RunConsistent(s, es[..|es| - 1]);
      StepConsistent(After(s, es[..|es| - 1]), es[|es| - 1]);
    }
  }

  // Restarts are invisible --------------------------------------------------------------------

  /** Two nodes that nobody can tell apart: same versions, pointer, poisoned set and last known good, and
      the same number of aborts counted against the active version. Their trackers may differ. */
  ghost predicate Alike(s: NodeState, t: NodeState) {
    && s.mem.stored == t.mem.stored && s.mem.active == t.mem.active && s.mem.poisoned == t.mem.poisoned
    && LastKnownGood(s.disk) == LastKnownGood(t.disk)
    && Count(s.mem.tracker, s.mem.active) == Count(t.mem.tracker, t.mem.active)
  }

  lemma RestartIsAlike(s: NodeState)
    requires Consistent(s)
    ensures Alike(RestoreState(s.disk), s)
  {
  }

  /** Alike nodes take the same demotion decision and stay alike. */
  lemma AlikeStep(s: NodeState, t: NodeState, e: Event)
    requires Consistent(s) && Consistent(t) && Alike(s, t) && !e.Restart?
    requires Enabled(s, e)
    ensures Enabled(t, e) && (Demotes(s, e) <==> Demotes(t, e)) && Alike(Step(s, e), Step(t, e))
  {
  }

  function WithoutRestarts(es: seq<Event>): seq<Event> {
    if es == [] then []
    else
      var r := WithoutRestarts(es[..|es| - 1]);
      if es[|es| - 1].Restart? then r else r + [es[|es| - 1]]
  }

  /** RESTART EQUIVALENCE. A run with restarts anywhere in it is a run without them, and it ends in the same
      active version, poisoned set, stored versions and last known good, with the same count of aborts. */
  lemma {:induction false} RestartsAreInvisible(s: NodeState, es: seq<Event>)
    requires Consistent(s) && IsRun(s, es)
    ensures IsRun(s, WithoutRestarts(es))
    ensures Alike(After(s, es), After(s, WithoutRestarts(es)))
    decreases |es|
  {
    hide Consistent, Step, Enabled, Alike, RestoreState;
    if es == [] {
      AlikeItself(s);
    } else {
      var front, e := es[..|es| - 1], es[|es| - 1];
      var r := WithoutRestarts(front);
      RestartsAreInvisible(s, front);
      RunConsistent(s, front);
      RunConsistent(s, r);
      if e.Restart? {
        RestartStep(After(s, front));
        AlikeTransitive(RestoreState(After(s, front).disk), After(s, front), After(s, r));
      } else {
        AlikeStep(After(s, front), After(s, r), e);
        assert (r + [e])[..|r|] == r;
      }
    }
  }

  lemma RestartStep(s: NodeState)
    requires Consistent(s)
    ensures Enabled(s, Restart) && Step(s, Restart) == RestoreState(s.disk) && Alike(RestoreState(s.disk), s)
  {
    RestartIsAlike(s);
  }

  lemma AlikeItself(s: NodeState)
    ensures Alike(s, s)
  {
  }

  lemma AlikeTransitive(s: NodeState, t: NodeState, u: NodeState)
    requires Alike(s, t) && Alike(t, u)
    ensures Alike(s, u)
  {
  }

  /** Every later demotion decision is the same as if the node had never been restarted. */
  lemma RestartsDoNotChangeDecisions(s: NodeState, es: seq<Event>, e: Event)
    requires Consistent(s) && IsRun(s, es) && !e.Restart? && Enabled(After(s, es), e)
    ensures IsRun(s, WithoutRestarts(es)) && Enabled(After(s, WithoutRestarts(es)), e)
    ensures Demotes(After(s, es), e) <==> Demotes(After(s, WithoutRestarts(es)), e)
  {
    hide Consistent, Step, Enabled, Alike;
    RestartsAreInvisible(s, es);
    RunConsistent(s, es);
    RunConsistent(s, WithoutRestarts(es));
    AlikeStep(After(s, es), After(s, WithoutRestarts(es)), e);
  }

  // Demotion needs three counted aborts -------------------------------------------------------

  ghost function ActiveAt(s: NodeState, es: seq<Event>, i: nat): Option<Version>
    requires IsRun(s, es) && i <= |es|
  {
    PrefixIsRun(s, es, i);
    After(s, es[..i]).mem.active
  }

  lemma {:induction false} PrefixIsRun(s: NodeState, es: seq<Event>, i: nat)
    requires IsRun(s, es) && i <= |es|
    ensures IsRun(s, es[..i])
    decreases |es|
  {
    if i == |es| {
      assert es[..i] == es;
    } else {
      PrefixIsRun(s, es[..|es| - 1], i);
      assert es[..|es| - 1][..i] == es[..i];
    }
  }

  /** Event i is an abort of a round whose agreed majority version was this node's active version. */
  ghost predicate Counted(s: NodeState, es: seq<Event>, i: nat)
    requires IsRun(s, es) && i < |es|
  {
    es[i].Abort? && ActiveAt(s, es, i) == Some(es[i].majority)
  }

  /** From event i on, no round succeeded and the active version stayed the same. */
  ghost predicate Undisturbed(s: NodeState, es: seq<Event>, i: nat)
    requires IsRun(s, es) && i <= |es|
  {
    forall j :: i <= j < |es| ==> !es[j].Success? && !es[j].Create? && ActiveAt(s, es, j) == ActiveAt(s, es, |es|)
  }

  ghost function CountAfter(s: NodeState, es: seq<Event>): nat
    requires IsRun(s, es)
  {
    Count(After(s, es).mem.tracker, After(s, es).mem.active)
  }

  /** A positive count was raised by a counted abort, with one less counted before it and nothing since. */
  ghost predicate RaisedAt(s: NodeState, es: seq<Event>, i: nat)
    requires IsRun(s, es)
  {
    && i < |es| && IsRun(s, es[..i]) && Counted(s, es, i) && Undisturbed(s, es, i)
    && CountAfter(s, es[..i]) >= CountAfter(s, es) - 1
  }

  lemma {:induction false} LastCounted(s: NodeState, es: seq<Event>) returns (i: nat)
    requires Consistent(s) && s.mem.active.None? && IsRun(s, es) && CountAfter(s, es) > 0
    ensures RaisedAt(s, es, i)
    decreases |es|
  {
    var n := |es| - 1;
    assert es != [];
    var front, e := es[..n], es[n];
    RunConsistent(s, front);
    CountStep(After(s, front), e);
    if e.Abort? && After(s, front).mem.active == Some(e.majority) {
      i := n;
      RaisedByLast(s, es);
    } else {
      i := LastCounted(s, front);
      RaisedEarlier(s, es, i);
    }
  }

  /** How one event changes the count. */
  lemma CountStep(s: NodeState, e: Event)
    requires Consistent(s) && Enabled(s, e)
    ensures var t := Step(s, e);
            var c, d := Count(s.mem.tracker, s.mem.active), Count(t.mem.tracker, t.mem.active);
            && (e.Success? || e.Create? ==> d == 0)
            && (d > 0 ==> t.mem.active == s.mem.active)
            && (d > 0 && e.Abort? && s.mem.active == Some(e.majority) ==> d == c + 1)
            && (d > 0 && !(e.Abort? && s.mem.active == Some(e.majority)) ==> d == c)
  {
  }

  lemma RaisedByLast(s: NodeState, es: seq<Event>)
    requires Consistent(s) && IsRun(s, es) && es != [] && CountAfter(s, es) > 0
    requires var n := |es| - 1; es[n].Abort? && After(s, es[..n]).mem.active == Some(es[n].majority)
    ensures RaisedAt(s, es, |es| - 1)
  {
    var n := |es| - 1;
    RunConsistent(s, es[..n]);
    CountStep(After(s, es[..n]), es[n]);
    assert es[..|es|] == es;
  }

  lemma RaisedEarlier(s: NodeState, es: seq<Event>, i: nat)
    requires Consistent(s) && IsRun(s, es) && es != [] && CountAfter(s, es) > 0
    requires var n := |es| - 1;
             && RaisedAt(s, es[..n], i) && !(es[n].Abort? && After(s, es[..n]).mem.active == Some(es[n].majority))
    ensures RaisedAt(s, es, i)
  {
    hide Consistent, Step, Enabled, Count;
    var n := |es| - 1;
    var front := es[..n];
    RunConsistent(s, front);
    CountStepHere(s, es);
    assert front[..i] == es[..i] && front[..|front|] == front && es[..|es|] == es;
    forall j | i <= j < |es|
      ensures !es[j].Success? && !es[j].Create? && ActiveAt(s, es, j) == ActiveAt(s, es, |es|)
    {
      if j < n {
        assert front[j] == es[j] && front[..j] == es[..j];
        assert ActiveAt(s, front, j) == ActiveAt(s, front, |front|);
      }
    }
    assert Counted(s, front, i);
  }

  lemma CountStepHere(s: NodeState, es: seq<Event>)
    requires Consistent(s) && IsRun(s, es) && es != [] && CountAfter(s, es) > 0
    ensures var n := |es| - 1;
            && !es[n].Success? && !es[n].Create?
            && After(s, es).mem.active == After(s, es[..n]).mem.active
            && (!(es[n].Abort? && After(s, es[..n]).mem.active == Some(es[n].majority)) ==>
                  CountAfter(s, es) == CountAfter(s, es[..n]))
  {
    RunConsistent(s, es[..|es| - 1]);
    CountStep(After(s, es[..|es| - 1]), es[|es| - 1]);
  }

  /** AUTO-HEAL SAFETY. A demotion takes three aborts counted against one active version, the third being the
      demoting one, with no successful round and no change of the active version in between. */
  lemma DemotionNeedsThreeCountedAborts(es: seq<Event>, e: Event) returns (i: nat, j: nat)
    requires IsRun(FRESH, es) && Enabled(After(FRESH, es), e) && Demotes(After(FRESH, es), e)
    ensures i < j < |es| && Counted(FRESH, es, i) && Counted(FRESH, es, j)
    ensures Undisturbed(FRESH, es, i) && Some(e.majority) == After(FRESH, es).mem.active
  {
    assert CountAfter(FRESH, es) >= 2;
    j := LastCounted(FRESH, es);
    i := LastCounted(FRESH, es[..j]);
    WindowsJoin(FRESH, es, i, j);
  }

  lemma WindowsJoin(s: NodeState, es: seq<Event>, i: nat, j: nat)
    requires IsRun(s, es) && RaisedAt(s, es, j) && RaisedAt(s, es[..j], i)
    ensures i < j && Counted(s, es, i) && Undisturbed(s, es, i)
  {
    hide Step, Enabled, Count;
    var front := es[..j];
    assert front[..i] == es[..i] && front[..j] == front;
    assert Counted(s, front, i);
    forall k | i <= k < |es|
      ensures !es[k].Success? && !es[k].Create? && ActiveAt(s, es, k) == ActiveAt(s, es, |es|)
    {
      if k < j {
        assert front[k] == es[k] && front[..k] == es[..k];
        assert ActiveAt(s, front, k) == ActiveAt(s, front, j);
      }
    }
  }

  // Rollbacks ---------------------------------------------------------------------------------

  /** A demotion moves the active version strictly down to a stored version that is not poisoned, or leaves it
      where it is; either way exactly the old active version becomes poisoned. */
  lemma DemotionMovesDownOrStays(s: NodeState, e: Event)
    requires Consistent(s) && Enabled(s, e) && Demotes(s, e)
    ensures var v, t := s.mem.active.value, Step(s, e);
            && t.mem.poisoned == s.mem.poisoned + {v} && t.mem.stored == s.mem.stored
            && t.mem.active.Some?
            && (t.mem.active.value == v ||
                (t.mem.active.value < v && t.mem.active.value in t.mem.stored && t.mem.active.value !in t.mem.poisoned))
  {
  }

  /** Where a demotion moves to: the last known good version if it is usable (or nowhere, if it is not stored), else
      the greatest stored version below that is not poisoned, if there is one. */
  lemma DemotionTarget(s: NodeState, e: Event)
    requires Consistent(s) && Enabled(s, e) && Demotes(s, e)
    ensures var v, lkg, now := s.mem.active.value, LastKnownGood(s.disk), Step(s, e).mem.active;
            var poisoned := s.mem.poisoned + {v};
            if 0 < lkg < v && lkg !in poisoned then
              now == Some(if lkg in s.mem.stored then lkg else v)
            else if exists w :: w in s.mem.stored && w < v && w !in poisoned then
              && now.Some? && now.value in s.mem.stored && now.value < v && now.value !in poisoned
              && forall w :: w in s.mem.stored && w < v && w !in poisoned ==> w <= now.value
            else now == Some(v)
  {
    var v := s.mem.active.value;
    var poisoned := s.mem.poisoned + {v};
    assert forall w :: w in GoodBelow(v, s.disk.versions, poisoned) <==> w in s.mem.stored && w < v && w !in poisoned;
  }

  /** What the other events do to versions, pointer and poisoned set. */
  lemma EventEffect(s: NodeState, e: Event)
    requires Consistent(s) && Enabled(s, e) && !Demotes(s, e)
    ensures var t := Step(s, e);
            && t.mem.poisoned == s.mem.poisoned
            && (e.Success? || e.Create? ==>
                  t.mem.active == Some(e.newVersion) && t.mem.stored == s.mem.stored + {e.newVersion})
            && (!e.Success? && !e.Create? ==> t.mem.active == s.mem.active && t.mem.stored == s.mem.stored)
  {
  }

  /** No other event poisons anything, and only a stored round or a creation moves the active version up. */
  lemma OnlyDemotionPoisons(s: NodeState, e: Event)
    requires Consistent(s) && Enabled(s, e) && !Demotes(s, e)
    ensures Step(s, e).mem.poisoned == s.mem.poisoned
    ensures !e.Success? && !e.Create? ==> Step(s, e).mem.active == s.mem.active
  {
  }

  /** Exactly when a demotion finds a way back: there is a target and this node stores it. */
  lemma RollsBackIff(s: NodeState, e: Event)
    requires Consistent(s) && Enabled(s, e) && Demotes(s, e)
    ensures var v, lkg := s.mem.active.value, LastKnownGood(s.disk);
            var poisoned := s.mem.poisoned + {v};
            Step(s, e).mem.active != s.mem.active <==>
              if UsableLkg(lkg, v, poisoned) then lkg in s.mem.stored
              else GoodBelow(v, s.mem.stored, poisoned) != {}
  {
  }

  /** The last known good version is recorded even by a node that lagged behind and never stored it. Such a
      node stays on its poisoned version although an older good one is stored: the walk-back is not tried. */
  lemma UnstoredLkgBlocksTheWalkBack()
    ensures var es := [Create(10), Success(30, 20), Abort(30), Abort(30), Abort(30)];
            && IsRun(FRESH, es)
            && After(FRESH, es).mem.active == Some(30) && 30 in After(FRESH, es).mem.poisoned
            && 10 in After(FRESH, es).mem.stored && 10 !in After(FRESH, es).mem.poisoned
  {
    hide IsRun, After;
    EmptyRun(FRESH);
    var s1 := StepRun([], Create(10));
    assert [] + [Create(10)] == [Create(10)];
    var s2 := StepRun([Create(10)], Success(30, 20));
    assert [Create(10)] + [Success(30, 20)] == [Create(10), Success(30, 20)];
    var s3 := StepRun([Create(10), Success(30, 20)], Abort(30));
    assert [Create(10), Success(30, 20)] + [Abort(30)] == [Create(10), Success(30, 20), Abort(30)];
    var s4 := StepRun([Create(10), Success(30, 20), Abort(30)], Abort(30));
    assert [Create(10), Success(30, 20), Abort(30)] + [Abort(30)] ==
           [Create(10), Success(30, 20), Abort(30), Abort(30)];
    var s5 := StepRun([Create(10), Success(30, 20), Abort(30), Abort(30)], Abort(30));
    assert [Create(10), Success(30, 20), Abort(30), Abort(30)] + [Abort(30)] ==
           [Create(10), Success(30, 20), Abort(30), Abort(30), Abort(30)];
  }

  lemma EmptyRun(s: NodeState)
    ensures IsRun(s, []) && After(s, []) == s
  {
  }

  lemma StepRun(es: seq<Event>, e: Event) returns (t: NodeState)
    requires IsRun(FRESH, es) && Enabled(After(FRESH, es), e)
    ensures IsRun(FRESH, es + [e]) && t == After(FRESH, es + [e]) == Step(After(FRESH, es), e)
  {
    assert (es + [e])[..|es|] == es;
    t := After(FRESH, es + [e]);
  }

  ghost function Rollbacks(s: NodeState, es: seq<Event>): nat
    requires IsRun(s, es)
    decreases |es|
  {
    if es == [] then 0
    else
      var front := es[..|es| - 1];
      Rollbacks(s, front) + (if After(s, es).mem.active != After(s, front).mem.active then 1 else 0)
  }

  function StoredBelow(s: NodeState): set<Version> {
    if s.mem.active.None? then {} else set v | v in s.mem.stored && v < s.mem.active.value
  }

  /** Between two successes, the active version is rolled back at most once per stored version below it. */
  lemma {:induction false} RollbacksAreBounded(s: NodeState, es: seq<Event>)
    requires Consistent(s) && s.mem.active.Some? && IsRun(s, es)
    requires forall i :: 0 <= i < |es| ==> !es[i].Success?
    ensures After(s, es).mem.active.Some? && After(s, es).mem.stored == s.mem.stored
    ensures Rollbacks(s, es) + |StoredBelow(After(s, es))| <= |StoredBelow(s)|
    decreases |es|
  {
    if es != [] {
      var front, e := es[..|es| - 1], es[|es| - 1];
      RollbacksAreBounded(s, front);
      RunConsistent(s, front);
      RollbackStep(After(s, front), e);
    }
  }

  lemma RollbackStep(s: NodeState, e: Event)
    requires Consistent(s) && s.mem.active.Some? && Enabled(s, e) && !e.Success?
    ensures Step(s, e).mem.active.Some? && Step(s, e).mem.stored == s.mem.stored
    ensures |StoredBelow(Step(s, e))| + (if Step(s, e).mem.active != s.mem.active then 1 else 0) <= |StoredBelow(s)|
  {
    var t := Step(s, e);
    if Demotes(s, e) {
      DemotionMovesDownOrStays(s, e);
      if t.mem.active != s.mem.active {
        ProperSubsetSmaller(StoredBelow(t), StoredBelow(s), t.mem.active.value);
      } else {
        assert StoredBelow(t) == StoredBelow(s);
      }
    } else {
      OnlyDemotionPoisons(s, e);
      assert StoredBelow(t) == StoredBelow(s);
    }
  }

  lemma ProperSubsetSmaller(a: set<Version>, b: set<Version>, x: Version)
    requires a <= b && x in b && x !in a
    ensures |a| < |b|
  {
    var c := b - {x};
    assert a <= c && |c| == |b| - 1;
    SubsetNotLarger(a, c);
  }

  // What a run remembers ------------------------------------------------------------------------

  /** The source version agreed on in the last successful round. */
  function LastAgreed(start: Version, es: seq<Event>): Version {
    if es == [] then start
    else
      var e := es[|es| - 1];
      if e.Success? && e.source > 0 then e.source else LastAgreed(start, es[..|es| - 1])
  }

  /** The last known good version is that of the last successful round, through aborts, rollbacks, boundary writes
      and restarts. */
  lemma {:induction false} LastKnownGoodIsLastAgreed(s: NodeState, es: seq<Event>)
    requires IsRun(s, es)
    ensures LastKnownGood(After(s, es).disk) == LastAgreed(LastKnownGood(s.disk), es)
    decreases |es|
  {
    hide Enabled;
    if es != [] {
      LastKnownGoodIsLastAgreed(s, es[..|es| - 1]);
      LastKnownGoodStep(After(s, es[..|es| - 1]), es[|es| - 1]);
    }
  }

  lemma LastKnownGoodStep(s: NodeState, e: Event)
    requires Enabled(s, e)
    ensures LastKnownGood(Step(s, e).disk) == if e.Success? && e.source > 0 then e.source else LastKnownGood(s.disk)
  {
  }

  /** The aborts that count: those whose agreed version was the active one, since the last success, creation or
      change of the active version. */
  ghost function CountedSince(s: NodeState, es: seq<Event>): nat
    requires IsRun(s, es)
    decreases |es|
  {
    if es == [] then Count(s.mem.tracker, s.mem.active)
    else
      var front, e := es[..|es| - 1], es[|es| - 1];
      var before := After(s, front).mem.active;
      if e.Success? || e.Create? || After(s, es).mem.active != before then 0
      else CountedSince(s, front) + (if e.Abort? && before == Some(e.majority) then 1 else 0)
  }

  lemma {:induction false} CountIsCountedSince(s: NodeState, es: seq<Event>)
    requires Consistent(s) && IsRun(s, es)
    ensures CountAfter(s, es) == CountedSince(s, es)
    decreases |es|
  {
    hide Consistent, Step, Enabled, Count;
    if es != [] {
      var front := es[..|es| - 1];
      CountIsCountedSince(s, front);
      RunConsistent(s, front);
      ExactCountStep(After(s, front), es[|es| - 1]);
    }
  }

  lemma ExactCountStep(s: NodeState, e: Event)
    requires Consistent(s) && Enabled(s, e)
    ensures var t := Step(s, e);
            Count(t.mem.tracker, t.mem.active) ==
            if e.Success? || e.Create? || t.mem.active != s.mem.active then 0
            else Count(s.mem.tracker, s.mem.active) + (if e.Abort? && s.mem.active == Some(e.majority) then 1 else 0)
  {
    if e.Abort? && Demotes(s, e) {
      DemotionMovesDownOrStays(s, e);
    }
  }

  /** An abort demotes exactly if the cluster agreed on the active version and it is at least the third that counts. */
  lemma DemotesIff(s: NodeState, es: seq<Event>, e: Event)
    requires Consistent(s) && IsRun(s, es) && Enabled(After(s, es), e)
    ensures Demotes(After(s, es), e) <==>
            e.Abort? && After(s, es).mem.active == Some(e.majority) && CountedSince(s, es) + 1 >= 3
  {
    hide Consistent, Step;
    CountIsCountedSince(s, es);
  }
}
