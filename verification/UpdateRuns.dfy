/** What holds of slots, packages and versions over every run of the update manager, whatever the backend fails. */
module UpdateRuns {
  import opened Bytes
  import opened ServiceTypes
  import opened UpdateManager

  datatype Action =
    | Transfer(package: Package)
    | Verify
    | Stage
    | Activate(machine: MachineState)
    | Confirm(health: Health)
    | Abort(reason: Name)
    | InjectFailure(operation: Operation)

  /** The manager, the package last committed (at first the initial one) and all packages that passed verification. */
  datatype Run = Run(manager: Manager, committed: Package, verified: set<Package>)

  function Start(policy: Policy, freeBytes: nat, initial: Package): Run {
    Run(NewManager(policy, NewBackend(freeBytes, initial)), initial, {})
  }

  function Step(r: Run, a: Action): Run {
    var m := r.manager;
    match a
    case Transfer(p) => r.(manager := PackageTransferred(m, p).0)
    case Verify =>
      var (m', ok) := PackageVerified(m);
      Run(m', r.committed, if ok then r.verified + {m.pending.value} else r.verified)
    case Stage => r.(manager := PackageStaged(m).0)
    case Activate(machine) => r.(manager := Activated(m, machine).0)
    case Confirm(h) =>
      var (m', ok) := HealthConfirmed(m, h);
      var committed :=
        if m'.state == Committed && ok && m.backend.active.Some? then m.backend.active.value else r.committed;
      Run(m', committed, r.verified)
    case Abort(reason) => r.(manager := Aborted(m, reason).0)
    case InjectFailure(op) => r.(manager := m.(backend := m.backend.(failNext := Some(op))))
  }

  /** What the policy demands of any package, whatever is installed. */
  predicate Trustworthy(policy: Policy, p: Package) {
    && p.signatureVerified && p.signerId in policy.trustedSigners
    && p.compatiblePlatform && p.manifestsPresent
    && (policy.requireSbom ==> p.sbomPresent)
    && (policy.requireProvenance ==> p.provenancePresent)
  }

  ghost predicate VerifiedAreTrustworthy(r: Run) {
    forall p <- r.verified :: Trustworthy(r.manager.policy, p)
  }

  /** The package under way has passed verification and is still an upgrade. */
  predicate Approved(r: Run) {
    && r.manager.pending.Some?
    && r.manager.pending.value in r.verified
    && IsUpgrade(r.manager.policy.installedVersions, r.manager.pending.value)
  }

  predicate BackendOk(r: Run) {
    var b := r.manager.backend;
    && b.activeSlot != b.inactiveSlot
    && (if b.pendingSlot.None? then b.active == Some(r.committed) && b.previous == None && b.bootAttempts == 0
        else
          && b.pendingSlot == Some(b.activeSlot)
          && b.previous == Some(r.committed)
          && b.active == b.installed && b.active.Some? && b.active.value in r.verified)
  }

  /**
   Without a pending slot the active package is the last committed one; a pending slot occurs only while
   waiting for confirmation or after a failure; and what is staged or active beyond that has been verified.
   */
  predicate Invariant(r: Run, initial: Package) {
    var m := r.manager;
    && BackendOk(r)
    && (r.committed == initial || r.committed in r.verified)
    && (m.backend.pendingSlot.Some? ==> m.state == PendingHealthConfirmation || m.state == Failed)
    && (m.state == PendingHealthConfirmation ==>
          Approved(r) && m.backend.pendingSlot.Some? && m.backend.active == m.pending)
    && (m.state == Verified ==> Approved(r))
    && (m.state == Staged ==> Approved(r) && m.backend.installed == m.pending)
    && m.audit != [] && m.audit[|m.audit| - 1].state == m.state
  }

  // One lemma an action: which step is taken decides which part of the invariant is at stake.

  lemma TransferKeeps(r: Run, p: Package, initial: Package)
    requires Invariant(r, initial)
    ensures Invariant(Step(r, Transfer(p)), initial)
  {
    hide IsUpgrade;
  }

  lemma VerifyKeeps(r: Run, initial: Package)
    requires Invariant(r, initial)
    ensures Invariant(Step(r, Verify), initial)
  {
    hide IsUpgrade;
  }

  lemma StageKeeps(r: Run, initial: Package)
    requires Invariant(r, initial)
    ensures Invariant(Step(r, Stage), initial)
  {
    hide IsUpgrade, ValidPackage;
  }

  lemma ActivateKeeps(r: Run, machine: MachineState, initial: Package)
    requires Invariant(r, initial)
    ensures Invariant(Step(r, Activate(machine)), initial)
  {
    hide IsUpgrade, ValidPackage;
  }

  lemma CommitKeeps(r: Run, h: Health, initial: Package)
    requires Invariant(r, initial) && Confirmed(h)
    ensures Invariant(Step(r, Confirm(h)), initial)
  {
    hide IsUpgrade, ValidPackage, Confirmed, RolledBackPending;
  }

  lemma RefusalKeeps(r: Run, h: Health, initial: Package)
    requires Invariant(r, initial) && !Confirmed(h)
    ensures Invariant(Step(r, Confirm(h)), initial)
  {
    hide IsUpgrade, ValidPackage, Confirmed, CommittedPending;
  }

  lemma AbortKeeps(r: Run, reason: Name, initial: Package)
    requires Invariant(r, initial)
    ensures Invariant(Step(r, Abort(reason)), initial)
  {
    hide IsUpgrade, ValidPackage;
  }

  lemma StepKeepsInvariant(r: Run, a: Action, initial: Package)
    requires Invariant(r, initial)
    ensures Invariant(Step(r, a), initial)
  {
    match a
    case Transfer(p) => hide Step, Invariant; TransferKeeps(r, p, initial);
    case Verify => hide Step, Invariant; VerifyKeeps(r, initial);
    case Stage => hide Step, Invariant; StageKeeps(r, initial);
    case Activate(machine) => hide Step, Invariant; ActivateKeeps(r, machine, initial);
    case Confirm(h) =>
      hide Step, Invariant;
      if Confirmed(h) {
        CommitKeeps(r, h, initial);
      } else {
        RefusalKeeps(r, h, initial);
      }
    case Abort(reason) => hide Step, Invariant; AbortKeeps(r, reason, initial);
    case InjectFailure(op) =>
  }

  /** A successful rollback of a pending slot restores the package that was active before. */
  lemma RollbackRestores(r: Run, a: Action, initial: Package)
    requires Invariant(r, initial) && r.manager.backend.pendingSlot.Some?
    requires Step(r, a).manager.state == RolledBack
    ensures var b, b' := r.manager.backend, Step(r, a).manager.backend;
      && b'.pendingSlot == None && b'.active == Some(r.committed)
      && b'.activeSlot == b.inactiveSlot && b'.inactiveSlot == b.activeSlot
      && Step(r, a).committed == r.committed
      && Step(r, a).manager.policy.installedVersions == r.manager.policy.installedVersions
  {
    hide Less;
  }

  /** The demands of the policy never change, and verification lets no other package pass. */
  lemma StepKeepsTrust(r: Run, a: Action)
    requires VerifiedAreTrustworthy(r)
    ensures VerifiedAreTrustworthy(Step(r, a))
    ensures Step(r, a).manager.policy == r.manager.policy.(
              installedVersions := Step(r, a).manager.policy.installedVersions)
  {
    hide IsUpgrade, Confirmed, InstalledInactive, ActivatedPending, CommittedPending, RolledBackPending;
  }

  /** So what is active is the initial package, or one that meets the demands. */
  lemma ActiveIsTrustworthy(r: Run, initial: Package)
    requires Invariant(r, initial) && VerifiedAreTrustworthy(r)
    ensures r.manager.backend.active.Some?
    ensures var p := r.manager.backend.active.value;
      p == initial || Trustworthy(r.manager.policy, p)
  {
    hide Trustworthy;
  }

  /** The active package changes only by an activation the machine state permits, or by going back. */
  lemma ActiveChangesOnlyAsAllowed(r: Run, a: Action, initial: Package)
    requires Invariant(r, initial)
    ensures var m, m' := r.manager, Step(r, a).manager;
      var activated := m.backend.pendingSlot.None? && m'.backend.pendingSlot.Some?;
      && (m'.backend.active != m.backend.active ==>
            || activated
            || (m.backend.pendingSlot.Some? && m'.state == RolledBack && m'.backend.active == m.backend.previous))
      && (activated ==>
            && a == Activate(m.policy.activationState) && m.state == Staged && Approved(r)
            && m'.backend.active == m.pending && m'.backend.previous == m.backend.active
            && m'.backend.bootAttempts == m.policy.maxBootAttempts != 0)
      && (m'.state == Committed && m.state != Committed ==>
            a.Confirm? && Confirmed(a.health) && m'.backend.active == m.backend.active)
  {
    hide IsUpgrade, ValidPackage, Confirmed;
  }

  // ----- what each operation must come to -----

  /** The slots swapped back, the package before active again, and the refused one left in the inactive slot. */
  predicate RolledBackTo(r: Run, r': Run) {
    var b, b' := r.manager.backend, r'.manager.backend;
    && b'.active == Some(r.committed) && b'.pendingSlot == None && b'.installed == b.active
    && b'.activeSlot == b.inactiveSlot && b'.inactiveSlot == b.activeSlot && b'.bootAttempts == 0
    && r'.committed == r.committed && r'.manager.policy == r.manager.policy
  }

  /** Slots and packages as they were; only the injected failure is used up. */
  predicate OnlyFailureUsed(r: Run, r': Run) {
    && r'.manager.backend == r.manager.backend.(failNext := None)
    && r'.committed == r.committed && r'.manager.policy == r.manager.policy
  }

  predicate AllHealthy(h: Health) {
    && h.executionStarted == true && h.platformHealthy == true
    && h.diagnosticsAvailable == true && h.dashboardAvailable == true
  }

  /** Failed health rolls back, unless the rollback itself fails; and then nothing but the state has changed. */
  lemma FailedHealthRollsBack(r: Run, h: Health, initial: Package)
    requires Invariant(r, initial) && r.manager.state == PendingHealthConfirmation && !AllHealthy(h)
    ensures var r' := Step(r, Confirm(h));
      if r.manager.backend.failNext == Some(Operation.Rollback)
      then r'.manager.state == Failed && OnlyFailureUsed(r, r')
      else r'.manager.state == RolledBack && RolledBackTo(r, r')
  {
    hide IsUpgrade, ValidPackage, CommittedPending;
  }

  /** Full health commits, unless the commit fails: the package under way stays active and its version is installed. */
  lemma FullHealthCommits(r: Run, h: Health, initial: Package)
    requires Invariant(r, initial) && r.manager.state == PendingHealthConfirmation && AllHealthy(h)
    ensures var r', b := Step(r, Confirm(h)), r.manager.backend;
      var b', p := r'.manager.backend, r.manager.pending.value;
      if b.failNext == Some(Operation.Commit) then r'.manager.state == Failed && OnlyFailureUsed(r, r')
      else
        && r'.manager.state == Committed && r'.committed == p
        && b'.active == Some(p) && b'.activeSlot == b.activeSlot && b'.inactiveSlot == b.inactiveSlot
        && b'.pendingSlot == None && b'.installed == None && b'.previous == None && b'.bootAttempts == 0
        && r'.manager.policy.installedVersions == r.manager.policy.installedVersions[p.clusterName := p.version]
  {
    hide IsUpgrade, ValidPackage, RolledBackPending;
  }

  /** Aborting for a reason rolls a pending slot back, or empties the inactive slot, unless the rollback fails. */
  lemma AbortRollsBack(r: Run, reason: Name, initial: Package)
    requires Invariant(r, initial)
    ensures var r', b := Step(r, Abort(reason)), r.manager.backend;
      if reason == [] then r' == r
      else if b.failNext == Some(Operation.Rollback) then r'.manager.state == Failed && OnlyFailureUsed(r, r')
      else
        && r'.manager.state == RolledBack
        && (b.pendingSlot.Some? ==> RolledBackTo(r, r'))
        && (b.pendingSlot.None? ==>
              r'.manager.backend == b.(installed := None) && r'.committed == r.committed
              && r'.manager.policy == r.manager.policy)
  {
    hide IsUpgrade, ValidPackage, CommittedPending;
  }

  /** Verification passes exactly the packages that meet every demand, have their dependencies installed and fit. */
  lemma VerifiedExactlyIfSound(r: Run)
    requires r.manager.state == Transferred && r.manager.pending.Some?
    ensures var p, m' := r.manager.pending.value, Step(r, Verify).manager;
      var sound :=
        && Trustworthy(r.manager.policy, p)
        && (forall d <- p.dependencies :: d in r.manager.policy.installedVersions)
        && (p.clusterName in r.manager.policy.installedVersions ==>
              Less(r.manager.policy.installedVersions[p.clusterName], p.version))
        && p.requiredFreeBytes <= r.manager.backend.freeBytes;
      && m'.state == (if sound then Verified else Rejected)
      && m'.pending == r.manager.pending && m'.backend == r.manager.backend && m'.policy == r.manager.policy
      && p in (if sound then Step(r, Verify).verified else r.verified + {p})
  {
    hide Less;
    var p := r.manager.pending.value;
    assert forall d <- p.dependencies :: exists i :: 0 <= i < |p.dependencies| && p.dependencies[i] == d;
  }

  /** A complete package is taken when no transaction is under way, and becomes the one under way. */
  lemma TransferTakesPackage(r: Run, p: Package)
    ensures var m, m' := r.manager, Step(r, Transfer(p)).manager;
      var idle := m.state == Idle || m.state == Committed || m.state == RolledBack || m.state == Rejected;
      var complete := p.clusterName != [] && p.version != [];
      && (!idle ==> m' == m)
      && (idle && complete ==> m'.state == Transferred && m'.pending == Some(p))
      && (idle && !complete ==> m'.state == Rejected && m'.pending == m.pending)
      && m'.backend == m.backend && m'.policy == m.policy
  {
  }

  /** A verified package is staged into the inactive slot, unless the installation fails. */
  lemma StageInstalls(r: Run, initial: Package)
    requires Invariant(r, initial) && r.manager.state == Verified
    ensures var m, m' := r.manager, Step(r, Stage).manager;
      var fails := m.backend.failNext == Some(InstallInactive)
        || m.pending.value.requiredFreeBytes > m.backend.freeBytes;
      && m'.state == (if fails then Failed else Staged)
      && m'.backend == (if m.backend.failNext == Some(InstallInactive) then m.backend.(failNext := None)
                        else if fails then m.backend else m.backend.(installed := m.pending))
      && m'.policy == m.policy && m'.pending == m.pending
  {
    hide IsUpgrade, ValidPackage;
  }

  /** A staged package is activated in the required machine state with a boot budget, unless the activation fails. */
  lemma ActivationSwaps(r: Run, machine: MachineState, initial: Package)
    requires Invariant(r, initial) && r.manager.state == Staged
    ensures var m, m' := r.manager, Step(r, Activate(machine)).manager;
      var b, b' := m.backend, m'.backend;
      if machine != m.policy.activationState then m'.state == Rejected && b' == b
      else if b.failNext == Some(ActivatePending) then m'.state == Failed && b' == b.(failNext := None)
      else if m.policy.maxBootAttempts == 0 then m'.state == Failed && b' == b
      else
        && m'.state == PendingHealthConfirmation
        && b'.active == m.pending && b'.previous == b.active && b'.pendingSlot == Some(b.inactiveSlot)
        && b'.activeSlot == b.inactiveSlot && b'.inactiveSlot == b.activeSlot
        && b'.bootAttempts == m.policy.maxBootAttempts
  {
    hide IsUpgrade, ValidPackage;
  }

  /** By itself the backend refuses what has no slot for it; a refusal changes nothing but the injected failure. */
  lemma BackendIsExact(b: Backend, p: Package, bootAttempts: U32)
    ensures var (b', ok) := InstalledInactive(b, p);
      && (ok <==> b.failNext != Some(InstallInactive) && p.requiredFreeBytes <= b.freeBytes && b.pendingSlot == None)
      && (!ok ==> b' == b.(failNext := if b.failNext == Some(InstallInactive) then None else b.failNext))
    ensures var (b', ok) := ActivatedPending(b, bootAttempts);
      && (ok <==> b.failNext != Some(ActivatePending) && b.installed.Some? && bootAttempts > 0)
      && (!ok ==> b' == b.(failNext := if b.failNext == Some(ActivatePending) then None else b.failNext))
    ensures var (b', ok) := CommittedPending(b);
      && (ok <==> b.failNext != Some(Operation.Commit) && b.pendingSlot.Some?)
      && (!ok ==> b' == b.(failNext := if b.failNext == Some(Operation.Commit) then None else b.failNext))
    ensures var (b', ok) := RolledBackPending(b);
      && (ok <==> b.failNext != Some(Operation.Rollback))
      && (!ok ==> b' == b.(failNext := None))
  {
  }

  /** An operation reports success exactly if it reached its state from the state it belongs to. */
  lemma SuccessIsReported(m: Manager, p: Package, machine: MachineState, h: Health, reason: Name)
    ensures PackageTransferred(m, p).1 <==>
      m.state in {Idle, Committed, RolledBack, Rejected} && PackageTransferred(m, p).0.state == Transferred
    ensures PackageVerified(m).1 <==> m.state == Transferred && PackageVerified(m).0.state == Verified
    ensures PackageStaged(m).1 <==> m.state == Verified && PackageStaged(m).0.state == Staged
    ensures Activated(m, machine).1 <==>
      m.state == Staged && Activated(m, machine).0.state == PendingHealthConfirmation
    ensures HealthConfirmed(m, h).1 <==>
      m.state == PendingHealthConfirmation && HealthConfirmed(m, h).0.state in {Committed, RolledBack}
    ensures Aborted(m, reason).1 <==>
      reason != [] && m.backend.failNext != Some(Operation.Rollback)
  {
    hide ValidPackage, Confirmed;
  }

  /** The step adds one event to the audit trail, with the state it led to and its slot operation, if any. */
  predicate Records(m: Manager, m': Manager, operation: Option<Operation>) {
    m' == m || m'.audit == m.audit + [AuditEvent(m'.state, operation)]
  }

  lemma EveryStepIsAudited(m: Manager, p: Package, machine: MachineState, h: Health, reason: Name)
    ensures Records(m, PackageTransferred(m, p).0, None)
    ensures Records(m, PackageVerified(m).0, None)
    ensures Records(m, PackageStaged(m).0, Some(InstallInactive))
    ensures Records(
      m, Activated(m, machine).0, if machine == m.policy.activationState then Some(ActivatePending) else None)
    ensures Records(
      m, HealthConfirmed(m, h).0,
      if AllHealthy(h) then Some(Operation.Commit) else Some(Operation.Rollback))
    ensures Records(m, Aborted(m, reason).0, Some(Operation.Rollback))
    ensures reason != [] ==> Aborted(m, reason).0 != m
  {
    hide ValidPackage;
    assert reason != [] ==> |Aborted(m, reason).0.audit| == |m.audit| + 1;
  }

  /** Out of its state an operation is refused and changes nothing. */
  lemma OutOfTurnIsRefused(r: Run, machine: MachineState, h: Health)
    ensures r.manager.state != Transferred ==> Step(r, Verify).manager == r.manager
    ensures r.manager.state != Verified ==> Step(r, Stage).manager == r.manager
    ensures r.manager.state != Staged ==> Step(r, Activate(machine)).manager == r.manager
    ensures r.manager.state != PendingHealthConfirmation ==> Step(r, Confirm(h)).manager == r.manager
  {
    hide IsUpgrade, ValidPackage, Confirmed;
  }

  // ----- versions -----

  /** Every cluster that was installed still is, with the same or a later version. */
  predicate NoDowngrade(before: map<Name, Name>, after: map<Name, Name>) {
    forall c <- before :: c in after && (after[c] == before[c] || Less(before[c], after[c]))
  }

  /** What a commit installs. */
  ghost predicate Installs(r: Run, p: Package, before: map<Name, Name>, after: map<Name, Name>) {
    && r.manager.backend.active == Some(p) && p in r.verified
    && after == before[p.clusterName := p.version]
    && (p.clusterName in before ==> Less(before[p.clusterName], p.version))
  }

  lemma ConfirmInstalls(r: Run, h: Health, initial: Package)
    requires Invariant(r, initial)
    ensures var before, r' := r.manager.policy.installedVersions, Step(r, Confirm(h));
      var after := r'.manager.policy.installedVersions;
      && (r'.manager.state == Committed && r.manager.state != Committed ==> Installs(r, r'.committed, before, after))
      && (r'.manager.state != Committed || r.manager.state == Committed ==> after == before)
  {
    hide Less, ValidPackage, Confirmed, RolledBackPending;
  }

  lemma OthersInstallNothing(r: Run, a: Action)
    requires !a.Confirm?
    ensures Step(r, a).manager.policy.installedVersions == r.manager.policy.installedVersions
    ensures Step(r, a).manager.state == Committed ==> r.manager.state == Committed
  {
    hide ValidPackage, InstalledInactive, ActivatedPending, RolledBackPending;
  }

  /** A commit raises the version of its cluster, if it had one, and changes no other; nothing else changes any. */
  lemma CommitUpgrades(r: Run, a: Action, initial: Package)
    requires Invariant(r, initial)
    ensures var before, r' := r.manager.policy.installedVersions, Step(r, a);
      var after := r'.manager.policy.installedVersions;
      && NoDowngrade(before, after)
      && (r'.manager.state == Committed && r.manager.state != Committed ==> Installs(r, r'.committed, before, after))
      && (r'.manager.state != Committed || r.manager.state == Committed ==> after == before)
  {
    hide Less, Step, Invariant;
    if a.Confirm? {
      ConfirmInstalls(r, a.health, initial);
    } else {
      OthersInstallNothing(r, a);
    }
  }

  lemma NoDowngradeAlong(a: map<Name, Name>, b: map<Name, Name>, c: map<Name, Name>)
    requires NoDowngrade(a, b) && NoDowngrade(b, c)
    ensures NoDowngrade(a, c)
  {
    hide Less;
    forall k <- a
      ensures k in c && (c[k] == a[k] || Less(a[k], c[k]))
    {
      if Less(a[k], b[k]) && Less(b[k], c[k]) {
        LessIsTransitive(a[k], b[k], c[k]);
      }
    }
  }

  // ----- runs -----

  ghost predicate IsRun(states: seq<Run>, actions: seq<Action>) {
    |states| == |actions| + 1 && forall i :: 0 <= i < |actions| ==> states[i + 1] == Step(states[i], actions[i])
  }

  /** The invariant holds in every state of every run, and no installed version ever goes back. */
  lemma {:induction false} EveryRunIsSound(
    policy: Policy, freeBytes: nat, initial: Package, states: seq<Run>, actions: seq<Action>)
    requires IsRun(states, actions) && states[0] == Start(policy, freeBytes, initial)
    ensures forall i :: 0 <= i < |states| ==> Invariant(states[i], initial) && VerifiedAreTrustworthy(states[i])
    ensures forall i :: 0 <= i < |states| ==>
      NoDowngrade(states[i].manager.policy.installedVersions, states[|actions|].manager.policy.installedVersions)
    decreases |actions|
  {
    hide Step, Invariant, NoDowngrade, VerifiedAreTrustworthy;
    if actions == [] {
      StartIsSound(policy, freeBytes, initial);
    } else {
      var n := |actions| - 1;
      EveryRunIsSound(policy, freeBytes, initial, states[..n + 1], actions[..n]);
      assert states[..n + 1][n] == states[n];
      StepKeepsInvariant(states[n], actions[n], initial);
      StepKeepsTrust(states[n], actions[n]);
      CommitUpgrades(states[n], actions[n], initial);
      SameVersions(states[n + 1].manager.policy.installedVersions);
      forall i | 0 <= i <= n
        ensures NoDowngrade(states[i].manager.policy.installedVersions, states[n + 1].manager.policy.installedVersions)
      {
        assert states[..n + 1][i] == states[i];
        NoDowngradeAlong(
          states[i].manager.policy.installedVersions, states[n].manager.policy.installedVersions,
          states[n + 1].manager.policy.installedVersions);
      }
    }
  }

  lemma SameVersions(versions: map<Name, Name>)
    ensures NoDowngrade(versions, versions)
  {
  }

  lemma StartIsSound(policy: Policy, freeBytes: nat, initial: Package)
    ensures Invariant(Start(policy, freeBytes, initial), initial)
    ensures VerifiedAreTrustworthy(Start(policy, freeBytes, initial))
    ensures NoDowngrade(policy.installedVersions, policy.installedVersions)
  {
  }
}
