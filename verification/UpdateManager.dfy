/** The two layers of an A/B update: the slot backend and the transaction manager on top of it. */
module UpdateManager {
  import opened Bytes
  import opened ServiceTypes

  datatype Package = Package(
    clusterName: Name,
    version: Name,
    signerId: Name,
    signatureVerified: bool,
    compatiblePlatform: bool,
    requiredFreeBytes: nat,
    dependencies: seq<Name>,
    manifestsPresent: bool,
    sbomPresent: bool,
    provenancePresent: bool)

  datatype Slot = SlotA | SlotB

  datatype Operation = InstallInactive | ActivatePending | Commit | Rollback

  datatype State =
    | Idle
    | Transferred
    | Verified
    | Staged
    | PendingHealthConfirmation
    | Committed
    | RolledBack
    | Rejected
    | Failed

  datatype MachineState = Startup | DrivingReady | UpdateAllowed | Degraded | Shutdown

  datatype Policy = Policy(
    activationState: MachineState,
    maxBootAttempts: U32,
    requireSbom: bool,
    requireProvenance: bool,
    trustedSigners: seq<Name>,
    installedVersions: map<Name, Name>)

  datatype Health = Health(
    executionStarted: bool, platformHealthy: bool, diagnosticsAvailable: bool, dashboardAvailable: bool)

  // ----- the backend -----

  datatype Backend = Backend(
    activeSlot: Slot,
    inactiveSlot: Slot,
    pendingSlot: Option<Slot>,
    installed: Option<Package>,
    active: Option<Package>,
    bootAttempts: U32,
    freeBytes: nat,
    previous: Option<Package>,
    failNext: Option<Operation>)

  function NewBackend(freeBytes: nat, p: Package): Backend {
    Backend(SlotA, SlotB, None, None, Some(p), 0, freeBytes, None, None)
  }

  predicate FailureInjected(b: Backend, op: Operation) {
    b.failNext == Some(op)
  }

  function InstalledInactive(b: Backend, p: Package): (Backend, bool) {
    if FailureInjected(b, InstallInactive) then (b.(failNext := None), false)
    else if p.requiredFreeBytes > b.freeBytes || b.pendingSlot.Some? then (b, false)
    else (b.(installed := Some(p)), true)
  }

  function ActivatedPending(b: Backend, bootAttempts: U32): (Backend, bool) {
    if FailureInjected(b, ActivatePending) then (b.(failNext := None), false)
    else if b.installed.None? || bootAttempts == 0 then (b, false)
    else
      (b.(previous := b.active, activeSlot := b.inactiveSlot, inactiveSlot := b.activeSlot,
          active := b.installed, pendingSlot := Some(b.inactiveSlot), bootAttempts := bootAttempts),
       true)
  }

  function CommittedPending(b: Backend): (Backend, bool) {
    if FailureInjected(b, Commit) then (b.(failNext := None), false)
    else if b.pendingSlot.None? then (b, false)
    else (b.(pendingSlot := None, installed := None, previous := None, bootAttempts := 0), true)
  }

  function RolledBackPending(b: Backend): (Backend, bool) {
    if FailureInjected(b, Rollback) then (b.(failNext := None), false)
    else if b.pendingSlot.None? then (b.(installed := None), true)
    else
      (b.(activeSlot := b.inactiveSlot, inactiveSlot := b.activeSlot, installed := b.active,
          active := b.previous, previous := None, pendingSlot := None, bootAttempts := 0),
       true)
  }

  // ----- what a package must satisfy -----

  /** Lexicographic order of strings. */
  predicate Less(a: Name, b: Name) {
    b != [] && (a == [] || a[0] < b[0] || (a[0] == b[0] && Less(a[1..], b[1..])))
  }

  lemma {:induction false} LessIsTransitive(a: Name, b: Name, c: Name)
    requires Less(a, b) && Less(b, c)
    ensures Less(a, c)
    decreases |a|
  {
    if a != [] && a[0] == b[0] == c[0] {
      LessIsTransitive(a[1..], b[1..], c[1..]);
    }
  }

  lemma {:induction false} LessIsStrict(a: Name, b: Name)
    requires Less(a, b)
    ensures !Less(b, a) && a != b
    decreases |a|
  {
    if a != [] && a[0] == b[0] {
      LessIsStrict(a[1..], b[1..]);
    }
  }

  /** The texts agree up to position `n`, where the first ends or has the smaller octet. */
  predicate DiffersAt(a: Name, b: Name, n: nat) {
    n <= |a| && n < |b| && (forall i :: 0 <= i < n ==> a[i] == b[i]) && (n == |a| || a[n] < b[n])
  }

  lemma {:induction false} LessIfDiffers(a: Name, b: Name, n: nat)
    requires DiffersAt(a, b, n)
    ensures Less(a, b)
    decreases n
  {
    if n > 0 {
      assert a[0] == b[0] && DiffersAt(a[1..], b[1..], n - 1);
      LessIfDiffers(a[1..], b[1..], n - 1);
    }
  }

  lemma {:induction false} DiffersIfLess(a: Name, b: Name)
    requires Less(a, b)
    ensures exists n: nat :: DiffersAt(a, b, n)
    decreases |a|
  {
    if a == [] || a[0] < b[0] {
      assert DiffersAt(a, b, 0);
    } else {
      DiffersIfLess(a[1..], b[1..]);
      var n: nat :| DiffersAt(a[1..], b[1..], n);
      assert forall i :: 0 < i < n + 1 ==> a[i] == a[1..][i - 1] && b[i] == b[1..][i - 1];
      assert DiffersAt(a, b, n + 1);
    }
  }

  lemma LessIsLexicographic(a: Name, b: Name)
    ensures Less(a, b) <==> exists n: nat :: DiffersAt(a, b, n)
  {
    hide Less, DiffersAt;
    if n: nat :| DiffersAt(a, b, n) {
      LessIfDiffers(a, b, n);
    }
    if Less(a, b) {
      DiffersIfLess(a, b);
    }
  }

  predicate IsUpgrade(installed: map<Name, Name>, p: Package) {
    p.clusterName in installed ==> Less(installed[p.clusterName], p.version)
  }

  predicate ValidPackage(policy: Policy, b: Backend, p: Package) {
    && p.signatureVerified && p.signerId in policy.trustedSigners
    && p.compatiblePlatform && p.manifestsPresent
    && (policy.requireSbom ==> p.sbomPresent)
    && (policy.requireProvenance ==> p.provenancePresent)
    && (forall i :: 0 <= i < |p.dependencies| ==> p.dependencies[i] in policy.installedVersions)
    && IsUpgrade(policy.installedVersions, p)
    && p.requiredFreeBytes <= b.freeBytes
  }

  predicate Confirmed(h: Health) {
    h.executionStarted && h.platformHealthy && h.diagnosticsAvailable && h.dashboardAvailable
  }

  // ----- the manager -----

  datatype AuditEvent = AuditEvent(state: State, operation: Option<Operation>)

  datatype Manager = Manager(
    policy: Policy, state: State, pending: Option<Package>, audit: seq<AuditEvent>, backend: Backend)

  function NewManager(policy: Policy, b: Backend): Manager {
    Manager(policy, Idle, None, [AuditEvent(Idle, None)], b)
  }

  function Audited(m: Manager, state: State, operation: Option<Operation>): Manager {
    m.(state := state, audit := m.audit + [AuditEvent(state, operation)])
  }

  function PackageTransferred(m: Manager, p: Package): (Manager, bool) {
    if m.state != Idle && m.state != Committed && m.state != RolledBack && m.state != Rejected then (m, false)
    else if p.clusterName == [] || p.version == [] then (Audited(m, Rejected, None), false)
    else (Audited(m.(pending := Some(p)), Transferred, None), true)
  }

  function PackageVerified(m: Manager): (Manager, bool) {
    if m.state != Transferred || m.pending.None? then (m, false)
    else if !ValidPackage(m.policy, m.backend, m.pending.value) then (Audited(m, Rejected, None), false)
    else (Audited(m, Verified, None), true)
  }

  function PackageStaged(m: Manager): (Manager, bool) {
    if m.state != Verified || m.pending.None? then (m, false)
    else
      var (b, ok) := InstalledInactive(m.backend, m.pending.value);
      (Audited(m.(backend := b), if ok then Staged else Failed, Some(InstallInactive)), ok)
  }

  function Activated(m: Manager, machine: MachineState): (Manager, bool) {
    if m.state != Staged then (m, false)
    else if machine != m.policy.activationState then (Audited(m, Rejected, None), false)
    else
      var (b, ok) := ActivatedPending(m.backend, m.policy.maxBootAttempts);
      (Audited(m.(backend := b), if ok then PendingHealthConfirmation else Failed, Some(ActivatePending)), ok)
  }

  function HealthConfirmed(m: Manager, h: Health): (Manager, bool) {
    if m.state != PendingHealthConfirmation then (m, false)
    else if Confirmed(h) then
      var (b, ok) := CommittedPending(m.backend);
      if !ok then (Audited(m.(backend := b), Failed, Some(Commit)), false)
      else
        var versions := m.policy.installedVersions;
        var policy := if m.pending.None? then m.policy
          else m.policy.(installedVersions := versions[m.pending.value.clusterName := m.pending.value.version]);
        (Audited(m.(backend := b, policy := policy), Committed, Some(Commit)), true)
    else
      var (b, ok) := RolledBackPending(m.backend);
      (Audited(m.(backend := b), if ok then RolledBack else Failed, Some(Rollback)), ok)
  }

  function Aborted(m: Manager, reason: Name): (Manager, bool) {
    if reason == [] then (m, false)
    else
      var (b, ok) := RolledBackPending(m.backend);
      (Audited(m.(backend := b), if ok then RolledBack else Failed, Some(Rollback)), ok)
  }

  // ----- the two objects -----

  class RaucBackend {
    var status: Backend

    constructor (freeBytes: nat, p: Package)
      ensures status == NewBackend(freeBytes, p)
    {
      status := NewBackend(freeBytes, p);
    }

    method FailNext(op: Operation)
      modifies this
      ensures status == old(status).(failNext := Some(op))
    {
      status := status.(failNext := Some(op));
    }

    method ConsumeFailure(op: Operation) returns (ok: bool)
      modifies this
      ensures ok == !FailureInjected(old(status), op)
      ensures status == if ok then old(status) else old(status).(failNext := None)
    {
      if status.failNext != Some(op) {
        return true;
      }
      status := status.(failNext := None);
      return false;
    }

    method Install(p: Package) returns (ok: bool)
      modifies this
      ensures (status, ok) == InstalledInactive(old(status), p)
    {
      ok := ConsumeFailure(InstallInactive);
      if !ok {
        return;
      }
      if p.requiredFreeBytes > status.freeBytes || status.pendingSlot.Some? {
        return false;
      }
      status := status.(installed := Some(p));
    }

    method Activate(bootAttempts: U32) returns (ok: bool)
      modifies this
      ensures (status, ok) == ActivatedPending(old(status), bootAttempts)
    {
      ok := ConsumeFailure(ActivatePending);
      if !ok {
        return;
      }
      if status.installed.None? || bootAttempts == 0 {
        return false;
      }
      status := status.(previous := status.active);
      status := status.(activeSlot := status.inactiveSlot, inactiveSlot := status.activeSlot);
      status := status.(active := status.installed);
      status := status.(pendingSlot := Some(status.activeSlot));
      status := status.(bootAttempts := bootAttempts);
    }

    method CommitSlot() returns (ok: bool)
      modifies this
      ensures (status, ok) == CommittedPending(old(status))
    {
      ok := ConsumeFailure(Commit);
      if !ok {
        return;
      }
      if status.pendingSlot.None? {
        return false;
      }
      status := status.(pendingSlot := None);
      status := status.(installed := None, previous := None, bootAttempts := 0);
    }

    method RollbackSlot() returns (ok: bool)
      modifies this
      ensures (status, ok) == RolledBackPending(old(status))
    {
      ok := ConsumeFailure(Rollback);
      if !ok {
        return;
      }
      if status.pendingSlot.None? {
        status := status.(installed := None);
        return;
      }
      var failed := status.active;
      status := status.(activeSlot := status.inactiveSlot, inactiveSlot := status.activeSlot);
      status := status.(installed := failed);
      status := status.(active := status.previous);
      status := status.(previous := None, pendingSlot := None, bootAttempts := 0);
    }
  }

  class UpdateTransaction {
    const backend: RaucBackend
    var policy: Policy
    var state: State
    var pending: Option<Package>
    var audit: seq<AuditEvent>

    constructor (b: RaucBackend, p: Policy)
      ensures backend == b && Value() == NewManager(p, b.status)
    {
      backend, policy, state, pending, audit := b, p, Idle, None, [AuditEvent(Idle, None)];
    }

    ghost function Value(): Manager
      reads this, backend
    {
      Manager(policy, state, pending, audit, backend.status)
    }

    method Audit(s: State, operation: Option<Operation>)
      modifies this`audit, this`state
      ensures state == s && audit == old(audit) + [AuditEvent(s, operation)]
    {
      state := s;
      audit := audit + [AuditEvent(s, operation)];
    }

    method TransferPackage(p: Package) returns (ok: bool)
      modifies this
      ensures (Value(), ok) == PackageTransferred(old(Value()), p)
    {
      if state != Idle && state != Committed && state != RolledBack && state != Rejected {
        return false;
      }
      if p.clusterName == [] || p.version == [] {
        Audit(Rejected, None);
        return false;
      }
      pending := Some(p);
      Audit(Transferred, None);
      return true;
    }

    method VerifyPackage() returns (ok: bool)
      modifies this
      ensures (Value(), ok) == PackageVerified(old(Value()))
    {
      if state != Transferred || pending.None? {
        return false;
      }
      if !ValidPackage(policy, backend.status, pending.value) {
        Audit(Rejected, None);
        return false;
      }
      Audit(Verified, None);
      return true;
    }

    method StagePackage() returns (ok: bool)
      modifies this, backend
      ensures (Value(), ok) == PackageStaged(old(Value()))
    {
      if state != Verified || pending.None? {
        return false;
      }
      ok := backend.Install(pending.value);
      Audit(if ok then Staged else Failed, Some(InstallInactive));
    }

    method Activate(machine: MachineState) returns (ok: bool)
      modifies this, backend
      ensures (Value(), ok) == Activated(old(Value()), machine)
    {
      if state != Staged {
        return false;
      }
      if machine != policy.activationState {
        Audit(Rejected, None);
        return false;
      }
      ok := backend.Activate(policy.maxBootAttempts);
      Audit(if ok then PendingHealthConfirmation else Failed, Some(ActivatePending));
    }

    method ConfirmHealth(h: Health) returns (ok: bool)
      modifies this, backend
      ensures (Value(), ok) == HealthConfirmed(old(Value()), h)
    {
      if state != PendingHealthConfirmation {
        return false;
      }
      if Confirmed(h) {
        ok := backend.CommitSlot();
        if !ok {
          Audit(Failed, Some(Commit));
          return;
        }
        if pending.Some? {
          var versions := policy.installedVersions;
          policy := policy.(installedVersions := versions[pending.value.clusterName := pending.value.version]);
        }
        Audit(Committed, Some(Commit));
        return;
      }
      ok := backend.RollbackSlot();
      Audit(if ok then RolledBack else Failed, Some(Rollback));
    }

    method AbortAndRollback(reason: Name) returns (ok: bool)
      modifies this, backend
      ensures (Value(), ok) == Aborted(old(Value()), reason)
    {
      if reason == [] {
        return false;
      }
      ok := backend.RollbackSlot();
      Audit(if ok then RolledBack else Failed, Some(Rollback));
    }
  }
}
