/**
 * Resurrecting a component from a component storage: the trigger runs on the
 * locality that manages the object's address, marks the GID in AGAS, fetches
 * the object's bytes from the storage, recreates and pins the object, moves
 * it to its target locality, marks the old instance as migrated, and finally
 * un-marks the GID.
 *
 * The futures and continuations are flattened into one sequential run.  The
 * remote collaborators (begin_migration, the storage's fetch action,
 * migrate_component) and the deserializer are abstract results supplied in a
 * `Scenario`; the side effects the pipeline performs are recorded, in order,
 * in the `trace` of a `Runtime`, which also holds the AGAS migration marks.
 */
module MigrateFromStorage {
  import opened Wrappers
  import opened NamingGid

  /** An exception surfaced by the pipeline. */
  datatype Exception =
    | InvalidStatus(message: string)
      /** An exception raised by a collaborator; its contents are not modelled. */
    | Raised(what: string)

  const NotSupportedMessage: string :=
    "attempting to migrate an instance of a component which does not support migration"
  const WrongLocalityMessage: string :=
    "this function has to be executed on the locality responsible for managing the address of the given object"

  /** naming::address: the locality the object lived on and its local address there. */
  datatype Address = Address(locality: Gid, localAddress: nat)

  /** One side effect of the pipeline. */
  datatype Step =
    | BeginMigration(id: Gid)
    | FetchFrom(storage: Gid, id: Gid)
    | Deserialize
    | Pin
    | MigrateComponent(target: Gid, id: Gid)
    | MarkAsMigrated
    | EndMigration(id: Gid)

  /** What the collaborators answer during one run. */
  datatype Scenario = Scenario(
    /** component_supports_migration<Component>::call(). */
    supportsMigration: bool,
    /** get_locality_id() of the locality running the trigger. */
    here: Word32,
    /** agas::begin_migration(...).get(): the storage locality and the object's last address. */
    begin: Result<(Gid, Address), Exception>,
    /** The storage's migrate_from_here action: the object's bytes. */
    fetch: Result<seq<char>, Exception>,
    /** `archive >> ptr` on the fetched bytes. */
    decode: seq<char> -> Outcome<Exception>,
    /** migrate_component_async(...): the id of the resurrected object. */
    migrate: Result<Gid, Exception>)

  /** The side effects of a (partial) run and the value or exception it surfaces. */
  datatype Trace = Trace(steps: seq<Step>, result: Result<Gid, Exception>)

  /** The target handle equals invalid_id exactly when it is invalid (all invalid handles are equal). */
  predicate IsInvalidTarget(target: Gid) {
    !IsValid(target)
  }

  /** migrate_from_storage_here_id: resurrect on `target`, then mark the old instance, then surface the result. */
  function HereId(target: Gid, id: Gid, migrate: Result<Gid, Exception>): Trace {
    Trace([MigrateComponent(target, id), MarkAsMigrated], migrate)
  }

  /** migrate_from_storage_here_address: resurrect on an unmanaged id for the address's locality. */
  function HereAddress(addr: Address, id: Gid, migrate: Result<Gid, Exception>): Trace {
    HereId(addr.locality, id, migrate)
  }

  /** migrate_from_storage_here: unpack the fetched bytes, recreate and pin the object, pick the target. */
  function Here(sc: Scenario, id: Gid, addr: Address, target: Gid): Trace {
    match sc.fetch
    case Failure(e) => Trace([], Failure(e))
    case Success(data) =>
      match sc.decode(data)
      case Fail(e) => Trace([Deserialize], Failure(e))
      case Pass =>
        var rest := if IsInvalidTarget(target) then HereAddress(addr, id, sc.migrate)
                    else HereId(target, id, sc.migrate);
        Trace([Deserialize, Pin] + rest.steps, rest.result)
  }

  /** trigger_migrate_from_storage_here. */
  function Trigger(sc: Scenario, id: Gid, target: Gid): Trace {
    if !sc.supportsMigration then Trace([], Failure(InvalidStatus(NotSupportedMessage)))
    else if PrefixFromGid(id) != sc.here then Trace([], Failure(InvalidStatus(WrongLocalityMessage)))
    else
      match sc.begin
      case Failure(e) => Trace([BeginMigration(id)], Failure(e))
      case Success(r) =>
        var h := Here(sc, id, r.1, target);
        Trace([BeginMigration(id), FetchFrom(r.0, id)] + h.steps + [EndMigration(id)], h.result)
  }

  /** Whether the run gets past both status checks. */
  predicate ChecksPass(sc: Scenario, id: Gid) {
    sc.supportsMigration && PrefixFromGid(id) == sc.here
  }

  /**
   * Both invalid_status checks come before any call: the migration-support
   * check wins over the locality check, and a failing check performs no step.
   */
  lemma StatusChecksComeFirst(sc: Scenario, id: Gid, target: Gid)
    ensures !sc.supportsMigration ==>
      Trigger(sc, id, target) == Trace([], Failure(InvalidStatus(NotSupportedMessage)))
    ensures sc.supportsMigration && PrefixFromGid(id) != sc.here ==>
      Trigger(sc, id, target) == Trace([], Failure(InvalidStatus(WrongLocalityMessage)))
    ensures Trigger(sc, id, target).steps == [] <==> !ChecksPass(sc, id)
    ensures ChecksPass(sc, id) ==> Trigger(sc, id, target).steps[0] == BeginMigration(id)
  {
  }

  /** The steps of the stage after the fetch never touch AGAS. */
  lemma HereTouchesNoMarks(sc: Scenario, id: Gid, addr: Address, target: Gid)
    ensures forall s :: s in Here(sc, id, addr, target).steps ==> !s.BeginMigration? && !s.EndMigration?
  {
  }

  /** Steps wrapped between begin_migration plus the fetch and end_migration hold each mark call once. */
  lemma WrappedMarksOnce(id: Gid, storage: Gid, inner: seq<Step>)
    requires forall s :: s in inner ==> !s.BeginMigration? && !s.EndMigration?
    ensures var steps := [BeginMigration(id), FetchFrom(storage, id)] + inner + [EndMigration(id)];
      |steps| >= 3 && steps[1] == FetchFrom(storage, id) &&
      steps[|steps| - 1] == EndMigration(id) &&
      multiset(steps)[EndMigration(id)] == 1 &&
      multiset(steps)[BeginMigration(id)] == 1
  {
    var pre := [BeginMigration(id), FetchFrom(storage, id)];
    var steps := pre + inner + [EndMigration(id)];
    assert multiset(steps) == multiset(pre) + multiset(inner) + multiset([EndMigration(id)]);
    assert EndMigration(id) !in inner && BeginMigration(id) !in inner;
  }

  /**
   * begin_migration's answer decides the run's shape: a failed begin surfaces
   * its exception with no end_migration; a successful one is followed by the
   * fetch from the storage it names, and end_migration is called exactly once,
   * as the very last step, whatever the later outcomes.
   */
  lemma EndMigrationExactlyOnce(sc: Scenario, id: Gid, target: Gid)
    requires ChecksPass(sc, id)
    ensures sc.begin.Failure? ==> Trigger(sc, id, target) == Trace([BeginMigration(id)], Failure(sc.begin.error))
    ensures sc.begin.Success? ==>
      var t := Trigger(sc, id, target);
      |t.steps| >= 3 && t.steps[1] == FetchFrom(sc.begin.value.0, id) &&
      t.steps[|t.steps| - 1] == EndMigration(id) &&
      multiset(t.steps)[EndMigration(id)] == 1 &&
      multiset(t.steps)[BeginMigration(id)] == 1
  {
    if sc.begin.Success? {
      var h := Here(sc, id, sc.begin.value.1, target);
      HereTouchesNoMarks(sc, id, sc.begin.value.1, target);
      WrappedMarksOnce(id, sc.begin.value.0, h.steps);
      assert Trigger(sc, id, target).steps ==
        [BeginMigration(id), FetchFrom(sc.begin.value.0, id)] + h.steps + [EndMigration(id)];
    }
  }

  /** The run surfaces the first failure among fetch, deserialization and migrate_component, else the migrated id. */
  lemma ResultIsFirstFailure(sc: Scenario, id: Gid, target: Gid)
    requires ChecksPass(sc, id) && sc.begin.Success?
    ensures sc.fetch.Failure? ==> Trigger(sc, id, target).result == Failure(sc.fetch.error)
    ensures sc.fetch.Success? && sc.decode(sc.fetch.value).Fail? ==>
      Trigger(sc, id, target).result == Failure(sc.decode(sc.fetch.value).error)
    ensures sc.fetch.Success? && sc.decode(sc.fetch.value).Pass? ==>
      Trigger(sc, id, target).result == sc.migrate
  {
  }

  /**
   * The recreated object is pinned before migrate_component is called, and
   * the old instance is marked as migrated right after migrate_component
   * completes, before its result (or exception) is surfaced.
   */
  lemma PinBeforeMigrateThenMark(sc: Scenario, id: Gid, target: Gid)
    ensures var t := Trigger(sc, id, target);
      forall i :: 0 <= i < |t.steps| && t.steps[i].MigrateComponent? ==>
        Pin in t.steps[..i] && i + 1 < |t.steps| && t.steps[i + 1] == MarkAsMigrated
    ensures MarkAsMigrated in Trigger(sc, id, target).steps <==>
      ChecksPass(sc, id) && sc.begin.Success? && sc.fetch.Success? && sc.decode(sc.fetch.value).Pass?
  {
    var t := Trigger(sc, id, target);
    if ChecksPass(sc, id) && sc.begin.Success? && sc.fetch.Success? && sc.decode(sc.fetch.value).Pass? {
      SuccessfulRunSteps(sc, id, target);
      forall i | 0 <= i < |t.steps| && t.steps[i].MigrateComponent?
        ensures Pin in t.steps[..i] && i + 1 < |t.steps| && t.steps[i + 1] == MarkAsMigrated
      {
        assert i == 4;
        assert t.steps[..i][3] == Pin;
      }
    } else {
      FailedRunSteps(sc, id, target);
    }
  }

  /** A run in which every collaborator succeeds performs exactly seven steps. */
  lemma SuccessfulRunSteps(sc: Scenario, id: Gid, target: Gid)
    requires ChecksPass(sc, id) && sc.begin.Success? && sc.fetch.Success? && sc.decode(sc.fetch.value).Pass?
    ensures Trigger(sc, id, target).steps ==
      [BeginMigration(id), FetchFrom(sc.begin.value.0, id), Deserialize, Pin,
       MigrateComponent(if IsInvalidTarget(target) then sc.begin.value.1.locality else target, id),
       MarkAsMigrated, EndMigration(id)]
  {
  }

  /** A run in which some collaborator fails never reaches migrate_component. */
  lemma FailedRunSteps(sc: Scenario, id: Gid, target: Gid)
    requires !(ChecksPass(sc, id) && sc.begin.Success? && sc.fetch.Success? && sc.decode(sc.fetch.value).Pass?)
    ensures forall s :: s in Trigger(sc, id, target).steps ==> !s.MigrateComponent? && s != MarkAsMigrated
  {
  }

  /**
   * A target equal to invalid_id means "where the object lived before the
   * migration" (the locality of begin_migration's address); any other
   * target is used verbatim.
   */
  lemma DefaultTargetIsLastLocality(sc: Scenario, id: Gid, target: Gid)
    ensures forall s :: s in Trigger(sc, id, target).steps && s.MigrateComponent? ==>
      sc.begin.Success? && s.id == id &&
      s.target == (if IsInvalidTarget(target) then sc.begin.value.1.locality else target)
  {
  }

  /** A recreated component instance. */
  class Component {
    var pinCount: nat
    var migrated: bool

    constructor ()
      ensures pinCount == 0 && !migrated
    {
      pinCount := 0;
      migrated := false;
    }

    /** component_pin_support<Component>::pin. */
    method PinComponent()
      modifies this
      ensures pinCount == old(pinCount) + 1 && migrated == old(migrated)
    {
      pinCount := pinCount + 1;
    }

    /** mark_as_migrated. */
    method MarkMigrated()
      modifies this
      ensures migrated && pinCount == old(pinCount)
    {
      migrated := true;
    }
  }

  /** The AGAS migration marks (each GID with multiplicity: how many of its migrations are outstanding) and the trace of side effects. */
  class Runtime {
    var marks: multiset<Gid>
    var trace: seq<Step>

    constructor ()
      ensures marks == multiset{} && trace == []
    {
      marks := multiset{};
      trace := [];
    }

    /** Records a step whose effect lies outside the runtime. */
    method Record(s: Step)
      modifies this
      ensures trace == old(trace) + [s] && marks == old(marks)
    {
      trace := trace + [s];
    }

    /** agas::begin_migration: marks `id` when it answers, and hands its answer on. */
    method Begin(id: Gid, answer: Result<(Gid, Address), Exception>) returns (r: Result<(Gid, Address), Exception>)
      modifies this
      ensures r == answer && trace == old(trace) + [BeginMigration(id)]
      ensures marks == if answer.Success? then old(marks) + multiset{id} else old(marks)
    {
      trace := trace + [BeginMigration(id)];
      if answer.Success? {
        marks := marks + multiset{id};
      }
      r := answer;
    }

    /** agas::end_migration: un-marks `id`. */
    method End(id: Gid)
      modifies this
      ensures trace == old(trace) + [EndMigration(id)]
      ensures marks == old(marks) - multiset{id}
    {
      trace := trace + [EndMigration(id)];
      marks := marks - multiset{id};
    }
  }

  /** migrate_from_storage_here_id. */
  method MigrateFromStorageHereId(rt: Runtime, target: Gid, ptr: Component, id: Gid, migrate: Result<Gid, Exception>)
    returns (r: Result<Gid, Exception>)
    modifies rt, ptr
    ensures rt.trace == old(rt.trace) + HereId(target, id, migrate).steps && rt.marks == old(rt.marks)
    ensures r == HereId(target, id, migrate).result
    ensures ptr.migrated && ptr.pinCount == old(ptr.pinCount)
  {
    rt.Record(MigrateComponent(target, id));
    ptr.MarkMigrated();
    rt.Record(MarkAsMigrated);
    r := migrate;
  }

  /** migrate_from_storage_here_address. */
  method MigrateFromStorageHereAddress(rt: Runtime, addr: Address, ptr: Component, id: Gid, migrate: Result<Gid, Exception>)
    returns (r: Result<Gid, Exception>)
    modifies rt, ptr
    ensures rt.trace == old(rt.trace) + HereAddress(addr, id, migrate).steps && rt.marks == old(rt.marks)
    ensures r == HereAddress(addr, id, migrate).result
    ensures ptr.migrated && ptr.pinCount == old(ptr.pinCount)
  {
    r := MigrateFromStorageHereId(rt, addr.locality, ptr, id, migrate);
  }

  /** migrate_from_storage_here: `ptr` is the recreated object, or null when it was never recreated. */
  method MigrateFromStorageHere(rt: Runtime, sc: Scenario, id: Gid, addr: Address, target: Gid)
    returns (r: Result<Gid, Exception>, ptr: Component?)
    modifies rt
    ensures rt.trace == old(rt.trace) + Here(sc, id, addr, target).steps && rt.marks == old(rt.marks)
    ensures r == Here(sc, id, addr, target).result
    ensures ptr == null <==> sc.fetch.Failure? || sc.decode(sc.fetch.value).Fail?
    ensures ptr != null ==> fresh(ptr) && ptr.pinCount == 1 && ptr.migrated
  {
    ptr := null;
    if sc.fetch.Failure? {
      return Failure(sc.fetch.error), null;
    }
    rt.Record(Deserialize);
    var decoded := sc.decode(sc.fetch.value);
    if decoded.Fail? {
      return Failure(decoded.error), null;
    }
    var p := new Component();
    p.PinComponent();
    rt.Record(Pin);
    if IsInvalidTarget(target) {
      r := MigrateFromStorageHereAddress(rt, addr, p, id, sc.migrate);
    } else {
      r := MigrateFromStorageHereId(rt, target, p, id, sc.migrate);
    }
    ptr := p;
  }

  /** trigger_migrate_from_storage_here: the AGAS marks are as before once the run ends. */
  method TriggerMigrateFromStorageHere(rt: Runtime, sc: Scenario, id: Gid, target: Gid)
    returns (r: Result<Gid, Exception>, ptr: Component?)
    modifies rt
    ensures rt.trace == old(rt.trace) + Trigger(sc, id, target).steps
    ensures r == Trigger(sc, id, target).result
    ensures rt.marks == old(rt.marks)
    ensures ptr != null ==> fresh(ptr) && ptr.pinCount == 1 && ptr.migrated
  {
    ptr := null;
    if !sc.supportsMigration {
      return Failure(InvalidStatus(NotSupportedMessage)), null;
    }
    if PrefixFromGid(id) != sc.here {
      return Failure(InvalidStatus(WrongLocalityMessage)), null;
    }
    var begun := rt.Begin(id, sc.begin);
    if begun.Failure? {
      return Failure(begun.error), null;
    }
    var storage := begun.value.0;
    var addr := begun.value.1;
    rt.Record(FetchFrom(storage, id));
    r, ptr := MigrateFromStorageHere(rt, sc, id, addr, target);
    rt.End(id);
  }
}
