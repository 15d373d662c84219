/**
 * deinstall_package_plan: whether a package can be removed, and which
 * records stand in the way: those wanted installed on the same triplet,
 * the package's own included, that name it as a dependency. A read-only
 * scan of the database.
 */
module Plan {
  import opened Wrappers
  import opened Records
  import opened StatusDb

  datatype DeinstallPlan = NotInstalledPlan | DependenciesNotSatisfied | ShouldDeinstall

  /**
   * A record that blocks removing `spec`: it is wanted installed, built for
   * the same triplet, and names the package among its dependencies. The
   * package's own record counts when it names itself.
   */
  predicate DependsOn(p: StatusParagraph, spec: PackageSpec) {
    p.want == Install && p.package.spec.triplet == spec.triplet && spec.name in p.package.depends
  }

  /** The blocking records, in database order. */
  function Dependents(db: Database, spec: PackageSpec): (r: seq<StatusParagraph>)
    ensures |r| <= |db|
    ensures forall p :: p in r <==> p in db && DependsOn(p, spec)
    decreases |db|
  {
    if db == [] then []
    else
      var prev := Dependents(db[..|db| - 1], spec);
      var p := db[|db| - 1];
      assert db == db[..|db| - 1] + [p];
      prev + (if DependsOn(p, spec) then [p] else [])
  }

  /** The scan composes: the blockers of a longer database extend those of its prefix, in order. */
  lemma {:induction false} DependentsAppend(a: Database, b: Database, spec: PackageSpec)
    ensures Dependents(a + b, spec) == Dependents(a, spec) + Dependents(b, spec)
    decreases |b|
  {
    if b == [] {
      assert a + b == a;
    } else {
      assert (a + b)[..|a + b| - 1] == a + b[..|b| - 1];
      DependentsAppend(a, b[..|b| - 1], spec);
    }
  }

  /**
   * deinstall_package_plan, for the record at position `at` (None: the
   * package is not in the database). The returned list starts empty and is
   * filled only when the package is installed in some state.
   */
  function DeinstallPackagePlan(db: Database, at: Option<nat>): (r: (DeinstallPlan, seq<StatusParagraph>))
    requires at.Some? ==> at.value < |db|
    ensures r.0 == NotInstalledPlan <==> at.None? || db[at.value].state == NotInstalled
    ensures r.0 == NotInstalledPlan ==> r.1 == []
    ensures r.0 != NotInstalledPlan ==> r.1 == Dependents(db, db[at.value].package.spec)
    ensures r.0 == DependenciesNotSatisfied <==> r.0 != NotInstalledPlan && r.1 != []
    ensures r.0 == ShouldDeinstall <==> r.0 != NotInstalledPlan && r.1 == []
  {
    if at.None? || db[at.value].state == NotInstalled then (NotInstalledPlan, [])
    else
      var deps := Dependents(db, db[at.value].package.spec);
      if deps != [] then (DependenciesNotSatisfied, deps) else (ShouldDeinstall, deps)
  }

  /**
   * An installed package that names itself among its dependencies can never
   * be removed: its own record blocks it.
   */
  lemma SelfDependencyBlocks(db: Database, i: nat)
    requires i < |db| && db[i].state != NotInstalled && db[i].want == Install
    requires db[i].package.spec.name in db[i].package.depends
    ensures DeinstallPackagePlan(db, Some(i)).0 == DependenciesNotSatisfied
  {
    assert db[i] in db;
  }

  /** Removal is allowed exactly when no record depends on the package. */
  lemma PlanAllowsRemoval(db: Database, i: nat)
    requires i < |db| && db[i].state != NotInstalled
    ensures DeinstallPackagePlan(db, Some(i)).0 == ShouldDeinstall <==>
      forall j :: 0 <= j < |db| ==> !DependsOn(db[j], db[i].package.spec)
  {
    var spec := db[i].package.spec;
    if exists j :: 0 <= j < |db| && DependsOn(db[j], spec) {
      var j :| 0 <= j < |db| && DependsOn(db[j], spec);
      assert db[j] in Dependents(db, spec);
    } else {
      NoDependents(db, spec);
    }
  }

  /** With no record depending on the package, the scan finds nothing. */
  lemma {:induction false} NoDependents(db: Database, spec: PackageSpec)
    requires forall j :: 0 <= j < |db| ==> !DependsOn(db[j], spec)
    ensures Dependents(db, spec) == []
    decreases |db|
  {
    if db != [] {
      var init := db[..|db| - 1];
      assert forall j :: 0 <= j < |init| ==> init[j] == db[j];
      NoDependents(init, spec);
    }
  }
}
