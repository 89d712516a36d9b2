/** The order in which instances are started: level by level, names sorted within a level. */
module StartupOrder {
  type Name = string

  /** For each name, the names it still waits for. */
  type Dependencies = map<Name, set<Name>>

  datatype Instance = Instance(name: Name, startupAfter: seq<Name>)

  datatype Outcome =
    | Order(names: seq<Name>)
    | UnknownInstances(name: Name, unknown: seq<Name>)
    | AfterItself(name: Name)
    | Cycle(names: seq<Name>)

  /* ------------------------------------------------------------------ sorting */

  /** Dictionary order on names. */
  predicate Less(a: Name, b: Name) {
    if b == "" then false
    else if a == "" then true
    else a[0] < b[0] || (a[0] == b[0] && Less(a[1..], b[1..]))
  }

  lemma {:induction false} Irreflexive(a: Name)
    ensures !Less(a, a)
  {
    if a != "" { Irreflexive(a[1..]); }
  }

  lemma {:induction false} Trichotomy(a: Name, b: Name)
    ensures Less(a, b) || a == b || Less(b, a)
    ensures !(Less(a, b) && Less(b, a)) && !Less(a, a)
    decreases |a|
  {
    Irreflexive(a);
    if a != "" && b != "" {
      Trichotomy(a[1..], b[1..]);
      if a[0] == b[0] && a[1..] == b[1..] {
        assert a == [a[0]] + a[1..] == b;
      }
    }
  }

  lemma {:induction false} Transitive(a: Name, b: Name, c: Name)
    requires Less(a, b) && Less(b, c)
    ensures Less(a, c)
    decreases |a|
  {
    if a != "" && a[0] == b[0] == c[0] { Transitive(a[1..], b[1..], c[1..]); }
  }

  ghost predicate IsLeast(x: Name, names: set<Name>) {
    x in names && forall y :: y in names ==> y == x || Less(x, y)
  }

  lemma {:induction false} LeastExists(names: set<Name>)
    requires names != {}
    ensures exists x :: IsLeast(x, names)
    decreases |names|
  {
    var z :| z in names;
    var rest := names - {z};
    if rest == {} {
      assert names == {z} + rest;
      assert IsLeast(z, names);
    } else {
      LeastExists(rest);
      var x :| IsLeast(x, rest);
      Trichotomy(x, z);
      if Less(z, x) {
        forall y | y in names ensures y == z || Less(z, y) {
          if y != z && y != x { Transitive(z, x, y); }
        }
        assert IsLeast(z, names);
      } else {
        assert IsLeast(x, names);
      }
    }
  }

  lemma LeastUnique(x: Name, y: Name, names: set<Name>)
    requires IsLeast(x, names) && IsLeast(y, names)
    ensures x == y
  {
    Trichotomy(x, y);
  }

  ghost function Least(names: set<Name>): (x: Name)
    requires names != {}
    ensures IsLeast(x, names)
  {
    LeastExists(names);
    var x :| IsLeast(x, names);
    x
  }

  ghost function Sorted(names: set<Name>): (s: seq<Name>)
    ensures forall x :: x in s <==> x in names
    ensures |s| == |names|
    decreases |names|
  {
    if names == {} then [] else [Least(names)] + Sorted(names - {Least(names)})
  }

  ghost predicate Ascending(s: seq<Name>) {
    forall i, j :: 0 <= i < j < |s| ==> Less(s[i], s[j])
  }

  lemma {:induction false} SortedAscends(names: set<Name>)
    ensures Ascending(Sorted(names))
    decreases |names|
  {
    if names != {} {
      var rest := names - {Least(names)};
      SortedAscends(rest);
      var s := Sorted(names);
      assert s[1..] == Sorted(rest);
      forall i, j | 0 <= i < j < |s| ensures Less(s[i], s[j]) {
        assert s[j] == s[1..][j - 1] && s[j] in rest;
        if i > 0 { assert s[i] == s[1..][i - 1]; }
      }
    }
  }

  lemma SortedStep(s: seq<Name>, x: Name, names: set<Name>)
    requires IsLeast(x, names)
    ensures s + Sorted(names) == (s + [x]) + Sorted(names - {x})
  {
    LeastUnique(x, Least(names), names);
  }

  method SortNames(names: set<Name>) returns (s: seq<Name>)
    ensures s == Sorted(names)
  {
    s := [];
    var rest := names;
    while rest != {}
      invariant rest <= names
      invariant s + Sorted(rest) == Sorted(names)
      decreases |rest|
    {
      var x := FindLeast(rest);
      SortedStep(s, x, rest);
      s := s + [x];
      rest := rest - {x};
    }
  }

  method FindLeast(names: set<Name>) returns (x: Name)
    requires names != {}
    ensures IsLeast(x, names)
  {
    x :| x in names;
    var rest := names - {x};
    while rest != {}
      invariant rest <= names && x in names
      invariant IsLeast(x, names - rest)
      decreases |rest|
    {
      var y :| y in rest;
      Trichotomy(x, y);
      ghost var seen := names - rest;
      if Less(y, x) {
        forall z | z in seen ensures Less(y, z) {
          if z != x { Transitive(y, x, z); }
        }
        x := y;
      }
      rest := rest - {y};
      assert names - rest == seen + {y};
    }
    assert names - rest == names;
  }

  /* ----------------------------------------------------------------- ordering */

  function Ready(deps: Dependencies): set<Name> {
    set n | n in deps && deps[n] == {}
  }

  function Without(deps: Dependencies, ready: set<Name>): Dependencies {
    map n | n in deps && n !in ready :: deps[n] - ready
  }

  lemma WithoutShrinks(deps: Dependencies)
    requires Ready(deps) != {}
    ensures |Without(deps, Ready(deps))| < |deps|
  {
    var n :| n in Ready(deps);
    assert Without(deps, Ready(deps)).Keys <= deps.Keys - {n};
    SubsetSize(Without(deps, Ready(deps)).Keys, deps.Keys - {n});
  }

  lemma {:induction false} SubsetSize(a: set<Name>, b: set<Name>)
    requires a <= b
    ensures |a| <= |b|
    decreases |a|
  {
    if a != {} {
      var x :| x in a;
      SubsetSize(a - {x}, b - {x});
    }
  }

  /** Emit everything that waits for nothing, strike it out, repeat. */
  ghost function Levels(deps: Dependencies): Outcome
    decreases |deps|
  {
    if deps == map[] then Order([])
    else if Ready(deps) == {} then Cycle(Sorted(deps.Keys))
    else
      WithoutShrinks(deps);
      match Levels(Without(deps, Ready(deps)))
      case Order(names) => Order(Sorted(Ready(deps)) + names)
      case other => other
  }

  /** Every name waited for is itself to be started. */
  ghost predicate Closed(deps: Dependencies) {
    forall n :: n in deps ==> deps[n] <= deps.Keys
  }

  ghost predicate Distinct(s: seq<Name>) {
    forall i, j :: 0 <= i < j < |s| ==> s[i] != s[j]
  }

  ghost predicate Before(order: seq<Name>, d: Name, n: Name) {
    forall j :: 0 <= j < |order| && order[j] == n ==> d in order[..j]
  }

  /** Each name appears once, nothing else appears, and every dependency comes first. */
  ghost predicate IsStartupOrder(order: seq<Name>, deps: Dependencies) {
    && Distinct(order)
    && (forall n :: n in order <==> n in deps)
    && forall n, d :: n in deps && d in deps[n] ==> Before(order, d, n)
  }

  /** What is emitted is a startup order. */
  lemma {:induction false} LevelsAreOrdered(deps: Dependencies)
    requires Closed(deps)
    ensures Levels(deps).Order? ==> IsStartupOrder(Levels(deps).names, deps)
    decreases |deps|
  {
    if deps != map[] && Ready(deps) != {} && Levels(deps).Order? {
      WithoutShrinks(deps);
      var ready := Ready(deps);
      var left := Without(deps, ready);
      LevelsAreOrdered(left);
      SortedAscends(ready);
      OneLevel(deps, Sorted(ready), Levels(left).names);
    }
  }

  lemma OneLevel(deps: Dependencies, first: seq<Name>, rest: seq<Name>)
    requires Closed(deps)
    requires Ascending(first) && forall n :: n in first <==> n in Ready(deps)
    requires IsStartupOrder(rest, Without(deps, Ready(deps)))
    ensures IsStartupOrder(first + rest, deps)
  {
    var ready := Ready(deps);
    var left := Without(deps, ready);
    var order := first + rest;
    forall i, j | 0 <= i < j < |order| ensures order[i] != order[j] {
      if j < |first| { Trichotomy(first[i], first[j]); }
      else if i < |first| { assert order[i] in ready && order[j] in rest; }
      else { assert rest[i - |first|] != rest[j - |first|]; }
    }
    assert forall k :: 0 <= k < |first| ==> order[k] == first[k] && first[k] in ready;
    forall n, d | n in deps && d in deps[n] ensures Before(order, d, n) {
      forall j | 0 <= j < |order| && order[j] == n ensures d in order[..j] {
        assert n !in ready;
        assert j >= |first|;
        if d in ready {
          var i :| 0 <= i < |first| && first[i] == d;
          assert order[..j][i] == d;
        } else {
          assert Before(rest, d, n);
          assert rest[j - |first|] == n;
          assert d in rest[..j - |first|];
          var i :| 0 <= i < j - |first| && rest[i] == d;
          assert order[..j][|first| + i] == d;
        }
      }
    }
  }

  /* ------------------------------------------------------------------- cycles */

  /** A walk along the waits-for relation. */
  ghost predicate IsWalk(walk: seq<Name>, deps: Dependencies) {
    forall k :: 0 <= k < |walk| - 1 ==> walk[k] in deps && walk[k + 1] in deps[walk[k]]
  }

  ghost predicate IsCycle(walk: seq<Name>, deps: Dependencies) {
    |walk| >= 2 && walk[0] == walk[|walk| - 1] && IsWalk(walk, deps)
  }

  /** No name on a cycle is ever emitted: a cycle survives every round. */
  lemma {:induction false} CycleSurvives(deps: Dependencies, walk: seq<Name>)
    requires IsCycle(walk, deps)
    ensures Levels(deps).Cycle?
    decreases |deps|
  {
    assert walk[0] in deps;
    if Ready(deps) != {} {
      var ready := Ready(deps);
      WithoutShrinks(deps);
      forall k | 0 <= k < |walk| ensures walk[k] !in ready {
        if k < |walk| - 1 { assert walk[k + 1] in deps[walk[k]]; }
        else { assert walk[0 + 1] in deps[walk[0]]; }
      }
      CycleSurvives(Without(deps, ready), walk);
    }
  }

  lemma {:induction false} LongWalk(deps: Dependencies, n: nat) returns (walk: seq<Name>)
    requires deps != map[] && Ready(deps) == {} && Closed(deps)
    ensures |walk| == n + 1 && IsWalk(walk, deps)
    ensures forall x :: x in walk ==> x in deps
  {
    if n == 0 {
      var x :| x in deps;
      walk := [x];
    } else {
      var shorter := LongWalk(deps, n - 1);
      var last := shorter[|shorter| - 1];
      assert last in deps && last !in Ready(deps);
      var x :| x in deps[last];
      walk := shorter + [x];
    }
  }

  lemma {:induction false} Repeats(s: seq<Name>, names: set<Name>) returns (i: nat, j: nat)
    requires |s| > |names| && forall x :: x in s ==> x in names
    ensures i < j < |s| && s[i] == s[j]
    decreases |s|
  {
    var last := s[|s| - 1];
    var front := s[..|s| - 1];
    if last in front {
      i :| 0 <= i < |front| && front[i] == last;
      j := |s| - 1;
    } else {
      assert forall x :: x in front ==> x in names - {last};
      i, j := Repeats(front, names - {last});
    }
  }

  /** When nothing is ready the walk never ends, so it comes back to where it was. */
  lemma StuckHasCycle(deps: Dependencies) returns (walk: seq<Name>)
    requires deps != map[] && Ready(deps) == {} && Closed(deps)
    ensures IsCycle(walk, deps)
  {
    var long := LongWalk(deps, |deps.Keys|);
    var i, j := Repeats(long, deps.Keys);
    walk := long[i..j + 1];
  }

  lemma WithoutClosed(deps: Dependencies)
    requires Closed(deps)
    ensures Closed(Without(deps, Ready(deps)))
  {
  }

  lemma {:induction false} CycleFound(deps: Dependencies) returns (walk: seq<Name>)
    requires Closed(deps) && Levels(deps).Cycle?
    ensures IsCycle(walk, deps)
    decreases |deps|
  {
    if Ready(deps) == {} {
      walk := StuckHasCycle(deps);
    } else {
      WithoutShrinks(deps);
      WithoutClosed(deps);
      walk := CycleFound(Without(deps, Ready(deps)));
    }
  }

  /** A cycle is reported exactly when there is one. */
  lemma CycleExactly(deps: Dependencies)
    requires Closed(deps)
    ensures Levels(deps).Cycle? <==> exists walk :: IsCycle(walk, deps)
    ensures Levels(deps).Cycle? || Levels(deps).Order?
  {
    if Levels(deps).Cycle? {
      var walk := CycleFound(deps);
    }
    if walk :| IsCycle(walk, deps) {
      CycleSurvives(deps, walk);
    }
    LevelsOutcomes(deps);
  }

  lemma {:induction false} LevelsOutcomes(deps: Dependencies)
    ensures Levels(deps).Cycle? || Levels(deps).Order?
    decreases |deps|
  {
    if deps != map[] && Ready(deps) != {} {
      WithoutShrinks(deps);
      LevelsOutcomes(Without(deps, Ready(deps)));
    }
  }

  /* ------------------------------------------------------------ the whole run */

  function Names(instances: seq<Instance>): set<Name> {
    set i | 0 <= i < |instances| :: instances[i].name
  }

  function Elements(names: seq<Name>): set<Name> {
    set n | n in names
  }

  /** The dictionary built from the instance list; a later entry of the same name wins. */
  function Collect(instances: seq<Instance>): (deps: Dependencies)
    ensures deps.Keys == Names(instances)
  {
    if instances == [] then map[]
    else
      var front, last := instances[..|instances| - 1], instances[|instances| - 1];
      assert instances == front + [last];
      Collect(front)[last.name := Elements(last.startupAfter)]
  }

  predicate WellFormed(instance: Instance, names: set<Name>) {
    Elements(instance.startupAfter) <= names && instance.name !in instance.startupAfter
  }

  ghost predicate AllWellFormed(instances: seq<Instance>) {
    forall i :: 0 <= i < |instances| ==> WellFormed(instances[i], Names(instances))
  }

  /** The error an instance causes, if any: unknown names first, then itself. */
  ghost function Complaint(instance: Instance, names: set<Name>): Outcome
    requires !WellFormed(instance, names)
  {
    if Elements(instance.startupAfter) <= names then AfterItself(instance.name)
    else UnknownInstances(instance.name, Sorted(Elements(instance.startupAfter) - names))
  }

  /** The first of the instances from `i` on that is not well-formed, or their number. */
  ghost function FirstMalformed(instances: seq<Instance>, names: set<Name>, i: nat): (first: nat)
    requires i <= |instances|
    ensures i <= first <= |instances|
    ensures forall k :: i <= k < first ==> WellFormed(instances[k], names)
    ensures first < |instances| ==> !WellFormed(instances[first], names)
    decreases |instances| - i
  {
    if i == |instances| || !WellFormed(instances[i], names) then i else FirstMalformed(instances, names, i + 1)
  }

  /** The outcome for a list of instances: the first complaint, an order or a cycle. */
  ghost function Result(instances: seq<Instance>): Outcome {
    var first := FirstMalformed(instances, Names(instances), 0);
    if first < |instances| then Complaint(instances[first], Names(instances)) else Levels(Collect(instances))
  }

  /** Build the dictionary, or complain about the first instance that is not well-formed. */
  method Validate(instances: seq<Instance>) returns (error: seq<Outcome>, dependencies: Dependencies)
    ensures error == [] ==> AllWellFormed(instances) && dependencies == Collect(instances)
    ensures error != [] ==>
              exists i :: 0 <= i < |instances| && !WellFormed(instances[i], Names(instances)) &&
                error == [Complaint(instances[i], Names(instances))] &&
                forall k :: 0 <= k < i ==> WellFormed(instances[k], Names(instances))
  {
    var names := Names(instances);
    dependencies := map[];
    for i := 0 to |instances|
      invariant forall k :: 0 <= k < i ==> WellFormed(instances[k], names)
      invariant dependencies == Collect(instances[..i])
    {
      var instance := instances[i];
      var unknown := Elements(instance.startupAfter) - names;
      if unknown != {} {
        var sorted := SortNames(unknown);
        assert !WellFormed(instances[i], names);
        return [UnknownInstances(instance.name, sorted)], dependencies;
      }
      assert forall n :: n in Elements(instance.startupAfter) && n !in names ==> n in unknown;
      if instance.name in instance.startupAfter {
        assert !WellFormed(instances[i], names);
        return [AfterItself(instance.name)], dependencies;
      }
      assert WellFormed(instances[i], names);
      dependencies := dependencies[instance.name := Elements(instance.startupAfter)];
      assert instances[..i + 1][..i] == instances[..i];
    }
    assert instances[..|instances|] == instances;
    return [], dependencies;
  }

  method Arrange(waiting: Dependencies) returns (outcome: Outcome)
    ensures outcome == Levels(waiting)
  {
    var dependencies := waiting;
    var order: seq<Name> := [];
    LevelsOutcomes(waiting);
    if Levels(waiting).Order? { assert [] + Levels(waiting).names == Levels(waiting).names; }
    while dependencies != map[]
      invariant Prepend(order, Levels(dependencies)) == Levels(waiting)
      decreases |dependencies|
    {
      var ready := Ready(dependencies);
      if ready == {} {
        var left := SortNames(dependencies.Keys);
        return Cycle(left);
      }
      var sorted := SortNames(ready);
      PrependStep(order, dependencies);
      WithoutShrinks(dependencies);
      order := order + sorted;
      dependencies := Without(dependencies, ready);
    }
    return Order(order);
  }

  method StartupOrder(instances: seq<Instance>) returns (outcome: Outcome)
    ensures outcome == Result(instances)
  {
    var error, dependencies := Validate(instances);
    if error != [] {
      return error[0];
    }
    outcome := Arrange(dependencies);
  }

  ghost function Prepend(order: seq<Name>, outcome: Outcome): Outcome {
    if outcome.Order? then Order(order + outcome.names) else outcome
  }

  lemma PrependStep(order: seq<Name>, deps: Dependencies)
    requires deps != map[] && Ready(deps) != {}
    ensures Prepend(order + Sorted(Ready(deps)), Levels(Without(deps, Ready(deps)))) ==
            Prepend(order, Levels(deps))
  {
    WithoutShrinks(deps);
    var rest := Levels(Without(deps, Ready(deps)));
    if rest.Order? {
      assert order + Sorted(Ready(deps)) + rest.names == order + (Sorted(Ready(deps)) + rest.names);
    }
  }

  /* ------------------------------------------------------------ main theorems */

  ghost predicate UniqueNames(instances: seq<Instance>) {
    forall i, j :: 0 <= i < j < |instances| ==> instances[i].name != instances[j].name
  }

  lemma {:induction false} CollectAt(instances: seq<Instance>, i: nat)
    requires UniqueNames(instances) && i < |instances|
    ensures instances[i].name in Collect(instances)
    ensures Collect(instances)[instances[i].name] == Elements(instances[i].startupAfter)
  {
    var n := |instances| - 1;
    if i < n { CollectAt(instances[..n], i); }
  }

  /** The same instances, listed in another order. */
  ghost predicate Relisted(a: seq<Instance>, b: seq<Instance>) {
    UniqueNames(a) && UniqueNames(b) && forall x :: x in a <==> x in b
  }

  /** At most one instance causes a complaint. */
  ghost predicate OneComplaint(instances: seq<Instance>) {
    forall i, j :: 0 <= i < j < |instances| ==>
      WellFormed(instances[i], Names(instances)) || WellFormed(instances[j], Names(instances))
  }

  /** The outcome depends only on which instances there are exactly if at most one causes a complaint. */
  lemma ListingOrderExactly(a: seq<Instance>)
    requires UniqueNames(a)
    ensures (forall b :: Relisted(a, b) ==> Result(a) == Result(b)) <==> OneComplaint(a)
  {
    if OneComplaint(a) {
      forall b | Relisted(a, b) ensures Result(a) == Result(b) { SameResult(a, b); }
    } else {
      var i := FirstMalformed(a, Names(a), 0);
      var j := SecondMalformed(a);
      Swapped(a, i, j);
    }
  }

  lemma SameNames(a: seq<Instance>, b: seq<Instance>)
    requires Relisted(a, b)
    ensures Names(a) == Names(b)
  {
    forall n | n in Names(a) ensures n in Names(b) {
      var i :| 0 <= i < |a| && a[i].name == n;
      assert a[i] in b;
    }
    forall n | n in Names(b) ensures n in Names(a) {
      var i :| 0 <= i < |b| && b[i].name == n;
      assert b[i] in a;
    }
  }

  lemma SameResult(a: seq<Instance>, b: seq<Instance>)
    requires Relisted(a, b) && OneComplaint(a)
    ensures Result(a) == Result(b)
  {
    SameNames(a, b);
    var names := Names(a);
    var i, j := FirstMalformed(a, names, 0), FirstMalformed(b, names, 0);
    if i < |a| {
      assert a[i] in b;
      assert j < |b|;
    }
    if j < |b| {
      assert b[j] in a;
      var k :| 0 <= k < |a| && a[k] == b[j];
      assert k == i;
    } else {
      ListingOrderIrrelevant(a, b);
    }
  }

  /** A malformed instance after the first one. */
  lemma SecondMalformed(a: seq<Instance>) returns (j: nat)
    requires !OneComplaint(a)
    ensures FirstMalformed(a, Names(a), 0) < j < |a| && !WellFormed(a[j], Names(a))
  {
    var x, y :| 0 <= x < y < |a| && !WellFormed(a[x], Names(a)) && !WellFormed(a[y], Names(a));
    j := y;
  }

  ghost function Swap(a: seq<Instance>, i: nat, j: nat): seq<Instance>
    requires i < j < |a|
  {
    a[i := a[j]][j := a[i]]
  }

  lemma SwapRelists(a: seq<Instance>, i: nat, j: nat)
    requires UniqueNames(a) && i < j < |a|
    ensures Relisted(a, Swap(a, i, j))
  {
    var b := Swap(a, i, j);
    forall x | x in a ensures x in b {
      var k :| 0 <= k < |a| && a[k] == x;
      assert b[if k == i then j else if k == j then i else k] == x;
    }
  }

  /** With the two malformed instances swapped the complaint is about the other one. */
  lemma Swapped(a: seq<Instance>, i: nat, j: nat)
    requires UniqueNames(a) && i == FirstMalformed(a, Names(a), 0) && i < j < |a| && !WellFormed(a[j], Names(a))
    ensures Relisted(a, Swap(a, i, j)) && Result(a) != Result(Swap(a, i, j))
  {
    var b := Swap(a, i, j);
    SwapRelists(a, i, j);
    SameNames(a, b);
    FirstIs(b, Names(b), i);
    ComplaintNames(a[i], Names(a));
    ComplaintNames(a[j], Names(a));
  }

  lemma FirstIs(instances: seq<Instance>, names: set<Name>, i: nat)
    requires i < |instances| && !WellFormed(instances[i], names)
    requires forall k :: 0 <= k < i ==> WellFormed(instances[k], names)
    ensures FirstMalformed(instances, names, 0) == i
  {
  }

  ghost function Named(outcome: Outcome): Name {
    match outcome case UnknownInstances(name, _) => name case AfterItself(name) => name case _ => ""
  }

  lemma ComplaintNames(instance: Instance, names: set<Name>)
    requires !WellFormed(instance, names)
    ensures Named(Complaint(instance, names)) == instance.name
  {
  }

  /** For the order or the cycle itself the listing does not matter. */
  lemma ListingOrderIrrelevant(a: seq<Instance>, b: seq<Instance>)
    requires Relisted(a, b)
    ensures Levels(Collect(a)) == Levels(Collect(b))
  {
    SameEntries(a, b);
    SameEntries(b, a);
    assert Collect(a) == Collect(b);
  }

  lemma SameEntries(a: seq<Instance>, b: seq<Instance>)
    requires UniqueNames(a) && UniqueNames(b)
    requires forall x :: x in a ==> x in b
    ensures forall n :: n in Collect(a) ==> n in Collect(b) && Collect(a)[n] == Collect(b)[n]
  {
    forall n | n in Collect(a) ensures n in Collect(b) && Collect(a)[n] == Collect(b)[n] {
      var i :| 0 <= i < |a| && a[i].name == n;
      assert a[i] in b;
      var j :| 0 <= j < |b| && b[j] == a[i];
      CollectAt(a, i);
      CollectAt(b, j);
    }
  }

  lemma {:induction false} CollectClosed(instances: seq<Instance>, names: set<Name>)
    requires forall i :: 0 <= i < |instances| ==> WellFormed(instances[i], names)
    ensures forall n :: n in Collect(instances) ==> Collect(instances)[n] <= names
    decreases |instances|
  {
    if instances != [] { CollectClosed(instances[..|instances| - 1], names); }
  }

  /** For well-formed instances: a startup order of all of them, or a cycle exactly if there is one. */
  lemma StartupTheorem(instances: seq<Instance>)
    requires AllWellFormed(instances)
    ensures var deps := Collect(instances);
            && (Levels(deps).Order? ==> IsStartupOrder(Levels(deps).names, deps))
            && (Levels(deps).Cycle? <==> exists walk :: IsCycle(walk, deps))
            && (Levels(deps).Order? || Levels(deps).Cycle?)
  {
    CollectClosed(instances, Names(instances));
    LevelsAreOrdered(Collect(instances));
    CycleExactly(Collect(instances));
  }
}
