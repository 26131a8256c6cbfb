/** Starting or stopping every VM in a state, collecting the failures on the way. */
module BulkVms {
  import opened Wrappers

  datatype Vm = Vm(name: string, state: string)

  /**
   * How one command ends. A command error is collected; any other error, such as a name that
   * does not validate, leaves the loop at once.
   */
  datatype Attempt = Fine | CommandError(message: string) | OtherError(message: string)

  /** What the whole bulk operation raises. */
  datatype Raised = Aggregate(errors: seq<string>) | Other(message: string)

  type Runner = string -> Attempt

  function Targets(vms: seq<Vm>, state: string): seq<string> {
    if vms == [] then []
    else
      Targets(vms[..|vms| - 1], state) +
      if vms[|vms| - 1].state == state then [vms[|vms| - 1].name] else []
  }

  /** The targets of a list are those of its parts, and a VM is one exactly if it is in the state. */
  lemma {:induction false} TargetsAppend(a: seq<Vm>, b: seq<Vm>, state: string)
    ensures Targets(a + b, state) == Targets(a, state) + Targets(b, state)
  {
    if b == [] {
      assert a + b == a;
    } else {
      assert (a + b)[..|a + b| - 1] == a + b[..|b| - 1];
      TargetsAppend(a, b[..|b| - 1], state);
    }
  }

  lemma TargetsOfOne(vm: Vm, state: string)
    ensures Targets([vm], state) == if vm.state == state then [vm.name] else []
  {
    assert [vm][..0] == [];
  }

  function Failures(names: seq<string>, run: Runner): seq<string> {
    if names == [] then []
    else
      var name := names[|names| - 1];
      Failures(names[..|names| - 1], run) +
      if run(name).CommandError? then [name + ": " + run(name).message] else []
  }

  /** So are the failures, and one that failed is listed with its message. */
  lemma {:induction false} FailuresAppend(a: seq<string>, b: seq<string>, run: Runner)
    ensures Failures(a + b, run) == Failures(a, run) + Failures(b, run)
  {
    if b == [] {
      assert a + b == a;
    } else {
      assert (a + b)[..|a + b| - 1] == a + b[..|b| - 1];
      FailuresAppend(a, b[..|b| - 1], run);
    }
  }

  lemma FailuresOfOne(name: string, run: Runner)
    ensures Failures([name], run) ==
            match run(name)
            case CommandError(message) => [name + ": " + message]
            case _ => []
  {
    assert [name][..0] == [];
  }

  predicate Contained(names: seq<string>, run: Runner) {
    forall i :: 0 <= i < |names| ==> !run(names[i]).OtherError?
  }

  lemma {:induction false} NoFailuresIff(names: seq<string>, run: Runner)
    requires Contained(names, run)
    ensures Failures(names, run) == [] <==> forall i :: 0 <= i < |names| ==> run(names[i]).Fine?
  {
    if names != [] {
      NoFailuresIff(names[..|names| - 1], run);
    }
  }

  /** The names before the first error that is not a command error, and that one. */
  predicate StopsAt(names: seq<string>, run: Runner, n: nat) {
    n < |names| && Contained(names[..n], run) && run(names[n]).OtherError?
  }

  /** How far the loop has come; `other` is the error that left it. */
  datatype Tally = Tally(attempted: seq<string>, errors: seq<string>, other: Option<string>)

  function Count(t: Tally, name: string, run: Runner): Tally {
    var attempted := t.attempted + [name];
    match run(name)
    case Fine => t.(attempted := attempted)
    case CommandError(message) => t.(attempted := attempted, errors := t.errors + [name + ": " + message])
    case OtherError(message) => t.(attempted := attempted, other := Some(message))
  }

  function TallyOf(vms: seq<Vm>, state: string, run: Runner): Tally {
    if vms == [] then Tally([], [], None)
    else
      var t, vm := TallyOf(vms[..|vms| - 1], state, run), vms[|vms| - 1];
      if t.other.Some? || vm.state != state then t else Count(t, vm.name, run)
  }

  /** An error that leaves the loop was the last attempt; without one all targets were attempted. */
  predicate TallyOk(t: Tally, targets: seq<string>, run: Runner) {
    match t.other
    case None => t.attempted == targets && Contained(targets, run) && t.errors == Failures(targets, run)
    case Some(message) =>
      && t.attempted != [] && t.attempted <= targets
      && StopsAt(targets, run, |t.attempted| - 1)
      && message == run(t.attempted[|t.attempted| - 1]).message
  }

  lemma CountKeepsOk(t: Tally, targets: seq<string>, name: string, run: Runner)
    requires TallyOk(t, targets, run) && t.other.None?
    ensures TallyOk(Count(t, name, run), targets + [name], run)
  {
    FailuresSnoc(targets, name, run);
    ContainedSnoc(targets, name, run);
    if run(name).OtherError? {
      assert (targets + [name])[..|targets|] == targets;
    }
  }

  lemma FailuresSnoc(names: seq<string>, name: string, run: Runner)
    ensures Failures(names + [name], run) ==
            Failures(names, run) + if run(name).CommandError? then [name + ": " + run(name).message] else []
  {
    assert (names + [name])[..|names|] == names;
  }

  lemma ContainedSnoc(names: seq<string>, name: string, run: Runner)
    ensures Contained(names + [name], run) <==> Contained(names, run) && !run(name).OtherError?
  {
    var more := names + [name];
    assert more[|names|] == name && forall i :: 0 <= i < |names| ==> more[i] == names[i];
  }

  lemma LongerKeepsOk(t: Tally, targets: seq<string>, name: string, run: Runner)
    requires TallyOk(t, targets, run) && t.other.Some?
    ensures TallyOk(t, targets + [name], run)
  {
    var n := |t.attempted| - 1;
    assert (targets + [name])[..n] == targets[..n];
  }

  lemma {:induction false} TallyMeans(vms: seq<Vm>, state: string, run: Runner)
    ensures TallyOk(TallyOf(vms, state, run), Targets(vms, state), run)
  {
    if vms != [] {
      var rest, vm := vms[..|vms| - 1], vms[|vms| - 1];
      TallyMeans(rest, state, run);
      var t := TallyOf(rest, state, run);
      if vm.state != state {
        assert Targets(vms, state) == Targets(rest, state);
      } else if t.other.Some? {
        LongerKeepsOk(t, Targets(rest, state), vm.name, run);
      } else {
        CountKeepsOk(t, Targets(rest, state), vm.name, run);
      }
    }
  }

  lemma TallyStep(vms: seq<Vm>, state: string, run: Runner, i: nat)
    requires i < |vms|
    ensures TallyOf(vms[..i + 1], state, run) ==
            var t := TallyOf(vms[..i], state, run);
            if t.other.Some? || vms[i].state != state then t else Count(t, vms[i].name, run)
  {
    assert vms[..i + 1][..i] == vms[..i];
  }

  /** Once the loop is left, the rest is not looked at. */
  lemma {:induction false} TallyStays(vms: seq<Vm>, state: string, run: Runner, n: nat)
    requires n <= |vms| && (n == |vms| || TallyOf(vms[..n], state, run).other.Some?)
    ensures TallyOf(vms, state, run) == TallyOf(vms[..n], state, run)
  {
    if n == |vms| {
      assert vms[..n] == vms;
    } else {
      var k := |vms| - 1;
      assert vms[..k][..n] == vms[..n];
      TallyStays(vms[..k], state, run, n);
    }
  }

  /** The loop. */
  method AttemptAll(vms: seq<Vm>, state: string, run: Runner)
    returns (attempted: seq<string>, errors: seq<string>, other: Option<string>)
    ensures Tally(attempted, errors, other) == TallyOf(vms, state, run)
  {
    attempted, errors, other := [], [], None;
    var i := 0;
    while i < |vms| && other.None?
      invariant 0 <= i <= |vms|
      invariant Tally(attempted, errors, other) == TallyOf(vms[..i], state, run)
    {
      TallyStep(vms, state, run, i);
      if vms[i].state == state {
        var name := vms[i].name;
        attempted := attempted + [name];
        match run(name) {
          case Fine =>
          case CommandError(message) => errors := errors + [name + ": " + message];
          case OtherError(message) => other := Some(message);
        }
      }
      i := i + 1;
    }
    TallyStays(vms, state, run, i);
  }

  /**
   * Every VM in the state is attempted once, in order, whatever command errors there are; the
   * operation raises exactly if some attempt failed, and lists the failing VMs in order. Only an
   * error of another kind cuts the loop short, right after its own attempt.
   */
  method RunAllInState(vms: seq<Vm>, state: string, run: Runner)
    returns (attempted: seq<string>, raised: Option<Raised>)
    ensures Contained(Targets(vms, state), run) ==>
              && attempted == Targets(vms, state)
              && (raised.None? <==> forall i :: 0 <= i < |attempted| ==> run(attempted[i]).Fine?)
              && (raised.Some? ==> raised.value == Aggregate(Failures(attempted, run)))
    ensures !Contained(Targets(vms, state), run) ==>
              && attempted != [] && attempted <= Targets(vms, state)
              && StopsAt(Targets(vms, state), run, |attempted| - 1)
              && raised == Some(Other(run(attempted[|attempted| - 1]).message))
  {
    var errors: seq<string>, other: Option<string>;
    attempted, errors, other := AttemptAll(vms, state, run);
    TallyMeans(vms, state, run);
    if other.Some? {
      return attempted, Some(Other(other.value));
    }
    NoFailuresIff(attempted, run);
    raised := if errors == [] then None else Some(Aggregate(errors));
  }
}
