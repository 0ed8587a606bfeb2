// CheckArg: what arguments are used for, through calls, on call graphs with cycles.
module CsroaCheckArg {

  // A use of an argument: passed to a call (at the position of another argument, of a wrapper or not),
  // loaded from, or anything else.
  datatype Use = Passed(to: nat, wrapper: bool) | Loaded | Other

  // An argument: whether it points to a scalar, and its uses.
  datatype Arg = Arg(pointsToScalar: bool, uses: seq<Use>)
  type Args = map<nat, Arg>

  ghost predicate Closed(args: Args) {
    forall a, i :: a in args && 0 <= i < |args[a].uses| && args[a].uses[i].Passed? ==> args[a].uses[i].to in args
  }

  // A graph of arguments with the arguments that must not be reached.
  datatype Graph = Graph(edges: map<nat, set<nat>>, bad: set<nat>)

  ghost predicate IsPath(g: Graph, p: seq<nat>, avoided: set<nat>) {
    p != [] &&
    (forall i :: 0 <= i < |p| ==> p[i] in g.edges && p[i] !in avoided) &&
    (forall i :: 0 <= i < |p| - 1 ==> p[i + 1] in g.edges[p[i]])
  }

  ghost predicate ReachesBad(g: Graph, a: nat, avoided: set<nat>) {
    exists p :: IsPath(g, p, avoided) && p[0] == a && p[|p| - 1] in g.bad
  }

  // A path that leads back to its start can be cut there.
  lemma {:induction false} CutPath(g: Graph, p: seq<nat>, avoided: set<nat>)
    requires IsPath(g, p, avoided)
    ensures p[0] == p[|p| - 1] || exists b ::
      b in g.edges[p[0]] && exists q :: IsPath(g, q, avoided + {p[0]}) && q[0] == b && q[|q| - 1] == p[|p| - 1]
    decreases |p|
  {
    if p[0] != p[|p| - 1] {
      var rest := p[1..];
      assert p[0 + 1] in g.edges[p[0]];
      assert IsPath(g, rest, avoided);
      if p[0] in rest {
        var i :| 0 <= i < |rest| && rest[i] == p[0];
        assert IsPath(g, rest[i..], avoided);
        CutPath(g, rest[i..], avoided);
      } else {
        assert IsPath(g, rest, avoided + {p[0]});
      }
    }
  }

  // Reaching a bad argument: it is bad itself, or a successor reaches one without coming back.
  lemma ReachStep(g: Graph, a: nat, avoided: set<nat>)
    requires a in g.edges && a !in avoided
    ensures ReachesBad(g, a, avoided) <==> a in g.bad || exists b :: b in g.edges[a] && ReachesBad(g, b, avoided + {a})
  {
    if ReachesBad(g, a, avoided) {
      var p :| IsPath(g, p, avoided) && p[0] == a && p[|p| - 1] in g.bad;
      CutPath(g, p, avoided);
    }
    if a in g.bad {
      assert IsPath(g, [a], avoided) && [a][0] == a;
    }
    if exists b :: b in g.edges[a] && ReachesBad(g, b, avoided + {a}) {
      var b :| b in g.edges[a] && ReachesBad(g, b, avoided + {a});
      var q :| IsPath(g, q, avoided + {a}) && q[0] == b && q[|q| - 1] in g.bad;
      assert IsPath(g, [a] + q, avoided);
      assert ([a] + q)[0] == a && ([a] + q)[|q|] == q[|q| - 1];
    }
  }

  function Targets(uses: seq<Use>, wrappersToo: bool): set<nat> {
    set i | 0 <= i < |uses| && uses[i].Passed? && (wrappersToo || !uses[i].wrapper) :: uses[i].to
  }

  // Where an argument flows through calls; bad is an argument with a use that is not a call.
  ghost function CallGraph(args: Args): Graph {
    Graph(map a | a in args :: Targets(args[a].uses, true),
          set a | a in args && exists i :: 0 <= i < |args[a].uses| && !args[a].uses[i].Passed?)
  }

  // Where an argument flows through calls of ordinary functions; bad is an argument that does not point
  // to a scalar, or has a use other than a load or such a call.
  ghost function LoadGraph(args: Args): Graph {
    Graph(map a | a in args :: Targets(args[a].uses, false),
          set a | a in args &&
            (!args[a].pointsToScalar || exists i :: 0 <= i < |args[a].uses| && !Harmless(args[a].uses[i])))
  }

  predicate Harmless(u: Use) {
    u.Loaded? || (u.Passed? && !u.wrapper)
  }

  // inspected is passed by value: it holds the arguments on the current path only.
  method UsedByArgsOnly(args: Args, a: nat, inspected: set<nat>) returns (b: bool)
    requires Closed(args) && a in args
    ensures b <==> !ReachesBad(CallGraph(args), a, inspected)
    decreases args.Keys - inspected
  {
    if a !in inspected {
      var now := inspected + {a};
      ghost var g := CallGraph(args);
      ReachStep(g, a, inspected);
      var uses := args[a].uses;
      for i := 0 to |uses|
        invariant forall j :: 0 <= j < i ==> uses[j].Passed? && !ReachesBad(g, uses[j].to, now)
      {
        match uses[i]
        case Passed(to, _) =>
          var r := UsedByArgsOnly(args, to, now);
          if !r {
            assert to in g.edges[a];
            return false;
          }
        case _ =>
          return false;
      }
    }
    return true;
  }

  method LoadedOnly(args: Args, a: nat, inspected: set<nat>) returns (b: bool)
    requires Closed(args) && a in args
    ensures b <==> !ReachesBad(LoadGraph(args), a, inspected)
    decreases args.Keys - inspected
  {
    if a !in inspected {
      var now := inspected + {a};
      ghost var g := LoadGraph(args);
      ReachStep(g, a, inspected);
      if !args[a].pointsToScalar {
        return false;
      }
      var uses := args[a].uses;
      for i := 0 to |uses|
        invariant forall j :: 0 <= j < i ==> Harmless(uses[j])
        invariant forall j :: 0 <= j < i && uses[j].Passed? ==> !ReachesBad(g, uses[j].to, now)
      {
        match uses[i]
        case Loaded =>
        case Passed(to, wrapper) =>
          if wrapper {
            return false;
          }
          var r := LoadedOnly(args, to, now);
          if !r {
            assert to in g.edges[a];
            return false;
          }
        case Other =>
          return false;
      }
    }
    return true;
  }

  // Each argument is passed on to the next one, to an ordinary function unless wrappers count, too.
  ghost predicate Flows(args: Args, p: seq<nat>, wrappersToo: bool) {
    p != [] && (forall i :: 0 <= i < |p| ==> p[i] in args) &&
    forall i :: 0 <= i < |p| - 1 ==> PassesOn(args[p[i]], p[i + 1], wrappersToo)
  }

  ghost predicate PassesOn(a: Arg, to: nat, wrappersToo: bool) {
    exists w: bool :: Passed(to, w) in a.uses && (wrappersToo || !w)
  }

  lemma TargetIsPassed(a: Arg, to: nat, wrappersToo: bool)
    ensures to in Targets(a.uses, wrappersToo) <==> PassesOn(a, to, wrappersToo)
  {
    if i :| 0 <= i < |a.uses| && a.uses[i].Passed? && (wrappersToo || !a.uses[i].wrapper) && a.uses[i].to == to {
      assert a.uses[i] == Passed(to, a.uses[i].wrapper);
    }
    if w: bool :| Passed(to, w) in a.uses && (wrappersToo || !w) {
      var i :| 0 <= i < |a.uses| && a.uses[i] == Passed(to, w);
      assert a.uses[i].to in Targets(a.uses, wrappersToo);
    }
  }

  lemma PathsAreFlows(args: Args, p: seq<nat>)
    ensures IsPath(CallGraph(args), p, {}) <==> Flows(args, p, true)
    ensures IsPath(LoadGraph(args), p, {}) <==> Flows(args, p, false)
  {
    forall i | 0 <= i < |p| - 1 && p[i] in args
      ensures p[i + 1] in Targets(args[p[i]].uses, true) <==> PassesOn(args[p[i]], p[i + 1], true)
      ensures p[i + 1] in Targets(args[p[i]].uses, false) <==> PassesOn(args[p[i]], p[i + 1], false)
    {
      TargetIsPassed(args[p[i]], p[i + 1], true);
      TargetIsPassed(args[p[i]], p[i + 1], false);
    }
  }

  // usedByArgsOnly_wrapper: no argument reachable through calls has a use that is not a call.
  method UsedByArgsOnlyWrapper(args: Args, a: nat) returns (b: bool)
    requires Closed(args) && a in args
    ensures b <==> forall p :: Flows(args, p, true) && p[0] == a ==>
      forall u :: u in args[p[|p| - 1]].uses ==> u.Passed?
  {
    b := UsedByArgsOnly(args, a, {});
    forall p: seq<nat> ensures IsPath(CallGraph(args), p, {}) <==> Flows(args, p, true) {
      PathsAreFlows(args, p);
    }
    assert forall x :: x in args ==> (x !in CallGraph(args).bad <==> forall u :: u in args[x].uses ==> u.Passed?);
  }

  // loadedOnly_wrapper: every reachable argument points to a scalar and is loaded or passed on only.
  method LoadedOnlyWrapper(args: Args, a: nat) returns (b: bool)
    requires Closed(args) && a in args
    ensures b <==> forall p :: Flows(args, p, false) && p[0] == a ==>
      var x := args[p[|p| - 1]];
      x.pointsToScalar && forall u :: u in x.uses ==> u.Loaded? || (u.Passed? && !u.wrapper)
  {
    b := LoadedOnly(args, a, {});
    forall p: seq<nat> ensures IsPath(LoadGraph(args), p, {}) <==> Flows(args, p, false) {
      PathsAreFlows(args, p);
    }
    assert forall x :: x in args ==> (x !in LoadGraph(args).bad <==>
      args[x].pointsToScalar && forall u :: u in args[x].uses ==> u.Loaded? || (u.Passed? && !u.wrapper));
  }
}
