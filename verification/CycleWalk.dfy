/** The depth-first search for cyclic work dependencies. */
module CycleWalk {

  // The dependencies of each known work item; they may name unknown ones.
  type Graph = map<string, seq<string>>

  predicate Edge(g: Graph, a: string, b: string)
  {
    a in g && b in g && b in g[a]
  }

  predicate Path(g: Graph, p: seq<string>)
  {
    forall i :: 0 <= i < |p| - 1 ==> Edge(g, p[i], p[i + 1])
  }

  // Some path of at least one step leads from name back to name.
  ghost predicate OnCycle(g: Graph, name: string)
  {
    exists p: seq<string> :: IsCycle(g, p, name)
  }

  predicate IsCycle(g: Graph, p: seq<string>, name: string)
  {
    |p| >= 2 && p[0] == name && p[|p| - 1] == name && Path(g, p)
  }

  ghost predicate Cyclic(g: Graph)
  {
    exists name: string :: OnCycle(g, name)
  }

  // Every item comes after all known items it depends on, other than the reported ones.
  ghost predicate Ordered(g: Graph, order: seq<string>, reported: seq<string>)
  {
    forall i, b :: 0 <= i < |order| && Edge(g, order[i], b) && b !in reported ==> b in order[..i]
  }

  lemma OrderedSnoc(g: Graph, order: seq<string>, reported: seq<string>, name: string)
    requires Ordered(g, order, reported) && forall b :: Edge(g, name, b) && b !in reported ==> b in order
    ensures Ordered(g, order + [name], reported)
  {
    var o := order + [name];
    forall i, b | 0 <= i < |o| && Edge(g, o[i], b) && b !in reported
      ensures b in o[..i]
    {
      if i < |order| {
        assert o[..i] == order[..i];
        assert order[i] == o[i];
      } else {
        assert o[..i] == order;
      }
    }
  }

  lemma PathParts(g: Graph, p: seq<string>)
    requires Path(g, p) && p != []
    ensures Path(g, p[1..]) && Path(g, p[..|p| - 1])
  {
    var q := p[1..];
    forall i | 0 <= i < |q| - 1
      ensures Edge(g, q[i], q[i + 1])
    {
      assert Edge(g, p[i + 1], p[i + 1 + 1]);
    }
  }

  // A path through ordered items runs backwards in the order, so it ends before it begins.
  lemma {:induction false} PathRunsBack(g: Graph, order: seq<string>, reported: seq<string>, p: seq<string>, i: nat)
    requires Ordered(g, order, reported) && |p| >= 2 && Path(g, p) && i < |order| && order[i] == p[0]
    requires forall x :: x in p ==> x !in reported
    ensures p[|p| - 1] in order[..i]
    decreases |p|
  {
    assert Edge(g, p[0], p[1]) && p[1] in p;
    var j :| 0 <= j < i && order[..i][j] == p[1];
    if |p| > 2 {
      var q := p[1..];
      PathParts(g, p);
      PathRunsBack(g, order, reported, q, j);
      assert order[..j] <= order[..i];
      var k :| 0 <= k < j && order[..j][k] == p[|p| - 1];
      assert order[..i][k] == order[k];
    }
  }

  // The first place of name in the order.
  lemma FirstPlace(order: seq<string>, name: string) returns (i: nat)
    requires name in order
    ensures i < |order| && order[i] == name && name !in order[..i]
  {
    i := 0;
    while order[i] != name
      invariant i < |order| && name !in order[..i]
      decreases |order| - i
    {
      i := i + 1;
      NotAll(order, i, name);
    }
  }

  lemma NotAll(order: seq<string>, i: nat, name: string)
    requires name in order && i <= |order| && name !in order[..i]
    ensures i < |order|
  {
    assert order[..|order|] == order;
  }

  // When the items are in order, up to the reported ones, every cycle goes through a reported one.
  lemma OrderedCutsCycles(g: Graph, order: seq<string>, reported: seq<string>, p: seq<string>, name: string)
    requires Ordered(g, order, reported) && (forall x :: x in g ==> x in order) && IsCycle(g, p, name)
    ensures exists x :: x in p && x in reported
  {
    if forall x :: x in p ==> x !in reported {
      assert Edge(g, p[0], p[1]);
      var i := FirstPlace(order, name);
      PathRunsBack(g, order, reported, p, i);
      assert false;
    }
  }

  // The part of the stack from where name is, and name again, is a cycle.
  lemma StackCycle(g: Graph, stack: seq<string>, name: string)
    requires Path(g, stack) && name in stack && Edge(g, stack[|stack| - 1], name)
    ensures OnCycle(g, name)
  {
    var k :| 0 <= k < |stack| && stack[k] == name;
    var p := stack[k..] + [name];
    forall i | 0 <= i < |p| - 1
      ensures Edge(g, p[i], p[i + 1])
    {
      assert p[i] == stack[k + i];
      if i + 1 < |p| - 1 {
        assert p[i + 1] == stack[k + i + 1];
      }
    }
    assert IsCycle(g, p, name);
  }

  class Walker {
    const workById: Graph
    var visiting: set<string>
    var visited: set<string>
    var errors: seq<string>
    // The items being visited, outermost first, and the visited ones in the order in which they were finished.
    ghost var stack: seq<string>
    ghost var finished: seq<string>

    ghost predicate Valid()
      reads this
    {
      (forall x :: x in visiting <==> x in stack) && (forall x :: x in visited <==> x in finished) &&
      Path(workById, stack) && (forall x :: x in stack ==> x in workById) &&
      (forall e :: e in errors ==> OnCycle(workById, e)) && Ordered(workById, finished, errors)
    }

    constructor (g: Graph)
      ensures Valid() && workById == g && visiting == {} && visited == {} && errors == [] && stack == []
    {
      workById := g;
      visiting, visited, errors := {}, {}, [];
      stack, finished := [], [];
    }

    // What is still unseen bounds the depth of the recursion.
    function Unseen(): set<string>
      reads this
    {
      workById.Keys - visiting - visited
    }

    method Walk(name: string)
      requires Valid() && (stack != [] ==> name in workById[stack[|stack| - 1]])
      modifies this
      ensures Valid() && stack == old(stack) && visiting == old(visiting) && old(visited) <= visited
      ensures old(errors) <= errors
      ensures name in workById ==> name in visited || (name in visiting && name in errors)
      decreases Unseen()
    {
      if name in visiting {
        StackCycle(workById, stack, name);
        errors := errors + [name];
        return;
      }
      if name in visited || name !in workById {
        return;
      }
      Enter(name);
      var children := workById[name];
      for i := 0 to |children|
        invariant Valid() && stack == old(stack) + [name] && visiting == old(visiting) + {name} &&
                  old(visited) <= visited
        invariant old(errors) <= errors
        invariant forall j :: 0 <= j < i && children[j] in workById ==> children[j] in visited || children[j] in errors
      {
        assert Unseen() < old(Unseen()) by {
          assert name in old(Unseen()) && name !in Unseen();
        }
        Walk(children[i]);
      }
      Leave(name);
    }

    method Enter(name: string)
      requires Valid() && name in workById && name !in visiting &&
               (stack != [] ==> name in workById[stack[|stack| - 1]])
      modifies this`visiting, this`stack
      ensures Valid() && stack == old(stack) + [name] && visiting == old(visiting) + {name}
    {
      visiting := visiting + {name};
      ghost var was := stack;
      stack := stack + [name];
      forall i | 0 <= i < |stack| - 1
        ensures Edge(workById, stack[i], stack[i + 1])
      {
        if i + 1 < |was| {
          assert Edge(workById, was[i], was[i + 1]);
        }
      }
    }

    method Leave(name: string)
      requires Valid() && stack != [] && stack[|stack| - 1] == name && name !in stack[..|stack| - 1]
      requires forall b :: Edge(workById, name, b) && b !in errors ==> b in visited
      modifies this`visiting, this`visited, this`stack, this`finished
      ensures Valid() && stack == old(stack)[..|old(stack)| - 1] && visiting == old(visiting) - {name} &&
              visited == old(visited) + {name}
    {
      OrderedSnoc(workById, finished, errors, name);
      visiting := visiting - {name};
      visited := visited + {name};
      ghost var was := stack;
      stack := stack[..|stack| - 1];
      finished := finished + [name];
      assert was == stack + [name];
      PathParts(workById, was);
    }
  }

  // Walk from every item, in the order of the catalog. Every report names an item on a cycle, and every cycle goes
  // through a reported item, so nothing is reported exactly if there is no cycle. The items finish in an order that
  // respects all dependencies but those on reported items.
  method CheckCycles(g: Graph, names: seq<string>) returns (errors: seq<string>, ghost finish: seq<string>)
    requires forall name :: name in names <==> name in g
    ensures (errors == []) == !Cyclic(g)
    ensures forall e :: e in errors ==> OnCycle(g, e)
    ensures forall p, name :: IsCycle(g, p, name) ==> exists x :: x in p && x in errors
    ensures Ordered(g, finish, errors) && forall name :: name in g ==> name in finish
  {
    var w := new Walker(g);
    for i := 0 to |names|
      invariant w.Valid() && fresh(w) && w.workById == g && w.stack == []
      invariant forall j :: 0 <= j < i ==> names[j] in w.visited
    {
      w.Walk(names[i]);
    }
    errors, finish := w.errors, w.finished;
    forall name | name in g
      ensures name in finish
    {
      var j :| 0 <= j < |names| && names[j] == name;
    }
    forall p, name | IsCycle(g, p, name)
      ensures exists x :: x in p && x in errors
    {
      OrderedCutsCycles(g, finish, errors, p, name);
    }
    if errors != [] {
      assert errors[0] in errors;
    }
  }
}
