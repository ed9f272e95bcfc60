/** EXPLAIN plan documents: linking each plan to its parent, and reading each plan's own fields. */
module PlanTree {
  import opened Wrappers

  /** A plan and the plans below it. */
  datatype Plan = Plan(children: seq<Plan>)

  function Size(ts: seq<Plan>): nat {
    if ts == [] then 0 else 1 + Size(ts[0].children) + Size(ts[1..])
  }

  /** The parent of every plan of a forest in document order, when the next plan is number `next`. */
  function Parents(ts: seq<Plan>, parent: int, next: nat): (r: seq<int>)
    ensures |r| == Size(ts)
  {
    if ts == [] then []
    else [parent] + Parents(ts[0].children, next, next + 1) + Parents(ts[1..], parent, next + 1 + Size(ts[0].children))
  }

  /** A parent is the common one or an earlier plan of the forest whose first child comes right after it. */
  predicate Linked(r: seq<int>, parent: int, next: nat, i: nat)
    requires i < |r|
  {
    r[i] == parent || (next <= r[i] < next + i && r[r[i] + 1 - next] == r[i])
  }

  lemma LinkedBelow(inner: seq<int>, rest: seq<int>, parent: int, next: nat, i: nat)
    requires i < |inner| && Linked(inner, next, next + 1, i) && inner[0] == next
    ensures Linked([parent] + inner + rest, parent, next, i + 1)
  {
    var r := [parent] + inner + rest;
    assert r[i + 1] == inner[i] && r[1] == inner[0];
    if inner[i] != next {
      assert r[inner[i] + 1 - next] == inner[inner[i] - next];
    }
  }

  lemma LinkedBeside(inner: seq<int>, rest: seq<int>, parent: int, next: nat, i: nat)
    requires i < |rest| && Linked(rest, parent, next + 1 + |inner|, i)
    ensures Linked([parent] + inner + rest, parent, next, i + 1 + |inner|)
  {
    var r, k := [parent] + inner + rest, 1 + |inner|;
    assert r[i + k] == rest[i];
    if rest[i] != parent {
      assert r[rest[i] + 1 - next] == rest[rest[i] + 1 - (next + k)];
    }
  }

  lemma ParentsSplit(ts: seq<Plan>, parent: int, next: nat)
    requires ts != []
    ensures var s := Size(ts[0].children);
      && Size(ts) == 1 + s + Size(ts[1..])
      && Parents(ts, parent, next) == [parent]
        + Parents(ts[0].children, next, next + 1) + Parents(ts[1..], parent, next + 1 + s)
  {
  }

  /** All plans of a forest are linked, and the first one has the common parent. */
  ghost predicate AllLinked(r: seq<int>, parent: int, next: nat) {
    (r != [] ==> r[0] == parent) && forall i: nat {:trigger Linked(r, parent, next, i)} | i < |r| ::
      Linked(r, parent, next, i)
  }

  lemma LinkedTogether(inner: seq<int>, rest: seq<int>, parent: int, next: nat)
    requires AllLinked(inner, next, next + 1) && AllLinked(rest, parent, next + 1 + |inner|)
    ensures AllLinked([parent] + inner + rest, parent, next)
  {
    var r := [parent] + inner + rest;
    forall i: nat | i < |r|
      ensures Linked(r, parent, next, i)
    {
      if 1 <= i <= |inner| {
        LinkedBelow(inner, rest, parent, next, i - 1);
      } else if i > |inner| {
        LinkedBeside(inner, rest, parent, next, i - 1 - |inner|);
      }
    }
  }

  lemma {:induction false} ParentsLinked(ts: seq<Plan>, parent: int, next: nat)
    ensures AllLinked(Parents(ts, parent, next), parent, next)
    decreases ts
  {
    if ts != [] {
      ParentsSplit(ts, parent, next);
      var s := Size(ts[0].children);
      ParentsLinked(ts[0].children, next, next + 1);
      ParentsLinked(ts[1..], parent, next + 1 + s);
      LinkedTogether(Parents(ts[0].children, next, next + 1), Parents(ts[1..], parent, next + 1 + s), parent, next);
    }
  }

  /** A parent comes before its child in document order, and its first child right after it. */
  predicate Follows(parents: seq<int>, i: nat)
    requires i < |parents|
  {
    -1 <= parents[i] < i && parents[parents[i] + 1] == parents[i]
  }

  lemma FirstChildFollows(root: Plan, i: nat)
    requires i < Size([root])
    ensures Follows(Parents([root], -1, 0), i)
  {
    ParentsLinked([root], -1, 0);
    assert Linked(Parents([root], -1, 0), -1, 0, i);
  }

  /** The first plan in a container, or n if there is none among the first n. */
  function First(container: seq<nat>, c: nat, n: nat): (k: nat)
    requires n <= |container|
    ensures k <= n
  {
    if n == 0 then 0
    else
      var k := First(container, c, n - 1);
      if k < n - 1 || container[n - 1] == c then k else n
  }

  lemma {:induction false} FirstIs(container: seq<nat>, c: nat, n: nat, k: nat)
    requires k <= n <= |container| && (forall j | 0 <= j < k :: container[j] != c) && (k < n ==> container[k] == c)
    ensures First(container, c, n) == k
  {
    if n > 0 {
      FirstIs(container, c, n - 1, if k < n then k else n - 1);
    }
  }

  lemma {:induction false} FirstFinds(container: seq<nat>, i: nat, n: nat)
    requires i < n <= |container|
    ensures var k := First(container, container[i], n);
      k <= i && container[k] == container[i] && forall j | 0 <= j < k :: container[j] != container[i]
  {
    var c := container[i];
    var k := i;
    while exists j :: 0 <= j < k && container[j] == c
      invariant k <= i && container[k] == c
      decreases k
    {
      var j :| 0 <= j < k && container[j] == c;
      k := j;
    }
    FirstIs(container, c, n, k);
  }

  /** LinkNoeud1: labels each container on first sight, then reads the label back for each plan. */
  method LinkNodes(container: seq<nat>) returns (nodesParent: seq<int>)
    ensures |nodesParent| == |container|
    ensures forall i | 0 <= i < |container| :: nodesParent[i] == First(container, container[i], |container|) - 1
  {
    ghost var n := |container|;
    var parentId: map<nat, int> := map[];
    for i := 0 to |container|
      invariant forall c | c in parentId :: parentId[c] == First(container, c, n) - 1
      invariant forall j | 0 <= j < i :: container[j] in parentId
    {
      if container[i] !in parentId {
        FirstIs(container, container[i], n, i);
        parentId := parentId[container[i] := i - 1];
      }
    }
    nodesParent := [];
    for i := 0 to |container|
      invariant |nodesParent| == i
      invariant forall j | 0 <= j < i :: nodesParent[j] == First(container, container[j], n) - 1
    {
      nodesParent := nodesParent + [parentId[container[i]]];
    }
  }

  /** A container belongs to one plan, or to none at the top. */
  predicate Owned(container: seq<nat>, parents: seq<int>) {
    && |container| == |parents|
    && forall i, j | 0 <= i < |parents| && 0 <= j < |parents| && container[i] == container[j] ::
      parents[i] == parents[j]
  }

  /** Two plans of one parent are always in one container. */
  predicate OneContainer(container: seq<nat>, parents: seq<int>)
    requires |container| == |parents|
  {
    forall i, j | 0 <= i < |parents| && 0 <= j < |parents| && parents[i] == parents[j] :: container[i] == container[j]
  }

  predicate LabelAt(container: seq<nat>, parents: seq<int>, i: nat)
    requires i < |container| == |parents|
  {
    First(container, container[i], |container|) - 1 == parents[i]
  }

  lemma LabelRight(container: seq<nat>, parents: seq<int>, i: nat)
    requires Owned(container, parents) && OneContainer(container, parents) && i < |parents|
    requires forall j: nat | j < |parents| :: Follows(parents, j)
    ensures LabelAt(container, parents, i)
  {
    FirstFinds(container, i, |container|);
    var k := First(container, container[i], |container|);
    assert Follows(parents, i) && Follows(parents, k);
    assert container[parents[i] + 1] == container[i];
  }

  lemma OneLabel(container: seq<nat>, parents: seq<int>, i: nat, j: nat)
    requires |container| == |parents| && i < |parents| && j < |parents| && parents[i] == parents[j]
    requires LabelAt(container, parents, i) && LabelAt(container, parents, j)
    ensures container[i] == container[j]
  {
    FirstFinds(container, i, |container|);
    FirstFinds(container, j, |container|);
  }

  /** The labels are the numbers of the parents exactly when no parent has its plans in two containers. */
  lemma LinkExactly(root: Plan, container: seq<nat>)
    requires Owned(container, Parents([root], -1, 0))
    ensures var parents := Parents([root], -1, 0);
      (forall i: nat | i < |container| :: LabelAt(container, parents, i)) <==> OneContainer(container, parents)
  {
    var parents, n := Parents([root], -1, 0), |container|;
    forall i: nat | i < n
      ensures Follows(parents, i)
    {
      FirstChildFollows(root, i);
    }
    if OneContainer(container, parents) {
      forall i: nat | i < n
        ensures LabelAt(container, parents, i)
      {
        LabelRight(container, parents, i);
      }
    }
    if forall i: nat | i < n :: LabelAt(container, parents, i) {
      forall i, j | 0 <= i < n && 0 <= j < n && parents[i] == parents[j]
        ensures container[i] == container[j]
      {
        OneLabel(container, parents, i, j);
      }
    }
  }

  /**
   * A plan whose two children stand in a container each, as EXPLAIN, which writes one container per plan, never does.
   */
  lemma TwoContainers()
    ensures var root, container := Plan([Plan([]), Plan([])]), [0, 1, 2]; var parents := Parents([root], -1, 0);
      && parents == [-1, 0, 0] && Owned(container, parents) && !OneContainer(container, parents)
      && First(container, container[2], 3) - 1 == 1 != parents[2]
  {
    var kids := [Plan([]), Plan([])];
    var root := Plan(kids);
    assert kids[1..] == [Plan([])] && [Plan([])][1..] == [] && [root][1..] == [];
    ParentsSplit([Plan([])], 0, 2);
    ParentsSplit(kids, 0, 1);
    ParentsSplit([root], -1, 0);
    FirstIs([0, 1, 2], 2, 3, 2);
    var parents := Parents([root], -1, 0);
    assert parents == [-1, 0, 0];
    assert parents[1] == parents[2] && [0, 1, 2][1] != [0, 1, 2][2];
  }
}
