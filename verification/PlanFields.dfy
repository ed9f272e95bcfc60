/** ExtractNodes1: reading the fields of every plan of an EXPLAIN document, last plan first, and removing them. */
module PlanFields {
  import opened Wrappers
  import opened PlanTree

  type Fields = map<string, string>

  /** The fields that are read, in this order. */
  const TAGS: seq<string> := [
    "Node-Type", "Total-Cost", "IO-Cost", "CPU-Cost", "Power-Cost", "Plan-Rows", "Relation-Name", "Strategy",
    "Startup-Cost", "Plan-Width", "Actual-Startup-Time", "Actual-Total-Time", "Actual-Rows", "Actual-Loops",
    "Join-Type", "Command", "Parallel-Aware", "Shared-Hit-Blocks", "Shared-Read-Blocks", "Workers-Planned",
    "Workers-Launched"
  ]

  /** The number of plans in and below each plan, in document order. */
  function Sizes(ts: seq<Plan>): (r: seq<nat>)
    ensures |r| == Size(ts)
  {
    if ts == [] then [] else [1 + Size(ts[0].children)] + Sizes(ts[0].children) + Sizes(ts[1..])
  }

  predicate Fit(size: seq<nat>) {
    forall i | 0 <= i < |size| :: 1 <= size[i] <= |size| - i
  }

  lemma FitTogether(inner: seq<nat>, rest: seq<nat>)
    requires Fit(inner) && Fit(rest)
    ensures Fit([1 + |inner|] + inner + rest)
  {
  }

  /** The plans below a plan come right after it. */
  lemma {:induction false} SizesFit(ts: seq<Plan>)
    ensures Fit(Sizes(ts))
  {
    if ts != [] {
      SizesFit(ts[0].children);
      SizesFit(ts[1..]);
      FitTogether(Sizes(ts[0].children), Sizes(ts[1..]));
    }
  }

  function Only(m: Fields, tags: seq<string>): Fields {
    map t | t in m && t in tags :: m[t]
  }

  function Except(m: Fields, tags: seq<string>): Fields {
    map t | t in m && t !in tags :: m[t]
  }

  predicate Free(m: Fields, tags: seq<string>) {
    forall t | t in tags :: t !in m
  }

  /** What one plan adds to a total. */
  function Share(node: Fields, tag: string, parse: string -> real): real {
    if tag in node then parse(node[tag]) else 0.0
  }

  function Sum(nodes: seq<Fields>, tag: string, parse: string -> real): real {
    if nodes == [] then 0.0 else Sum(nodes[..|nodes| - 1], tag, parse) + Share(nodes[|nodes| - 1], tag, parse)
  }

  function Reverse<T>(s: seq<T>): (r: seq<T>)
    ensures |r| == |s|
  {
    if s == [] then [] else [s[|s| - 1]] + Reverse(s[..|s| - 1])
  }

  lemma {:induction false} ReverseAt<T>(s: seq<T>, i: nat)
    requires i < |s|
    ensures Reverse(s)[i] == s[|s| - 1 - i]
  {
    if i > 0 {
      ReverseAt(s[..|s| - 1], i - 1);
    }
  }

  lemma {:induction false} SumFront(node: Fields, nodes: seq<Fields>, tag: string, parse: string -> real)
    ensures Sum([node] + nodes, tag, parse) == Share(node, tag, parse) + Sum(nodes, tag, parse)
  {
    var all := [node] + nodes;
    if nodes == [] {
      assert all == [node] && all[..0] == [];
    } else {
      SumFront(node, nodes[..|nodes| - 1], tag, parse);
      assert all[..|all| - 1] == [node] + nodes[..|nodes| - 1];
    }
  }

  /** A total does not depend on the direction in which the plans are visited. */
  lemma {:induction false} SumReversed(nodes: seq<Fields>, tag: string, parse: string -> real)
    ensures Sum(Reverse(nodes), tag, parse) == Sum(nodes, tag, parse)
  {
    if nodes != [] {
      var init, last := nodes[..|nodes| - 1], nodes[|nodes| - 1];
      SumReversed(init, tag, parse);
      SumFront(last, Reverse(init), tag, parse);
    }
  }

  const IO := "IO-Cost"
  const CPU := "CPU-Cost"
  const POWER := "Power-Cost"
  const COST := "Total-Cost"

  datatype Statistic = Statistic(operators: nat, io: real, cpu: real, power: real, totalCost: real)

  /** What is recorded of a query: the number of plans, three sums over them, and the cost of the first. */
  function Summary(nodes: seq<Fields>, parse: string -> real): Statistic {
    Statistic(|nodes|, Sum(nodes, IO, parse), Sum(nodes, CPU, parse), Sum(nodes, POWER, parse),
      if nodes == [] then 0.0 else Share(nodes[0], COST, parse))
  }

  /** The running totals over the plans visited so far; the cost is taken from the plan visited last of all. */
  function Tally(node: seq<Fields>, parse: string -> real, root: bool): Statistic {
    Statistic(|node|, Sum(node, IO, parse), Sum(node, CPU, parse), Sum(node, POWER, parse),
      if root && node != [] then Share(node[|node| - 1], COST, parse) else 0.0)
  }

  lemma TallyMore(node: seq<Fields>, nd: Fields, parse: string -> real, root: bool)
    ensures var t := Tally(node, parse, false);
      Tally(node + [nd], parse, root)
        == Statistic(t.operators + 1, t.io + Share(nd, IO, parse), t.cpu + Share(nd, CPU, parse),
            t.power + Share(nd, POWER, parse), if root then Share(nd, COST, parse) else 0.0)
  {
    assert (node + [nd])[..|node|] == node;
  }

  /** The totals in document order are those of the backward visit. */
  lemma SummaryReversed(node: seq<Fields>, parse: string -> real)
    ensures Summary(Reverse(node), parse) == Tally(node, parse, true)
  {
    SumReversed(node, IO, parse);
    SumReversed(node, CPU, parse);
    SumReversed(node, POWER, parse);
    if node != [] {
      ReverseAt(node, 0);
    }
  }

  class Document {
    const tags: seq<string>
    const size: seq<nat>
    const behind: seq<set<string>>
    var fields: seq<Fields>

    ghost predicate Valid()
      reads this
    {
      |fields| == |behind| == |size| && Fit(size)
    }

    constructor (root: Plan, own: seq<Fields>, behind: seq<set<string>>)
      requires |own| == |behind| == Size([root])
      ensures Valid() && fields == own && this.behind == behind && size == Sizes([root]) && tags == TAGS
    {
      SizesFit([root]);
      tags, size, this.behind, fields := TAGS, Sizes([root]), behind, own;
    }

    /** The plan has such a field in front of the plans below it. */
    predicate Ahead(i: nat, tag: string)
      requires Valid() && i < |fields|
      reads this
    {
      tag in fields[i] && tag !in behind[i]
    }

    predicate Below(i: nat, tag: string)
      requires Valid() && i < |fields|
      reads this
    {
      exists k :: i < k < i + size[i] && tag in fields[k]
    }

    /**
     * getElementsByTagName(tag).item(0): the plan's own field if it stands in front, else one of a plan below, else its
     * own behind them.
     */
    method FindTag(i: nat, tag: string) returns (j: Option<nat>)
      requires Valid() && i < |fields|
      ensures j.None? <==> tag !in fields[i] && !Below(i, tag)
      ensures j.Some? ==> i <= j.value < i + size[i] && tag in fields[j.value]
      ensures j == Some(i) <==> Ahead(i, tag) || (tag in fields[i] && !Below(i, tag))
    {
      if tag in fields[i] && tag !in behind[i] {
        return Some(i);
      }
      for k := i + 1 to i + size[i]
        invariant forall l | i < l < k :: tag !in fields[l]
      {
        if tag in fields[k] {
          return Some(k);
        }
      }
      return if tag in fields[i] then Some(i) else None;
    }

    /** Reads one field and removes it; false if what is found is not a child of this plan and cannot be removed. */
    method Take(i: nat, tag: string, node: Fields) returns (ok: bool, r: Fields)
      requires Valid() && i < |fields|
      modifies this
      ensures Valid() && (ok <==> old(Ahead(i, tag)) || !old(Below(i, tag)))
      ensures fields == if ok then old(fields)[i := old(fields[i]) - {tag}] else old(fields)
      ensures ok ==> r == if tag in old(fields[i]) then node[tag := old(fields[i][tag])] else node
    {
      var j := FindTag(i, tag);
      assert tag !in fields[i] ==> fields[i] - {tag} == fields[i];
      if j.None? {
        return true, node;
      }
      r := node[tag := fields[j.value][tag]];
      if j.value != i {
        return false, r;
      }
      fields := fields[i := fields[i] - {tag}];
      return true, r;
    }

    /** No plan below the i-th has any of the fields left. */
    ghost predicate Stripped(i: nat)
      requires Valid() && i < |fields|
      reads this
    {
      forall k | i < k < i + size[i] :: Free(fields[k], tags)
    }

    /** One plan: all its fields, in order, none of which fails to be removed. */
    method ExtractNode(i: nat) returns (node: Fields)
      requires Valid() && i < |fields| && Stripped(i)
      modifies this
      ensures Valid() && node == Only(old(fields[i]), tags) && fields == old(fields)[i := Except(old(fields[i]), tags)]
    {
      ghost var own := fields[i];
      node := map[];
      assert Except(own, tags[..0]) == own && Only(own, tags[..0]) == map[];
      for t := 0 to |tags|
        invariant Valid() && Stripped(i)
        invariant node == Only(own, tags[..t]) && fields == old(fields)[i := Except(own, tags[..t])]
      {
        var ok;
        ok, node := Take(i, tags[t], node);
        assert ok;
        TakenOne(own, tags[..t], tags[t]);
        assert tags[..t + 1] == tags[..t] + [tags[t]];
      }
      assert tags[..|tags|] == tags;
    }

    /** From plan `temp` on, the fields have been read and removed; the others are as they were. */
    ghost predicate Done(own: seq<Fields>, temp: nat, node: seq<Fields>)
      reads this
    {
      && |fields| == |own| && temp + |node| == |own|
      && (forall k | 0 <= k < temp :: fields[k] == own[k])
      && (forall k | temp <= k < |own| :: fields[k] == Except(own[k], tags))
      && (forall j | 0 <= j < |node| :: node[j] == Only(own[|own| - 1 - j], tags))
    }

    method ExtractNext(temp: nat, node: seq<Fields>, ghost own: seq<Fields>) returns (nd: Fields)
      requires Valid() && temp < |own| && Done(own, temp + 1, node)
      modifies this
      ensures Valid() && Done(own, temp, node + [nd])
    {
      nd := ExtractNode(temp);
    }

    /** ExtractNodes1: every plan gets exactly its own fields, and the totals are sums over all plans. */
    method Extract(parse: string -> real) returns (nodes: seq<Fields>, statistic: Statistic)
      requires Valid()
      modifies this
      ensures Valid() && |nodes| == |fields| == |old(fields)|
      ensures forall i | 0 <= i < |nodes| ::
        nodes[i] == Only(old(fields)[i], tags) && fields[i] == Except(old(fields)[i], tags)
      ensures statistic == Summary(nodes, parse)
    {
      ghost var own := fields;
      var node: seq<Fields> := [];
      var st, temp := Statistic(0, 0.0, 0.0, 0.0, 0.0), |fields|;
      while temp > 0
        invariant Valid() && 0 <= temp && Done(own, temp, node) && st == Tally(node, parse, temp == 0)
      {
        temp := temp - 1;
        var nd := ExtractNext(temp, node, own);
        TallyMore(node, nd, parse, temp == 0);
        st := st.(operators := st.operators + 1);
        if IO in nd {
          st := st.(io := st.io + parse(nd[IO]));
        }
        if CPU in nd {
          st := st.(cpu := st.cpu + parse(nd[CPU]));
        }
        if POWER in nd {
          st := st.(power := st.power + parse(nd[POWER]));
        }
        if temp == 0 && COST in nd {
          st := st.(totalCost := parse(nd[COST]));
        }
        node := node + [nd];
      }
      nodes, statistic := Reverse(node), st;
      SummaryReversed(node, parse);
      forall i | 0 <= i < |nodes|
        ensures nodes[i] == node[|node| - 1 - i]
      {
        ReverseAt(node, i);
      }
    }
  }

  lemma TakenOne(own: Fields, tags: seq<string>, tag: string)
    ensures Except(own, tags + [tag]) == Except(own, tags) - {tag}
    ensures Only(own, tags + [tag]) == if tag in Except(own, tags) then Only(own, tags)[tag := own[tag]]
      else Only(own, tags)
  {
  }
}
