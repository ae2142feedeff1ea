/**
 * The recursive tree builder as a function of the builder state: what one call
 * networkTree(parent, numLeaves, level) does to the branch counter, the nodes and their
 * applications, the links, the subnet assignments and the interface container.
 */
module Tree {
  import opened Types
  import opened Echo

  /** The first octet of a subnet is LevelBase + level. */
  const LevelBase: int := 9
  /** The echo server installed on every child of a level-1 call. */
  const LeafServer: App := EchoServer(9, 1.0, 2000.0)

  /** The number of tree levels a call builds: `level` when positive, otherwise none. */
  function Depth(level: int): nat
  {
    if level > 0 then level else 0
  }

  function Pow(b: nat, k: nat): nat
  {
    if k == 0 then 1 else b * Pow(b, k - 1)
  }

  /** 1 + b + ... + b^(k-1) */
  function Geo(b: nat, k: nat): nat
  {
    if k == 0 then 0 else Geo(b, k - 1) + Pow(b, k - 1)
  }

  /** The geometric sum in the form the recursion produces it: one for this call, b subtrees of depth k. */
  lemma {:induction false} GeoUnfold(b: nat, k: nat)
    ensures Geo(b, k + 1) == 1 + b * Geo(b, k)
  {
    if k > 0 {
      GeoUnfold(b, k - 1);
      MulAdd(b, Geo(b, k - 1), Pow(b, k - 1));
    }
  }

  /** Distributivity, stated apart so that the solver meets the nonlinear step in isolation. */
  lemma MulAdd(b: int, x: int, y: int)
    ensures b * x + b * y == b * (x + y)
  {
  }

  /** Node ids first, first + 1, ..., first + count - 1 (a freshly created container). */
  function Range(first: nat, count: nat): (r: seq<nat>)
  {
    seq(count, i requires 0 <= i < count => first + i)
  }

  /** Each id occurs once in a range, and only the ids of the range occur. */
  lemma {:induction false} RangeCount(first: nat, count: nat, n: nat)
    ensures multiset(Range(first, count))[n] == if first <= n < first + count then 1 else 0
  {
    if count > 0 {
      RangeCount(first, count - 1, n);
      assert Range(first, count) == Range(first, count - 1) + [first + count - 1];
    }
  }

  /** The links that join `parent` to each of `count` new children, parent first. */
  function ChildLinks(parent: nat, first: nat, count: nat): seq<Link>
  {
    seq(count, i requires 0 <= i < count => Link(parent, first + i))
  }

  /** `count` new nodes, no application yet. */
  function FreshNodes(count: nat): seq<seq<App>>
  {
    seq(count, _ => [])
  }

  /**
   * networkTree(parent, b, level): for level > 0 create b children, join each to `parent`,
   * install the echo servers when level == 1, assign the subnets (recursing into each child
   * right after its own link) and finally advance the branch counter.
   */
  function Build(s: Net, parent: nat, b: nat, level: int): Net
    decreases Depth(level), 1, 0
  {
    if level <= 0 then s
    else
      var first := |s.apps|;
      var s1 := s.(apps := s.apps + FreshNodes(b), links := s.links + ChildLinks(parent, first, b));
      var s2 := if level == 1 then s1.(apps := AppendToAll(s1.apps, Range(first, b), LeafServer)) else s1;
      var s3 := AssignFrom(s2, parent, first, b, level, 0);
      s3.(branch := s3.branch + 1)
  }

  /**
   * The address loop of a call at `level` from link `i` on: link i gets subnet
   * (LevelBase + level).branch.(i + 1).0 with the counter's current value; at level 1 the
   * parent-side (.1) and child-side (.2) interfaces are appended; then child i's subtree is built.
   */
  function AssignFrom(s: Net, parent: nat, first: nat, b: nat, level: int, i: nat): Net
    requires 1 <= level && i <= b
    decreases level, 0, b - i
  {
    if i == b then s
    else AssignFrom(Build(LinkStep(s, parent, first, level, i), first + i, b, level - 1), parent, first, b, level, i + 1)
  }

  /**
   * Subnet (LevelBase + level).branch.(i + 1).0/24 for link i, read with the counter's current
   * value; the parent's device gets host .1 and the child's host .2, and only a level-1 call
   * appends the two interfaces, parent side first.
   */
  function LinkStep(s: Net, parent: nat, first: nat, level: int, i: nat): Net
  {
    var net := Subnet(LevelBase + level, s.branch, i + 1);
    s.(assigns := s.assigns + [Assignment(Link(parent, first + i), net)],
       ifaces := if level == 1
                 then s.ifaces + [Interface(parent, Address(net, 1)), Interface(first + i, Address(net, 2))]
                 else s.ifaces)
  }

  /** `t` only appended to `s`: every list of `s` is a prefix of the same list of `t`. */
  ghost predicate Extends(s: Net, t: Net)
  {
    |s.apps| <= |t.apps| && t.apps[..|s.apps|] == s.apps &&
    |s.links| <= |t.links| && t.links[..|s.links|] == s.links &&
    |s.assigns| <= |t.assigns| && t.assigns[..|s.assigns|] == s.assigns &&
    |s.ifaces| <= |t.ifaces| && t.ifaces[..|s.ifaces|] == s.ifaces
  }

  lemma ExtendsTrans(s: Net, t: Net, u: Net)
    requires Extends(s, t) && Extends(t, u)
    ensures Extends(s, u)
  {
    assert u.apps[..|s.apps|] == u.apps[..|t.apps|][..|s.apps|];
    assert u.links[..|s.links|] == u.links[..|t.links|][..|s.links|];
    assert u.assigns[..|s.assigns|] == u.assigns[..|t.assigns|][..|s.assigns|];
    assert u.ifaces[..|s.ifaces|] == u.ifaces[..|t.ifaces|][..|s.ifaces|];
  }

  /**
   * What a call at depth d = Depth(level) adds: the counter grows by 1 + b + ... + b^(d-1)
   * (one per call with level > 0); b + ... + b^d nodes, links and subnet assignments; and
   * 2 * b^d interface entries (two per link of a level-1 call). Nothing is removed or rewritten
   * and a call with level <= 0 changes nothing.
   */
  lemma {:induction false} BuildCounts(s: Net, parent: nat, b: nat, level: int)
    ensures var t := Build(s, parent, b, level); var d := Depth(level);
      Extends(s, t) &&
      t.branch == s.branch + Geo(b, d) &&
      |t.apps| == |s.apps| + b * Geo(b, d) &&
      |t.links| == |s.links| + b * Geo(b, d) &&
      |t.assigns| == |s.assigns| + b * Geo(b, d) &&
      |t.ifaces| == |s.ifaces| + (if d == 0 then 0 else 2 * Pow(b, d))
    ensures level <= 0 ==> Build(s, parent, b, level) == s
    decreases Depth(level), 1, 0
  {
    if level > 0 {
      var first := |s.apps|;
      var s2 := Prepared(s, parent, b, level);
      PreparedExtends(s, parent, b, level);
      AssignFromCounts(s2, parent, first, b, level, 0);
      var s3 := AssignFrom(s2, parent, first, b, level, 0);
      ExtendsTrans(s, s2, s3);
      var t := Build(s, parent, b, level);
      assert t == s3.(branch := s3.branch + 1);
      GeoUnfold(b, level - 1);
      CountsArith(b, Geo(b, level - 1), Geo(b, level), Pow(b, level - 1));
    }
  }

  /** Nonlinear rearrangements the count proofs need, kept out of the inductive lemmas' contexts. */
  lemma CountsArith(b: nat, g: nat, g': nat, p: nat)
    requires g' == 1 + b * g
    ensures b * g' == b + b * (b * g)
    ensures b * (1 + b * g) == b * g'
    ensures b * (2 * p) == 2 * (b * p)
  {
  }

  /** The state a call at level > 0 hands to its address loop: children created and linked, servers installed at level 1. */
  function Prepared(s: Net, parent: nat, b: nat, level: int): (s2: Net)
    requires level > 0
    ensures Build(s, parent, b, level) == var s3 := AssignFrom(s2, parent, |s.apps|, b, level, 0); s3.(branch := s3.branch + 1)
  {
    var first := |s.apps|;
    var s1 := s.(apps := s.apps + FreshNodes(b), links := s.links + ChildLinks(parent, first, b));
    if level == 1 then s1.(apps := AppendToAll(s1.apps, Range(first, b), LeafServer)) else s1
  }

  /** Creating the children and installing their servers touches no existing node. */
  lemma PreparedExtends(s: Net, parent: nat, b: nat, level: int)
    requires level > 0
    ensures var s2 := Prepared(s, parent, b, level);
      Extends(s, s2) && s2.branch == s.branch && |s2.apps| == |s.apps| + b &&
      s2.links == s.links + ChildLinks(parent, |s.apps|, b) &&
      s2.assigns == s.assigns && s2.ifaces == s.ifaces &&
      forall n :: |s.apps| <= n < |s2.apps| ==> s2.apps[n] == if level == 1 then [LeafServer] else []
  {
    var first := |s.apps|;
    var s1 := s.(apps := s.apps + FreshNodes(b), links := s.links + ChildLinks(parent, first, b));
    var s2 := Prepared(s, parent, b, level);
    forall n | 0 <= n < |s2.apps|
      ensures s2.apps[n] == if n < first then s.apps[n] else if level == 1 then [LeafServer] else []
    {
      if level == 1 {
        AppendToAllAt(s1.apps, Range(first, b), LeafServer, n);
        RangeCount(first, b, n);
        assert Repeat(LeafServer, 1) == [LeafServer];
      }
    }
  }

  /** What the address loop adds from link i on: per remaining link, one call's worth at level - 1 plus the link's own assignment. */
  lemma {:induction false} AssignFromCounts(s: Net, parent: nat, first: nat, b: nat, level: int, i: nat)
    requires 1 <= level && i <= b
    ensures var t := AssignFrom(s, parent, first, b, level, i); var g := Geo(b, level - 1);
      Extends(s, t) && s.branch <= t.branch &&
      t.branch == s.branch + (b - i) * g &&
      |t.apps| == |s.apps| + (b - i) * (b * g) &&
      |t.links| == |s.links| + (b - i) * (b * g) &&
      |t.assigns| == |s.assigns| + (b - i) * (1 + b * g) &&
      |t.ifaces| == |s.ifaces| + (b - i) * (2 * Pow(b, level - 1))
    decreases level, 0, b - i
  {
    if i < b {
      var s1 := LinkStep(s, parent, first, level, i);
      assert Extends(s, s1);
      BuildCounts(s1, first + i, b, level - 1);
      var s2 := Build(s1, first + i, b, level - 1);
      ExtendsTrans(s, s1, s2);
      AssignFromCounts(s2, parent, first, b, level, i + 1);
      var t := AssignFrom(s2, parent, first, b, level, i + 1);
      ExtendsTrans(s, s2, t);
      var g := Geo(b, level - 1);
      MulSucc(b - i - 1, g);
      MulSucc(b - i - 1, b * g);
      MulSucc(b - i - 1, 1 + b * g);
      MulSucc(b - i - 1, 2 * Pow(b, level - 1));
    }
  }

  /**
   * A call at level > 0 creates b children of `parent` first: its first b new links join
   * `parent` to new nodes |s.apps|, |s.apps| + 1, ..., in order and parent first.
   */
  lemma BuildChildLinks(s: Net, parent: nat, b: nat, level: int)
    requires level > 0
    ensures var t := Build(s, parent, b, level);
      |s.links| + b <= |t.links| && |s.apps| + b <= |t.apps| &&
      forall k :: |s.links| <= k < |s.links| + b ==> t.links[k] == Link(parent, |s.apps| + (k - |s.links|))
  {
    var s2 := Prepared(s, parent, b, level);
    PreparedExtends(s, parent, b, level);
    AssignFromCounts(s2, parent, |s.apps|, b, level, 0);
    var s3 := AssignFrom(s2, parent, |s.apps|, b, level, 0);
    var t := Build(s, parent, b, level);
    assert t.links == s3.links && t.apps == s3.apps;
    forall k | |s.links| <= k < |s.links| + b
      ensures t.links[k] == Link(parent, |s.apps| + (k - |s.links|))
    {
      assert t.links[k] == s3.links[..|s2.links|][k] == s2.links[k];
    }
  }

  /**
   * The links a call adds form a tree hanging from `parent`: the k-th new link leads to the
   * k-th new node, so every new node has exactly one link to it, and that link's first device
   * is `parent` or a node created earlier in the same call.
   */
  lemma {:induction false} BuildLinks(s: Net, parent: nat, b: nat, level: int)
    ensures var t := Build(s, parent, b, level);
      forall k :: |s.links| <= k < |t.links| ==>
        t.links[k].child == |s.apps| + (k - |s.links|) &&
        (t.links[k].parent == parent || |s.apps| <= t.links[k].parent < t.links[k].child)
    decreases Depth(level), 1, 0
  {
    if level > 0 {
      var first := |s.apps|;
      var s2 := Prepared(s, parent, b, level);
      PreparedExtends(s, parent, b, level);
      AssignFromLinks(s2, parent, first, b, level, 0);
      AssignFromCounts(s2, parent, first, b, level, 0);
      var t := Build(s, parent, b, level);
      forall k | |s.links| <= k < |t.links|
        ensures t.links[k].child == first + (k - |s.links|)
        ensures t.links[k].parent == parent || first <= t.links[k].parent < t.links[k].child
      {
        if k < |s2.links| {
          assert t.links[k] == s2.links[k];
        }
      }
    }
  }

  /** The links the address loop adds from link i on: those of the subtrees of children i, i + 1, ... */
  lemma {:induction false} AssignFromLinks(s: Net, parent: nat, first: nat, b: nat, level: int, i: nat)
    requires 1 <= level && i <= b
    ensures var t := AssignFrom(s, parent, first, b, level, i);
      forall k :: |s.links| <= k < |t.links| ==>
        t.links[k].child == |s.apps| + (k - |s.links|) &&
        (first <= t.links[k].parent < first + b || |s.apps| <= t.links[k].parent < t.links[k].child)
    decreases level, 0, b - i
  {
    if i < b {
      var s1 := LinkStep(s, parent, first, level, i);
      BuildLinks(s1, first + i, b, level - 1);
      BuildCounts(s1, first + i, b, level - 1);
      var s2 := Build(s1, first + i, b, level - 1);
      AssignFromLinks(s2, parent, first, b, level, i + 1);
      AssignFromCounts(s2, parent, first, b, level, i + 1);
      var t := AssignFrom(s2, parent, first, b, level, i + 1);
      assert |s2.apps| - |s.apps| == |s2.links| - |s.links|;
      forall k | |s.links| <= k < |t.links|
        ensures t.links[k].child == |s.apps| + (k - |s.links|)
        ensures first <= t.links[k].parent < first + b || |s.apps| <= t.links[k].parent < t.links[k].child
      {
        if k < |s2.links| {
          assert t.links[k] == s2.links[k];
        }
      }
    }
  }

  /** No two assignments of `xs` give out the same subnet. */
  ghost predicate UniqueNets(xs: seq<Assignment>)
  {
    forall j, k :: 0 <= j < k < |xs| ==> xs[j].net != xs[k].net
  }

  /** No two assignments at positions from..to-1 of `xs` give out the same subnet. */
  ghost predicate UniqueIn(xs: seq<Assignment>, from: nat, to: nat)
    requires from <= to <= |xs|
  {
    forall j, k :: from <= j < k < to ==> xs[j].net != xs[k].net
  }

  /**
   * Positions from..to-1 of `xs` use first octets LevelBase + 1 .. top, branches lo .. hi and
   * third octets 1 .. wide.
   */
  ghost predicate BandIn(xs: seq<Assignment>, from: nat, to: nat, lo: int, hi: int, top: int, wide: int)
    requires from <= to <= |xs|
  {
    forall k :: from <= k < to ==>
      LevelBase + 1 <= xs[k].net.o1 <= top && lo <= xs[k].net.o2 <= hi && 1 <= xs[k].net.o3 <= wide
  }

  /** Positions from..to-1 of `xs` with first octet `o1` have a third octet above `i`. */
  ghost predicate AboveIn(xs: seq<Assignment>, from: nat, to: nat, o1: int, i: int)
    requires from <= to <= |xs|
  {
    forall k :: from <= k < to && xs[k].net.o1 == o1 ==> xs[k].net.o3 > i
  }

  /** What holds of a prefix holds of a longer list with that prefix. */
  lemma PrefixKeeps(ys: seq<Assignment>, xs: seq<Assignment>, from: nat, to: nat, lo: int, hi: int, top: int, wide: int)
    requires |ys| <= |xs| && xs[..|ys|] == ys && from <= to <= |ys|
    ensures BandIn(ys, from, to, lo, hi, top, wide) ==> BandIn(xs, from, to, lo, hi, top, wide)
    ensures UniqueIn(ys, from, to) ==> UniqueIn(xs, from, to)
  {
    assert forall k :: 0 <= k < |ys| ==> xs[k] == ys[k];
  }

  /**
   * One round of the address loop: link i's own subnet (this level, branch lo, third octet
   * i + 1), then the subtree's subnets (lower levels, branches lo .. mid - 1), then the rest of
   * the loop (branches mid .. hi, third octet above i + 1 at this level) are all distinct.
   */
  lemma AssignStepSubnets(xs: seq<Assignment>, x: nat, m: nat, level: int, i: nat, b: nat, lo: int, mid: int, hi: int)
    requires x < m <= |xs| && level >= 1 && lo <= mid <= hi && i < b
    requires xs[x].net == Subnet(LevelBase + level, lo, i + 1)
    requires BandIn(xs, x + 1, m, lo, mid - 1, LevelBase + level - 1, b) && UniqueIn(xs, x + 1, m)
    requires BandIn(xs, m, |xs|, mid, hi, LevelBase + level, b) && AboveIn(xs, m, |xs|, LevelBase + level, i + 1)
    requires UniqueIn(xs, m, |xs|)
    ensures BandIn(xs, x, |xs|, lo, hi, LevelBase + level, b) && AboveIn(xs, x, |xs|, LevelBase + level, i)
    ensures UniqueIn(xs, x, |xs|)
  {
  }

  /**
   * The subnets a call at `level` assigns: first octet between LevelBase + 1 and
   * LevelBase + level, second octet (the branch) at least the counter's value at the call and
   * below its value after the call, and no subnet twice.
   */
  lemma {:induction false} BuildSubnets(s: Net, parent: nat, b: nat, level: int)
    ensures var t := Build(s, parent, b, level);
      |s.assigns| <= |t.assigns| &&
      BandIn(t.assigns, |s.assigns|, |t.assigns|, s.branch, t.branch - 1, LevelBase + level, b) &&
      UniqueIn(t.assigns, |s.assigns|, |t.assigns|)
    decreases Depth(level), 1, 0
  {
    BuildCounts(s, parent, b, level);
    if level > 0 {
      var first := |s.apps|;
      var s2 := Prepared(s, parent, b, level);
      PreparedExtends(s, parent, b, level);
      AssignFromSubnets(s2, parent, first, b, level, 0);
      var s3 := AssignFrom(s2, parent, first, b, level, 0);
      assert Build(s, parent, b, level) == s3.(branch := s3.branch + 1);
    }
  }

  /**
   * The subnets the address loop assigns from link i on: the links of this call use first octet
   * LevelBase + level and third octet above i; the branch stays between the counter's values
   * before and after the loop; no subnet twice.
   */
  lemma {:induction false} AssignFromSubnets(s: Net, parent: nat, first: nat, b: nat, level: int, i: nat)
    requires 1 <= level && i <= b
    ensures var t := AssignFrom(s, parent, first, b, level, i);
      |s.assigns| <= |t.assigns| &&
      BandIn(t.assigns, |s.assigns|, |t.assigns|, s.branch, t.branch, LevelBase + level, b) &&
      AboveIn(t.assigns, |s.assigns|, |t.assigns|, LevelBase + level, i) &&
      UniqueIn(t.assigns, |s.assigns|, |t.assigns|)
    decreases level, 0, b - i
  {
    if i < b {
      var s1 := LinkStep(s, parent, first, level, i);
      BuildSubnets(s1, first + i, b, level - 1);
      BuildCounts(s1, first + i, b, level - 1);
      var s2 := Build(s1, first + i, b, level - 1);
      AssignFromSubnets(s2, parent, first, b, level, i + 1);
      AssignFromCounts(s2, parent, first, b, level, i + 1);
      var t := AssignFrom(s2, parent, first, b, level, i + 1);
      assert s2.assigns[|s.assigns|] == s1.assigns[|s.assigns|];
      SubnetsRound(s, s2, t, level, i, b);
      assert AssignFrom(s, parent, first, b, level, i) == t;
    } else {
      assert AssignFrom(s, parent, first, b, level, i) == s;
    }
  }

  /** One round of the address loop in terms of the states before it, after the subtree and after the loop. */
  lemma SubnetsRound(s: Net, s2: Net, t: Net, level: int, i: nat, b: nat)
    requires level >= 1 && i < b
    requires |s.assigns| < |s2.assigns| <= |t.assigns| && t.assigns[..|s2.assigns|] == s2.assigns
    requires s.branch <= s2.branch <= t.branch
    requires s2.assigns[|s.assigns|].net == Subnet(LevelBase + level, s.branch, i + 1)
    requires BandIn(s2.assigns, |s.assigns| + 1, |s2.assigns|, s.branch, s2.branch - 1, LevelBase + level - 1, b)
    requires UniqueIn(s2.assigns, |s.assigns| + 1, |s2.assigns|)
    requires BandIn(t.assigns, |s2.assigns|, |t.assigns|, s2.branch, t.branch, LevelBase + level, b)
    requires AboveIn(t.assigns, |s2.assigns|, |t.assigns|, LevelBase + level, i + 1)
    requires UniqueIn(t.assigns, |s2.assigns|, |t.assigns|)
    ensures BandIn(t.assigns, |s.assigns|, |t.assigns|, s.branch, t.branch, LevelBase + level, b)
    ensures AboveIn(t.assigns, |s.assigns|, |t.assigns|, LevelBase + level, i)
    ensures UniqueIn(t.assigns, |s.assigns|, |t.assigns|)
  {
    var x := |s.assigns|;
    PrefixKeeps(s2.assigns, t.assigns, x + 1, |s2.assigns|, s.branch, s2.branch - 1, LevelBase + level - 1, b);
    assert t.assigns[x] == s2.assigns[x];
    AssignStepSubnets(t.assigns, x, |s2.assigns|, level, i, b, s.branch, s2.branch, t.branch);
  }

  /** The counter is above every branch already used and no subnet has been given out twice. */
  ghost predicate SubnetsFresh(s: Net)
  {
    UniqueNets(s.assigns) && forall k :: 0 <= k < |s.assigns| ==> s.assigns[k].net.o2 < s.branch
  }

  /**
   * Collision freedom: a call keeps every subnet ever assigned distinct from every other, and
   * the counter above all of them, so successive top-level calls stay collision-free too.
   */
  lemma BuildKeepsSubnetsFresh(s: Net, parent: nat, b: nat, level: int)
    requires SubnetsFresh(s)
    ensures SubnetsFresh(Build(s, parent, b, level))
  {
    BuildSubnets(s, parent, b, level);
    BuildCounts(s, parent, b, level);
    var t := Build(s, parent, b, level);
    forall j, k | 0 <= j < k < |t.assigns|
      ensures t.assigns[j].net != t.assigns[k].net
    {
      if k < |s.assigns| {
        assert t.assigns[j] == s.assigns[j] && t.assigns[k] == s.assigns[k];
      } else if j < |s.assigns| {
        assert t.assigns[j] == s.assigns[j];
      }
    }
    forall k | 0 <= k < |t.assigns|
      ensures t.assigns[k].net.o2 < t.branch
    {
      if k < |s.assigns| {
        assert t.assigns[k] == s.assigns[k];
      }
    }
  }

  /**
   * Link i of a call at level >= 1 joins `parent` to the call's i-th new node and gets subnet
   * (LevelBase + level).(B + i * g).(i + 1).0, where B is the counter at the call and g the
   * counter increments of one subtree: its assignment is preceded by i whole subtrees.
   */
  lemma CallLinkSubnet(s: Net, parent: nat, b: nat, level: int, i: nat)
    requires 1 <= level && i < b
    ensures var t := Build(s, parent, b, level); var at := |s.assigns| + i * Geo(b, level);
      at < |t.assigns| &&
      t.assigns[at] == Assignment(Link(parent, |s.apps| + i), Subnet(LevelBase + level, s.branch + i * Geo(b, level - 1), i + 1))
  {
    var s2 := Prepared(s, parent, b, level);
    PreparedExtends(s, parent, b, level);
    GeoUnfold(b, level - 1);
    AssignFromLinkAt(s2, parent, |s.apps|, b, level, 0, i, Geo(b, level - 1), Geo(b, level));
    var s3 := AssignFrom(s2, parent, |s.apps|, b, level, 0);
    assert Build(s, parent, b, level).assigns == s3.assigns;
  }

  /** One round of the address loop, as seen by the assignment list and the counter. */
  lemma AssignRound(s: Net, parent: nat, first: nat, b: nat, level: int, i: nat)
    requires 1 <= level && i < b
    ensures var s2 := Build(LinkStep(s, parent, first, level, i), first + i, b, level - 1);
      AssignFrom(s, parent, first, b, level, i) == AssignFrom(s2, parent, first, b, level, i + 1) &&
      |s2.assigns| == |s.assigns| + 1 + b * Geo(b, level - 1) &&
      s2.branch == s.branch + Geo(b, level - 1) &&
      s2.assigns[|s.assigns|] == Assignment(Link(parent, first + i), Subnet(LevelBase + level, s.branch, i + 1))
  {
    var s1 := LinkStep(s, parent, first, level, i);
    BuildCounts(s1, first + i, b, level - 1);
    var s2 := Build(s1, first + i, b, level - 1);
    assert s2.assigns[|s.assigns|] == s2.assigns[..|s1.assigns|][|s.assigns|];
  }

  /** The address loop only appends assignments. */
  lemma AssignFromKeepsAssigns(s: Net, parent: nat, first: nat, b: nat, level: int, i: nat)
    requires 1 <= level && i <= b
    ensures var t := AssignFrom(s, parent, first, b, level, i);
      |s.assigns| <= |t.assigns| && forall k :: 0 <= k < |s.assigns| ==> t.assigns[k] == s.assigns[k]
  {
    AssignFromCounts(s, parent, first, b, level, i);
    var t := AssignFrom(s, parent, first, b, level, i);
    assert forall k :: 0 <= k < |s.assigns| ==> t.assigns[k] == t.assigns[..|s.assigns|][k];
  }

  /** Link i's assignment sits after i - i0 rounds of c = 1 + b * g assignments, g being one subtree's counter increments. */
  lemma {:induction false} AssignFromLinkAt(s: Net, parent: nat, first: nat, b: nat, level: int, i0: nat, i: nat, g: nat, c: nat)
    requires 1 <= level && i0 <= i < b
    requires g == Geo(b, level - 1) && c == 1 + b * g
    ensures var t := AssignFrom(s, parent, first, b, level, i0);
      |s.assigns| + (i - i0) * c < |t.assigns| &&
      t.assigns[|s.assigns| + (i - i0) * c] == Assignment(Link(parent, first + i), Subnet(LevelBase + level, s.branch + (i - i0) * g, i + 1))
    decreases i - i0
  {
    AssignRound(s, parent, first, b, level, i0);
    var s2 := Build(LinkStep(s, parent, first, level, i0), first + i0, b, level - 1);
    AssignFromKeepsAssigns(s2, parent, first, b, level, i0 + 1);
    var t := AssignFrom(s2, parent, first, b, level, i0 + 1);
    assert AssignFrom(s, parent, first, b, level, i0) == t;
    if i0 == i {
      MulSucc(0, c);
      MulSucc(0, g);
      assert t.assigns[|s.assigns|] == s2.assigns[|s.assigns|];
    } else {
      var k := i - i0 - 1;
      AssignFromLinkAt(s2, parent, first, b, level, i0 + 1, i, g, c);
      MulSucc(k, c);
      MulSucc(k, g);
      assert |s2.assigns| + k * c == |s.assigns| + (i - i0) * c;
      assert s2.branch + k * g == s.branch + (i - i0) * g;
    }
  }

  /** Arithmetic steps of the position and branch closed forms, stated apart for the solver. */
  lemma MulZero(b: int)
    ensures b * 0 == 0
  {
  }

  lemma MulSucc(k: nat, c: int)
    ensures k * c + c == (k + 1) * c && 0 * c == 0
  {
  }

  /**
   * Siblings' subnets: in a level-1 call every link uses the counter value at the call; in a
   * call at level >= 2 a later sibling's branch is strictly greater, because the earlier
   * sibling's subtree advanced the counter in between.
   */
  lemma SiblingBranches(s: Net, parent: nat, b: nat, level: int, i: nat, j: nat)
    requires 1 <= level && i < j < b
    ensures var t := Build(s, parent, b, level); var g := Geo(b, level);
      |s.assigns| + i * g < |s.assigns| + j * g < |t.assigns| &&
      (level == 1 ==> t.assigns[|s.assigns| + i * g].net.o2 == t.assigns[|s.assigns| + j * g].net.o2 == s.branch) &&
      (level >= 2 ==> t.assigns[|s.assigns| + i * g].net.o2 < t.assigns[|s.assigns| + j * g].net.o2)
  {
    CallLinkSubnet(s, parent, b, level, i);
    CallLinkSubnet(s, parent, b, level, j);
    GeoUnfold(b, level - 1);
    var g := Geo(b, level - 1);
    assert Geo(b, level) >= 1;
    MulStrict(i, j, Geo(b, level));
    if level >= 2 {
      assert Geo(b, level - 1) == Geo(b, level - 2) + Pow(b, level - 2) >= 1 by {
        PowPositive(b, level - 2);
      }
      MulStrict(i, j, g);
    } else {
      assert g == 0;
    }
  }

  /** Multiplying by a positive factor keeps a strict order; an arithmetic step for the solver. */
  lemma MulStrict(i: nat, j: nat, g: nat)
    requires i < j && g >= 1
    ensures i * g < j * g
  {
    assert j * g == i * g + (j - i) * g;
  }

  lemma {:induction false} PowPositive(b: nat, k: nat)
    ensures b > 0 ==> Pow(b, k) > 0
    ensures k == 0 ==> Pow(b, k) == 1
  {
    if k > 0 {
      PowPositive(b, k - 1);
    }
  }

  /**
   * The interface container as the level-1 calls fill it: entries alternate parent side (host .1)
   * and child side (host .2); each pair shares the subnet assigned to the link between the two
   * nodes, that link exists with the parent first, and the child-side node carries exactly the
   * leaf echo server.
   */
  ghost predicate LeafInterfaces(s: Net)
  {
    |s.ifaces| % 2 == 0 && forall k :: 0 <= k < |s.ifaces| ==> LeafEntry(s, k)
  }

  /** Entry k of the interface container: its host by parity and, on the child side, its pair's link, subnet and server. */
  ghost predicate LeafEntry(s: Net, k: nat)
    requires k < |s.ifaces|
  {
    s.ifaces[k].addr.host == (if k % 2 == 0 then 1 else 2) &&
    (k % 2 == 1 ==>
      s.ifaces[k].addr.net == s.ifaces[k - 1].addr.net &&
      Link(s.ifaces[k - 1].node, s.ifaces[k].node) in s.links &&
      Assignment(Link(s.ifaces[k - 1].node, s.ifaces[k].node), s.ifaces[k].addr.net) in s.assigns &&
      s.ifaces[k].node < |s.apps| && s.apps[s.ifaces[k].node] == [LeafServer])
  }

  /** Appending nodes, links and assignments, without touching the interfaces, keeps the invariant. */
  lemma LeafInterfacesGrow(s: Net, t: Net)
    requires LeafInterfaces(s) && Extends(s, t) && t.ifaces == s.ifaces
    ensures LeafInterfaces(t)
  {
    forall k | 0 <= k < |t.ifaces|
      ensures LeafEntry(t, k)
    {
      assert LeafEntry(s, k);
      if k % 2 == 1 {
        var l := Link(t.ifaces[k - 1].node, t.ifaces[k].node);
        assert l in t.links[..|s.links|];
        assert Assignment(l, t.ifaces[k].addr.net) in t.assigns[..|s.assigns|];
        assert t.apps[t.ifaces[k].node] == t.apps[..|s.apps|][t.ifaces[k].node];
      }
    }
  }

  /** A call keeps the interface container alternating and every child-side entry a served leaf. */
  lemma {:induction false} BuildIfaces(s: Net, parent: nat, b: nat, level: int)
    requires LeafInterfaces(s)
    ensures LeafInterfaces(Build(s, parent, b, level))
    decreases Depth(level), 1, 0
  {
    if level > 0 {
      var first := |s.apps|;
      var s2 := Prepared(s, parent, b, level);
      PreparedExtends(s, parent, b, level);
      LeafInterfacesGrow(s, s2);
      if level == 1 {
        forall n | first <= n < first + b
          ensures n < |s2.apps| && s2.apps[n] == [LeafServer] && Link(parent, n) in s2.links
        {
          assert s2.links[|s.links| + (n - first)] == Link(parent, n);
        }
        assert ServedChildren(s2, parent, first, first + b);
      }
      AssignFromIfaces(s2, parent, first, b, level, 0);
      var s3 := AssignFrom(s2, parent, first, b, level, 0);
      var t := Build(s, parent, b, level);
      assert t == s3.(branch := s3.branch + 1);
      assert Extends(s3, t);
      LeafInterfacesGrow(s3, t);
    } else {
      assert Build(s, parent, b, level) == s;
    }
  }

  lemma {:induction false} AssignFromIfaces(s: Net, parent: nat, first: nat, b: nat, level: int, i: nat)
    requires 1 <= level && i <= b && LeafInterfaces(s)
    requires level == 1 ==> ServedChildren(s, parent, first + i, first + b)
    ensures LeafInterfaces(AssignFrom(s, parent, first, b, level, i))
    decreases level, 0, b - i
  {
    if i < b {
      var s1 := LinkStep(s, parent, first, level, i);
      if level == 1 {
        ServedChildrenFirst(s, parent, first + i, first + b);
        LinkStepIfaces(s, parent, first, i);
      } else {
        assert Extends(s, s1);
        LeafInterfacesGrow(s, s1);
      }
      BuildIfaces(s1, first + i, b, level - 1);
      var s2 := Build(s1, first + i, b, level - 1);
      if level == 1 {
        assert s2 == s1;
        ServedChildrenRest(s, s2, parent, first + i, first + b);
      }
      AssignFromIfaces(s2, parent, first, b, level, i + 1);
      assert AssignFrom(s, parent, first, b, level, i) == AssignFrom(s2, parent, first, b, level, i + 1);
    } else {
      assert AssignFrom(s, parent, first, b, level, i) == s;
    }
  }

  /** Nodes lo .. hi - 1 exist, carry exactly the leaf server and are linked from `parent`. */
  ghost predicate ServedChildren(s: Net, parent: nat, lo: nat, hi: nat)
  {
    hi <= |s.apps| && forall n: nat :: lo <= n < hi ==> s.apps[n] == [LeafServer] && Link(parent, n) in s.links
  }

  lemma ServedChildrenFirst(s: Net, parent: nat, lo: nat, hi: nat)
    requires ServedChildren(s, parent, lo, hi) && lo < hi
    ensures lo < |s.apps| && s.apps[lo] == [LeafServer] && Link(parent, lo) in s.links
  {
  }

  lemma ServedChildrenRest(s: Net, t: Net, parent: nat, lo: nat, hi: nat)
    requires ServedChildren(s, parent, lo, hi) && t.apps == s.apps && t.links == s.links
    ensures ServedChildren(t, parent, lo + 1, hi)
  {
    forall n: nat | lo + 1 <= n < hi
      ensures t.apps[n] == [LeafServer] && Link(parent, n) in t.links
    {
      assert s.apps[n] == [LeafServer] && Link(parent, n) in s.links;
    }
  }

  /**
   * At level 1 one address round appends exactly two interface entries, after the old ones: the
   * parent's device as host .1, then child first + i's device as host .2, both in the subnet the
   * same round assigns to the link parent -> first + i. The invariant therefore carries over.
   */
  lemma LinkStepIfaces(s: Net, parent: nat, first: nat, i: nat)
    requires LeafInterfaces(s)
    requires first + i < |s.apps| && s.apps[first + i] == [LeafServer] && Link(parent, first + i) in s.links
    ensures var t := LinkStep(s, parent, first, 1, i); var n := |s.ifaces|;
      |t.ifaces| == n + 2 && t.ifaces[..n] == s.ifaces &&
      |t.assigns| == |s.assigns| + 1 && t.assigns[..|s.assigns|] == s.assigns &&
      t.assigns[|s.assigns|].link == Link(parent, first + i) &&
      t.ifaces[n] == Interface(parent, Address(t.assigns[|s.assigns|].net, 1)) &&
      t.ifaces[n + 1] == Interface(first + i, Address(t.assigns[|s.assigns|].net, 2))
    ensures LeafInterfaces(LinkStep(s, parent, first, 1, i))
  {
    var t := LinkStep(s, parent, first, 1, i);
    var n := |s.ifaces|;
    assert t.links == s.links && t.apps == s.apps && |t.ifaces| == n + 2;
    var net := Subnet(LevelBase + 1, s.branch, i + 1);
    assert t.ifaces[n] == Interface(parent, Address(net, 1));
    assert t.ifaces[n + 1] == Interface(first + i, Address(net, 2));
    assert t.assigns[|s.assigns|] == Assignment(Link(parent, first + i), net);
    forall k | 0 <= k < |t.ifaces|
      ensures LeafEntry(t, k)
    {
      if k < n {
        assert LeafEntry(s, k);
        assert t.ifaces[k] == s.ifaces[k];
        if k % 2 == 1 {
          assert t.ifaces[k - 1] == s.ifaces[k - 1];
          assert s.assigns <= t.assigns;
        }
      }
    }
    assert t.ifaces[..n] == s.ifaces && t.assigns[..|s.assigns|] == s.assigns;
  }

  /** How many of the application lists are exactly the leaf server. */
  function ServerCount(xs: seq<seq<App>>): nat
  {
    if xs == [] then 0
    else ServerCount(xs[..|xs| - 1]) + (if xs[|xs| - 1] == [LeafServer] then 1 else 0)
  }

  lemma {:induction false} ServerCountAppend(xs: seq<seq<App>>, ys: seq<seq<App>>)
    ensures ServerCount(xs + ys) == ServerCount(xs) + ServerCount(ys)
    decreases |ys|
  {
    if ys == [] {
      assert xs + ys == xs;
    } else {
      var ys' := ys[..|ys| - 1];
      ServerCountAppend(xs, ys');
      assert (xs + ys)[..|xs + ys| - 1] == xs + ys';
      assert (xs + ys)[|xs + ys| - 1] == ys[|ys| - 1];
    }
  }

  lemma {:induction false} ServerCountUniform(xs: seq<seq<App>>, x: seq<App>)
    requires forall n :: 0 <= n < |xs| ==> xs[n] == x
    ensures ServerCount(xs) == if x == [LeafServer] then |xs| else 0
    decreases |xs|
  {
    if xs != [] {
      ServerCountUniform(xs[..|xs| - 1], x);
    }
  }

  /**
   * Servers go exactly to the children of level-1 calls: every node a call creates ends up with
   * no application or with exactly the leaf server, and b^d of them carry the server.
   */
  lemma {:induction false} BuildServers(s: Net, parent: nat, b: nat, level: int)
    ensures var t := Build(s, parent, b, level);
      |s.apps| <= |t.apps| && BareOrServed(s, t) &&
      ServerCount(t.apps[|s.apps|..]) == if level > 0 then Pow(b, level) else 0
    decreases Depth(level), 1, 0
  {
    if level > 0 {
      var first := |s.apps|;
      var s2 := Prepared(s, parent, b, level);
      PreparedExtends(s, parent, b, level);
      AssignFromServers(s2, parent, first, b, level, 0);
      AssignFromCounts(s2, parent, first, b, level, 0);
      var t := Build(s, parent, b, level);
      var s3 := AssignFrom(s2, parent, first, b, level, 0);
      assert t.apps == s3.apps;
      ServerCountUniform(s2.apps[first..], if level == 1 then [LeafServer] else []);
      ServersJoin(s, s2, t);
      if level == 1 {
        MulZero(b);
        assert ServerCount(t.apps[|s2.apps|..]) == 0;
      } else {
        assert ServerCount(s2.apps[first..]) == 0;
        assert Pow(b, level) == b * Pow(b, level - 1);
      }
    } else {
      var t := Build(s, parent, b, level);
      assert t == s;
      assert t.apps[|s.apps|..] == [];
    }
  }

  lemma {:induction false} AssignFromServers(s: Net, parent: nat, first: nat, b: nat, level: int, i: nat)
    requires 1 <= level && i <= b
    ensures var t := AssignFrom(s, parent, first, b, level, i);
      |s.apps| <= |t.apps| && BareOrServed(s, t) &&
      ServerCount(t.apps[|s.apps|..]) == (b - i) * (if level > 1 then Pow(b, level - 1) else 0)
    decreases level, 0, b - i
  {
    if i < b {
      var s1 := LinkStep(s, parent, first, level, i);
      BuildServers(s1, first + i, b, level - 1);
      BuildCounts(s1, first + i, b, level - 1);
      var s2 := Build(s1, first + i, b, level - 1);
      AssignFromServers(s2, parent, first, b, level, i + 1);
      AssignFromCounts(s2, parent, first, b, level, i + 1);
      var t := AssignFrom(s2, parent, first, b, level, i + 1);
      assert AssignFrom(s, parent, first, b, level, i) == t;
      assert s1.apps == s.apps;
      ServersJoin(s, s2, t);
      var p := if level > 1 then Pow(b, level - 1) else 0;
      MulSucc(b - i - 1, p);
    } else {
      assert AssignFrom(s, parent, first, b, level, i) == s;
      assert s.apps[|s.apps|..] == [];
    }
  }

  /** Every list from position |s.apps| on is bare or exactly the leaf server. */
  ghost predicate BareOrServed(s: Net, t: Net)
  {
    forall n :: |s.apps| <= n < |t.apps| ==> t.apps[n] == [] || t.apps[n] == [LeafServer]
  }

  /** Server counts and shapes of two consecutive stretches of new nodes add up. */
  lemma ServersJoin(s: Net, s2: Net, t: Net)
    requires |s.apps| <= |s2.apps| <= |t.apps| && t.apps[..|s2.apps|] == s2.apps
    requires BareOrServed(s, s2) && BareOrServed(s2, t)
    ensures BareOrServed(s, t)
    ensures ServerCount(t.apps[|s.apps|..]) == ServerCount(s2.apps[|s.apps|..]) + ServerCount(t.apps[|s2.apps|..])
  {
    var m := |s.apps|;
    assert t.apps[m..] == s2.apps[m..] + t.apps[|s2.apps|..];
    ServerCountAppend(s2.apps[m..], t.apps[|s2.apps|..]);
    forall n | m <= n < |t.apps|
      ensures t.apps[n] == [] || t.apps[n] == [LeafServer]
    {
      if n < |s2.apps| {
        assert t.apps[n] == s2.apps[n];
      }
    }
  }

  /**
   * The driver's call networkTree(client, 3, 2) on a fresh counter: 12 new nodes and links,
   * 3^2 = 9 served leaves (not 3 * 2 = 6), 18 interface entries and a counter of 1 + 4 = 5.
   */
  lemma MainTopology(s: Net)
    requires s == Net(1, [[]], [], [], [])
    ensures var t := Build(s, 0, 3, 2);
      |t.apps| == 13 && |t.links| == 12 && |t.assigns| == 12 && |t.ifaces| == 18 && t.branch == 5 &&
      ServerCount(t.apps[1..]) == 9 && t.apps[0] == []
  {
    assert Pow(3, 2) == 9 && Geo(3, 2) == 4;
    BuildCounts(s, 0, 3, 2);
    BuildServers(s, 0, 3, 2);
    var t := Build(s, 0, 3, 2);
    assert t.apps[0] == t.apps[..1][0];
  }
}
