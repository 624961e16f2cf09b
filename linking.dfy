/**
 * The union step of the clustering (mergic's `_link_items`, and its copies
 * in groups.py and partition_make.py). `belongings` maps every item to the
 * tuple of its group; linking two items from different groups points every
 * member of both at their concatenation.
 *
 * Python compares the two groups with `is`. Here groups are values and the
 * test is `==`; under `GroupMap` (each item's group holds it, and every
 * member of a group points at that very group) two groups are equal exactly
 * when they are the same group, which is what `is` decides for the dicts
 * that the clustering builds.
 */
module Linking {
  import opened Partitions

  type Group = seq<Item>
  type Belonging = map<Item, Group>
  type Link = (Item, Item)

  /** Each item sits in its own group, listed once, and the group's members all point at it. */
  predicate GroupMap(b: Belonging) {
    forall x | x in b :: x in b[x] && NoDup(b[x]) && forall y | y in b[x] :: y in b && b[y] == b[x]
  }

  /** The starting dict `{item: (item,) for item in items}`. */
  function Singletons(items: seq<Item>): (b: Belonging)
    ensures b.Keys == Elems(items) && GroupMap(b)
  {
    map x | x in items :: [x]
  }

  /** The groups of `b` (each one once). */
  function Groups(b: Belonging): set<Group> {
    set x | x in b :: b[x]
  }

  /** Every item of `members` pointed at `target`; other entries as they were. */
  function Pointed(b: Belonging, members: seq<Item>, target: Group): Belonging {
    map x | x in b.Keys + Elems(members) :: if x in members then target else b[x]
  }

  /** Every member of `u` re-pointed at `u`. */
  function Repointed(b: Belonging, u: Group): Belonging {
    Pointed(b, u, u)
  }

  /** One link `(one, other)`: nothing if both already share a group, else the two groups are joined. */
  function LinkOne(b: Belonging, one: Item, other: Item): Belonging
    requires one in b && other in b
  {
    if b[one] == b[other] then b else Repointed(b, b[one] + b[other])
  }

  predicate Endpoints(links: seq<Link>, keys: set<Item>) {
    forall l | l in links :: l.0 in keys && l.1 in keys
  }

  /** The links applied in order. */
  function LinkAll(b: Belonging, links: seq<Link>): (r: Belonging)
    requires Endpoints(links, b.Keys)
    ensures b.Keys <= r.Keys
  {
    if links == [] then b
    else
      var r := LinkAll(b, links[..|links| - 1]);
      LinkOne(r, links[|links| - 1].0, links[|links| - 1].1)
  }

  /** In a group map, two groups that share an item are the same group. */
  lemma SharedMember(b: Belonging, x: Item, y: Item, z: Item)
    requires GroupMap(b) && x in b && y in b && z in b[x] && z in b[y]
    ensures b[x] == b[y]
  {
    assert b[z] == b[x] && b[z] == b[y];
  }

  /** Distinct groups of a group map are disjoint, so their concatenation lists no item twice. */
  lemma UnionNoDup(b: Belonging, a: Item, c: Item)
    requires GroupMap(b) && a in b && c in b && b[a] != b[c]
    ensures NoDup(b[a] + b[c]) && Elems(b[a] + b[c]) == Elems(b[a]) + Elems(b[c])
  {
    var u := b[a] + b[c];
    forall i, j | 0 <= i < j < |u| ensures u[i] != u[j] {
      if i < |b[a]| <= j {
        assert u[i] in b[a] && u[j] in b[c];
        if u[i] == u[j] {
          SharedMember(b, a, c, u[i]);
        }
      } else if j < |b[a]| {
        assert u[i] == b[a][i] && u[j] == b[a][j];
      } else {
        assert u[i] == b[c][i - |b[a]|] && u[j] == b[c][j - |b[a]|];
      }
    }
  }

  /** A link keeps a group map a group map over the same items. */
  lemma LinkValid(b: Belonging, a: Item, c: Item)
    requires GroupMap(b) && a in b && c in b
    ensures GroupMap(LinkOne(b, a, c)) && LinkOne(b, a, c).Keys == b.Keys
  {
    if b[a] != b[c] {
      var u := b[a] + b[c];
      var r := LinkOne(b, a, c);
      UnionNoDup(b, a, c);
      forall x | x in Elems(u) ensures x in b {
        if x in b[a] {} else {}
      }
      forall x | x in r ensures x in r[x] && NoDup(r[x]) && forall y | y in r[x] :: y in r && r[y] == r[x] {
        if x !in u {
          forall y | y in r[x] ensures y !in u && r[y] == r[x] {
            assert y in b[x];
            MemberOutside(b, a, c, x, y);
          }
        }
      }
    }
  }

  /** A member of a group outside the two linked groups is itself outside them. */
  lemma MemberOutside(b: Belonging, a: Item, c: Item, x: Item, y: Item)
    requires GroupMap(b) && a in b && c in b && x in b && y in b[x]
    requires x !in b[a] + b[c]
    ensures y !in b[a] + b[c]
  {
    if y in b[a] {
      SharedMember(b, x, a, y);
    } else if y in b[c] {
      SharedMember(b, x, c, y);
    }
  }

  /**
   * What one link does (the three cases mergic's tests check): afterwards
   * both ends share one group holding exactly the members of their two
   * groups, a link inside one group changes nothing, every item outside
   * the two groups keeps its group, and items that were together stay
   * together.
   */
  lemma LinkEffect(b: Belonging, a: Item, c: Item)
    requires GroupMap(b) && a in b && c in b
    ensures var r := LinkOne(b, a, c);
            && r[a] == r[c]
            && Elems(r[a]) == Elems(b[a]) + Elems(b[c])
            && (b[a] != b[c] ==> r[a] == b[a] + b[c])
            && (b[a] == b[c] ==> r == b)
            && (forall x | x in b && x !in b[a] && x !in b[c] :: r[x] == b[x])
            && (forall x, y | x in b && y in b && b[x] == b[y] :: r[x] == r[y])
  {
    var r := LinkOne(b, a, c);
    LinkValid(b, a, c);
    if b[a] == b[c] {
      assert Elems(b[a]) + Elems(b[c]) == Elems(b[a]);
    } else {
      var u := b[a] + b[c];
      UnionNoDup(b, a, c);
      assert a in u && c in u;
      forall x, y | x in b && y in b && b[x] == b[y] ensures r[x] == r[y] {
        if x in u {
          assert x in b[a] || x in b[c];
          assert x in b[x];
          assert y in b[y];
          if x in b[a] { SharedMember(b, x, a, x); } else { SharedMember(b, x, c, x); }
        } else {
          MemberOutside(b, a, c, x, y);
        }
      }
    }
  }

  /** The joined group is none of the other groups: it is longer than the group of `a`, and holds `a`. */
  lemma JoinedIsNew(b: Belonging, a: Item, c: Item)
    requires GroupMap(b) && a in b && c in b && b[a] != b[c]
    ensures b[a] + b[c] !in Groups(b) - {b[a], b[c]}
  {
    var u := b[a] + b[c];
    forall g | g in Groups(b) - {b[a], b[c]} ensures g != u {
      var x :| x in b && b[x] == g;
      if a in g {
        SharedMember(b, x, a, a);
      }
      assert a in u;
    }
  }

  /** After joining, the groups are the untouched ones plus the joined one. */
  lemma GroupsAfterJoin(b: Belonging, a: Item, c: Item)
    requires GroupMap(b) && a in b && c in b && b[a] != b[c]
    ensures Groups(LinkOne(b, a, c)) == (Groups(b) - {b[a], b[c]}) + {b[a] + b[c]}
  {
    LinkValid(b, a, c);
    JoinedGroupsWithin(b, a, c);
    JoinedGroupsCover(b, a, c);
  }

  lemma JoinedGroupsWithin(b: Belonging, a: Item, c: Item)
    requires GroupMap(b) && a in b && c in b && b[a] != b[c]
    requires LinkOne(b, a, c).Keys == b.Keys
    ensures Groups(LinkOne(b, a, c)) <= (Groups(b) - {b[a], b[c]}) + {b[a] + b[c]}
  {
    var r := LinkOne(b, a, c);
    var u := b[a] + b[c];
    forall g | g in Groups(r) ensures g in (Groups(b) - {b[a], b[c]}) + {u} {
      var x :| x in r && r[x] == g;
      if x !in u {
        assert x in b[x] && g == b[x];
        assert x !in b[a] && x !in b[c];
      }
    }
  }

  lemma JoinedGroupsCover(b: Belonging, a: Item, c: Item)
    requires GroupMap(b) && a in b && c in b && b[a] != b[c]
    ensures (Groups(b) - {b[a], b[c]}) + {b[a] + b[c]} <= Groups(LinkOne(b, a, c))
  {
    var r := LinkOne(b, a, c);
    var u := b[a] + b[c];
    forall g | g in (Groups(b) - {b[a], b[c]}) + {u} ensures g in Groups(r) {
      if g == u {
        assert a in u && r[a] == u;
      } else {
        var x :| x in b && b[x] == g;
        assert x in b[x];
        if x in b[a] { SharedMember(b, x, a, x); }
        if x in b[c] { SharedMember(b, x, c, x); }
        assert r[x] == g;
      }
    }
  }

  /** Joining two different groups removes one group; a link inside a group removes none. */
  lemma LinkGroupCount(b: Belonging, a: Item, c: Item)
    requires GroupMap(b) && a in b && c in b
    ensures |Groups(LinkOne(b, a, c))| == if b[a] == b[c] then |Groups(b)| else |Groups(b)| - 1
  {
    if b[a] != b[c] {
      GroupsAfterJoin(b, a, c);
      JoinedIsNew(b, a, c);
      var others := Groups(b) - {b[a], b[c]};
      assert b[a] in Groups(b) && b[c] in Groups(b);
      assert Groups(b) == others + {b[a], b[c]};
      assert |Groups(b)| == |others| + 2;
    }
  }

  /** A link only grows groups: each item's group keeps its members. */
  lemma LinkGrows(b: Belonging, a: Item, c: Item)
    requires GroupMap(b) && a in b && c in b
    ensures forall x | x in b :: Elems(b[x]) <= Elems(LinkOne(b, a, c)[x]) && |b[x]| <= |LinkOne(b, a, c)[x]|
  {
    var r := LinkOne(b, a, c);
    LinkEffect(b, a, c);
    forall x | x in b ensures Elems(b[x]) <= Elems(r[x]) && |b[x]| <= |r[x]| {
      if x in b[a] {
        SharedMember(b, x, a, x);
      } else if x in b[c] {
        SharedMember(b, x, c, x);
      }
    }
  }

  lemma LinkAllStep(b: Belonging, links: seq<Link>)
    requires Endpoints(links, b.Keys) && links != []
    ensures Endpoints(links[..|links| - 1], b.Keys)
    ensures LinkAll(b, links) == LinkOne(LinkAll(b, links[..|links| - 1]), links[|links| - 1].0, links[|links| - 1].1)
  {
  }

  /** Applying two runs of links one after the other is applying their concatenation. */
  lemma {:induction false} LinkAllConcat(b: Belonging, xs: seq<Link>, ys: seq<Link>)
    requires Endpoints(xs + ys, b.Keys)
    ensures Endpoints(xs, b.Keys) && Endpoints(ys, LinkAll(b, xs).Keys)
    ensures LinkAll(b, xs + ys) == LinkAll(LinkAll(b, xs), ys)
  {
    assert forall l | l in xs :: l in xs + ys;
    assert forall l | l in ys :: l in xs + ys;
    if ys == [] {
      assert xs + ys == xs;
    } else {
      var init := ys[..|ys| - 1];
      assert (xs + ys)[..|xs + ys| - 1] == xs + init;
      LinkAllConcat(b, xs, init);
    }
  }

  /** Links keep a group map a group map over the same items. */
  lemma {:induction false} LinkAllValid(b: Belonging, links: seq<Link>)
    requires GroupMap(b) && Endpoints(links, b.Keys)
    ensures GroupMap(LinkAll(b, links)) && LinkAll(b, links).Keys == b.Keys
  {
    if links != [] {
      LinkAllStep(b, links);
      var init := links[..|links| - 1];
      LinkAllValid(b, init);
      LinkValid(LinkAll(b, init), links[|links| - 1].0, links[|links| - 1].1);
    }
  }

  /** Items that share a group keep sharing one, and every group only grows. */
  lemma {:induction false} LinkAllMonotone(b: Belonging, links: seq<Link>)
    requires GroupMap(b) && Endpoints(links, b.Keys)
    ensures forall x, y | x in b && y in b && b[x] == b[y] :: LinkAll(b, links)[x] == LinkAll(b, links)[y]
    ensures forall x | x in b :: Elems(b[x]) <= Elems(LinkAll(b, links)[x]) && |b[x]| <= |LinkAll(b, links)[x]|
  {
    if links != [] {
      LinkAllStep(b, links);
      var init := links[..|links| - 1];
      var last := links[|links| - 1];
      LinkAllMonotone(b, init);
      LinkAllValid(b, init);
      LinkEffect(LinkAll(b, init), last.0, last.1);
      LinkGrows(LinkAll(b, init), last.0, last.1);
    }
  }

  /** After the links, the two ends of every link share a group. */
  lemma {:induction false} LinkAllLinked(b: Belonging, links: seq<Link>)
    requires GroupMap(b) && Endpoints(links, b.Keys)
    ensures forall i | 0 <= i < |links| :: LinkAll(b, links)[links[i].0] == LinkAll(b, links)[links[i].1]
  {
    if links != [] {
      LinkAllStep(b, links);
      var init := links[..|links| - 1];
      var last := links[|links| - 1];
      var mid := LinkAll(b, init);
      LinkAllLinked(b, init);
      LinkAllValid(b, init);
      LinkEffect(mid, last.0, last.1);
      forall i | 0 <= i < |links| ensures LinkAll(b, links)[links[i].0] == LinkAll(b, links)[links[i].1] {
        if i < |links| - 1 {
          assert links[i] == init[i];
        }
      }
    }
  }

  /** Links never add groups: the group count does not increase. */
  lemma {:induction false} LinkAllCount(b: Belonging, links: seq<Link>)
    requires GroupMap(b) && Endpoints(links, b.Keys)
    ensures |Groups(LinkAll(b, links))| <= |Groups(b)|
  {
    if links != [] {
      LinkAllStep(b, links);
      var init := links[..|links| - 1];
      var last := links[|links| - 1];
      LinkAllCount(b, init);
      LinkAllValid(b, init);
      LinkGroupCount(LinkAll(b, init), last.0, last.1);
    }
  }

  /** `path` steps from item to item, each step along a link of `edges` taken either way. */
  ghost predicate Walk(edges: set<Link>, path: seq<Item>) {
    path != [] && forall i | 0 <= i < |path| - 1 :: (path[i], path[i + 1]) in edges || (path[i + 1], path[i]) in edges
  }

  /** A chain of links of `edges` leads from `x` to `y`. */
  ghost predicate Connected(edges: set<Link>, x: Item, y: Item) {
    exists path :: Walk(edges, path) && path[0] == x && path[|path| - 1] == y
  }

  lemma ConnectedSelf(edges: set<Link>, x: Item)
    ensures Connected(edges, x, x)
  {
    assert Walk(edges, [x]);
  }

  lemma ConnectedEdge(edges: set<Link>, a: Item, c: Item)
    requires (a, c) in edges
    ensures Connected(edges, a, c) && Connected(edges, c, a)
  {
    assert Walk(edges, [a, c]);
    assert Walk(edges, [c, a]);
  }

  /** Two chains that meet make one chain. */
  lemma ConnectedTrans(edges: set<Link>, x: Item, y: Item, z: Item)
    requires Connected(edges, x, y) && Connected(edges, y, z)
    ensures Connected(edges, x, z)
  {
    var p :| Walk(edges, p) && p[0] == x && p[|p| - 1] == y;
    var q :| Walk(edges, q) && q[0] == y && q[|q| - 1] == z;
    var r := p + q[1..];
    forall i | 0 <= i < |r| - 1 ensures (r[i], r[i + 1]) in edges || (r[i + 1], r[i]) in edges {
      if i < |p| - 1 {
        assert r[i] == p[i] && r[i + 1] == p[i + 1];
      } else {
        assert r[i] == q[i - |p| + 1] && r[i + 1] == q[i - |p| + 2];
      }
    }
    assert r[|r| - 1] == z by {
      if |q| == 1 {
        assert r == p;
      }
    }
  }

  /** More edges keep every chain. */
  lemma ConnectedWider(edges: set<Link>, more: set<Link>, x: Item, y: Item)
    requires Connected(edges, x, y) && edges <= more
    ensures Connected(more, x, y)
  {
    var p :| Walk(edges, p) && p[0] == x && p[|p| - 1] == y;
    assert Walk(more, p);
  }

  /** Every member of an item's group is chained to it by `edges`. */
  ghost predicate Explained(b: Belonging, edges: set<Link>) {
    forall x | x in b :: forall y | y in b[x] :: Connected(edges, x, y)
  }

  /** Linking along an edge keeps every group explained by the edges. */
  lemma LinkExplained(b: Belonging, edges: set<Link>, a: Item, c: Item)
    requires GroupMap(b) && a in b && c in b && (a, c) in edges && Explained(b, edges)
    ensures Explained(LinkOne(b, a, c), edges)
  {
    var r := LinkOne(b, a, c);
    if b[a] != b[c] {
      var u := b[a] + b[c];
      forall x, y | x in r && y in r[x] ensures Connected(edges, x, y) {
        if x in u {
          var ex := if x in b[a] then a else c;
          var ey := if y in b[a] then a else c;
          assert x in b[ex] && y in b[ey];
          assert b[x] == b[ex] && ex in b[x];
          if ex == ey {
            ConnectedSelf(edges, ex);
          } else {
            ConnectedEdge(edges, a, c);
          }
          ConnectedTrans(edges, x, ex, ey);
          ConnectedTrans(edges, x, ey, y);
        } else {
          assert x in b && r[x] == b[x];
        }
      }
    }
  }

  /** Starting from singletons, every member of an item's group is chained to it by the links applied. */
  lemma {:induction false} LinkAllExplained(items: seq<Item>, links: seq<Link>)
    requires Endpoints(links, Elems(items))
    ensures Explained(LinkAll(Singletons(items), links), Elems(links))
  {
    var b := Singletons(items);
    if links == [] {
      forall x, y | x in b && y in b[x] ensures Connected(Elems(links), x, y) {
        ConnectedSelf(Elems(links), x);
      }
    } else {
      var init := links[..|links| - 1];
      var last := links[|links| - 1];
      LinkAllStep(b, links);
      LinkAllExplained(items, init);
      LinkAllValid(b, init);
      var mid := LinkAll(b, init);
      assert Elems(init) <= Elems(links) && last in Elems(links);
      forall x, y | x in mid && y in mid[x] ensures Connected(Elems(links), x, y) {
        ConnectedWider(Elems(init), Elems(links), x, y);
      }
      LinkExplained(mid, Elems(links), last.0, last.1);
    }
  }

  /** A chain along edges whose ends share a group stays in one group. */
  lemma {:induction false} WalkSameGroup(b: Belonging, edges: set<Link>, path: seq<Item>)
    requires Walk(edges, path) && path[0] in b
    requires forall l | l in edges :: l.0 in b && l.1 in b && b[l.0] == b[l.1]
    ensures path[|path| - 1] in b && b[path[|path| - 1]] == b[path[0]]
  {
    if |path| > 1 {
      var init := path[..|path| - 1];
      WalkPrefix(edges, path);
      WalkSameGroup(b, edges, init);
      var n := |path| - 1;
      assert (path[n - 1], path[n]) in edges || (path[n], path[n - 1]) in edges;
    }
  }

  /**
   * Starting from singletons, two items end in one group exactly when the
   * links applied chain them together: linking joins linked items and
   * nothing else.
   */
  lemma GroupedIffConnected(items: seq<Item>, links: seq<Link>, x: Item, y: Item)
    requires Endpoints(links, Elems(items)) && x in items && y in items
    ensures LinkAll(Singletons(items), links)[x] == LinkAll(Singletons(items), links)[y] <==> Connected(Elems(links), x, y)
  {
    var r := LinkAll(Singletons(items), links);
    LinkAllValid(Singletons(items), links);
    if r[x] == r[y] {
      LinkAllExplained(items, links);
      assert y in r[x];
    }
    if Connected(Elems(links), x, y) {
      LinkAllLinked(Singletons(items), links);
      forall l | l in Elems(links) ensures l.0 in r && l.1 in r && r[l.0] == r[l.1] {
        var i :| 0 <= i < |links| && links[i] == l;
      }
      var p :| Walk(Elems(links), p) && p[0] == x && p[|p| - 1] == y;
      WalkSameGroup(r, Elems(links), p);
    }
  }

  /** A walk cut short is still a walk. */
  lemma WalkPrefix(edges: set<Link>, path: seq<Item>)
    requires Walk(edges, path) && |path| > 1
    ensures Walk(edges, path[..|path| - 1])
  {
    var init := path[..|path| - 1];
    forall i | 0 <= i < |init| - 1 ensures (init[i], init[i + 1]) in edges || (init[i + 1], init[i]) in edges {
      assert init[i] == path[i] && init[i + 1] == path[i + 1];
    }
  }

  /** A walk along edges that never touch `z` and does not start at `z` does not end there. */
  lemma {:induction false} WalkAvoids(edges: set<Link>, path: seq<Item>, z: Item)
    requires Walk(edges, path)
    requires forall l | l in edges :: l.0 != z && l.1 != z
    ensures path[0] != z ==> path[|path| - 1] != z
  {
    if |path| > 1 {
      WalkPrefix(edges, path);
      WalkAvoids(edges, path[..|path| - 1], z);
      var n := |path| - 1;
      assert path[..n][n - 1] == path[n - 1];
      assert (path[n - 1], path[n]) in edges || (path[n], path[n - 1]) in edges;
    }
  }

  /** No chain reaches an item that no edge touches, except from the item itself. */
  lemma WalkToIsolated(edges: set<Link>, x: Item, z: Item)
    requires forall l | l in edges :: l.0 != z && l.1 != z
    ensures Connected(edges, x, z) <==> x == z
  {
    if Connected(edges, x, z) {
      var p :| Walk(edges, p) && p[0] == x && p[|p| - 1] == z;
      WalkAvoids(edges, p, z);
    }
    if x == z {
      ConnectedSelf(edges, x);
    }
  }

  /**
   * The `belongings` dict of the clustering: item -> its group. `LinkItems`
   * is `_link_items`, which rewrites the dict in place.
   */
  class Belongings {
    var groupOf: Belonging

    /** `{item: (item,) for item in items}` */
    constructor (items: seq<Item>)
      ensures groupOf == Singletons(items)
    {
      groupOf := Singletons(items);
    }

    /**
     * `_link_items(belongings, links)`: for each link in order, skip it when
     * both ends are in the same group, else re-point every member of both
     * groups at their concatenation.
     */
    method LinkItems(links: seq<Link>)
      requires GroupMap(groupOf) && Endpoints(links, groupOf.Keys)
      modifies this
      ensures groupOf == LinkAll(old(groupOf), links)
      ensures GroupMap(groupOf) && groupOf.Keys == old(groupOf).Keys
    {
      ghost var start := groupOf;
      for i := 0 to |links|
        invariant groupOf == LinkAll(start, links[..i])
        invariant GroupMap(groupOf) && groupOf.Keys == start.Keys
      {
        assert links[..i + 1][..i] == links[..i];
        LinkAllStep(start, links[..i + 1]);
        LinkAllValid(start, links[..i + 1]);
        var (one, other) := links[i];
        if groupOf[one] != groupOf[other] {
          RepointAll(groupOf[one] + groupOf[other]);
        }
      }
      assert links[..|links|] == links;
    }

    /** The inner loop of `_link_items`: `for thing in union: belongings[thing] = union`. */
    method RepointAll(union: Group)
      modifies this
      ensures groupOf == Repointed(old(groupOf), union)
    {
      ghost var before := groupOf;
      for j := 0 to |union|
        invariant groupOf == Pointed(before, union[..j], union)
      {
        assert union[..j + 1] == union[..j] + [union[j]];
        groupOf := groupOf[union[j] := union];
      }
      assert union[..|union|] == union;
    }
  }
}
