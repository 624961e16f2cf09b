/**
 * `Blender.make`: bucket every pair of input lines by distance, step
 * through the sorted distances linking each bucket (the table of the
 * cutoff loop), and, when a cutoff is given, replay the buckets up to it
 * from fresh singletons and write the groups out in size order under their
 * keys.
 */
module Clustering {
  import opened Partitions
  import opened Linking
  import opened Buckets
  import opened KeyMethods
  import opened Blending
  import opened Ordering

  datatype Option<T> = None | Some(value: T)

  /** A `Blender`: the distance and the key method it was built with. */
  datatype Blender = Blender(distance: Distance, keyMethod: KeyMethod)

  /** What `make` gives: the cutoff table when no cutoff is asked for, else the clustered partition. */
  datatype Outcome = Table(rows: seq<Row>) | Clusters(entries: seq<Entry>)

  datatype MakeError =
    | NoCutoffs   // `cutoffs[0]` on an empty list: fewer than two lines and no cutoff asked for
    | NoItems     // `sets.values()[0]` on an empty dict: no lines and a cutoff asked for

  /** `links_at` for the lines `order`. */
  function LinksAtOf(order: seq<Item>, dist: Distance): LinksAt {
    Bucket(Pairs(order), dist)
  }

  /** Every bucket links two of the lines. */
  lemma BucketsUsable(order: seq<Item>, dist: Distance)
    requires NoDup(order)
    ensures forall c | c in LinksAtOf(order, dist) :: Endpoints(LinksAtOf(order, dist)[c], Elems(order))
  {
    var m := LinksAtOf(order, dist);
    forall c | c in m ensures Endpoints(m[c], Elems(order)) {
      forall l: Link | l in m[c] ensures l.0 in Elems(order) && l.1 in Elems(order) {
        BucketedOnce(order, dist, l);
        PairsNoDup(order);
      }
    }
  }

  /** `cutoffs = sorted(links_at)`: ascending, and each has a bucket of links between the lines. */
  ghost function Cutoffs(order: seq<Item>, dist: Distance): (cs: seq<int>)
    requires NoDup(order)
    ensures Increasing(cs) && Elems(cs) == LinksAtOf(order, dist).Keys
    ensures Usable(order, LinksAtOf(order, dist), cs)
  {
    BucketsUsable(order, dist);
    SortedSet(LinksAtOf(order, dist).Keys)
  }

  /** The table printed when no cutoff is given: the header row, then one row per cutoff. */
  ghost function TableRows(order: seq<Item>, dist: Distance): seq<Row>
    requires NoDup(order)
  {
    TableOf(order, LinksAtOf(order, dist), Cutoffs(order, dist))
  }

  /** The groups once every cutoff was linked. */
  ghost function Final(order: seq<Item>, dist: Distance): (b: Belonging)
    requires NoDup(order)
    ensures GroupMap(b) && b.Keys == Elems(order)
  {
    Grown(order, LinksAtOf(order, dist), Cutoffs(order, dist))
  }

  /** `ordered_items = sets.values()[0]` after the cutoff loop. */
  ghost function OrderedItems(order: seq<Item>, dist: Distance): seq<Item>
    requires NoDup(order) && order != []
  {
    Final(order, dist)[order[0]]
  }

  /** The groups after the replay of the cutoffs up to `cutoff`. */
  ghost function Replayed(order: seq<Item>, dist: Distance, cutoff: int): (b: Belonging)
    requires NoDup(order)
    ensures GroupMap(b) && b.Keys == Elems(order)
  {
    Grown(order, LinksAtOf(order, dist), UpTo(Cutoffs(order, dist), cutoff))
  }

  /** The distinct replayed groups, sorted by descending size, then by first item's place in `ordered_items`. */
  ghost function FinalGroups(order: seq<Item>, dist: Distance, cutoff: int): (gs: seq<Group>)
    requires NoDup(order) && order != []
    ensures AllRanked(gs, OrderedItems(order, dist))
  {
    var u := Dedup(Values(Replayed(order, dist, cutoff), order));
    UniqueRanked(order, dist, cutoff);
    Sort(u, OrderedItems(order, dist))
  }

  /** The `OrderedDict` that `make` prints for a cutoff. */
  ghost function Clustered(bl: Blender, order: seq<Item>, cutoff: int): seq<Entry>
    requires NoDup(order) && order != []
  {
    Keyed(bl.keyMethod, FinalGroups(order, bl.distance, cutoff))
  }

  /** There is a cutoff exactly when there are two lines to pair. */
  lemma CutoffsExist(order: seq<Item>, dist: Distance)
    requires NoDup(order)
    ensures Cutoffs(order, dist) != [] <==> |order| >= 2
  {
    var ps := Pairs(order);
    var m := LinksAtOf(order, dist);
    NoElems(Cutoffs(order, dist));
    if |order| >= 2 {
      PairsMember(order, (order[0], order[1]));
      BucketContents(ps, dist);
      assert DistanceOf(dist, (order[0], order[1])) in m.Keys;
    } else {
      if order != [] {
        assert order[1..] == [];
        assert Fan(order[0], order[1..]) == [];
        assert Pairs(order[1..]) == [];
      }
      assert ps == [];
      assert m.Keys == {};
    }
  }

  /** A pair whose distance is among the linked cutoffs ends up in one group. */
  lemma PairJoined(order: seq<Item>, dist: Distance, cs: seq<int>, l: Link)
    requires NoDup(order)
    requires Usable(order, LinksAtOf(order, dist), cs)
    requires l in Pairs(order) && DistanceOf(dist, l) in cs
    ensures l.0 in Elems(order) && l.1 in Elems(order)
    ensures Grown(order, LinksAtOf(order, dist), cs)[l.0] == Grown(order, LinksAtOf(order, dist), cs)[l.1]
  {
    var m := LinksAtOf(order, dist);
    BucketedOnce(order, dist, l);
    PairsNoDup(order);
    FlattenMember(m, cs, DistanceOf(dist, l), l);
    var links := Flatten(m, cs);
    FlattenEndpoints(m, cs, Elems(order));
    LinkAllLinked(Singletons(order), links);
    var i :| 0 <= i < |links| && links[i] == l;
  }

  /** After the cutoff loop every line is in the group of the first one. */
  lemma AllJoined(order: seq<Item>, dist: Distance)
    requires NoDup(order) && order != []
    ensures forall x | x in Elems(order) :: Final(order, dist)[x] == Final(order, dist)[order[0]]
  {
    var m := LinksAtOf(order, dist);
    var cs := Cutoffs(order, dist);
    forall x | x in Elems(order) ensures Final(order, dist)[x] == Final(order, dist)[order[0]] {
      var j :| 0 <= j < |order| && order[j] == x;
      if j > 0 {
        var l := (order[0], order[j]);
        PairsMember(order, l);
        BucketedOnce(order, dist, l);
        PairJoined(order, dist, cs, l);
      }
    }
  }

  /** `ordered_items` lists every line, once. */
  lemma OrderedItemsAll(order: seq<Item>, dist: Distance)
    requires NoDup(order) && order != []
    ensures Elems(OrderedItems(order, dist)) == Elems(order) && NoDup(OrderedItems(order, dist))
  {
    var b := Final(order, dist);
    AllJoined(order, dist);
    forall x | x in Elems(order) ensures x in OrderedItems(order, dist) {
      assert x in b[x];
    }
  }

  /** Each distinct replayed group has a first item, and `ordered_items.index` finds it. */
  lemma UniqueRanked(order: seq<Item>, dist: Distance, cutoff: int)
    requires NoDup(order) && order != []
    ensures AllRanked(Dedup(Values(Replayed(order, dist, cutoff), order)), OrderedItems(order, dist))
  {
    var b := Replayed(order, dist, cutoff);
    var u := Dedup(Values(b, order));
    UniquePartition(b, order);
    OrderedItemsAll(order, dist);
    forall i | 0 <= i < |u| ensures Ranked(u[i], OrderedItems(order, dist)) {
      assert u[i] in u;
      assert u[i][0] in Elems(u[i]);
    }
  }

  /** Two lines at most `cutoff` apart are in one replayed group. */
  lemma ReplayJoins(order: seq<Item>, dist: Distance, cutoff: int, i: int, j: int)
    requires NoDup(order) && 0 <= i < j < |order|
    requires dist(order[i], order[j]) <= cutoff
    ensures Replayed(order, dist, cutoff)[order[i]] == Replayed(order, dist, cutoff)[order[j]]
  {
    var l := (order[i], order[j]);
    PairsMember(order, l);
    BucketedOnce(order, dist, l);
    PairJoined(order, dist, UpTo(Cutoffs(order, dist), cutoff), l);
  }

  /** The pairs of `combinations(order, 2)` whose distance is at most `cutoff`. */
  ghost function Near(order: seq<Item>, dist: Distance, cutoff: int): set<Link> {
    set l | l in Pairs(order) && DistanceOf(dist, l) <= cutoff
  }

  /** The links the replay applies are exactly the pairs at most `cutoff` apart. */
  lemma ReplayLinks(order: seq<Item>, dist: Distance, cutoff: int)
    requires NoDup(order)
    ensures var cs := UpTo(Cutoffs(order, dist), cutoff);
            && Usable(order, LinksAtOf(order, dist), cs)
            && Elems(Flatten(LinksAtOf(order, dist), cs)) == Near(order, dist, cutoff)
  {
    var m := LinksAtOf(order, dist);
    var cs := UpTo(Cutoffs(order, dist), cutoff);
    UsableUpTo(order, m, Cutoffs(order, dist), cutoff);
    var links := Flatten(m, cs);
    forall l | l in links ensures l in Near(order, dist, cutoff) {
      FlattenFrom(m, cs, l);
      var c :| c in cs && l in m[c];
      BucketedOnce(order, dist, l);
    }
    forall l | l in Near(order, dist, cutoff) ensures l in links {
      BucketedOnce(order, dist, l);
      FlattenMember(m, cs, DistanceOf(dist, l), l);
    }
  }

  /**
   * Two lines share a replayed group exactly when a chain of pairs, each
   * taken in `combinations` order and at most `cutoff` apart, leads from one
   * to the other: the replay joins near lines and nothing else.
   */
  lemma ReplayedIffConnected(order: seq<Item>, dist: Distance, cutoff: int, x: Item, y: Item)
    requires NoDup(order) && x in order && y in order
    ensures Replayed(order, dist, cutoff)[x] == Replayed(order, dist, cutoff)[y] <==> Connected(Near(order, dist, cutoff), x, y)
  {
    var m := LinksAtOf(order, dist);
    var cs := UpTo(Cutoffs(order, dist), cutoff);
    ReplayLinks(order, dist, cutoff);
    FlattenEndpoints(m, cs, Elems(order));
    GroupedIffConnected(order, Flatten(m, cs), x, y);
  }

  /** Two lines written out in one group are chained by pairs at most `cutoff` apart. */
  lemma FinalGroupsConnected(order: seq<Item>, dist: Distance, cutoff: int, k: int, x: Item, y: Item)
    requires NoDup(order) && order != []
    requires 0 <= k < |FinalGroups(order, dist, cutoff)|
    requires x in FinalGroups(order, dist, cutoff)[k] && y in FinalGroups(order, dist, cutoff)[k]
    ensures Connected(Near(order, dist, cutoff), x, y)
  {
    var b := Replayed(order, dist, cutoff);
    var u := Dedup(Values(b, order));
    var gs := FinalGroups(order, dist, cutoff);
    DedupSpec(Values(b, order));
    PermutationNoDup(u, gs);
    assert gs[k] in Elems(Values(b, order));
    var i :| 0 <= i < |order| && Values(b, order)[i] == gs[k];
    assert order[i] in b;
    assert b[x] == b[order[i]] && b[y] == b[order[i]];
    ReplayedIffConnected(order, dist, cutoff, x, y);
  }

  /** A line that no near pair touches stays in a group of its own. */
  lemma ReplayedApart(order: seq<Item>, dist: Distance, cutoff: int, x: Item, z: Item)
    requires NoDup(order) && x in order && z in order && x != z
    requires forall l | l in Near(order, dist, cutoff) :: l.0 != z && l.1 != z
    ensures Replayed(order, dist, cutoff)[x] != Replayed(order, dist, cutoff)[z]
  {
    ReplayedIffConnected(order, dist, cutoff, x, z);
    WalkToIsolated(Near(order, dist, cutoff), x, z);
  }

  /** The pairs of the three example lines, in `combinations` order. */
  lemma CatsAndDogPairs()
    ensures Pairs(["cat", "cats", "dog"]) == [("cat", "cats"), ("cat", "dog"), ("cats", "dog")]
  {
    var order := ["cat", "cats", "dog"];
    assert order[1..] == ["cats", "dog"] && order[1..][1..] == ["dog"] && order[1..][1..][1..] == [];
    assert Fan("cat", ["cats", "dog"]) == [("cat", "cats"), ("cat", "dog")];
    assert Fan("cats", ["dog"]) == [("cats", "dog")];
    assert Fan("dog", []) == [];
  }

  /**
   * "cat", "cats" and "dog" under edit distance, at cutoff 1: "cat" and
   * "cats" share a group and "dog" stays alone.
   */
  lemma CatsAndDogAtOne(dist: Distance)
    requires dist("cat", "cats") == 1 && dist("cat", "dog") == 3 && dist("cats", "dog") == 4
    ensures var order := ["cat", "cats", "dog"];
            && Replayed(order, dist, 1)["cat"] == Replayed(order, dist, 1)["cats"]
            && Replayed(order, dist, 1)["dog"] != Replayed(order, dist, 1)["cat"]
  {
    var order := ["cat", "cats", "dog"];
    assert NoDup(order);
    ReplayJoins(order, dist, 1, 0, 1);
    DogFarAtOne(dist);
    ReplayedApart(order, dist, 1, "cat", "dog");
  }

  /** At cutoff 1 no near pair involves "dog". */
  lemma DogFarAtOne(dist: Distance)
    requires dist("cat", "cats") == 1 && dist("cat", "dog") == 3 && dist("cats", "dog") == 4
    ensures forall l | l in Near(["cat", "cats", "dog"], dist, 1) :: l.0 != "dog" && l.1 != "dog"
  {
    CatsAndDogPairs();
  }

  /** The same lines at cutoff 0: all three stay apart. */
  lemma CatsAndDogAtZero(dist: Distance)
    requires dist("cat", "cats") == 1 && dist("cat", "dog") == 3 && dist("cats", "dog") == 4
    ensures var order := ["cat", "cats", "dog"];
            && Replayed(order, dist, 0)["cat"] != Replayed(order, dist, 0)["cats"]
            && Replayed(order, dist, 0)["dog"] != Replayed(order, dist, 0)["cat"]
            && Replayed(order, dist, 0)["dog"] != Replayed(order, dist, 0)["cats"]
  {
    var order := ["cat", "cats", "dog"];
    assert NoDup(order);
    CatsAndDogPairs();
    assert Near(order, dist, 0) == {};
    ReplayedApart(order, dist, 0, "cat", "cats");
    ReplayedApart(order, dist, 0, "cat", "dog");
    ReplayedApart(order, dist, 0, "cats", "dog");
  }

  lemma PermutationNoDup(s: seq<Group>, t: seq<Group>)
    requires multiset(s) == multiset(t) && NoDup(s)
    ensures NoDup(t) && Elems(s) == Elems(t)
  {
    assert Elems(s) == Elems(t) by {
      forall g ensures g in Elems(s) <==> g in Elems(t) {
        assert g in s <==> g in multiset(s);
        assert g in t <==> g in multiset(t);
      }
    }
    assert |s| == |t| by {
      assert |multiset(s)| == |s| && |multiset(t)| == |t|;
    }
    NoDupIffCard(s);
    NoDupIffCard(t);
  }

  /**
   * The groups written out split the lines: none is empty or repeats a line,
   * two of them share no line, and together they hold every line.
   */
  lemma FinalGroupsPartition(order: seq<Item>, dist: Distance, cutoff: int)
    requires NoDup(order) && order != []
    ensures NoDup(FinalGroups(order, dist, cutoff))
    ensures forall i | 0 <= i < |FinalGroups(order, dist, cutoff)| ::
              FinalGroups(order, dist, cutoff)[i] != [] && NoDup(FinalGroups(order, dist, cutoff)[i])
    ensures forall i, j | 0 <= i < j < |FinalGroups(order, dist, cutoff)| ::
              Elems(FinalGroups(order, dist, cutoff)[i]) !! Elems(FinalGroups(order, dist, cutoff)[j])
    ensures Covered(FinalGroups(order, dist, cutoff)) == Elems(order)
  {
    var b := Replayed(order, dist, cutoff);
    var u := Dedup(Values(b, order));
    UniquePartition(b, order);
    DedupSpec(Values(b, order));
    PermutedPartition(u, FinalGroups(order, dist, cutoff));
  }

  /** A reordering of distinct, non-empty, pairwise disjoint groups is one too, and covers the same lines. */
  lemma PermutedPartition(u: seq<Group>, gs: seq<Group>)
    requires multiset(u) == multiset(gs) && NoDup(u)
    requires forall g | g in u :: g != [] && NoDup(g)
    requires forall g, h | g in u && h in u && g != h :: Elems(g) !! Elems(h)
    ensures NoDup(gs)
    ensures forall i | 0 <= i < |gs| :: gs[i] != [] && NoDup(gs[i])
    ensures forall i, j | 0 <= i < j < |gs| :: Elems(gs[i]) !! Elems(gs[j])
    ensures Covered(gs) == Covered(u)
  {
    PermutationNoDup(u, gs);
    forall i | 0 <= i < |gs| ensures gs[i] != [] && NoDup(gs[i]) {
      assert gs[i] in Elems(u);
    }
    forall i, j | 0 <= i < j < |gs| ensures Elems(gs[i]) !! Elems(gs[j]) {
      assert gs[i] in Elems(u) && gs[j] in Elems(u) && gs[i] != gs[j];
    }
    forall x ensures x in Covered(gs) <==> x in Covered(u) {
      if x in Covered(gs) {
        var i :| 0 <= i < |gs| && x in gs[i];
        assert gs[i] in Elems(u);
        var k :| 0 <= k < |u| && u[k] == gs[i];
      }
      if x in Covered(u) {
        var i :| 0 <= i < |u| && x in u[i];
        assert u[i] in Elems(gs);
        var k :| 0 <= k < |gs| && gs[k] == u[i];
      }
    }
  }

  /** Two lines at most `cutoff` apart are written out in the same group. */
  lemma FinalGroupsJoin(order: seq<Item>, dist: Distance, cutoff: int, i: int, j: int)
    requires NoDup(order) && 0 <= i < j < |order|
    requires dist(order[i], order[j]) <= cutoff
    ensures exists k :: 0 <= k < |FinalGroups(order, dist, cutoff)| &&
              order[i] in FinalGroups(order, dist, cutoff)[k] && order[j] in FinalGroups(order, dist, cutoff)[k]
  {
    var b := Replayed(order, dist, cutoff);
    var u := Dedup(Values(b, order));
    var gs := FinalGroups(order, dist, cutoff);
    ReplayJoins(order, dist, cutoff, i, j);
    DedupSpec(Values(b, order));
    PermutationNoDup(u, gs);
    assert Values(b, order)[i] == b[order[i]];
    assert b[order[i]] in Elems(gs);
    var k :| 0 <= k < |gs| && gs[k] == b[order[i]];
    assert order[i] in b[order[i]] && order[j] in b[order[j]];
  }

  /** The groups are written out largest first, and equally large ones by where their first line sits in `ordered_items`. */
  lemma FinalGroupsOrdered(order: seq<Item>, dist: Distance, cutoff: int)
    requires NoDup(order) && order != []
    ensures forall i, j | 0 <= i < j < |FinalGroups(order, dist, cutoff)| ::
              SortsBefore(FinalGroups(order, dist, cutoff)[i], FinalGroups(order, dist, cutoff)[j], OrderedItems(order, dist))
  {
    var gs := FinalGroups(order, dist, cutoff);
    var ordered := OrderedItems(order, dist);
    var u := Dedup(Values(Replayed(order, dist, cutoff), order));
    UniqueRanked(order, dist, cutoff);
    SortSpec(u, ordered);
    FinalGroupsPartition(order, dist, cutoff);
    forall i, j | 0 <= i < j < |gs| ensures gs[i][0] != gs[j][0] {
      assert gs[i][0] in Elems(gs[i]) && gs[j][0] in Elems(gs[j]);
    }
    StrictlySorted(gs, ordered);
  }

  /** Keys that never collide: a length-based key method, or `'append'` over lines without `|`. */
  predicate KeysSeparate(bl: Blender, order: seq<Item>) {
    bl.keyMethod.Longest? || bl.keyMethod.FirstLongest? || (bl.keyMethod.Append? && forall x | x in order :: '|' !in x)
  }

  /** With keys that never collide, each written group is one entry under its own key, in sorted order. */
  lemma ClusteredEntries(bl: Blender, order: seq<Item>, cutoff: int)
    requires NoDup(order) && order != [] && KeysSeparate(bl, order)
    ensures |Clustered(bl, order, cutoff)| == |FinalGroups(order, bl.distance, cutoff)|
    ensures forall i | 0 <= i < |FinalGroups(order, bl.distance, cutoff)| ::
              Clustered(bl, order, cutoff)[i] ==
                (KeyOf(bl.keyMethod, FinalGroups(order, bl.distance, cutoff)[i]), FinalGroups(order, bl.distance, cutoff)[i])
  {
    var gs := FinalGroups(order, bl.distance, cutoff);
    FinalGroupsPartition(order, bl.distance, cutoff);
    KeysDiffer(bl, order, gs);
    KeyedDistinct(bl.keyMethod, gs);
    assert Clustered(bl, order, cutoff) == Keyed(bl.keyMethod, gs);
  }

  /** Keys that never collide name disjoint non-empty groups of the lines differently. */
  lemma KeysDiffer(bl: Blender, order: seq<Item>, gs: seq<Group>)
    requires KeysSeparate(bl, order)
    requires forall i | 0 <= i < |gs| :: gs[i] != []
    requires forall i, j | 0 <= i < j < |gs| :: Elems(gs[i]) !! Elems(gs[j])
    requires Covered(gs) <= Elems(order)
    ensures NonEmpty(gs)
    ensures forall i, j | 0 <= i < j < |gs| :: KeyOf(bl.keyMethod, gs[i]) != KeyOf(bl.keyMethod, gs[j])
  {
    var km := bl.keyMethod;
    forall i, j | 0 <= i < j < |gs| ensures KeyOf(km, gs[i]) != KeyOf(km, gs[j]) {
      assert gs[i][0] in Elems(gs[i]);
      if km.Append? {
        forall y | y in gs[i] ensures '|' !in y {
          assert y in Covered(gs);
        }
        forall y | y in gs[j] ensures '|' !in y {
          assert y in Covered(gs);
        }
        JoinSplit(gs[i]);
        JoinSplit(gs[j]);
      } else {
        KeyIsMember(km, gs[i]);
        KeyIsMember(km, gs[j]);
        assert KeyOf(km, gs[i]) in Elems(gs[i]) && KeyOf(km, gs[j]) in Elems(gs[j]);
      }
    }
  }

  /** The last row has one group: once every cutoff is linked, all lines are together. */
  lemma TableLast(order: seq<Item>, dist: Distance)
    requires NoDup(order) && Cutoffs(order, dist) != []
    ensures |TableRows(order, dist)| == |Cutoffs(order, dist)| + 1
    ensures TableRows(order, dist)[|Cutoffs(order, dist)|].groups == 1
  {
    var cs := Cutoffs(order, dist);
    CutoffsExist(order, dist);
    TableRowAt(order, LinksAtOf(order, dist), cs, |cs|);
    assert cs[..|cs|] == cs;
    FinalOneGroup(order, dist);
  }

  /** After the cutoff loop there is one distinct group. */
  lemma FinalOneGroup(order: seq<Item>, dist: Distance)
    requires NoDup(order) && Cutoffs(order, dist) != []
    ensures order != [] && |Dedup(Values(Final(order, dist), order))| == 1
  {
    CutoffsExist(order, dist);
    AllJoined(order, dist);
    SingleGroup(Final(order, dist), order);
  }

  /** When every line shares the first line's group, there is one distinct group. */
  lemma SingleGroup(b: Belonging, order: seq<Item>)
    requires b.Keys == Elems(order) && order != []
    requires forall x | x in Elems(order) :: b[x] == b[order[0]]
    ensures |Dedup(Values(b, order))| == 1
  {
    UniqueCount(b, order);
    assert order[0] in Elems(order);
    assert Groups(b) == {b[order[0]]} by {
      forall g | g in Groups(b) ensures g == b[order[0]] {
        var x :| x in b && b[x] == g;
      }
    }
  }

  /** The table: the header row, then rows whose group count never rises, whose largest group never shrinks, ending in one group. */
  lemma TableShape(order: seq<Item>, dist: Distance)
    requires NoDup(order) && |order| >= 2
    ensures |TableRows(order, dist)| == |Cutoffs(order, dist)| + 1 >= 2
    ensures TableRows(order, dist)[0] == RowOf(Singletons(order), order, TableRows(order, dist)[0].cutoff)
    ensures forall k | 0 <= k < |TableRows(order, dist)| - 1 ::
              && TableRows(order, dist)[k].cutoff < TableRows(order, dist)[k + 1].cutoff
              && TableRows(order, dist)[k + 1].groups <= TableRows(order, dist)[k].groups
              && TableRows(order, dist)[k].largest <= TableRows(order, dist)[k + 1].largest
    ensures TableRows(order, dist)[|TableRows(order, dist)| - 1].groups == 1
  {
    CutoffsExist(order, dist);
    SingletonsRow(order, Cutoffs(order, dist));
    TableLast(order, dist);
    forall k | 0 <= k < |TableRows(order, dist)| - 1
      ensures TableRows(order, dist)[k].cutoff < TableRows(order, dist)[k + 1].cutoff
      ensures TableRows(order, dist)[k + 1].groups <= TableRows(order, dist)[k].groups
      ensures TableRows(order, dist)[k].largest <= TableRows(order, dist)[k + 1].largest
    {
      TableStep(order, LinksAtOf(order, dist), Cutoffs(order, dist), k);
    }
  }

  /**
   * `Blender.make(items, cutoff)`: without a cutoff, the table of every
   * cutoff; with one, the clustered partition. The two failures are the
   * `IndexError`s of `cutoffs[0]` and `sets.values()[0]` on empty lists.
   */
  method Make(bl: Blender, order: seq<Item>, cutoff: Option<int>) returns (r: Result<Outcome, MakeError>)
    requires NoDup(order)
    ensures cutoff.None? && |order| >= 2 ==> r == Ok(Table(TableRows(order, bl.distance)))
    ensures cutoff.None? && |order| < 2 ==> r == Err(NoCutoffs)
    ensures cutoff.Some? && order != [] ==> r == Ok(Clusters(Clustered(bl, order, cutoff.value)))
    ensures cutoff.Some? && order == [] ==> r == Err(NoItems)
  {
    var linksAt := BucketPairs(Pairs(order), bl.distance);
    var cutoffs := SortedKeys(linksAt);
    CutoffsExist(order, bl.distance);
    if cutoff.None? && cutoffs == [] {
      return Err(NoCutoffs);
    }
    var rows, last := GrowAll(order, linksAt, cutoffs);
    if cutoff.None? {
      return Ok(Table([FirstRow(order, cutoffs)] + rows));
    }
    if order == [] {
      return Err(NoItems);
    }
    var entries := Cluster(bl, order, linksAt, cutoffs, last, cutoff.value);
    return Ok(Clusters(entries));
  }

  /**
   * The end of `make` for a given cutoff: take `ordered_items` from the
   * groups after the cutoff loop, replay the cutoffs up to `cutoff` from
   * singletons, collect the distinct groups, sort them and key them.
   */
  method Cluster(bl: Blender, order: seq<Item>, linksAt: LinksAt, cutoffs: seq<int>, last: Belonging, cutoff: int)
    returns (result: seq<Entry>)
    requires NoDup(order) && order != []
    requires linksAt == LinksAtOf(order, bl.distance) && cutoffs == Cutoffs(order, bl.distance)
    requires last == Final(order, bl.distance)
    ensures result == Clustered(bl, order, cutoff)
  {
    var orderedItems := last[order[0]];
    UsableUpTo(order, linksAt, cutoffs, cutoff);
    var groups := Replay(order, linksAt, UpTo(cutoffs, cutoff));
    var unique := UniqueGroups(groups, order);
    UniqueRanked(order, bl.distance, cutoff);
    var sorted := Sort(unique, orderedItems);
    result := BuildResult(bl.keyMethod, sorted);
  }
}
