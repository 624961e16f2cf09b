/**
 * The cutoff loop of `Blender.make`: starting from one group per item, the
 * links of each cutoff's bucket are applied in turn, and after each cutoff
 * the distinct groups are collected (`unique_sets`) and summarised in a row
 * (number of groups, largest group, pairs within groups, cutoff).
 */
module Blending {
  import opened Partitions
  import opened Linking
  import opened Buckets

  /** One line of the cutoff table. */
  datatype Row = Row(groups: nat, largest: nat, pairs: nat, cutoff: int)

  /** `sets.values()`: each item's group, in the dict's order. */
  function Values(b: Belonging, order: seq<Item>): seq<Group>
    requires Elems(order) <= b.Keys
  {
    seq(|order|, i requires 0 <= i < |order| => b[order[i]])
  }

  /** `unique_sets`: each group once, in order of first appearance. */
  function Dedup(s: seq<Group>): seq<Group> {
    if s == [] then []
    else
      var d := Dedup(s[..|s| - 1]);
      if s[|s| - 1] in d then d else d + [s[|s| - 1]]
  }

  /** Sum of the group sizes of a list of groups such as `unique_sets`; `Partitions.SumLengths` is the same sum over a keyed dict, taken in key order. */
  function SumSizes(gs: seq<Group>): nat {
    if gs == [] then 0 else SumSizes(gs[..|gs| - 1]) + |gs[|gs| - 1]|
  }

  /** `sum(len(x)*(len(x)-1)/2 for x in unique_sets)`: pairs of items that share a group. */
  function PairCount(gs: seq<Group>): nat {
    if gs == [] then 0
    else
      var n := |gs[|gs| - 1]|;
      PairCount(gs[..|gs| - 1]) + n * (n - 1) / 2
  }

  /** `max(c.keys())` for `c = Counter(len(x) for x in gs)`: the size of the largest group (0 when there is none). */
  function MaxLen(gs: seq<Group>): nat {
    if gs == [] then 0
    else
      var m := MaxLen(gs[..|gs| - 1]);
      if |gs[|gs| - 1]| > m then |gs[|gs| - 1]| else m
  }

  /** Every item listed in one of a list of groups; `Partitions.Items` is the same set for a keyed dict. */
  function Covered(gs: seq<Group>): set<Item> {
    set i, x | 0 <= i < |gs| && x in gs[i] :: x
  }

  /** The row printed after a cutoff. */
  function RowOf(b: Belonging, order: seq<Item>, cutoff: int): Row
    requires Elems(order) <= b.Keys
  {
    var unique := Dedup(Values(b, order));
    Row(|unique|, MaxLen(unique), PairCount(unique), cutoff)
  }

  /** The header row, before any link: every item alone. */
  function FirstRow(order: seq<Item>, cutoffs: seq<int>): Row
    requires cutoffs != []
  {
    Row(|order|, 1, 0, cutoffs[0] - 1)
  }

  /** Every cutoff of `cs` has a bucket in `m`, and its links join items of `order`. */
  predicate Usable(order: seq<Item>, m: LinksAt, cs: seq<int>) {
    forall i | 0 <= i < |cs| :: cs[i] in m && Endpoints(m[cs[i]], Elems(order))
  }

  /** The cutoffs kept by `UpTo` are still usable. */
  lemma UsableUpTo(order: seq<Item>, m: LinksAt, cs: seq<int>, cutoff: int)
    requires Usable(order, m, cs)
    ensures Usable(order, m, UpTo(cs, cutoff))
  {
    var r := UpTo(cs, cutoff);
    forall i | 0 <= i < |r| ensures r[i] in m && Endpoints(m[r[i]], Elems(order)) {
      assert r[i] in r;
      var j :| 0 <= j < |cs| && cs[j] == r[i];
    }
  }

  /** The groups after the buckets `cs` were linked, starting from singletons. */
  function Grown(order: seq<Item>, m: LinksAt, cs: seq<int>): (b: Belonging)
    requires Usable(order, m, cs)
    ensures GroupMap(b) && b.Keys == Elems(order)
  {
    FlattenEndpoints(m, cs, Elems(order));
    LinkAllValid(Singletons(order), Flatten(m, cs));
    LinkAll(Singletons(order), Flatten(m, cs))
  }

  lemma {:induction false} FlattenEndpoints(m: LinksAt, cs: seq<int>, keys: set<Item>)
    requires forall i | 0 <= i < |cs| :: cs[i] in m && Endpoints(m[cs[i]], keys)
    ensures Endpoints(Flatten(m, cs), keys)
  {
    if cs != [] {
      var init := cs[..|cs| - 1];
      FlattenEndpoints(m, init, keys);
    }
  }

  /** One more cutoff: its bucket's links applied to the groups so far. */
  lemma GrownStep(order: seq<Item>, m: LinksAt, cs: seq<int>, k: int)
    requires Usable(order, m, cs)
    requires 0 <= k < |cs|
    ensures cs[k] in m && Endpoints(m[cs[k]], Grown(order, m, cs[..k]).Keys)
    ensures Grown(order, m, cs[..k + 1]) == LinkAll(Grown(order, m, cs[..k]), m[cs[k]])
  {
    assert cs[..k + 1][..k] == cs[..k];
    FlattenEndpoints(m, cs[..k + 1], Elems(order));
    LinkAllConcat(Singletons(order), Flatten(m, cs[..k]), m[cs[k]]);
  }

  /** The rows printed after the first `n` cutoffs: row `k` describes the groups once cutoffs `0..k` were linked. */
  function CutoffRows(order: seq<Item>, m: LinksAt, cs: seq<int>, n: int): (rows: seq<Row>)
    requires Usable(order, m, cs)
    requires 0 <= n <= |cs|
    ensures |rows| == n
  {
    if n == 0 then []
    else
      CutoffRows(order, m, cs, n - 1) + [RowOf(Grown(order, m, cs[..n]), order, cs[n - 1])]
  }

  lemma {:induction false} CutoffRowAt(order: seq<Item>, m: LinksAt, cs: seq<int>, n: int, k: int)
    requires Usable(order, m, cs)
    requires 0 <= k < n <= |cs|
    ensures CutoffRows(order, m, cs, n)[k] == RowOf(Grown(order, m, cs[..k + 1]), order, cs[k])
  {
    if k < n - 1 {
      CutoffRowAt(order, m, cs, n - 1, k);
    }
  }

  /** The table over the buckets `m` and the cutoffs `cs`: the header row, then one row per cutoff. */
  function TableOf(order: seq<Item>, m: LinksAt, cs: seq<int>): seq<Row>
    requires Usable(order, m, cs)
  {
    if cs == [] then [] else [FirstRow(order, cs)] + CutoffRows(order, m, cs, |cs|)
  }

  /** Row `k` of the table describes the groups after the first `k` cutoffs were linked. */
  lemma TableRowAt(order: seq<Item>, m: LinksAt, cs: seq<int>, k: int)
    requires NoDup(order) && order != [] && Usable(order, m, cs)
    requires cs != [] && 0 <= k <= |cs|
    ensures |TableOf(order, m, cs)| == |cs| + 1
    ensures TableOf(order, m, cs)[k] == RowOf(Grown(order, m, cs[..k]), order, if k == 0 then cs[0] - 1 else cs[k - 1])
  {
    if k == 0 {
      TableHead(order, m, cs);
    } else {
      TableTail(order, m, cs, k);
      CutoffRowAt(order, m, cs, |cs|, k - 1);
    }
  }

  /** The header row is the row of the singletons, which no cutoff has joined yet. */
  lemma TableHead(order: seq<Item>, m: LinksAt, cs: seq<int>)
    requires NoDup(order) && order != [] && Usable(order, m, cs) && cs != []
    ensures TableOf(order, m, cs)[0] == RowOf(Grown(order, m, cs[..0]), order, cs[0] - 1)
  {
    assert TableOf(order, m, cs)[0] == FirstRow(order, cs);
    assert cs[..0] == [];
    assert Flatten(m, cs[..0]) == [];
    assert Grown(order, m, cs[..0]) == Singletons(order);
    SingletonsRow(order, cs);
  }

  lemma TableTail(order: seq<Item>, m: LinksAt, cs: seq<int>, k: int)
    requires Usable(order, m, cs) && 0 < k <= |cs|
    ensures |TableOf(order, m, cs)| == |cs| + 1
    ensures TableOf(order, m, cs)[k] == CutoffRows(order, m, cs, |cs|)[k - 1]
  {
  }

  /** From one row to the next the cutoff rises, the group count does not, and the largest group does not shrink. */
  lemma TableStep(order: seq<Item>, m: LinksAt, cs: seq<int>, k: int)
    requires NoDup(order) && order != [] && Usable(order, m, cs)
    requires Increasing(cs) && 0 <= k < |cs|
    ensures |TableOf(order, m, cs)| == |cs| + 1
    ensures TableOf(order, m, cs)[k].cutoff < TableOf(order, m, cs)[k + 1].cutoff
    ensures TableOf(order, m, cs)[k + 1].groups <= TableOf(order, m, cs)[k].groups
    ensures TableOf(order, m, cs)[k].largest <= TableOf(order, m, cs)[k + 1].largest
  {
    var t := TableOf(order, m, cs);
    var b := Grown(order, m, cs[..k]);
    var c := if k == 0 then cs[0] - 1 else cs[k - 1];
    assert c < cs[k] by {
      if k > 0 {
        assert cs[k - 1] < cs[k];
      }
    }
    TableRowAt(order, m, cs, k);
    assert t[k] == RowOf(b, order, c);
    GrownStep(order, m, cs, k);
    TableRowAt(order, m, cs, k + 1);
    assert t[k + 1] == RowOf(LinkAll(b, m[cs[k]]), order, cs[k]);
    RowStep(b, order, m[cs[k]], c, cs[k]);
  }

  /** Linking one bucket after the row at cutoff `c` gives the row at `c'`: no more groups and no smaller largest group. */
  lemma RowStep(b: Belonging, order: seq<Item>, links: seq<Link>, c: int, c': int)
    requires GroupMap(b) && b.Keys == Elems(order) && Endpoints(links, b.Keys)
    ensures LinkAll(b, links).Keys == b.Keys
    ensures RowOf(LinkAll(b, links), order, c').groups <= RowOf(b, order, c).groups
    ensures RowOf(b, order, c).largest <= RowOf(LinkAll(b, links), order, c').largest
  {
    GroupsShrink(b, order, links);
    LargestGrows(b, order, links);
  }

  /** The groups of `sets` after each unique group was collected: no repeats, and exactly the groups of the dict. */
  lemma {:induction false} DedupSpec(s: seq<Group>)
    ensures NoDup(Dedup(s)) && Elems(Dedup(s)) == Elems(s)
  {
    if s != [] {
      var init := s[..|s| - 1];
      var last := s[|s| - 1];
      DedupSpec(init);
      assert s == init + [last];
      var d := Dedup(init);
      assert Elems(s) == Elems(init) + {last};
      assert Elems(d + [last]) == Elems(d) + {last};
      if last !in d {
        forall i, j | 0 <= i < j < |d + [last]| ensures (d + [last])[i] != (d + [last])[j] {
          if j == |d| {
            assert (d + [last])[i] == d[i];
          }
        }
      }
    }
  }

  lemma ValuesGroups(b: Belonging, order: seq<Item>)
    requires b.Keys == Elems(order)
    ensures Elems(Values(b, order)) == Groups(b)
  {
    forall g ensures g in Elems(Values(b, order)) <==> g in Groups(b) {
      if g in Groups(b) {
        var x :| x in b && b[x] == g;
        var i :| 0 <= i < |order| && order[i] == x;
        assert Values(b, order)[i] == g;
      }
    }
  }

  /** The first column of a row is the number of groups of the dict. */
  lemma UniqueCount(b: Belonging, order: seq<Item>)
    requires b.Keys == Elems(order)
    ensures |Dedup(Values(b, order))| == |Groups(b)|
  {
    DedupSpec(Values(b, order));
    ValuesGroups(b, order);
    NoDupIffCard(Dedup(Values(b, order)));
  }

  /** The unique groups split the items: none is empty or repeats an item, two of them share no item, and together they hold every item. */
  lemma UniquePartition(b: Belonging, order: seq<Item>)
    requires GroupMap(b) && b.Keys == Elems(order)
    ensures forall g | g in Dedup(Values(b, order)) :: g != [] && NoDup(g) && Elems(g) <= Elems(order)
    ensures forall g, h | g in Dedup(Values(b, order)) && h in Dedup(Values(b, order)) && g != h :: Elems(g) !! Elems(h)
    ensures Covered(Dedup(Values(b, order))) == Elems(order)
  {
    var u := Dedup(Values(b, order));
    DedupSpec(Values(b, order));
    ValuesGroups(b, order);
    forall g | g in u ensures g != [] && NoDup(g) && Elems(g) <= Elems(order) {
      assert g in Groups(b);
      var x :| x in b && b[x] == g;
    }
    forall g, h | g in u && h in u && g != h ensures Elems(g) !! Elems(h) {
      assert g in Groups(b) && h in Groups(b);
      var x :| x in b && b[x] == g;
      var y :| y in b && b[y] == h;
      forall z | z in g ensures z !in h {
        if z in h {
          SharedMember(b, x, y, z);
        }
      }
    }
    forall x | x in Covered(u) ensures x in Elems(order) {
      var i :| 0 <= i < |u| && x in u[i];
      assert u[i] in u;
    }
    forall x | x in Elems(order) ensures x in Covered(u) {
      assert b[x] in Groups(b);
      var i :| 0 <= i < |u| && u[i] == b[x];
      assert x in u[i];
    }
  }

  /** The items of one more group join those already covered. */
  lemma CoveredSnoc(gs: seq<Group>, g: Group)
    ensures Covered(gs + [g]) == Covered(gs) + Elems(g)
  {
    var s := gs + [g];
    forall x | x in Covered(s) ensures x in Covered(gs) + Elems(g) {
      var i :| 0 <= i < |s| && x in s[i];
      if i < |gs| {
        assert x in gs[i];
      }
    }
    forall x | x in Covered(gs) ensures x in Covered(s) {
      var i :| 0 <= i < |gs| && x in gs[i];
      assert x in s[i];
    }
    forall x | x in Elems(g) ensures x in Covered(s) {
      assert x in s[|gs|];
    }
  }

  /** Sizes of disjoint repetition-free groups add up to the number of items they hold. */
  lemma {:induction false} DisjointSizes(gs: seq<Group>)
    requires forall i | 0 <= i < |gs| :: NoDup(gs[i])
    requires forall i, j | 0 <= i < j < |gs| :: Elems(gs[i]) !! Elems(gs[j])
    ensures |Covered(gs)| == SumSizes(gs)
  {
    if gs != [] {
      var init := gs[..|gs| - 1];
      var last := gs[|gs| - 1];
      DisjointSizes(init);
      assert gs == init + [last];
      CoveredSnoc(init, last);
      assert Covered(init) !! Elems(last) by {
        forall x | x in Covered(init) ensures x !in Elems(last) {
          var i :| 0 <= i < |init| && x in init[i];
          assert gs[i] == init[i];
          assert Elems(gs[i]) !! Elems(gs[|gs| - 1]);
        }
      }
      NoDupIffCard(last);
    }
  }

  /**
   * The size histogram of a row accounts for every item exactly once: the
   * group sizes (size times count, summed over the histogram) add up to the
   * number of items.
   */
  lemma SizesAddUp(b: Belonging, order: seq<Item>)
    requires GroupMap(b) && b.Keys == Elems(order) && NoDup(order)
    ensures SumSizes(Dedup(Values(b, order))) == |order|
  {
    var u := Dedup(Values(b, order));
    UniquePartition(b, order);
    DedupSpec(Values(b, order));
    forall i, j | 0 <= i < j < |u| ensures Elems(u[i]) !! Elems(u[j]) {
      assert u[i] in u && u[j] in u && u[i] != u[j];
    }
    DisjointSizes(u);
    NoDupIffCard(order);
  }

  /** `Counter(len(x) for x in gs)[n]`: how many groups have `n` items. */
  function SizeCount(gs: seq<Group>, n: nat): nat {
    if gs == [] then 0
    else SizeCount(gs[..|gs| - 1], n) + (if |gs[|gs| - 1]| == n then 1 else 0)
  }

  /** The histogram's sizes times counts, summed over the sizes `1..n`. */
  function HistogramTotal(gs: seq<Group>, n: nat): nat {
    if n == 0 then 0 else HistogramTotal(gs, n - 1) + n * SizeCount(gs, n)
  }

  lemma {:induction false} HistogramNone(n: nat)
    ensures HistogramTotal([], n) == 0
  {
    if n > 0 {
      HistogramNone(n - 1);
    }
  }

  /** One more group adds its size to the histogram total, when that size is counted. */
  lemma {:induction false} HistogramSnoc(gs: seq<Group>, g: Group, n: nat)
    ensures HistogramTotal(gs + [g], n) == HistogramTotal(gs, n) + (if 1 <= |g| <= n then |g| else 0)
  {
    if n > 0 {
      HistogramSnoc(gs, g, n - 1);
      assert (gs + [g])[..|gs|] == gs;
      var c := SizeCount(gs, n);
      if |g| == n {
        assert SizeCount(gs + [g], n) == c + 1;
        assert n * (c + 1) == n * c + n;
      } else {
        assert SizeCount(gs + [g], n) == c;
      }
    }
  }

  /** Summed over every size present, the histogram counts each item of each group once. */
  lemma {:induction false} HistogramSizes(gs: seq<Group>, n: nat)
    requires forall i | 0 <= i < |gs| :: |gs[i]| <= n
    ensures HistogramTotal(gs, n) == SumSizes(gs)
  {
    if gs == [] {
      HistogramNone(n);
    } else {
      var init := gs[..|gs| - 1];
      var last := gs[|gs| - 1];
      HistogramSizes(init, n);
      assert gs == init + [last];
      HistogramSnoc(init, last, n);
    }
  }

  /** The per-cutoff histogram of `unique_sets` accounts for every item: the sum of size times count is the number of items. */
  lemma HistogramAddsUp(b: Belonging, order: seq<Item>)
    requires GroupMap(b) && b.Keys == Elems(order) && NoDup(order)
    ensures HistogramTotal(Dedup(Values(b, order)), MaxLen(Dedup(Values(b, order)))) == |order|
  {
    var u := Dedup(Values(b, order));
    SizesAddUp(b, order);
    MaxLenBound(u);
    forall i | 0 <= i < |u| ensures |u[i]| <= MaxLen(u) {
      assert u[i] in u;
    }
    HistogramSizes(u, MaxLen(u));
  }

  lemma {:induction false} MaxLenBound(gs: seq<Group>)
    ensures forall g | g in gs :: |g| <= MaxLen(gs)
    ensures gs != [] ==> exists g :: g in gs && |g| == MaxLen(gs)
  {
    if gs != [] {
      var init := gs[..|gs| - 1];
      MaxLenBound(init);
      assert gs == init + [gs[|gs| - 1]];
      if init == [] {
        assert gs[0] in gs && |gs[0]| == MaxLen(gs);
      }
    }
  }

  /** The largest-group column depends only on which groups there are. */
  lemma MaxLenSameGroups(s: seq<Group>, t: seq<Group>)
    requires Elems(s) == Elems(t)
    ensures MaxLen(s) == MaxLen(t)
  {
    MaxLenBound(s);
    MaxLenBound(t);
    if s != [] {
      var g :| g in s && |g| == MaxLen(s);
      assert g in Elems(t);
    }
    if t != [] {
      var g :| g in t && |g| == MaxLen(t);
      assert g in Elems(s);
    }
    NoElems(s);
    NoElems(t);
  }

  /** A list of groups each no larger than its counterpart has no larger largest group. */
  lemma MaxLenPointwise(v: seq<Group>, w: seq<Group>)
    requires |v| == |w| && forall i | 0 <= i < |v| :: |v[i]| <= |w[i]|
    ensures MaxLen(v) <= MaxLen(w)
  {
    MaxLenBound(v);
    MaxLenBound(w);
    if v != [] {
      var g :| g in v && |g| == MaxLen(v);
      var i :| 0 <= i < |v| && v[i] == g;
      assert w[i] in w;
    }
  }

  /** Linking more pairs never shrinks the largest group. */
  lemma LargestGrows(b: Belonging, order: seq<Item>, links: seq<Link>)
    requires GroupMap(b) && b.Keys == Elems(order) && Endpoints(links, b.Keys)
    ensures LinkAll(b, links).Keys == b.Keys
    ensures MaxLen(Dedup(Values(b, order))) <= MaxLen(Dedup(Values(LinkAll(b, links), order)))
  {
    var b' := LinkAll(b, links);
    LinkAllValid(b, links);
    LinkAllMonotone(b, links);
    var v, v' := Values(b, order), Values(b', order);
    forall i | 0 <= i < |v| ensures |v[i]| <= |v'[i]| {
      assert order[i] in b;
    }
    MaxLenPointwise(v, v');
    DedupSpec(v);
    DedupSpec(v');
    MaxLenSameGroups(Dedup(v), v);
    MaxLenSameGroups(Dedup(v'), v');
  }

  /** Linking more pairs never adds a group. */
  lemma GroupsShrink(b: Belonging, order: seq<Item>, links: seq<Link>)
    requires GroupMap(b) && b.Keys == Elems(order) && Endpoints(links, b.Keys)
    ensures LinkAll(b, links).Keys == b.Keys
    ensures |Dedup(Values(LinkAll(b, links), order))| <= |Dedup(Values(b, order))|
  {
    LinkAllValid(b, links);
    LinkAllCount(b, links);
    UniqueCount(b, order);
    UniqueCount(LinkAll(b, links), order);
  }

  /** The header row describes the singletons: one group per item, each of size one, no pair inside a group. */
  lemma SingletonsRow(order: seq<Item>, cutoffs: seq<int>)
    requires NoDup(order) && cutoffs != []
    ensures RowOf(Singletons(order), order, cutoffs[0] - 1) == FirstRow(order, cutoffs) || order == []
  {
    var b := Singletons(order);
    var u := Dedup(Values(b, order));
    if order != [] {
      UniquePartition(b, order);
      SizesAddUp(b, order);
      DedupSpec(Values(b, order));
      assert forall g | g in u :: |g| == 1 by {
        forall g | g in u ensures |g| == 1 {
          assert g in Elems(Values(b, order));
          var i :| 0 <= i < |order| && Values(b, order)[i] == g;
        }
      }
      OnesSum(u);
      assert Values(b, order)[0] in Elems(u);
      MaxLenBound(u);
    }
  }

  /** Groups of size one: their sizes add up to their number, no pair lies within one, and the largest has size one. */
  lemma {:induction false} OnesSum(gs: seq<Group>)
    requires forall g | g in gs :: |g| == 1
    ensures SumSizes(gs) == |gs| && PairCount(gs) == 0
    ensures gs != [] ==> MaxLen(gs) == 1
  {
    if gs != [] {
      var init := gs[..|gs| - 1];
      assert forall g | g in init :: g in gs;
      assert gs[|gs| - 1] in gs;
      OnesSum(init);
    }
  }

  /** The unique-groups loop. */
  method UniqueGroups(b: Belonging, order: seq<Item>) returns (unique: seq<Group>)
    requires Elems(order) <= b.Keys
    ensures unique == Dedup(Values(b, order))
  {
    unique := [];
    for i := 0 to |order|
      invariant unique == Dedup(Values(b, order)[..i])
    {
      assert Values(b, order)[..i + 1][..i] == Values(b, order)[..i];
      var aSet := b[order[i]];
      if aSet !in unique {
        unique := unique + [aSet];
      }
    }
    assert Values(b, order)[..|order|] == Values(b, order);
  }

  /**
   * The cutoff loop: from singletons, link each cutoff's bucket in turn and
   * record its row. Returns the rows and the final groups.
   */
  method GrowAll(order: seq<Item>, linksAt: LinksAt, cutoffs: seq<int>) returns (rows: seq<Row>, last: Belonging)
    requires Usable(order, linksAt, cutoffs)
    ensures rows == CutoffRows(order, linksAt, cutoffs, |cutoffs|)
    ensures last == Grown(order, linksAt, cutoffs)
  {
    var sets := new Belongings(order);
    assert cutoffs[..0] == [];
    rows := [];
    for k := 0 to |cutoffs|
      invariant sets.groupOf == Grown(order, linksAt, cutoffs[..k])
      invariant rows == CutoffRows(order, linksAt, cutoffs, k)
    {
      GrownStep(order, linksAt, cutoffs, k);
      sets.LinkItems(linksAt[cutoffs[k]]);
      var unique := UniqueGroups(sets.groupOf, order);
      rows := rows + [Row(|unique|, MaxLen(unique), PairCount(unique), cutoffs[k])];
    }
    assert cutoffs[..|cutoffs|] == cutoffs;
    last := sets.groupOf;
  }

  /** The replay: from fresh singletons, link the buckets of the chosen cutoffs. */
  method Replay(order: seq<Item>, linksAt: LinksAt, chosen: seq<int>) returns (groups: Belonging)
    requires Usable(order, linksAt, chosen)
    ensures groups == Grown(order, linksAt, chosen)
  {
    var sets := new Belongings(order);
    assert chosen[..0] == [];
    for k := 0 to |chosen|
      invariant sets.groupOf == Grown(order, linksAt, chosen[..k])
    {
      GrownStep(order, linksAt, chosen, k);
      sets.LinkItems(linksAt[chosen[k]]);
    }
    assert chosen[..|chosen|] == chosen;
    groups := sets.groupOf;
  }
}
