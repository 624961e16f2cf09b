/**
 * The end of `Blender.make`: the final groups are sorted by descending size,
 * ties broken by where each group's first item sits in `ordered_items`, and
 * stored in an `OrderedDict` under the key the key method gives them.
 */
module Ordering {
  import opened Partitions
  import opened Linking
  import opened KeyMethods

  /** An `OrderedDict` entry: key and group as a list. */
  type Entry = (Key, seq<Item>)

  /** `s.index(x)`: where `x` first occurs. */
  function Index(s: seq<Item>, x: Item): (i: nat)
    requires x in s
    ensures i < |s| && s[i] == x && x !in s[..i]
  {
    if s[0] == x then 0
    else
      var j := Index(s[1..], x);
      assert s[..j + 1] == [s[0]] + s[1..][..j];
      j + 1
  }

  /** A group the sort key can be computed for: `x[0]` exists and `ordered_items.index(x[0])` finds it. */
  predicate Ranked(g: Group, ordered: seq<Item>) {
    g != [] && g[0] in ordered
  }

  predicate AllRanked(gs: seq<Group>, ordered: seq<Item>) {
    forall i | 0 <= i < |gs| :: Ranked(gs[i], ordered)
  }

  predicate NonEmpty(gs: seq<Group>) {
    forall i | 0 <= i < |gs| :: gs[i] != []
  }

  /** The key `(0 - len(x), ordered_items.index(x[0]))` of `g` is smaller than that of `h`. */
  predicate SortsBefore(g: Group, h: Group, ordered: seq<Item>)
    requires Ranked(g, ordered) && Ranked(h, ordered)
  {
    0 - |g| < 0 - |h| || (0 - |g| == 0 - |h| && Index(ordered, g[0]) < Index(ordered, h[0]))
  }

  /** No group is followed by one with a smaller key. */
  predicate Sorted(gs: seq<Group>, ordered: seq<Item>)
    requires AllRanked(gs, ordered)
  {
    forall i, j | 0 <= i < j < |gs| :: !SortsBefore(gs[j], gs[i], ordered)
  }

  /** Place `x` after every group whose key is not larger: the step of a stable insertion sort. */
  function Insert(x: Group, s: seq<Group>, ordered: seq<Item>): (r: seq<Group>)
    requires Ranked(x, ordered) && AllRanked(s, ordered)
    ensures multiset(r) == multiset(s) + multiset{x} && AllRanked(r, ordered)
  {
    if s == [] then [x]
    else if SortsBefore(x, s[0], ordered) then [x] + s
    else
      assert s == [s[0]] + s[1..];
      [s[0]] + Insert(x, s[1..], ordered)
  }

  /** `gs.sort(key=lambda x: (0-len(x), ordered_items.index(x[0])))`, a stable sort. */
  function Sort(gs: seq<Group>, ordered: seq<Item>): (r: seq<Group>)
    requires AllRanked(gs, ordered)
    ensures multiset(r) == multiset(gs) && AllRanked(r, ordered)
  {
    if gs == [] then []
    else
      var init := gs[..|gs| - 1];
      assert gs == init + [gs[|gs| - 1]];
      Insert(gs[|gs| - 1], Sort(init, ordered), ordered)
  }

  lemma {:induction false} InsertSorted(x: Group, s: seq<Group>, ordered: seq<Item>)
    requires Ranked(x, ordered) && AllRanked(s, ordered) && Sorted(s, ordered)
    ensures Sorted(Insert(x, s, ordered), ordered)
  {
    if s != [] {
      SortedTail(s, ordered);
      var t := s[1..];
      if SortsBefore(x, s[0], ordered) {
        assert s == [s[0]] + t;
        forall k | 0 <= k < |s| ensures !SortsBefore(s[k], x, ordered) {
          if k > 0 {
            assert s[k] == t[k - 1];
          }
        }
        SortedCons(x, s, ordered);
      } else {
        InsertSorted(x, t, ordered);
        var rt := Insert(x, t, ordered);
        forall k | 0 <= k < |rt| ensures !SortsBefore(rt[k], s[0], ordered) {
          assert rt[k] in multiset(rt);
          if rt[k] != x {
            assert rt[k] in multiset(t);
            var m :| 0 <= m < |t| && t[m] == rt[k];
          }
        }
        SortedCons(s[0], rt, ordered);
      }
    }
  }

  /** The rest of a sorted list is sorted, and nothing in it sorts before the head. */
  lemma SortedTail(s: seq<Group>, ordered: seq<Item>)
    requires AllRanked(s, ordered) && Sorted(s, ordered) && s != []
    ensures AllRanked(s[1..], ordered) && Sorted(s[1..], ordered)
    ensures forall k | 0 <= k < |s| - 1 :: !SortsBefore(s[1..][k], s[0], ordered)
  {
    var t := s[1..];
    forall k | 0 <= k < |t| ensures t[k] == s[k + 1] && Ranked(t[k], ordered) {
    }
    forall i, j | 0 <= i < j < |t| ensures !SortsBefore(t[j], t[i], ordered) {
      assert t[i] == s[i + 1] && t[j] == s[j + 1];
    }
  }

  /** A head that nothing in a sorted list sorts before extends it to a sorted list. */
  lemma SortedCons(a: Group, t: seq<Group>, ordered: seq<Item>)
    requires Ranked(a, ordered) && AllRanked(t, ordered) && Sorted(t, ordered)
    requires forall k | 0 <= k < |t| :: !SortsBefore(t[k], a, ordered)
    ensures AllRanked([a] + t, ordered) && Sorted([a] + t, ordered)
  {
    var r := [a] + t;
    forall k | 0 <= k < |r| ensures Ranked(r[k], ordered) {
      if k > 0 {
        assert r[k] == t[k - 1];
      }
    }
    forall i, j | 0 <= i < j < |r| ensures !SortsBefore(r[j], r[i], ordered) {
      assert r[j] == t[j - 1];
      if i > 0 {
        assert r[i] == t[i - 1];
      }
    }
  }

  /** The sort puts the groups in key order and keeps every group: the result is a sorted permutation. */
  lemma {:induction false} SortSpec(gs: seq<Group>, ordered: seq<Item>)
    requires AllRanked(gs, ordered)
    ensures multiset(Sort(gs, ordered)) == multiset(gs)
    ensures AllRanked(Sort(gs, ordered), ordered) && Sorted(Sort(gs, ordered), ordered)
  {
    if gs != [] {
      var init := gs[..|gs| - 1];
      SortSpec(init, ordered);
      InsertSorted(gs[|gs| - 1], Sort(init, ordered), ordered);
    }
  }

  /** Groups with different first items never tie on the key, so in sorted order each comes strictly before the next. */
  lemma StrictlySorted(gs: seq<Group>, ordered: seq<Item>)
    requires AllRanked(gs, ordered) && Sorted(gs, ordered)
    requires forall i, j | 0 <= i < j < |gs| :: gs[i][0] != gs[j][0]
    ensures forall i, j | 0 <= i < j < |gs| :: SortsBefore(gs[i], gs[j], ordered)
  {
    forall i, j | 0 <= i < j < |gs| ensures SortsBefore(gs[i], gs[j], ordered) {
      assert gs[i] in gs && gs[j] in gs;
      var a, b := Index(ordered, gs[i][0]), Index(ordered, gs[j][0]);
      assert ordered[a] == gs[i][0] && ordered[b] == gs[j][0];
    }
  }

  /** `result[k] = v` on an `OrderedDict`: a present key keeps its place and takes the new value; a new key goes last. */
  function Assign(e: seq<Entry>, k: Key, v: seq<Item>): seq<Entry> {
    if e == [] then [(k, v)]
    else if e[0].0 == k then [(k, v)] + e[1..]
    else [e[0]] + Assign(e[1..], k, v)
  }

  predicate DistinctKeys(e: seq<Entry>) {
    forall i, j | 0 <= i < j < |e| :: e[i].0 != e[j].0
  }

  /** After `result[k] = v`, `k` maps to `v`, every other entry is kept, and no key appears twice. */
  lemma {:induction false} AssignSpec(e: seq<Entry>, k: Key, v: seq<Item>)
    requires DistinctKeys(e)
    ensures (k, v) in Assign(e, k, v)
    ensures forall p | p in e && p.0 != k :: p in Assign(e, k, v)
    ensures forall p | p in Assign(e, k, v) :: p == (k, v) || (p in e && p.0 != k)
    ensures DistinctKeys(Assign(e, k, v))
  {
    if e != [] {
      var t := e[1..];
      assert e == [e[0]] + t;
      assert DistinctKeys(t) by {
        forall i, j | 0 <= i < j < |t| ensures t[i].0 != t[j].0 {
          assert t[i] == e[i + 1] && t[j] == e[j + 1];
        }
      }
      assert forall p | p in t :: p.0 != e[0].0 by {
        forall p | p in t ensures p.0 != e[0].0 {
          var m :| 0 <= m < |t| && t[m] == p;
          assert e[m + 1] == p;
        }
      }
      if e[0].0 != k {
        AssignSpec(t, k, v);
        var r := Assign(e, k, v);
        forall i, j | 0 <= i < j < |r| ensures r[i].0 != r[j].0 {
          assert r[j] in Assign(t, k, v);
          if i > 0 {
            assert r[i] == Assign(t, k, v)[i - 1] && r[j] == Assign(t, k, v)[j - 1];
          }
        }
      } else {
        var r := Assign(e, k, v);
        forall i, j | 0 <= i < j < |r| ensures r[i].0 != r[j].0 {
          assert r[j] == e[j];
          if i > 0 {
            assert r[i] == e[i];
          }
        }
      }
    }
  }

  /** A key not yet in the dict is appended. */
  lemma {:induction false} AssignFresh(e: seq<Entry>, k: Key, v: seq<Item>)
    requires forall p | p in e :: p.0 != k
    ensures Assign(e, k, v) == e + [(k, v)]
  {
    if e != [] {
      assert forall p | p in e[1..] :: p in e;
      AssignFresh(e[1..], k, v);
      assert e == [e[0]] + e[1..];
    }
  }

  /** The `OrderedDict` built by `for item in gs: result[key_method(item)] = list(item)`. */
  function Keyed(km: KeyMethod, gs: seq<Group>): seq<Entry>
    requires NonEmpty(gs)
  {
    if gs == [] then []
    else
      var last := gs[|gs| - 1];
      Assign(Keyed(km, gs[..|gs| - 1]), KeyOf(km, last), last)
  }

  /** When the key method names different groups differently, each group becomes one entry, in order. */
  lemma {:induction false} KeyedDistinct(km: KeyMethod, gs: seq<Group>)
    requires NonEmpty(gs)
    requires forall i, j | 0 <= i < j < |gs| :: KeyOf(km, gs[i]) != KeyOf(km, gs[j])
    ensures |Keyed(km, gs)| == |gs|
    ensures forall i | 0 <= i < |gs| :: Keyed(km, gs)[i] == (KeyOf(km, gs[i]), gs[i])
  {
    if gs != [] {
      var init := gs[..|gs| - 1];
      var last := gs[|gs| - 1];
      KeyedDistinct(km, init);
      var e := Keyed(km, init);
      forall p | p in e ensures p.0 != KeyOf(km, last) {
        var m :| 0 <= m < |e| && e[m] == p;
        assert init[m] == gs[m];
      }
      AssignFresh(e, KeyOf(km, last), last);
    }
  }

  /** The loop that fills the `OrderedDict`. */
  method BuildResult(km: KeyMethod, gs: seq<Group>) returns (result: seq<Entry>)
    requires NonEmpty(gs)
    ensures result == Keyed(km, gs)
  {
    result := [];
    for i := 0 to |gs|
      invariant result == Keyed(km, gs[..i])
    {
      assert gs[..i + 1][..i] == gs[..i];
      result := Assign(result, KeyOf(km, gs[i]), gs[i]);
    }
    assert gs[..|gs|] == gs;
  }
}
