/**
 * Partitions: a partition maps a group key to the list of items in that group.
 * It is valid when no item is listed twice, neither inside one group nor
 * across two groups. `Check` is the validation loop of mergic's `_check`.
 */
module Partitions {

  type Item = string
  type Key = string

  /** A JSON partition: group key -> list of items (list order is kept). */
  type Partition = map<Key, seq<Item>>

  datatype Result<T, E> = Ok(value: T) | Err(error: E)

  /** Which of the two assertions of the validation loop failed, and on which key. */
  datatype CheckError =
    | RepeatedInGroup(key: Key)    // `len(values) != len(set(values))`
    | SharedWithEarlier(key: Key)  // an item of this group was seen in an earlier group

  function Elems<T>(s: seq<T>): set<T> {
    set x | x in s
  }

  predicate NoDup<T(==)>(s: seq<T>) {
    forall i, j | 0 <= i < j < |s| :: s[i] != s[j]
  }

  /** Every item listed anywhere in `p`. */
  function Items(p: Partition): set<Item> {
    set k, x | k in p && x in p[k] :: x
  }

  /** No item is repeated inside a group, and no two groups share an item. */
  predicate ValidPartition(p: Partition) {
    && (forall k | k in p :: NoDup(p[k]))
    && (forall k, k' | k in p && k' in p && k != k' :: Elems(p[k]) !! Elems(p[k']))
  }

  /** `order` is an iteration order of the dict `p`: each key exactly once. */
  ghost predicate IsOrder(p: Partition, order: seq<Key>) {
    NoDup(order) && forall k :: k in p <==> k in order
  }

  /** The items of the groups listed in `ks`, as the running set `all_items` grows. */
  function UnionOf(p: Partition, ks: seq<Key>): set<Item>
    requires forall k | k in ks :: k in p
  {
    if ks == [] then {} else UnionOf(p, ks[..|ks| - 1]) + Elems(p[ks[|ks| - 1]])
  }

  /** Sum of the lengths of the groups listed in `ks`. */
  function SumLengths(p: Partition, ks: seq<Key>): nat
    requires forall k | k in ks :: k in p
  {
    if ks == [] then 0 else SumLengths(p, ks[..|ks| - 1]) + |p[ks[|ks| - 1]]|
  }

  /** The groups listed in `ks` are repetition-free and pairwise disjoint. */
  predicate ValidOver(p: Partition, ks: seq<Key>)
    requires forall k | k in ks :: k in p
  {
    && (forall i | 0 <= i < |ks| :: NoDup(p[ks[i]]))
    && (forall i, j | 0 <= i < j < |ks| :: Elems(p[ks[i]]) !! Elems(p[ks[j]]))
  }

  /** In a list without repetitions, an element does not occur before its own position. */
  lemma NotInPrefix<T>(s: seq<T>, j: int)
    requires NoDup(s) && 0 <= j < |s|
    ensures s[j] !in s[..j]
  {
    forall i | 0 <= i < j ensures s[..j][i] != s[j] {
      assert s[..j][i] == s[i];
    }
  }

  /** Growing a repetition-free prefix by one position adds one new element. */
  lemma ElemsSnoc<T>(s: seq<T>, i: int)
    requires NoDup(s) && 0 <= i < |s|
    ensures s[i] !in Elems(s[..i])
    ensures Elems(s[..i + 1]) == Elems(s[..i]) + {s[i]}
  {
    NotInPrefix(s, i);
    assert s[..i + 1] == s[..i] + [s[i]];
  }

  lemma {:induction false} ElemsCard<T>(s: seq<T>)
    ensures |Elems(s)| <= |s|
  {
    if s != [] {
      var t := s[..|s| - 1];
      ElemsCard(t);
      assert Elems(s) == Elems(t) + {s[|s| - 1]};
    }
  }

  /** The assertion `len(values) == len(set(values))` holds exactly for lists without repetitions. */
  lemma {:induction false} NoDupIffCard<T>(s: seq<T>)
    ensures NoDup(s) <==> |Elems(s)| == |s|
  {
    if s != [] {
      var t := s[..|s| - 1];
      var last := s[|s| - 1];
      NoDupIffCard(t);
      ElemsCard(t);
      assert Elems(s) == Elems(t) + {last};
      if last in Elems(t) {
        var i :| 0 <= i < |t| && t[i] == last;
        assert s[i] == s[|s| - 1];
      } else {
        assert NoDup(t) ==> NoDup(s);
        if NoDup(s) {
          forall i, j | 0 <= i < j < |t| ensures t[i] != t[j] {
            assert t[i] == s[i] && t[j] == s[j];
          }
        }
      }
    }
  }

  lemma {:induction false} UnionOfMember(p: Partition, ks: seq<Key>, x: Item)
    requires forall k | k in ks :: k in p
    ensures x in UnionOf(p, ks) <==> exists i :: 0 <= i < |ks| && x in p[ks[i]]
  {
    if ks != [] {
      var t := ks[..|ks| - 1];
      UnionOfMember(p, t, x);
      if x in UnionOf(p, t) {
        var i :| 0 <= i < |t| && x in p[t[i]];
        assert ks[i] == t[i];
      }
      if exists i :: 0 <= i < |ks| && x in p[ks[i]] {
        var i :| 0 <= i < |ks| && x in p[ks[i]];
        if i < |t| { assert t[i] == ks[i]; }
      }
    }
  }

  /** For an iteration order of `p`, the running set ends as the set of all items. */
  lemma UnionOfOrder(p: Partition, order: seq<Key>)
    requires IsOrder(p, order)
    ensures UnionOf(p, order) == Items(p)
  {
    forall x ensures x in UnionOf(p, order) <==> x in Items(p) {
      UnionOfMember(p, order, x);
      if x in Items(p) {
        var k :| k in p && x in p[k];
        var i :| 0 <= i < |order| && order[i] == k;
      }
    }
  }

  lemma ValidOverOrder(p: Partition, order: seq<Key>)
    requires IsOrder(p, order)
    ensures ValidOver(p, order) <==> ValidPartition(p)
  {
    if ValidOver(p, order) {
      forall k, k' | k in p && k' in p && k != k' ensures Elems(p[k]) !! Elems(p[k']) {
        var i :| 0 <= i < |order| && order[i] == k;
        var j :| 0 <= j < |order| && order[j] == k';
        if i < j {} else {}
      }
      forall k | k in p ensures NoDup(p[k]) {
        var i :| 0 <= i < |order| && order[i] == k;
      }
    }
    if ValidPartition(p) {
      forall i, j | 0 <= i < j < |order| ensures Elems(p[order[i]]) !! Elems(p[order[j]]) {
        assert order[i] != order[j];
      }
    }
  }

  /** One step of the validation loop: a clean group extends the running facts. */
  lemma CheckStep(p: Partition, ks: seq<Key>, key: Key)
    requires forall k | k in ks :: k in p
    requires key in p && NoDup(p[key])
    requires ValidOver(p, ks) && |UnionOf(p, ks)| == SumLengths(p, ks)
    requires UnionOf(p, ks) * Elems(p[key]) == {}
    ensures ValidOver(p, ks + [key])
    ensures UnionOf(p, ks + [key]) == UnionOf(p, ks) + Elems(p[key])
    ensures |UnionOf(p, ks + [key])| == SumLengths(p, ks + [key])
  {
    var ks' := ks + [key];
    assert ks'[..|ks'| - 1] == ks;
    NoDupIffCard(p[key]);
    CheckStepDisjoint(p, ks, key);
  }

  /** A group that misses the running set is disjoint from every earlier group. */
  lemma CheckStepDisjoint(p: Partition, ks: seq<Key>, key: Key)
    requires forall k | k in ks :: k in p
    requires key in p && NoDup(p[key]) && ValidOver(p, ks)
    requires UnionOf(p, ks) * Elems(p[key]) == {}
    ensures ValidOver(p, ks + [key])
  {
    var ks' := ks + [key];
    forall j | 0 <= j < |ks| ensures Elems(p[ks'[j]]) !! Elems(p[key]) {
      assert ks'[j] == ks[j];
      GroupInUnion(p, ks, j);
      forall x | x in Elems(p[ks[j]]) ensures x !in Elems(p[key]) {
        assert x !in UnionOf(p, ks) * Elems(p[key]);
      }
    }
  }

  lemma GroupInUnion(p: Partition, ks: seq<Key>, j: int)
    requires forall k | k in ks :: k in p
    requires 0 <= j < |ks|
    ensures Elems(p[ks[j]]) <= UnionOf(p, ks)
  {
    forall x | x in p[ks[j]] ensures x in UnionOf(p, ks) {
      UnionOfMember(p, ks, x);
    }
  }

  /** When the running set meets the next group, some earlier group shares an item with it. */
  lemma SharedWithEarlierWitness(p: Partition, order: seq<Key>, i: int)
    requires IsOrder(p, order) && 0 <= i < |order|
    requires UnionOf(p, order[..i]) * Elems(p[order[i]]) != {}
    ensures exists k' :: k' in p && k' != order[i] && !(Elems(p[k']) !! Elems(p[order[i]]))
  {
    var x :| x in UnionOf(p, order[..i]) * Elems(p[order[i]]);
    UnionOfMember(p, order[..i], x);
    var j :| 0 <= j < i && x in p[order[..i][j]];
    assert order[..i][j] == order[j] && order[j] != order[i];
    assert x in Elems(p[order[j]]);
  }

  /**
   * The validation loop of `_check`: for each group in dict order, reject a
   * group with a repeated item, reject an item already seen, then add the
   * group's items to the running set. On success, the number of distinct
   * items. The argument is a value and is never changed.
   */
  method Check(p: Partition, order: seq<Key>) returns (r: Result<nat, CheckError>)
    requires IsOrder(p, order)
    ensures r.Ok? <==> ValidPartition(p)
    ensures r.Ok? ==> r.value == |Items(p)| == SumLengths(p, order)
    ensures r.Err? && r.error.RepeatedInGroup? ==>
              r.error.key in p && !NoDup(p[r.error.key])
    ensures r.Err? && r.error.SharedWithEarlier? ==>
              && r.error.key in p
              && exists k' :: k' in p && k' != r.error.key && !(Elems(p[k']) !! Elems(p[r.error.key]))
  {
    var all: set<Item> := {};
    for i := 0 to |order|
      invariant all == UnionOf(p, order[..i])
      invariant ValidOver(p, order[..i])
      invariant |all| == SumLengths(p, order[..i])
    {
      var key := order[i];
      var values := p[key];
      NoDupIffCard(values);
      if |values| != |Elems(values)| {
        return Err(RepeatedInGroup(key));
      }
      if all * Elems(values) != {} {
        SharedWithEarlierWitness(p, order, i);
        return Err(SharedWithEarlier(key));
      }
      CheckStep(p, order[..i], key);
      assert order[..i + 1] == order[..i] + [key];
      all := all + Elems(values);
    }
    assert order[..|order|] == order;
    UnionOfOrder(p, order);
    ValidOverOrder(p, order);
    return Ok(|all|);
  }

  /**
   * The partition report: the number of distinct items (`len(total)`) and
   * the number of groups (`len(data)`), once validation has passed.
   */
  method Summary(p: Partition, order: seq<Key>) returns (r: Result<(nat, nat), CheckError>)
    requires IsOrder(p, order)
    ensures r.Ok? <==> ValidPartition(p)
    ensures r.Ok? ==> r.value.0 == |Items(p)| == SumLengths(p, order) && r.value.1 == |p|
  {
    var c := Check(p, order);
    match c
    case Err(e) => return Err(e);
    case Ok(n) => return Ok((n, |p|));
  }
}
