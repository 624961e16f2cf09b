/**
 * The `diff` and `apply_diff` subcommands of mergic and their script copies
 * partition_diff.py and apply_diff.py, as operations over the shared closure,
 * and the round trip between them: for valid partitions over the same items,
 * the patch that `diff` reports takes the first partition to the second.
 */
module Patching {
  import opened Partitions
  import opened Closure

  /** An entry restated unchanged in `t` avoids every moved item, when `t` is valid. */
  lemma UnchangedAvoidMoved(p: Partition, t: Partition)
    requires ValidPartition(t)
    ensures forall i | i in t && i !in Changed(p, t) :: Elems(t[i]) * Moved(p, t) == {}
  {
    var c := Changed(p, t);
    forall i | i in t && i !in c ensures Elems(t[i]) * Moved(p, t) == {} {
      forall z | z in Elems(t[i]) ensures z !in Moved(p, t) {
        forall j | j in c ensures z !in c[j] {
          assert j != i && Elems(t[i]) !! Elems(t[j]);
        }
      }
    }
  }

  /** The items of every changed entry are moved items. */
  lemma ChangedGroupsMoved(p: Partition, t: Partition)
    ensures forall j | j in Changed(p, t) :: Elems(t[j]) <= Moved(p, t)
  {
    forall j | j in Changed(p, t) ensures Elems(t[j]) <= Moved(p, t) {
      ChangedItemsMoved(p, t, j);
    }
  }

  /** In a valid partition an item lies in one group only. */
  lemma OneGroup(p: Partition)
    requires ValidPartition(p)
    ensures forall k, i, x | k in p && i in p && x in p[k] && x in p[i] :: k == i
  {
    forall k, i, x | k in p && i in p && x in p[k] && x in p[i] ensures k == i {
      assert x in Elems(p[k]) * Elems(p[i]);
    }
  }

  /** An item of a changed entry is a moved item. */
  lemma MovedIfChanged(p: Partition, t: Partition, i: Key, x: Item)
    requires i in t && x in t[i]
    ensures i in Changed(p, t) ==> x in Moved(p, t)
  {
    if i in Changed(p, t) {
      ChangedItemsMoved(p, t, i);
    }
  }

  /** An entry of `q` restated unchanged from `p` is the one group of `p` holding its items. */
  lemma SharedItemUnchanged(p: Partition, q: Partition, i: Key, k: Key, x: Item)
    requires ValidPartition(p) && i in q && x in q[i] && k in p && x in p[k]
    ensures i !in Changed(p, q) ==> i == k
  {
    if i !in Changed(p, q) {
      assert i in p && p[i] == q[i];
      OneGroup(p);
    }
  }

  /** The reported patch is a fixed point: diffing it against the source again reports it whole. */
  lemma ChangedOfChanged(p: Partition, t: Partition)
    ensures Changed(p, Changed(p, t)) == Changed(p, t)
    ensures Moved(p, Changed(p, t)) == Moved(p, t)
  {
  }

  /** A part of a valid partition is a valid partition. */
  lemma SubMapValid(a: Partition, b: Partition)
    requires SubMap(a, b) && ValidPartition(b)
    ensures ValidPartition(a)
  {
    forall k, k' | k in a && k' in a && k != k' ensures Elems(a[k]) !! Elems(a[k']) {
      assert a[k] == b[k] && a[k'] == b[k'];
    }
  }

  /**
   * Two valid partitions of the same items close over each other: every
   * moved item comes from `p`, and every group of `p` that meets a moved item
   * is moved whole.
   */
  lemma SameItemsClose(p: Partition, q: Partition)
    requires ValidPartition(p) && ValidPartition(q) && Items(p) == Items(q)
    ensures Closes(p, q)
  {
    var c := Changed(p, q);
    ItemsSubMap(c, q);
    UnchangedAvoidMoved(p, q);
    ChangedGroupsMoved(p, q);
    OneGroup(p);
    forall x | x in Pulled(p, q) ensures x in Moved(p, q) {
      var k :| k in Touching(p, Moved(p, q)) && x in Touching(p, Moved(p, q))[k];
      ItemsMember(p, k, x);
      var i :| i in q && x in q[i];
      SharedItemUnchanged(p, q, i, k, x);
      MovedIfChanged(p, q, i, x);
      assert Elems(p[k]) * Moved(p, q) != {};
    }
  }

  /** The groups that apply keeps from `p`, against the patch `Changed(p, q)`: those avoiding the moved items. */
  lemma RemainingOfPatch(p: Partition, q: Partition)
    ensures Remaining(p, Changed(p, q)) == map k | k in p && Elems(p[k]) * Moved(p, q) == {} :: p[k]
  {
    ChangedOfChanged(p, q);
  }

  /**
   * The round trip of the diff -> apply pipeline: for valid partitions `p`
   * and `q` over the same items, where every group of `p` whose key `q`
   * drops is non-empty, `diff` succeeds, its patch is a valid partition that
   * `apply` accepts against `p`, and applying it to `p` gives back `q`.
   */
  lemma {:induction false} RoundTrip(p: Partition, q: Partition)
    requires ValidPartition(p) && ValidPartition(q) && Items(p) == Items(q)
    requires forall k | k in p && k !in q :: p[k] != []
    ensures Closes(p, q)
    ensures ValidPartition(Changed(p, q))
    ensures Changed(p, Changed(p, q)) == Changed(p, q) && Closes(p, Changed(p, q))
    ensures Remaining(p, Changed(p, q)) + Changed(p, q) == q
  {
    var c := Changed(p, q);
    SameItemsClose(p, q);
    SubMapValid(c, q);
    ChangedOfChanged(p, q);
    assert Pulled(p, c) == Pulled(p, q);
    RemainingOfPatch(p, q);
    var rest := Remaining(p, c);
    UnchangedAvoidMoved(p, q);
    ChangedGroupsMoved(p, q);
    OneGroup(p);
    forall k | k in rest ensures k in q {
      if p[k] != [] {
        var x := p[k][0];
        ItemsMember(p, k, x);
        var i :| i in q && x in q[i];
        assert Elems(p[k]) * Moved(p, q) == {};
        assert x !in Moved(p, q) by {
          assert x !in Elems(p[k]) * Moved(p, q);
        }
        MovedIfChanged(p, q, i, x);
        SharedItemUnchanged(p, q, i, k, x);
      }
    }
    forall k | k in q ensures k in rest + c && (rest + c)[k] == q[k] {
      if k !in c {
        assert k in p && p[k] == q[k];
      }
    }
  }

  /** Diffing a partition against itself reports nothing and closes. */
  lemma DiffSelf(p: Partition)
    ensures Changed(p, p) == map[] && Closes(p, p)
  {
    assert Moved(p, p) == {};
    assert Touching(p, {}) == map[];
  }

  /** A group that apply keeps is disjoint from every other patch group. */
  lemma KeptAvoidsPatchGroup(p: Partition, c: Partition, k: Key, j: Key)
    requires ValidPartition(p) && ValidPartition(c)
    requires k in Remaining(p, c) && k !in c && j in c
    ensures Elems(p[k]) !! Elems(c[j])
  {
    if j in Changed(p, c) {
      ChangedItemsMoved(p, c, j);
      assert Elems(p[k]) * Moved(p, c) == {};
      forall x | x in Elems(c[j]) ensures x !in Elems(p[k]) {
        assert x in Moved(p, c);
        assert x !in Elems(p[k]) * Moved(p, c);
      }
    } else {
      assert c[j] == p[j] && k != j;
    }
  }

  /**
   * Apply keeps a valid partition valid: the groups it keeps avoid the moved
   * items, and every item of the result was an item of `p`.
   */
  lemma ApplyValid(p: Partition, c: Partition)
    requires ValidPartition(p) && ValidPartition(c) && Closes(p, c)
    ensures ValidPartition(Remaining(p, c) + c)
    ensures Items(Remaining(p, c) + c) <= Items(p)
  {
    var rest := Remaining(p, c);
    var r := rest + c;
    UnchangedAvoidMoved(p, c);
    forall k, k' | k in r && k' in r && k != k' ensures Elems(r[k]) !! Elems(r[k']) {
      if k in c && k' in c {
      } else if k in c {
        KeptAvoidsPatchGroup(p, c, k', k);
      } else if k' in c {
        KeptAvoidsPatchGroup(p, c, k, k');
      } else {
        assert r[k] == p[k] && r[k'] == p[k'];
      }
    }
    forall x | x in Items(r) ensures x in Items(p) {
      var k :| k in r && x in r[k];
      if k in c {
        if k in Changed(p, c) {
          ChangedItemsMoved(p, c, k);
        } else {
          ItemsMember(p, k, x);
        }
      } else {
        ItemsMember(p, k, x);
      }
    }
  }

  /**
   * Every original group that apply drops entirely (its key is gone from the
   * result) has all its items reassigned by the patch.
   */
  lemma DroppedReassigned(p: Partition, t: Partition, cl: Closed)
    requires SubMap(cl.rest, p) && SubMap(cl.changes, t)
    requires Items(Dropped(p, cl.rest, t.Keys - cl.changes.Keys)) == Items(cl.changes)
    ensures forall k | k in p && k !in cl.rest + t :: Elems(p[k]) <= Items(t)
  {
    ItemsSubMap(cl.changes, t);
    forall k | k in p && k !in cl.rest + t ensures Elems(p[k]) <= Items(t) {
      var dropped := Dropped(p, cl.rest, t.Keys - cl.changes.Keys);
      assert k in dropped;
      forall x | x in Elems(p[k]) ensures x in Items(t) {
        ItemsMember(dropped, k, x);
      }
    }
  }

  /**
   * The closure core of partition_diff.py: no validation, then the shared
   * closure; on success the changed entries of `q`.
   */
  method PartitionDiff(p: Partition, orderP: seq<Key>, q: Partition, orderQ: seq<Key>)
    returns (r: Result<Partition, ClosureError>)
    requires IsOrder(p, orderP) && IsOrder(q, orderQ)
    ensures r.Ok? ==> SubMap(r.value, q)
    ensures r.Ok? ==> forall k | k in q && k !in r.value :: k in p && p[k] == q[k]
    ensures r.Err? ==> (r.error.NotFound? || r.error.NotAssigned?) && r.error.items != {}
    ensures ValidPartition(p) && ValidPartition(q) ==>
              && (r.Ok? <==> Closes(p, q))
              && (r.Ok? ==> r.value == Changed(p, q))
              && (r.Err? && r.error.NotFound? ==> r.error.items <= Moved(p, q) - Items(p))
              && (r.Err? && r.error.NotAssigned? ==> r.error.items == Pulled(p, q) - Moved(p, q))
  {
    var closed := CloseOver(p, orderP, q, orderQ);
    match closed
    case Err(e) => return Err(e);
    case Ok(cl) => return Ok(cl.changes);
  }

  /**
   * mergic's `diff`: both arguments are validated first (`_check`), then the
   * shared closure runs; on success the patch is the changed entries of `q`.
   */
  method Diff(p: Partition, orderP: seq<Key>, q: Partition, orderQ: seq<Key>)
    returns (r: Result<Partition, ClosureError>)
    requires IsOrder(p, orderP) && IsOrder(q, orderQ)
    ensures r.Ok? <==> ValidPartition(p) && ValidPartition(q) && Closes(p, q)
    ensures r.Ok? ==> r.value == Changed(p, q)
    ensures r.Err? && r.error.CheckFailed? ==> !ValidPartition(p) || !ValidPartition(q)
    ensures r.Err? && r.error.NotFound? ==> {} != r.error.items <= Moved(p, q) - Items(p)
    ensures r.Err? && r.error.NotAssigned? ==> {} != r.error.items == Pulled(p, q) - Moved(p, q)
  {
    var c1 := Check(p, orderP);
    if c1.Err? {
      return Err(CheckFailed(c1.error));
    }
    var c2 := Check(q, orderQ);
    if c2.Err? {
      return Err(CheckFailed(c2.error));
    }
    var closed := CloseOver(p, orderP, q, orderQ);
    match closed
    case Err(e) => return Err(e);
    case Ok(cl) => return Ok(cl.changes);
  }

  /**
   * The closure core of apply_diff.py: no validation, the shared closure
   * with the patch `c` as target, then `update`: every patch entry overwrites
   * or joins the working copy.
   */
  method ApplyDiff(p: Partition, orderP: seq<Key>, c: Partition, orderC: seq<Key>)
    returns (r: Result<Partition, ClosureError>)
    requires IsOrder(p, orderP) && IsOrder(c, orderC)
    ensures r.Ok? ==> forall k | k in c :: k in r.value && r.value[k] == c[k]
    ensures r.Ok? ==> forall k | k in r.value && k !in c :: k in p && r.value[k] == p[k]
    ensures r.Ok? ==> forall k | k in p && k !in r.value :: Elems(p[k]) <= Items(c)
    ensures r.Err? ==> (r.error.NotFound? || r.error.NotAssigned?) && r.error.items != {}
    ensures ValidPartition(p) && ValidPartition(c) ==>
              && (r.Ok? <==> Closes(p, c))
              && (r.Ok? ==> r.value == Remaining(p, c) + c)
  {
    var closed := CloseOver(p, orderP, c, orderC);
    match closed
    case Err(e) => return Err(e);
    case Ok(cl) =>
      DroppedReassigned(p, c, cl);
      return Ok(cl.rest + c);
  }

  /**
   * mergic's `apply_diff`: the partition is validated (the patch is not),
   * then the shared closure runs and the patch is merged in with `update`.
   */
  method Apply(p: Partition, orderP: seq<Key>, c: Partition, orderC: seq<Key>)
    returns (r: Result<Partition, ClosureError>)
    requires IsOrder(p, orderP) && IsOrder(c, orderC)
    ensures r.Ok? ==> ValidPartition(p)
    ensures r.Ok? ==> forall k | k in c :: k in r.value && r.value[k] == c[k]
    ensures r.Ok? ==> forall k | k in r.value && k !in c :: k in p && r.value[k] == p[k]
    ensures r.Ok? ==> forall k | k in p && k !in r.value :: Elems(p[k]) <= Items(c)
    ensures r.Err? && r.error.CheckFailed? ==> !ValidPartition(p)
    ensures r.Err? && !r.error.CheckFailed? ==> r.error.items != {}
    ensures ValidPartition(c) ==>
              && (r.Ok? <==> ValidPartition(p) && Closes(p, c))
              && (r.Ok? ==> r.value == Remaining(p, c) + c)
  {
    var c1 := Check(p, orderP);
    if c1.Err? {
      return Err(CheckFailed(c1.error));
    }
    var closed := CloseOver(p, orderP, c, orderC);
    match closed
    case Err(e) => return Err(e);
    case Ok(cl) =>
      DroppedReassigned(p, c, cl);
      return Ok(cl.rest + c);
  }

  /** Some iteration order of a dict: its keys, each once. */
  method SomeOrder(m: Partition) returns (order: seq<Key>)
    ensures IsOrder(m, order)
  {
    order := [];
    var left := m.Keys;
    while left != {}
      invariant left !! Elems(order) && left + Elems(order) == m.Keys
      invariant NoDup(order)
      decreases left
    {
      var k :| k in left;
      order := order + [k];
      left := left - {k};
    }
  }

  /**
   * The diff -> apply pipeline: diff `p` against `q`, then apply the patch to
   * `p`. For valid partitions over the same items (no empty group of `p`
   * under a key that `q` drops) it gives back `q`, whatever the dict orders.
   */
  method DiffThenApply(p: Partition, orderP: seq<Key>, q: Partition, orderQ: seq<Key>)
    returns (r: Result<Partition, ClosureError>)
    requires IsOrder(p, orderP) && IsOrder(q, orderQ)
    requires ValidPartition(p) && ValidPartition(q) && Items(p) == Items(q)
    requires forall k | k in p && k !in q :: p[k] != []
    ensures r == Ok(q)
  {
    RoundTrip(p, q);
    var d := Diff(p, orderP, q, orderQ);
    var patch := d.value;
    var orderC := SomeOrder(patch);
    r := Apply(p, orderP, patch, orderC);
  }
}
