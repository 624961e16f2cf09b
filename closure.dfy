/**
 * The boundary closure shared by mergic's `diff` and `apply` (and by the
 * scripts partition_diff.py and apply_diff.py). A target partition `t` is
 * swept entry by entry against a working copy of the source partition `p`:
 * an entry equal to the source's entry under the same key is dropped from the
 * working copy, any other entry is a change whose items join `mixedTo`, and
 * every remaining source group that meets the still unexplained items is
 * removed from the working copy and its items join `mixedFrom`.
 */
module Closure {
  import opened Partitions

  datatype ClosureError =
    | CheckFailed(cause: CheckError)  // an argument is not a valid partition
    | NotFound(items: set<Item>)      // changed target items that no source group holds
    | NotAssigned(items: set<Item>)   // items of pulled source groups that no change reassigns

  /** What a successful sweep leaves: the changed entries and the working copy. */
  datatype Closed = Closed(changes: Partition, rest: Partition)

  /** The groups of `w` that meet `s`. */
  function Touching(w: Partition, s: set<Item>): Partition {
    map k | k in w && Elems(w[k]) * s != {} :: w[k]
  }

  /** The groups of `w` that avoid `s`. */
  function Avoiding(w: Partition, s: set<Item>): Partition {
    map k | k in w && Elems(w[k]) * s == {} :: w[k]
  }

  /** The entries of `t` that differ (as lists) from `p`'s entry under the same key. */
  function Changed(p: Partition, t: Partition): Partition {
    map k | k in t && !(k in p && p[k] == t[k]) :: t[k]
  }

  /** `mixed_to` at the end: every item of a changed entry. */
  function Moved(p: Partition, t: Partition): set<Item> {
    Items(Changed(p, t))
  }

  /** `mixed_from` at the end: every item of a source group that meets a moved item. */
  function Pulled(p: Partition, t: Partition): set<Item> {
    Items(Touching(p, Moved(p, t)))
  }

  /** The two frontiers close: every moved item comes from `p`, and every group it comes from is moved whole. */
  predicate Closes(p: Partition, t: Partition) {
    Moved(p, t) <= Items(p) && Pulled(p, t) <= Moved(p, t)
  }

  /** The working copy after a successful sweep: untouched groups of `p` not restated unchanged in `t`. */
  function Remaining(p: Partition, t: Partition): Partition {
    map k | k in p && Elems(p[k]) * Moved(p, t) == {} && !(k in t && t[k] == p[k]) :: p[k]
  }

  predicate SubMap(a: Partition, b: Partition) {
    forall k | k in a :: k in b && a[k] == b[k]
  }

  lemma ItemsInsert(m: Partition, k: Key, v: seq<Item>)
    requires k !in m
    ensures Items(m[k := v]) == Items(m) + Elems(v)
  {
    var m' := m[k := v];
    forall x | x in Items(m') ensures x in Items(m) + Elems(v) {
      var k' :| k' in m' && x in m'[k'];
      if k' != k { assert x in m[k']; }
    }
    forall x | x in Items(m) ensures x in Items(m') {
      var k' :| k' in m && x in m[k'];
      assert x in m'[k'];
    }
    forall x | x in Elems(v) ensures x in Items(m') {
      assert x in m'[k];
    }
  }

  lemma ItemsMember(m: Partition, k: Key, x: Item)
    requires k in m && x in m[k]
    ensures x in Items(m)
  {
  }

  /** The groups of `w` under keys in `seen` that meet `s`: those a partial sweep has pulled. */
  function Hit(w: Partition, s: set<Item>, seen: set<Key>): Partition {
    map k | k in w && k in seen && Elems(w[k]) * s != {} :: w[k]
  }

  /** The groups of `w` that a partial sweep over `seen` keeps: the sweep loop's state, which is `Avoiding(w, s)` once `seen` holds every key. */
  function Kept(w: Partition, s: set<Item>, seen: set<Key>): Partition {
    map k | k in w && (k !in seen || Elems(w[k]) * s == {}) :: w[k]
  }

  lemma SweepStep(w: Partition, s: set<Item>, seen: set<Key>, key: Key)
    requires key !in seen
    ensures key in w && Elems(w[key]) * s != {} ==>
              && Hit(w, s, seen + {key}) == Hit(w, s, seen)[key := w[key]]
              && Kept(w, s, seen + {key}) == Kept(w, s, seen) - {key}
              && Items(Hit(w, s, seen + {key})) == Items(Hit(w, s, seen)) + Elems(w[key])
    ensures !(key in w && Elems(w[key]) * s != {}) ==>
              Hit(w, s, seen + {key}) == Hit(w, s, seen) && Kept(w, s, seen + {key}) == Kept(w, s, seen)
  {
    if key in w && Elems(w[key]) * s != {} {
      ItemsInsert(Hit(w, s, seen), key, w[key]);
    }
  }

  /**
   * The inner sweep over a snapshot of the working copy's keys (listed in
   * `order`, the dict order of the source): every group that meets `toFind`
   * is deleted and its items are added to `from`.
   */
  method Sweep(work: Partition, order: seq<Key>, toFind: set<Item>, from: set<Item>)
    returns (rest: Partition, from': set<Item>)
    requires NoDup(order) && forall k | k in work :: k in order
    ensures rest == Avoiding(work, toFind)
    ensures from' == from + Items(Touching(work, toFind))
  {
    rest, from' := work, from;
    ghost var seen: set<Key> := {};
    for j := 0 to |order|
      invariant seen == Elems(order[..j])
      invariant rest == Kept(work, toFind, seen)
      invariant from' == from + Items(Hit(work, toFind, seen))
    {
      var key := order[j];
      assert order[..j + 1] == order[..j] + [key];
      NotInPrefix(order, j);
      SweepStep(work, toFind, seen, key);
      assert key in rest <==> key in work;
      assert key in rest ==> rest[key] == work[key];
      if key in rest {
        var values := Elems(rest[key]);
        if values * toFind != {} {
          from' := from' + values;
          rest := rest - {key};
        }
      }
      seen := seen + {key};
    }
    assert order[..|order|] == order;
    assert Hit(work, toFind, seen) == Touching(work, toFind);
    assert Kept(work, toFind, seen) == Avoiding(work, toFind);
  }

  /** The source groups under keys in `p` that neither remain in `work` nor were restated unchanged (`U`): those a sweep removed. */
  function Dropped(p: Partition, work: Partition, u: set<Key>): Partition {
    map k | k in p && k !in work && k !in u :: p[k]
  }

  /** The source groups that avoid `s` and whose keys are not in `u`: the closure loop's working copy part-way, which is `Remaining` at the end. */
  function Untouched(p: Partition, s: set<Item>, u: set<Key>): Partition {
    map k | k in p && Elems(p[k]) * s == {} && k !in u :: p[k]
  }

  lemma ItemsUnion(a: Partition, b: Partition)
    requires a.Keys !! b.Keys
    ensures Items(a + b) == Items(a) + Items(b)
  {
    forall x | x in Items(a + b) ensures x in Items(a) + Items(b) {
      var k :| k in a + b && x in (a + b)[k];
      if k in b { ItemsMember(b, k, x); } else { ItemsMember(a, k, x); }
    }
    forall x | x in Items(a) ensures x in Items(a + b) {
      var k :| k in a && x in a[k];
      ItemsMember(a + b, k, x);
    }
    forall x | x in Items(b) ensures x in Items(a + b) {
      var k :| k in b && x in b[k];
      ItemsMember(a + b, k, x);
    }
  }

  /** Sweeping the groups that meet `s` out of the working copy adds exactly those groups to the dropped ones. */
  lemma DroppedGrows(p: Partition, work: Partition, u: set<Key>, s: set<Item>)
    requires SubMap(work, p) && work.Keys !! u
    ensures Dropped(p, work, u).Keys !! Touching(work, s).Keys
    ensures Dropped(p, Avoiding(work, s), u) == Dropped(p, work, u) + Touching(work, s)
  {
  }

  lemma ItemsSubMap(a: Partition, b: Partition)
    requires SubMap(a, b)
    ensures Items(a) <= Items(b)
  {
    forall x | x in Items(a) ensures x in Items(b) {
      var k :| k in a && x in a[k];
      ItemsMember(b, k, x);
    }
  }

  /**
   * What the outer loop keeps true for any input: `changes` are target
   * entries, `u` are the keys restated unchanged (deleted from the working
   * copy), the working copy is part of the source, `mixedTo` holds the items
   * of the changes and `mixedFrom` those of the groups the sweeps removed.
   */
  ghost predicate Frontier(p: Partition, t: Partition, d: set<Key>, u: set<Key>,
                           work: Partition, mixedFrom: set<Item>, mixedTo: set<Item>, changes: Partition)
  {
    && SubMap(changes, t) && changes.Keys !! u && changes.Keys + u == d
    && (forall k | k in u :: k in p && k in t && p[k] == t[k] && k !in work)
    && SubMap(work, p)
    && mixedTo == Items(changes)
    && mixedTo <= mixedFrom
    && mixedFrom == Items(Dropped(p, work, u))
  }

  /** What the outer loop keeps true when both arguments are valid partitions. */
  ghost predicate ExactFrontier(p: Partition, t: Partition, u: set<Key>,
                                work: Partition, mixedFrom: set<Item>, mixedTo: set<Item>, changes: Partition)
  {
    && (forall k | k in changes :: k !in p || p[k] != changes[k])
    && mixedFrom == Items(Touching(p, mixedTo))
    && work == Untouched(p, mixedTo, u)
  }

  /** A target entry equal to the working copy's entry: deleting it keeps the frontier facts. */
  lemma UnchangedStep(p: Partition, t: Partition, d: set<Key>, u: set<Key>,
                      work: Partition, mixedFrom: set<Item>, mixedTo: set<Item>, changes: Partition, key: Key)
    requires Frontier(p, t, d, u, work, mixedFrom, mixedTo, changes)
    requires key in t && key !in d && key in work && work[key] == t[key]
    ensures Frontier(p, t, d + {key}, u + {key}, work - {key}, mixedFrom, mixedTo, changes)
    ensures ExactFrontier(p, t, u, work, mixedFrom, mixedTo, changes) ==>
              ExactFrontier(p, t, u + {key}, work - {key}, mixedFrom, mixedTo, changes)
  {
    assert Dropped(p, work - {key}, u + {key}) == Dropped(p, work, u);
    if ExactFrontier(p, t, u, work, mixedFrom, mixedTo, changes) {
      assert Untouched(p, mixedTo, u + {key}) == Untouched(p, mixedTo, u) - {key};
    }
  }

  /** Under a valid target, the items of the changes so far avoid every other target entry. */
  lemma ChangesAvoid(t: Partition, changes: Partition, key: Key)
    requires ValidPartition(t) && SubMap(changes, t) && key in t && key !in changes
    ensures Items(changes) * Elems(t[key]) == {}
  {
    forall x | x in Items(changes) ensures x !in Elems(t[key]) {
      var k :| k in changes && x in changes[k];
      assert Elems(t[k]) !! Elems(t[key]);
    }
  }

  /** A changed entry: after the sweep, the general frontier facts hold again unless items are left unexplained. */
  lemma ChangedStep(p: Partition, t: Partition, d: set<Key>, u: set<Key>,
                    work: Partition, mixedFrom: set<Item>, mixedTo: set<Item>, changes: Partition, key: Key)
    requires Frontier(p, t, d, u, work, mixedFrom, mixedTo, changes)
    requires key in t && key !in d
    ensures var mixedTo' := mixedTo + Elems(t[key]);
            var toFind := mixedTo' - mixedFrom;
            var mixedFrom' := mixedFrom + Items(Touching(work, toFind));
            && mixedFrom' <= Items(p)
            && (toFind - mixedFrom' == {} ==>
                  Frontier(p, t, d + {key}, u, Avoiding(work, toFind), mixedFrom', mixedTo', changes[key := t[key]]))
  {
    var mixedTo' := mixedTo + Elems(t[key]);
    var toFind := mixedTo' - mixedFrom;
    var hit := Touching(work, toFind);
    var mixedFrom' := mixedFrom + Items(hit);
    var work' := Avoiding(work, toFind);
    var changes' := changes[key := t[key]];
    assert key !in changes && key !in u;
    assert SubMap(changes', t) && changes'.Keys !! u && changes'.Keys + u == d + {key};
    assert forall k | k in u :: k in p && k in t && p[k] == t[k] && k !in work';
    assert SubMap(work', p);
    ItemsInsert(changes, key, t[key]);
    assert mixedTo' == Items(changes');
    DroppedGrows(p, work, u, toFind);
    ItemsUnion(Dropped(p, work, u), hit);
    assert mixedFrom' == Items(Dropped(p, work', u));
    ItemsSubMap(Dropped(p, work', u), p);
    if toFind - mixedFrom' == {} {
      forall x | x in mixedTo' ensures x in mixedFrom' {
        if x !in mixedFrom {
          assert x in toFind;
          assert x !in toFind - mixedFrom';
        }
      }
    }
  }

  /** In a valid partition, a group that avoids `s` also avoids every group that meets `s`. */
  lemma AvoidsPulled(p: Partition, s: set<Item>, k: Key)
    requires ValidPartition(p) && k in p && Elems(p[k]) * s == {}
    ensures Elems(p[k]) * Items(Touching(p, s)) == {}
  {
    forall x | x in Items(Touching(p, s)) ensures x !in Elems(p[k]) {
      var k' :| k' in Touching(p, s) && x in Touching(p, s)[k'];
      assert k' != k;
      assert Elems(p[k]) !! Elems(p[k']);
    }
  }

  /** Growing `mixedTo` by `e`: the sweep keeps exactly the groups that avoid the new `mixedTo`. */
  lemma ExactAvoiding(p: Partition, u: set<Key>, mixedTo: set<Item>, e: set<Item>)
    requires ValidPartition(p)
    requires forall k | k in u && k in p :: Elems(p[k]) * e == {}
    ensures Avoiding(Untouched(p, mixedTo, u), (mixedTo + e) - Items(Touching(p, mixedTo)))
            == Untouched(p, mixedTo + e, u)
  {
    var work := Untouched(p, mixedTo, u);
    var toFind := (mixedTo + e) - Items(Touching(p, mixedTo));
    forall k | k in work && Elems(work[k]) * toFind == {} ensures Elems(p[k]) * e == {} {
      AvoidsPulled(p, mixedTo, k);
    }
  }

  /** Growing `mixedTo` by `e`: the new `mixedFrom` is every item of a group that meets the new `mixedTo`. */
  lemma ExactPulled(p: Partition, u: set<Key>, mixedTo: set<Item>, e: set<Item>)
    requires ValidPartition(p)
    requires forall k | k in u && k in p :: Elems(p[k]) * e == {}
    ensures var work := Untouched(p, mixedTo, u);
            var toFind := (mixedTo + e) - Items(Touching(p, mixedTo));
            Items(Touching(p, mixedTo)) + Items(Touching(work, toFind)) == Items(Touching(p, mixedTo + e))
  {
    PulledCovered(p, u, mixedTo, e);
    var work := Untouched(p, mixedTo, u);
    var toFind := (mixedTo + e) - Items(Touching(p, mixedTo));
    ItemsSubMap(Touching(p, mixedTo), Touching(p, mixedTo + e));
    ItemsSubMap(Touching(work, toFind), Touching(p, mixedTo + e));
  }

  lemma PulledCovered(p: Partition, u: set<Key>, mixedTo: set<Item>, e: set<Item>)
    requires ValidPartition(p)
    requires forall k | k in u && k in p :: Elems(p[k]) * e == {}
    ensures var work := Untouched(p, mixedTo, u);
            var toFind := (mixedTo + e) - Items(Touching(p, mixedTo));
            Items(Touching(p, mixedTo + e)) <= Items(Touching(p, mixedTo)) + Items(Touching(work, toFind))
  {
    var work := Untouched(p, mixedTo, u);
    var pulled := Items(Touching(p, mixedTo));
    var toFind := (mixedTo + e) - pulled;
    var hit := Touching(work, toFind);
    forall x | x in Items(Touching(p, mixedTo + e)) ensures x in pulled + Items(hit) {
      var k :| k in Touching(p, mixedTo + e) && x in p[k];
      if Elems(p[k]) * mixedTo != {} {
        ItemsMember(Touching(p, mixedTo), k, x);
      } else {
        AvoidsPulled(p, mixedTo, k);
        assert k in hit;
        ItemsMember(hit, k, x);
      }
    }
  }

  /** What remains unexplained after the sweep is exactly the new items that no source group holds. */
  lemma ExactNotFound(p: Partition, mixedTo: set<Item>, mixedFrom: set<Item>, e: set<Item>)
    requires mixedTo <= mixedFrom <= Items(p)
    ensures ((mixedTo + e) - mixedFrom) - Items(Touching(p, mixedTo + e)) == e - Items(p)
  {
    ItemsSubMap(Touching(p, mixedTo + e), p);
    forall x | x in e && x in Items(p) ensures x in Items(Touching(p, mixedTo + e)) {
      var k :| k in p && x in p[k];
      assert x in Elems(p[k]) * (mixedTo + e);
      ItemsMember(Touching(p, mixedTo + e), k, x);
    }
  }

  /** Under valid arguments, an entry that the working copy does not restate is a change of `t` against `p`. */
  lemma ExactChangedKey(p: Partition, t: Partition, d: set<Key>, u: set<Key>,
                        work: Partition, mixedFrom: set<Item>, mixedTo: set<Item>, changes: Partition, key: Key)
    requires ValidPartition(t)
    requires Frontier(p, t, d, u, work, mixedFrom, mixedTo, changes)
    requires ExactFrontier(p, t, u, work, mixedFrom, mixedTo, changes)
    requires key in t && key !in d && !(key in work && work[key] == t[key])
    ensures key in Changed(p, t)
    ensures forall k | k in u && k in p :: Elems(p[k]) * Elems(t[key]) == {}
  {
    assert key !in changes && key !in u;
    ChangesAvoid(t, changes, key);
    forall k | k in u && k in p ensures Elems(p[k]) * Elems(t[key]) == {} {
      assert k != key && Elems(t[k]) !! Elems(t[key]);
    }
  }

  lemma ChangedItemsMoved(p: Partition, t: Partition, key: Key)
    requires key in Changed(p, t)
    ensures Elems(t[key]) <= Moved(p, t)
  {
    forall x | x in Elems(t[key]) ensures x in Moved(p, t) {
      ItemsMember(Changed(p, t), key, x);
    }
  }

  /** One changed entry under valid arguments: the exact frontier facts carry over to the state after the sweep. */
  lemma ExactChangeStep(p: Partition, t: Partition, u: set<Key>,
                        work: Partition, mixedFrom: set<Item>, mixedTo: set<Item>, changes: Partition, key: Key,
                        work': Partition, mixedFrom': set<Item>, mixedTo': set<Item>, changes': Partition,
                        toFind: set<Item>)
    requires ValidPartition(p) && key in Changed(p, t)
    requires forall k | k in u && k in p :: Elems(p[k]) * Elems(t[key]) == {}
    requires ExactFrontier(p, t, u, work, mixedFrom, mixedTo, changes)
    requires mixedTo' == mixedTo + Elems(t[key]) && toFind == mixedTo' - mixedFrom
    requires mixedFrom' == mixedFrom + Items(Touching(work, toFind)) && work' == Avoiding(work, toFind)
    requires changes' == changes[key := t[key]]
    ensures ExactFrontier(p, t, u, work', mixedFrom', mixedTo', changes')
  {
    ExactAvoiding(p, u, mixedTo, Elems(t[key]));
    ExactPulled(p, u, mixedTo, Elems(t[key]));
  }

  /** One changed entry under valid arguments: what the sweep leaves unexplained are moved items no source group holds. */
  lemma ExactChangeNotFound(p: Partition, t: Partition, u: set<Key>,
                            work: Partition, mixedFrom: set<Item>, mixedTo: set<Item>, key: Key,
                            mixedFrom': set<Item>, toFind: set<Item>)
    requires ValidPartition(p) && key in Changed(p, t)
    requires forall k | k in u && k in p :: Elems(p[k]) * Elems(t[key]) == {}
    requires mixedTo <= mixedFrom == Items(Touching(p, mixedTo)) && work == Untouched(p, mixedTo, u)
    requires toFind == (mixedTo + Elems(t[key])) - mixedFrom
    requires mixedFrom' == mixedFrom + Items(Touching(work, toFind))
    ensures toFind - mixedFrom' <= Moved(p, t) - Items(p)
    ensures toFind - mixedFrom' != {} ==> !Closes(p, t)
  {
    var e := Elems(t[key]);
    ExactPulled(p, u, mixedTo, e);
    assert mixedFrom' == Items(Touching(p, mixedTo + e));
    ItemsSubMap(Touching(p, mixedTo), p);
    ExactNotFound(p, mixedTo, mixedFrom, e);
    ChangedItemsMoved(p, t, key);
    if toFind - mixedFrom' != {} {
      var x :| x in toFind - mixedFrom';
      assert x in Moved(p, t) && x !in Items(p);
    }
  }

  /** What the state left by the outer loop says about the outcome of the closure. */
  lemma Conclude(p: Partition, t: Partition, u: set<Key>, work: Partition,
                 mixedFrom: set<Item>, mixedTo: set<Item>, changes: Partition)
    requires Frontier(p, t, t.Keys, u, work, mixedFrom, mixedTo, changes)
    requires ValidPartition(p) && ValidPartition(t) ==> ExactFrontier(p, t, u, work, mixedFrom, mixedTo, changes)
    ensures mixedFrom == mixedTo ==>
              && SubMap(changes, t) && SubMap(work, p)
              && (forall k | k in t && k !in changes :: k in p && p[k] == t[k] && k !in work)
              && Items(Dropped(p, work, t.Keys - changes.Keys)) == Items(changes)
    ensures mixedFrom != mixedTo ==> mixedFrom - mixedTo != {}
    ensures ValidPartition(p) && ValidPartition(t) ==>
              && (mixedFrom == mixedTo <==> Closes(p, t))
              && (mixedFrom == mixedTo ==> changes == Changed(p, t) && work == Remaining(p, t))
              && mixedFrom - mixedTo == Pulled(p, t) - Moved(p, t)
  {
    if ValidPartition(p) && ValidPartition(t) {
      ExactFinish(p, t, u, work, mixedFrom, mixedTo, changes);
    }
    if mixedFrom != mixedTo {
      var x :| (x in mixedFrom) != (x in mixedTo);
      assert x in mixedFrom - mixedTo;
    }
    assert u == t.Keys - changes.Keys;
  }

  /**
   * The body of the outer loop for one target entry `key`: an entry that the
   * working copy restates is deleted from it; any other entry is recorded in
   * `changes`, its items join `mixedTo`, and the sweep pulls every working
   * group that meets the unexplained items. `notFound` is what the sweep
   * could not explain.
   */
  method ProcessEntry(p: Partition, orderP: seq<Key>, t: Partition, key: Key,
                      work: Partition, mixedFrom: set<Item>, mixedTo: set<Item>, changes: Partition,
                      ghost valid: bool, ghost d: set<Key>, ghost u: set<Key>)
    returns (work': Partition, mixedFrom': set<Item>, mixedTo': set<Item>, changes': Partition,
             notFound: set<Item>, ghost u': set<Key>)
    requires IsOrder(p, orderP) && key in t && key !in d
    requires valid == (ValidPartition(p) && ValidPartition(t))
    requires Frontier(p, t, d, u, work, mixedFrom, mixedTo, changes)
    requires valid ==> ExactFrontier(p, t, u, work, mixedFrom, mixedTo, changes)
    ensures notFound == {} ==>
              && Frontier(p, t, d + {key}, u', work', mixedFrom', mixedTo', changes')
              && (valid ==> ExactFrontier(p, t, u', work', mixedFrom', mixedTo', changes'))
    ensures notFound != {} && valid ==> notFound <= Moved(p, t) - Items(p) && !Closes(p, t)
  {
    var values := t[key];
    if key in work && work[key] == values {
      UnchangedStep(p, t, d, u, work, mixedFrom, mixedTo, changes, key);
      work', mixedFrom', mixedTo', changes', notFound, u' := work - {key}, mixedFrom, mixedTo, changes, {}, u + {key};
    } else {
      ChangedStep(p, t, d, u, work, mixedFrom, mixedTo, changes, key);
      changes' := changes[key := values];
      mixedTo' := mixedTo + Elems(values);
      var toFind := mixedTo' - mixedFrom;
      work', mixedFrom' := Sweep(work, orderP, toFind, mixedFrom);
      notFound := toFind - mixedFrom';
      u' := u;
      if valid {
        ExactChangedKey(p, t, d, u, work, mixedFrom, mixedTo, changes, key);
        ExactChangeStep(p, t, u, work, mixedFrom, mixedTo, changes, key,
                        work', mixedFrom', mixedTo', changes', toFind);
        ExactChangeNotFound(p, t, u, work, mixedFrom, mixedTo, key, mixedFrom', toFind);
      }
    }
  }

  /** Once every target entry is processed, the frontier facts pin down the result. */
  lemma ExactFinish(p: Partition, t: Partition, u: set<Key>,
                    work: Partition, mixedFrom: set<Item>, mixedTo: set<Item>, changes: Partition)
    requires Frontier(p, t, t.Keys, u, work, mixedFrom, mixedTo, changes)
    requires ExactFrontier(p, t, u, work, mixedFrom, mixedTo, changes)
    ensures changes == Changed(p, t)
    ensures mixedTo == Moved(p, t) && mixedFrom == Pulled(p, t)
    ensures work == Remaining(p, t)
    ensures mixedFrom - mixedTo == Pulled(p, t) - Moved(p, t)
    ensures mixedFrom == mixedTo <==> Closes(p, t)
  {
    assert changes == Changed(p, t);
    assert u == set k | k in t && k in p && t[k] == p[k];
  }

  /**
   * The outer loop of the closure: each target entry in dict order, stopping
   * at the first entry whose sweep leaves items unexplained.
   */
  method Explore(p: Partition, orderP: seq<Key>, t: Partition, orderT: seq<Key>)
    returns (work: Partition, mixedFrom: set<Item>, mixedTo: set<Item>, changes: Partition,
             notFound: set<Item>, ghost u: set<Key>)
    requires IsOrder(p, orderP) && IsOrder(t, orderT)
    ensures notFound == {} ==>
              && Frontier(p, t, t.Keys, u, work, mixedFrom, mixedTo, changes)
              && (ValidPartition(p) && ValidPartition(t) ==> ExactFrontier(p, t, u, work, mixedFrom, mixedTo, changes))
    ensures notFound != {} && ValidPartition(p) && ValidPartition(t) ==>
              notFound <= Moved(p, t) - Items(p) && !Closes(p, t)
  {
    ghost var valid := ValidPartition(p) && ValidPartition(t);
    work := p;
    mixedFrom, mixedTo, changes, notFound := {}, {}, map[], {};
    u := {};
    assert Dropped(p, work, u) == map[];
    assert Untouched(p, mixedTo, u) == p;
    assert Touching(p, mixedTo) == map[];
    for i := 0 to |orderT|
      invariant Frontier(p, t, Elems(orderT[..i]), u, work, mixedFrom, mixedTo, changes)
      invariant valid ==> ExactFrontier(p, t, u, work, mixedFrom, mixedTo, changes)
      invariant notFound == {}
    {
      var key := orderT[i];
      ElemsSnoc(orderT, i);
      work, mixedFrom, mixedTo, changes, notFound, u :=
        ProcessEntry(p, orderP, t, key, work, mixedFrom, mixedTo, changes, valid, Elems(orderT[..i]), u);
      if notFound != {} {
        return;
      }
    }
    assert orderT[..|orderT|] == orderT;
  }

  /**
   * The closure of `diff` and `apply` (and of partition_diff.py and
   * apply_diff.py): the target's entries are processed in dict order
   * `orderT`; the working copy starts as the source `p`, whose keys the
   * sweeps visit in dict order `orderP`. On success, the entries that took
   * the change branch and the final working copy.
   */
  method CloseOver(p: Partition, orderP: seq<Key>, t: Partition, orderT: seq<Key>)
    returns (r: Result<Closed, ClosureError>)
    requires IsOrder(p, orderP) && IsOrder(t, orderT)
    // for any input
    ensures r.Ok? ==> SubMap(r.value.changes, t) && SubMap(r.value.rest, p)
    ensures r.Ok? ==> forall k | k in t && k !in r.value.changes :: k in p && p[k] == t[k] && k !in r.value.rest
    ensures r.Ok? ==> Items(Dropped(p, r.value.rest, t.Keys - r.value.changes.Keys)) == Items(r.value.changes)
    ensures r.Err? ==> (r.error.NotFound? || r.error.NotAssigned?) && r.error.items != {}
    // for valid partitions
    ensures ValidPartition(p) && ValidPartition(t) ==>
              && (r.Ok? <==> Closes(p, t))
              && (r.Ok? ==> r.value == Closed(Changed(p, t), Remaining(p, t)))
              && (r.Err? && r.error.NotFound? ==> r.error.items <= Moved(p, t) - Items(p))
              && (r.Err? && r.error.NotAssigned? ==> r.error.items == Pulled(p, t) - Moved(p, t))
  {
    var work, mixedFrom, mixedTo, changes, notFound, u := Explore(p, orderP, t, orderT);
    if notFound != {} {
      return Err(NotFound(notFound));
    }
    Conclude(p, t, u, work, mixedFrom, mixedTo, changes);
    if mixedFrom != mixedTo {
      return Err(NotAssigned(mixedFrom - mixedTo));
    }
    return Ok(Closed(changes, work));
  }
}
