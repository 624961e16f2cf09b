/**
 * Concrete runs of the diff and apply closures on small partitions, as
 * facts about the specification functions that their contracts use.
 */
module DiffExamples {
  import opened Partitions
  import opened Closure

  /** The items of a one-group partition. */
  lemma ItemsSingle(k: Key, v: seq<Item>)
    ensures Items(map[k := v]) == Elems(v)
  {
    assert Items(map[]) == {};
    ItemsInsert(map[], k, v);
  }

  /** The items of a two-group partition. */
  lemma ItemsPair(k: Key, v: seq<Item>, k': Key, v': seq<Item>)
    requires k != k'
    ensures Items(map[k := v, k' := v']) == Elems(v) + Elems(v')
  {
    ItemsSingle(k, v);
    ItemsInsert(map[k := v], k', v');
  }

  /** A rename: the item keeps its group, under a new key; apply yields the target. */
  lemma RenameExample()
    ensures var p := map["1" := ["1"]];
            var q := map["2" := ["1"]];
            && Changed(p, q) == q && Closes(p, q)
            && Remaining(p, q) + q == q
  {
    var p := map["1" := ["1"]];
    var q := map["2" := ["1"]];
    assert Changed(p, q) == q;
    assert "1" in q["2"];
    assert Moved(p, q) == {"1"};
    assert "1" in Elems(p["1"]) * Moved(p, q);
    assert Touching(p, Moved(p, q)) == p;
    assert Remaining(p, q) == map[];
  }

  /** A split: both parts of the split group are reported, the untouched group is not. */
  lemma SplitExample()
    ensures var p := map["1" := ["1", "2"], "3" := ["3"]];
            var q := map["1" := ["1"], "2" := ["2"], "3" := ["3"]];
            && Changed(p, q) == map["1" := ["1"], "2" := ["2"]]
            && Closes(p, q)
  {
    var p := map["1" := ["1", "2"], "3" := ["3"]];
    var q := map["1" := ["1"], "2" := ["2"], "3" := ["3"]];
    var c := map["1" := ["1"], "2" := ["2"]];
    assert p["1"] != q["1"];
    assert Changed(p, q) == c;
    assert "1" in c["1"] && "2" in c["2"];
    assert Moved(p, q) == {"1", "2"};
    assert "1" in Elems(p["1"]) * Moved(p, q);
    assert "3" !in Moved(p, q);
    assert Touching(p, Moved(p, q)) == map["1" := ["1", "2"]];
    ItemsSingle("1", ["1", "2"]);
    assert Elems(["1", "2"]) == {"1", "2"};
    ItemsPair("1", ["1", "2"], "3", ["3"]);
  }

  /** A target item that no source group holds: the closure fails with NotFound. */
  lemma NotFoundExample()
    ensures var p := map["1" := ["1"]];
            var q := map["1" := ["1", "2"]];
            !Closes(p, q) && Moved(p, q) - Items(p) == {"2"}
  {
    var p := map["1" := ["1"]];
    var q := map["1" := ["1", "2"]];
    assert q["1"] != p["1"];
    assert Changed(p, q) == q;
    ItemsSingle("1", ["1"]);
    ItemsSingle("1", ["1", "2"]);
    assert Elems(["1", "2"]) == {"1", "2"};
    assert Elems(["1"]) == {"1"};
  }

  /** A pulled source item that no changed entry takes: the closure fails with NotAssigned. */
  lemma NotAssignedExample()
    ensures var p := map["1" := ["1", "2"]];
            var q := map["1" := ["1"]];
            Moved(p, q) <= Items(p) && Pulled(p, q) - Moved(p, q) == {"2"}
  {
    var p := map["1" := ["1", "2"]];
    var q := map["1" := ["1"]];
    assert q["1"] != p["1"];
    assert Changed(p, q) == q;
    ItemsSingle("1", ["1"]);
    assert Elems(["1"]) == {"1"};
    assert Moved(p, q) == {"1"};
    assert "1" in Elems(p["1"]) * Moved(p, q);
    assert Touching(p, Moved(p, q)) == p;
    ItemsSingle("1", ["1"]);
    ItemsSingle("1", ["1", "2"]);
    assert Elems(["1", "2"]) == {"1", "2"};
    assert Elems(["1"]) == {"1"};
  }

  /**
   * Lists are compared as lists: the same group listed in another order is
   * reported as a change (and the closure still succeeds).
   */
  lemma ListOrderExample()
    ensures var p := map["1" := ["1", "2"]];
            var q := map["1" := ["2", "1"]];
            Changed(p, q) == q && Closes(p, q)
  {
    var p := map["1" := ["1", "2"]];
    var q := map["1" := ["2", "1"]];
    assert p["1"][0] != q["1"][0];
    assert Changed(p, q) == q;
    ItemsSingle("1", ["1", "2"]);
    ItemsSingle("1", ["2", "1"]);
    assert Elems(["1", "2"]) == {"1", "2"} == Elems(["2", "1"]);
    assert "1" in Elems(p["1"]) * Moved(p, q);
    assert Touching(p, Moved(p, q)) == p;
  }

  /**
   * The closure only looks at the target's entries: a source group whose key
   * the target drops, and whose items no change takes, goes unreported.
   */
  lemma DroppedGroupExample()
    ensures var p := map["1" := ["1"], "2" := ["2"]];
            var q := map["2" := ["2"]];
            Changed(p, q) == map[] && Closes(p, q) && Items(p) != Items(q)
  {
    var p := map["1" := ["1"], "2" := ["2"]];
    var q := map["2" := ["2"]];
    assert Changed(p, q) == map[];
    assert Moved(p, q) == {};
    assert Touching(p, {}) == map[];
    ItemsSingle("2", ["2"]);
    assert Elems(["2"]) == {"2"};
    assert "1" in p["1"];
    assert "1" in Items(p);
  }

  /**
   * A patch may reuse the key of a source group that the sweep keeps: with
   * `update`, the patch entry overwrites that group and its items are lost,
   * although both dicts are valid and the closure succeeds.
   */
  lemma KeyReuseExample()
    ensures var p := map["a" := ["1"], "b" := ["2"]];
            var c := map["b" := ["1"]];
            && ValidPartition(p) && ValidPartition(c) && Closes(p, c)
            && Remaining(p, c) == map["b" := ["2"]]
            && Remaining(p, c) + c == c
            && "2" in Items(p) && "2" !in Items(Remaining(p, c) + c)
  {
    var p := map["a" := ["1"], "b" := ["2"]];
    var c := map["b" := ["1"]];
    assert Elems(["1"]) == {"1"} && Elems(["2"]) == {"2"};
    assert p["b"] != c["b"];
    assert Changed(p, c) == c;
    ItemsSingle("b", ["1"]);
    assert Moved(p, c) == {"1"};
    assert "1" in Elems(p["a"]) * Moved(p, c);
    assert Touching(p, Moved(p, c)) == map["a" := ["1"]];
    ItemsSingle("a", ["1"]);
    assert Remaining(p, c) == map["b" := ["2"]];
    assert Remaining(p, c) + c == c;
    ItemsPair("a", ["1"], "b", ["2"]);
  }
}
