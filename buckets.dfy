/**
 * The first half of `Blender.make`: every unordered pair of input lines is
 * filed under its distance (`links_at`), and the distinct distances, sorted,
 * are the cutoffs the clustering steps through.
 */
module Buckets {
  import opened Partitions
  import opened Linking

  /** A distance between two items; the clustering only ever compares its values. */
  type Distance = (Item, Item) -> int

  /** `links_at`: distance -> the links at that distance, in the order they were filed. */
  type LinksAt = map<int, seq<Link>>

  function DistanceOf(dist: Distance, l: Link): int {
    dist(l.0, l.1)
  }

  /** The pairs `(a, t[0]), (a, t[1]), ...`. */
  function Fan(a: Item, t: seq<Item>): seq<Link> {
    seq(|t|, k requires 0 <= k < |t| => (a, t[k]))
  }

  /** `itertools.combinations(s, 2)`: the pairs `(s[i], s[j])` with `i < j`, ordered by `i`, then `j`. */
  function Pairs(s: seq<Item>): seq<Link> {
    if s == [] then [] else Fan(s[0], s[1..]) + Pairs(s[1..])
  }

  /** The pairs of `ps` at distance `d`, in order. */
  function AtDistance(ps: seq<Link>, dist: Distance, d: int): seq<Link> {
    if ps == [] then []
    else AtDistance(ps[..|ps| - 1], dist, d) + (if DistanceOf(dist, ps[|ps| - 1]) == d then [ps[|ps| - 1]] else [])
  }

  /** `links_at.setdefault(distance(one, other), []).append((one, other))` for each pair of `ps` in turn. */
  function Bucket(ps: seq<Link>, dist: Distance): LinksAt {
    if ps == [] then map[]
    else
      var m := Bucket(ps[..|ps| - 1], dist);
      var d := DistanceOf(dist, ps[|ps| - 1]);
      m[d := (if d in m then m[d] else []) + [ps[|ps| - 1]]]
  }

  predicate Increasing(s: seq<int>) {
    forall i, j | 0 <= i < j < |s| :: s[i] < s[j]
  }

  lemma {:induction false} MinExists(s: set<int>)
    requires s != {}
    ensures exists x :: x in s && forall y | y in s :: x <= y
    decreases |s|
  {
    if forall y :: y !in s {
      assert false;
    }
    var x :| x in s;
    if s != {x} {
      var rest := s - {x};
      assert rest != {};
      MinExists(rest);
      var m :| m in rest && forall y | y in rest :: m <= y;
      var least := if x < m then x else m;
      forall y | y in s ensures least <= y {
        if y != x {
          assert y in rest;
        }
      }
      assert least in s;
    } else {
      assert forall y | y in s :: x <= y;
    }
  }

  /** `sorted(s)` for a set of distances: its members in ascending order. */
  ghost function SortedSet(s: set<int>): (r: seq<int>)
    ensures Increasing(r) && Elems(r) == s
    decreases |s|
  {
    if s == {} then []
    else
      MinExists(s);
      var x :| x in s && forall y | y in s :: x <= y;
      var rest := SortedSet(s - {x});
      LeastFirst(x, s, rest);
      [x] + rest
  }

  /** Putting the least member of `s` before an ascending list of the others gives `s` ascending. */
  lemma LeastFirst(x: int, s: set<int>, rest: seq<int>)
    requires x in s && forall y | y in s :: x <= y
    requires Increasing(rest) && Elems(rest) == s - {x}
    ensures Increasing([x] + rest) && Elems([x] + rest) == s
  {
    var r := [x] + rest;
    forall i, j | 0 <= i < j < |r| ensures r[i] < r[j] {
      assert r[j] == rest[j - 1] && rest[j - 1] in Elems(rest);
      if i > 0 {
        assert r[i] == rest[i - 1];
      }
    }
    assert Elems(r) == {x} + Elems(rest);
  }

  /** Two ascending lists with the same members are the same list. */
  lemma {:induction false} IncreasingUnique(a: seq<int>, b: seq<int>)
    requires Increasing(a) && Increasing(b) && Elems(a) == Elems(b)
    ensures a == b
  {
    if a != [] {
      assert a[0] in Elems(b);
      SameLeast(a, b);
      SameLeast(b, a);
      var a', b' := a[1..], b[1..];
      SameRest(a, b, a[0]);
      IncreasingUnique(a', b');
      assert a == [a[0]] + a' && b == [b[0]] + b';
    } else {
      NoElems(b);
    }
  }

  lemma NoElems<T>(s: seq<T>)
    ensures Elems(s) == {} ==> s == []
  {
    if s != [] {
      assert s[0] in Elems(s);
    }
  }

  /** The head of an ascending list is at most the head of another with the same members. */
  lemma SameLeast(a: seq<int>, b: seq<int>)
    requires Increasing(b) && a != [] && Elems(a) == Elems(b)
    ensures b != [] && b[0] <= a[0]
  {
    assert a[0] in Elems(b);
    var k :| 0 <= k < |b| && b[k] == a[0];
    assert b[0] <= b[k];
  }

  /** Dropping the same least member from two ascending lists with the same members leaves the same members. */
  lemma SameRest(a: seq<int>, b: seq<int>, x: int)
    requires Increasing(a) && Increasing(b) && Elems(a) == Elems(b)
    requires a != [] && b != [] && a[0] == x && b[0] == x
    ensures Increasing(a[1..]) && Increasing(b[1..]) && Elems(a[1..]) == Elems(b[1..])
  {
    RestOf(a);
    RestOf(b);
  }

  lemma RestOf(a: seq<int>)
    requires Increasing(a) && a != []
    ensures Increasing(a[1..]) && Elems(a[1..]) == Elems(a) - {a[0]}
  {
    assert a == [a[0]] + a[1..];
    forall i | 0 <= i < |a[1..]| ensures a[1..][i] != a[0] {
      assert a[1..][i] == a[i + 1];
    }
  }

  /** The links of the buckets `cs`, bucket after bucket. */
  function Flatten(m: LinksAt, cs: seq<int>): seq<Link>
    requires forall i | 0 <= i < |cs| :: cs[i] in m
  {
    if cs == [] then []
    else
      var last := cs[|cs| - 1];
      Flatten(m, cs[..|cs| - 1]) + m[last]
  }

  /** `[x for x in cutoffs if x <= cutoff]` */
  function UpTo(cs: seq<int>, cutoff: int): (r: seq<int>)
    ensures forall x :: x in r <==> x in cs && x <= cutoff
  {
    if cs == [] then []
    else if cs[0] <= cutoff then [cs[0]] + UpTo(cs[1..], cutoff)
    else UpTo(cs[1..], cutoff)
  }

  /** A pair of `Pairs(s)` is two entries of `s`, the earlier one first, and every such pair is listed. */
  lemma {:induction false} PairsMember(s: seq<Item>, l: Link)
    ensures l in Pairs(s) <==> exists i, j :: 0 <= i < j < |s| && l == (s[i], s[j])
  {
    if s != [] {
      var t := s[1..];
      PairsMember(t, l);
      if l in Fan(s[0], t) {
        var k :| 0 <= k < |t| && Fan(s[0], t)[k] == l;
        assert l == (s[0], s[k + 1]);
      }
      if l in Pairs(t) {
        var i, j :| 0 <= i < j < |t| && l == (t[i], t[j]);
        assert l == (s[i + 1], s[j + 1]);
      }
      if exists i, j :: 0 <= i < j < |s| && l == (s[i], s[j]) {
        var i, j :| 0 <= i < j < |s| && l == (s[i], s[j]);
        if i == 0 {
          assert Fan(s[0], t)[j - 1] == l;
        } else {
          assert l == (t[i - 1], t[j - 1]);
        }
      }
    }
  }

  lemma NoDupConcat<T>(a: seq<T>, b: seq<T>)
    requires NoDup(a) && NoDup(b) && Elems(a) !! Elems(b)
    ensures NoDup(a + b)
  {
    forall i, j | 0 <= i < j < |a + b| ensures (a + b)[i] != (a + b)[j] {
      if j >= |a| && i < |a| {
        assert (a + b)[i] in Elems(a) && (a + b)[j] in Elems(b);
      }
    }
  }

  /** For distinct lines, each unordered pair is listed once, as two different items. */
  lemma {:induction false} PairsNoDup(s: seq<Item>)
    requires NoDup(s)
    ensures NoDup(Pairs(s))
    ensures forall l | l in Pairs(s) :: l.0 != l.1 && l.0 in s && l.1 in s
  {
    if s != [] {
      var t := s[1..];
      assert NoDup(t) by {
        forall i, j | 0 <= i < j < |t| ensures t[i] != t[j] {
          assert t[i] == s[i + 1] && t[j] == s[j + 1];
        }
      }
      PairsNoDup(t);
      var f := Fan(s[0], t);
      forall i, j | 0 <= i < j < |f| ensures f[i] != f[j] {
        assert t[i] == s[i + 1] && t[j] == s[j + 1];
      }
      assert s[0] !in t by {
        forall k | 0 <= k < |t| ensures t[k] != s[0] {
          assert t[k] == s[k + 1];
        }
      }
      assert Elems(f) !! Elems(Pairs(t));
      NoDupConcat(f, Pairs(t));
      forall l | l in Pairs(s) ensures l.0 != l.1 && l.0 in s && l.1 in s {
        PairsMember(s, l);
      }
    }
  }

  lemma {:induction false} AtDistanceMember(ps: seq<Link>, dist: Distance, d: int, l: Link)
    ensures l in AtDistance(ps, dist, d) <==> l in ps && DistanceOf(dist, l) == d
  {
    if ps != [] {
      var init := ps[..|ps| - 1];
      AtDistanceMember(init, dist, d, l);
      assert ps == init + [ps[|ps| - 1]];
    }
  }

  lemma {:induction false} AtDistanceNoDup(ps: seq<Link>, dist: Distance, d: int)
    requires NoDup(ps)
    ensures NoDup(AtDistance(ps, dist, d))
  {
    if ps != [] {
      var init := ps[..|ps| - 1];
      var last := ps[|ps| - 1];
      assert NoDup(init) by {
        forall i, j | 0 <= i < j < |init| ensures init[i] != init[j] {
          assert init[i] == ps[i] && init[j] == ps[j];
        }
      }
      AtDistanceNoDup(init, dist, d);
      NotInPrefix(ps, |ps| - 1);
      AtDistanceMember(init, dist, d, last);
      NoDupConcat(AtDistance(init, dist, d), if DistanceOf(dist, last) == d then [last] else []);
    }
  }

  /**
   * The buckets: a distance has a bucket exactly when some pair lies at that
   * distance, and the bucket lists exactly the pairs at that distance, in order.
   */
  lemma {:induction false} BucketContents(ps: seq<Link>, dist: Distance)
    ensures forall l | l in ps :: DistanceOf(dist, l) in Bucket(ps, dist)
    ensures forall d | d in Bucket(ps, dist) ::
              Bucket(ps, dist)[d] == AtDistance(ps, dist, d) && Bucket(ps, dist)[d] != []
  {
    if ps != [] {
      var init := ps[..|ps| - 1];
      var last := ps[|ps| - 1];
      BucketContents(init, dist);
      assert ps == init + [last];
      var m, m' := Bucket(init, dist), Bucket(ps, dist);
      forall d | d in m' ensures m'[d] == AtDistance(ps, dist, d) && m'[d] != [] {
        if d == DistanceOf(dist, last) {
          assert m'[d] == (if d in m then m[d] else []) + [last];
          assert d !in m ==> AtDistance(init, dist, d) == [] by {
            if d !in m && AtDistance(init, dist, d) != [] {
              var l := AtDistance(init, dist, d)[0];
              AtDistanceMember(init, dist, d, l);
            }
          }
        } else {
          assert m'[d] == m[d];
        }
      }
    }
  }

  /** Each pair of distinct lines is filed exactly once, in the bucket of its own distance and no other. */
  lemma BucketedOnce(s: seq<Item>, dist: Distance, l: Link)
    requires NoDup(s)
    ensures l in Pairs(s) ==> DistanceOf(dist, l) in Bucket(Pairs(s), dist)
    ensures forall d | d in Bucket(Pairs(s), dist) ::
              NoDup(Bucket(Pairs(s), dist)[d])
              && (l in Bucket(Pairs(s), dist)[d] <==> l in Pairs(s) && DistanceOf(dist, l) == d)
  {
    var ps := Pairs(s);
    PairsNoDup(s);
    BucketContents(ps, dist);
    forall d | d in Bucket(ps, dist)
      ensures NoDup(Bucket(ps, dist)[d]) && (l in Bucket(ps, dist)[d] <==> l in ps && DistanceOf(dist, l) == d)
    {
      AtDistanceNoDup(ps, dist, d);
      AtDistanceMember(ps, dist, d, l);
    }
  }

  /** A link in a bucket that is flattened appears in the flattened list. */
  lemma {:induction false} FlattenMember(m: LinksAt, cs: seq<int>, c: int, l: Link)
    requires forall i | 0 <= i < |cs| :: cs[i] in m
    requires c in cs && l in m[c]
    ensures l in Flatten(m, cs)
  {
    var init := cs[..|cs| - 1];
    if c != cs[|cs| - 1] {
      assert c in init;
      FlattenMember(m, init, c, l);
    }
  }

  /** Every link of a flattened list comes from one of its buckets. */
  lemma {:induction false} FlattenFrom(m: LinksAt, cs: seq<int>, l: Link)
    requires forall i | 0 <= i < |cs| :: cs[i] in m
    requires l in Flatten(m, cs)
    ensures exists c :: c in cs && l in m[c]
  {
    var init := cs[..|cs| - 1];
    if l in Flatten(m, init) {
      FlattenFrom(m, init, l);
      var c :| c in init && l in m[c];
      assert c in cs;
    } else {
      var last := cs[|cs| - 1];
      assert last in cs;
      assert l in m[last];
    }
  }

  /** The loop that fills `links_at`, one pair at a time. */
  method BucketPairs(ps: seq<Link>, dist: Distance) returns (linksAt: LinksAt)
    ensures linksAt == Bucket(ps, dist)
  {
    linksAt := map[];
    for k := 0 to |ps|
      invariant linksAt == Bucket(ps[..k], dist)
    {
      assert ps[..k + 1][..k] == ps[..k];
      var (one, other) := ps[k];
      var d := dist(one, other);
      var bucket := if d in linksAt then linksAt[d] else [];
      linksAt := linksAt[d := bucket + [(one, other)]];
    }
    assert ps[..|ps|] == ps;
  }

  /** `cutoffs = sorted(links_at)`: the bucket distances, ascending. */
  method SortedKeys(m: LinksAt) returns (cutoffs: seq<int>)
    ensures cutoffs == SortedSet(m.Keys)
  {
    cutoffs := [];
    var left := m.Keys;
    while left != {}
      invariant Increasing(cutoffs) && Elems(cutoffs) !! left && Elems(cutoffs) + left == m.Keys
      invariant forall i, y | 0 <= i < |cutoffs| && y in left :: cutoffs[i] < y
      decreases |left|
    {
      MinExists(left);
      var x :| x in left && forall y | y in left :: x <= y;
      AppendLeast(cutoffs, left, x);
      cutoffs := cutoffs + [x];
      left := left - {x};
    }
    IncreasingUnique(cutoffs, SortedSet(m.Keys));
  }

  /** One step of the sort: the least remaining distance goes at the end. */
  lemma AppendLeast(done: seq<int>, left: set<int>, x: int)
    requires Increasing(done) && Elems(done) !! left
    requires forall i, y | 0 <= i < |done| && y in left :: done[i] < y
    requires x in left && forall y | y in left :: x <= y
    ensures Increasing(done + [x]) && Elems(done + [x]) !! (left - {x})
    ensures Elems(done + [x]) + (left - {x}) == Elems(done) + left
    ensures forall i, y | 0 <= i < |done + [x]| && y in left - {x} :: (done + [x])[i] < y
  {
    var r := done + [x];
    assert Elems(r) == Elems(done) + {x};
    forall i, y | 0 <= i < |r| && y in left - {x} ensures r[i] < y {
      if i < |done| {
        assert r[i] == done[i];
      }
    }
  }
}
