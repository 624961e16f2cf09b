/**
 * The `key_method` of a `Blender`: how a finished group is named in the
 * output partition. `'longest'` takes the longest member, the smallest in
 * string order among equally long ones; `'append'` joins the members with
 * `|`; the draft script names a group by its first longest member; any
 * other key method is a caller-supplied function.
 */
module KeyMethods {
  import opened Partitions

  datatype KeyMethod =
    | Longest                          // `lambda x: max(sorted(x), key=len)`
    | Append                           // `lambda x: "|".join(x)`
    | FirstLongest                     // `max(item, key=len)`
    | Custom(f: seq<Item> -> Key)      // a key method passed in by the caller

  /** String order `a < b`: character by character, a proper prefix first. */
  predicate LexLess(a: string, b: string) {
    if a == [] then b != []
    else b != [] && (a[0] < b[0] || (a[0] == b[0] && LexLess(a[1..], b[1..])))
  }

  lemma {:induction false} LexIrreflexive(a: string)
    ensures !LexLess(a, a)
  {
    if a != [] {
      LexIrreflexive(a[1..]);
    }
  }

  lemma {:induction false} LexTransitive(a: string, b: string, c: string)
    ensures LexLess(a, b) && LexLess(b, c) ==> LexLess(a, c)
  {
    if a != [] && b != [] && c != [] {
      LexTransitive(a[1..], b[1..], c[1..]);
    }
  }

  /** Two different strings are ordered one way or the other. */
  lemma {:induction false} LexTotal(a: string, b: string)
    ensures a != b ==> LexLess(a, b) || LexLess(b, a)
  {
    if a != [] && b != [] && a[0] == b[0] {
      LexTotal(a[1..], b[1..]);
      assert a == [a[0]] + a[1..] && b == [b[0]] + b[1..];
    }
  }

  /** `max(sorted(x), key=len)` seen one member at a time: a longer member wins, and so does an equally long smaller one. */
  function LongestOf(g: seq<Item>): Item
    requires g != []
  {
    if |g| == 1 then g[0]
    else
      var rest := LongestOf(g[1..]);
      if |rest| > |g[0]| || (|rest| == |g[0]| && LexLess(rest, g[0])) then rest else g[0]
  }

  /** The `'longest'` key is a member, no member is longer, and it comes first in string order among the longest. */
  lemma {:induction false} LongestOfSpec(g: seq<Item>)
    requires g != []
    ensures LongestOf(g) in g
    ensures forall y | y in g :: |y| <= |LongestOf(g)|
    ensures forall y | y in g && |y| == |LongestOf(g)| :: y == LongestOf(g) || LexLess(LongestOf(g), y)
  {
    if |g| > 1 {
      var rest := LongestOf(g[1..]);
      LongestOfSpec(g[1..]);
      var r := LongestOf(g);
      assert g == [g[0]] + g[1..];
      forall y | y in g && |y| == |r| ensures y == r || LexLess(r, y) {
        LexTotal(g[0], rest);
        LexTransitive(r, rest, y);
      }
    }
  }

  /** Only one member meets the `'longest'` description: the key does not depend on the order of the group. */
  lemma LongestOfUnique(g: seq<Item>, k: Item)
    requires g != [] && k in g
    requires forall y | y in g :: |y| <= |k|
    requires forall y | y in g && |y| == |k| :: y == k || LexLess(k, y)
    ensures k == LongestOf(g)
  {
    var r := LongestOf(g);
    LongestOfSpec(g);
    if k != r {
      LexTransitive(k, r, k);
      LexIrreflexive(k);
    }
  }

  /** `max(item, key=len)`: the first member of greatest length. */
  function FirstLongestOf(g: seq<Item>): Item
    requires g != []
  {
    if |g| == 1 then g[0]
    else
      var rest := FirstLongestOf(g[1..]);
      if |rest| > |g[0]| then rest else g[0]
  }

  /** Every member of `g` before position `i` is shorter than `g[i]`. */
  predicate ShorterBefore(g: seq<Item>, i: int)
    requires 0 <= i < |g|
  {
    forall j | 0 <= j < i :: |g[j]| < |g[i]|
  }

  /** The first-longest key is a member of greatest length, and every member before it is shorter. */
  lemma {:induction false} FirstLongestOfSpec(g: seq<Item>)
    requires g != []
    ensures exists i :: 0 <= i < |g| && g[i] == FirstLongestOf(g) && ShorterBefore(g, i)
    ensures forall y | y in g :: |y| <= |FirstLongestOf(g)|
  {
    if |g| > 1 {
      FirstLongestOfSpec(g[1..]);
      var t := g[1..];
      var i :| 0 <= i < |t| && t[i] == FirstLongestOf(t) && ShorterBefore(t, i);
      assert g == [g[0]] + t;
      if |FirstLongestOf(t)| > |g[0]| {
        assert g[i + 1] == FirstLongestOf(g);
        forall j | 0 <= j < i + 1 ensures |g[j]| < |g[i + 1]| {
          if j > 0 {
            assert g[j] == t[j - 1];
          }
        }
        assert ShorterBefore(g, i + 1);
      } else {
        assert g[0] == FirstLongestOf(g) && ShorterBefore(g, 0);
      }
    } else {
      assert g[0] == FirstLongestOf(g) && ShorterBefore(g, 0);
    }
  }

  /** `"|".join(g)` */
  function Join(g: seq<Item>): string {
    if g == [] then ""
    else if |g| == 1 then g[0]
    else g[0] + "|" + Join(g[1..])
  }

  /** `s.split("|")`: the pieces between the separators. */
  function Split(s: string): (r: seq<string>)
    ensures r != []
  {
    if s == [] then [""]
    else if s[0] == '|' then [""] + Split(s[1..])
    else
      var rest := Split(s[1..]);
      [[s[0]] + rest[0]] + rest[1..]
  }

  /** A separator-free prefix extends the first piece. */
  lemma {:induction false} SplitPrefix(a: string, t: string)
    requires '|' !in a
    ensures Split(a + t) == [a + Split(t)[0]] + Split(t)[1..]
  {
    if a != [] {
      SplitPrefix(a[1..], t);
      assert (a + t)[1..] == a[1..] + t;
      assert (a + t)[0] == a[0];
      assert [a[0]] + (a[1..] + Split(t)[0]) == a + Split(t)[0];
    } else {
      assert a + t == t;
      assert a + Split(t)[0] == Split(t)[0];
      assert Split(t) == [Split(t)[0]] + Split(t)[1..];
    }
  }

  /** The `'append'` key keeps the group: when no member contains `|`, splitting the key gives the group back. */
  lemma {:induction false} JoinSplit(g: seq<Item>)
    requires g != [] && forall y | y in g :: '|' !in y
    ensures Split(Join(g)) == g
  {
    if |g| == 1 {
      SplitPrefix(g[0], "");
      assert g[0] + "" == g[0];
    } else {
      JoinSplit(g[1..]);
      var rest := "|" + Join(g[1..]);
      SplitPrefix(g[0], rest);
      assert rest[0] == '|' && rest[1..] == Join(g[1..]);
      assert g[0] + "|" + Join(g[1..]) == g[0] + rest;
      assert g[0] + "" == g[0];
      assert g == [g[0]] + g[1..];
    }
  }

  /** The key the method gives the group `g`. */
  function KeyOf(km: KeyMethod, g: seq<Item>): Key
    requires g != []
  {
    match km
    case Longest => LongestOf(g)
    case Append => Join(g)
    case FirstLongest => FirstLongestOf(g)
    case Custom(f) => f(g)
  }

  /** The two length-based methods name a group by one of its own members. */
  lemma KeyIsMember(km: KeyMethod, g: seq<Item>)
    requires g != [] && (km.Longest? || km.FirstLongest?)
    ensures KeyOf(km, g) in g
  {
    if km.Longest? {
      LongestOfSpec(g);
    } else {
      FirstLongestOfSpec(g);
    }
  }
}
