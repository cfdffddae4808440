/** The key orderings paletton.py relies on: `sorted(d.keys())` of a
    dictionary with integer keys, and `list.index`. A set of keys has
    exactly one ascending listing, so `sorted` is a function of the set. */
module OrderedKeys {

  predicate StrictlyIncreasing(s: seq<int>) {
    forall i, j :: 0 <= i < j < |s| ==> s[i] < s[j]
  }

  /** The smallest element of a non-empty set. */
  function SetMin(s: set<int>): (m: int)
    requires s != {}
    ensures m in s && forall y :: y in s ==> m <= y
  {
    MinExists(s);
    var m :| m in s && forall y :: y in s ==> m <= y;
    m
  }

  /** The largest element of a non-empty set. */
  function SetMax(s: set<int>): (m: int)
    requires s != {}
    ensures m in s && forall y :: y in s ==> y <= m
  {
    MaxExists(s);
    var m :| m in s && forall y :: y in s ==> y <= m;
    m
  }

  /** A non-empty set has an element. */
  lemma Inhabited(s: set<int>)
    requires s != {}
    ensures exists x :: x in s
  {
    if forall x :: x !in s {
      assert false;
    }
  }

  lemma {:induction false} MinExists(s: set<int>)
    requires s != {}
    ensures exists m :: m in s && forall y :: y in s ==> m <= y
    decreases |s|
  {
    Inhabited(s);
    var x :| x in s;
    var rest := s - {x};
    if rest == {} {
      forall y | y in s
        ensures y == x
      {
        assert y == x || y in rest;
      }
    } else {
      MinExists(rest);
      var m :| m in rest && forall y :: y in rest ==> m <= y;
      var w := if x < m then x else m;
      forall y | y in s
        ensures w <= y
      {
        if y != x {
          assert y in rest;
        }
      }
    }
  }

  lemma {:induction false} MaxExists(s: set<int>)
    requires s != {}
    ensures exists m :: m in s && forall y :: y in s ==> y <= m
    decreases |s|
  {
    Inhabited(s);
    var x :| x in s;
    var rest := s - {x};
    if rest == {} {
      forall y | y in s
        ensures y == x
      {
        assert y == x || y in rest;
      }
    } else {
      MaxExists(rest);
      var m :| m in rest && forall y :: y in rest ==> y <= m;
      var w := if m < x then x else m;
      forall y | y in s
        ensures y <= w
      {
        if y != x {
          assert y in rest;
        }
      }
    }
  }

  /** `sorted(keys)`: the keys in ascending order, each once. */
  function SortedKeys(s: set<int>): (r: seq<int>)
    ensures |r| == |s|
    ensures forall k :: k in r <==> k in s
    ensures forall i :: 0 <= i < |r| ==> r[i] in s
    ensures StrictlyIncreasing(r)
    decreases |s|
  {
    if s == {} then []
    else
      var m := SetMin(s);
      var tail := SortedKeys(s - {m});
      MinInFront(s, m, tail);
      [m] + tail
  }

  /** Putting the smallest element in front of an ascending listing of the
      rest lists the whole set in ascending order. */
  lemma MinInFront(s: set<int>, m: int, tail: seq<int>)
    requires m in s && forall y :: y in s ==> m <= y
    requires |tail| == |s - {m}| && StrictlyIncreasing(tail)
    requires forall k :: k in tail <==> k in s - {m}
    ensures var r := [m] + tail;
      && |r| == |s|
      && (forall k :: k in r <==> k in s)
      && (forall i :: 0 <= i < |r| ==> r[i] in s)
      && StrictlyIncreasing(r)
  {
    var r := [m] + tail;
    assert |s - {m}| == |s| - 1;
    forall i | 0 <= i < |r|
      ensures r[i] in s
    {
      if i > 0 {
        assert r[i] == tail[i - 1];
        assert tail[i - 1] in tail;
      }
    }
    forall i, j | 0 <= i < j < |r|
      ensures r[i] < r[j]
    {
      assert r[j] == tail[j - 1] && tail[j - 1] in tail;
      if i > 0 {
        assert r[i] == tail[i - 1];
      }
    }
  }

  /** A set has only one ascending listing. */
  lemma {:induction false} AscendingIsSorted(r: seq<int>, s: set<int>)
    requires StrictlyIncreasing(r)
    requires forall k :: k in r <==> k in s
    ensures r == SortedKeys(s)
    decreases |r|
  {
    if r == [] {
      EmptyListing(s);
    } else {
      HeadIsMin(r, s);
      var m := SetMin(s);
      TailKeys(r, s);
      AscendingIsSorted(r[1..], s - {m});
      ConsListing(r, s);
    }
  }

  /** A set with no listed element is empty, and so is its listing. */
  lemma EmptyListing(s: set<int>)
    requires forall k :: k in [] <==> k in s
    ensures SortedKeys(s) == []
  {
    forall k
      ensures k !in s
    {
      assert k !in [];
    }
    assert s == {};
  }

  /** A listing that starts with the smallest element and goes on with the
      listing of the rest is the listing of the whole set. */
  lemma ConsListing(r: seq<int>, s: set<int>)
    requires r != [] && s != {} && r[0] == SetMin(s)
    requires r[1..] == SortedKeys(s - {SetMin(s)})
    ensures r == SortedKeys(s)
  {
    assert r == [r[0]] + r[1..];
  }

  /** The first of an ascending listing is the smallest element. */
  lemma HeadIsMin(r: seq<int>, s: set<int>)
    requires StrictlyIncreasing(r) && r != []
    requires forall k :: k in r <==> k in s
    ensures s != {} && r[0] == SetMin(s)
  {
    assert r[0] in r;
    var m := SetMin(s);
    assert m in r;
    var i :| 0 <= i < |r| && r[i] == m;
    assert r[0] <= r[i];
  }

  /** Dropping the first of an ascending listing lists the rest of the set. */
  lemma TailKeys(r: seq<int>, s: set<int>)
    requires StrictlyIncreasing(r) && r != [] && s != {}
    requires forall k :: k in r <==> k in s
    requires r[0] == SetMin(s)
    ensures StrictlyIncreasing(r[1..])
    ensures forall k :: k in r[1..] <==> k in s - {r[0]}
  {
    var t := r[1..];
    assert forall i :: 0 <= i < |t| ==> t[i] == r[i + 1];
    forall k
      ensures k in t <==> k in s - {r[0]}
    {
      if k in t {
        var i :| 0 <= i < |t| && t[i] == k;
        assert r[i + 1] == k && r[0] < r[i + 1];
      }
      if k in s - {r[0]} {
        assert k in r;
        var i :| 0 <= i < |r| && r[i] == k;
        assert i > 0 && t[i - 1] == k;
      }
    }
  }

  /** `list.index(x)`: the position of the first occurrence of `x`. */
  function IndexOf(s: seq<int>, x: int): (i: nat)
    requires x in s
    ensures i < |s| && s[i] == x
    ensures forall j :: 0 <= j < i ==> s[j] != x
  {
    if s[0] == x then 0 else 1 + IndexOf(s[1..], x)
  }

  /** The number of leading elements of `s` below `x`. */
  function CountBelow(s: seq<int>, x: int): (c: nat)
    ensures c <= |s|
    ensures forall j :: 0 <= j < c ==> s[j] < x
    ensures c < |s| ==> s[c] >= x
  {
    if s == [] || s[0] >= x then 0 else 1 + CountBelow(s[1..], x)
  }

  /** Where `sorted(keys + [x])` puts an `x` that is not among the keys:
      right after the keys below it. */
  lemma InsertionPoint(s: set<int>, x: int)
    requires x !in s
    ensures var keys := SortedKeys(s);
      IndexOf(SortedKeys(s + {x}), x) == CountBelow(keys, x)
  {
    var keys := SortedKeys(s);
    var c := CountBelow(keys, x);
    var r := keys[..c] + [x] + keys[c..];
    InsertedAscending(keys, x, r);
    InsertedMembers(keys, s, x, r);
    AscendingIsSorted(r, s + {x});
    FirstIndex(r, x, c);
  }

  /** Putting `x` after the keys below it keeps a listing ascending. */
  lemma InsertedAscending(keys: seq<int>, x: int, r: seq<int>)
    requires StrictlyIncreasing(keys) && x !in keys
    requires r == keys[..CountBelow(keys, x)] + [x] + keys[CountBelow(keys, x)..]
    ensures StrictlyIncreasing(r) && r[CountBelow(keys, x)] == x
  {
    var c := CountBelow(keys, x);
    InsertedAt(keys, x, r, c);
    forall i, j | 0 <= i < j < |r|
      ensures r[i] < r[j]
    {
      InsertedAt(keys, x, r, i);
      InsertedAt(keys, x, r, j);
      if c < i {
        assert keys[i - 1] < keys[j - 1];
      } else if i == c {
        assert x < keys[c] <= keys[j - 1];
      } else if c < j {
        assert keys[i] < x < keys[c] <= keys[j - 1];
      }
    }
  }

  /** Position `i` of a sorted listing with `x` inserted at its place `c`:
      the keys below `x`, then `x`, then the keys above it. */
  lemma InsertedAt(keys: seq<int>, x: int, r: seq<int>, i: int)
    requires r == keys[..CountBelow(keys, x)] + [x] + keys[CountBelow(keys, x)..]
    requires 0 <= i <= |keys|
    ensures |r| == |keys| + 1
    ensures var c := CountBelow(keys, x);
      r[i] == if i < c then keys[i] else if i == c then x else keys[i - 1]
  {
  }

  lemma InsertedMembers(keys: seq<int>, s: set<int>, x: int, r: seq<int>)
    requires forall k :: k in keys <==> k in s
    requires r == keys[..CountBelow(keys, x)] + [x] + keys[CountBelow(keys, x)..]
    ensures forall k :: k in r <==> k in s + {x}
  {
    var c := CountBelow(keys, x);
    assert keys == keys[..c] + keys[c..];
  }

  /** In an ascending listing the first occurrence of `x` is its only one. */
  lemma FirstIndex(r: seq<int>, x: int, c: nat)
    requires StrictlyIncreasing(r) && c < |r| && r[c] == x
    ensures IndexOf(r, x) == c
  {
  }
}
