/**
 Hours and days as numbers: an hour is day * 24 + hour of day, an instant is a second, and
 both count from the same midnight UTC. Also the sorted listing of a finite set of them.
 */
module Hours {
  import opened Wrappers

  type Hour = int
  type Instant = int

  /** What m holds of hour h. */
  function Look<T>(m: map<Hour, T>, h: Hour): Option<T> {
    if h in m then Some(m[h]) else None
  }

  function DayOf(h: Hour): int { h / 24 }

  /** The first instant after hour h. */
  function HourEnd(h: Hour): Instant { (h + 1) * 3600 }

  /** The instants of hour h. */
  ghost predicate InHour(t: Instant, h: Hour) {
    h * 3600 <= t < h * 3600 + 3600
  }

  /** An hour ends with its last instant, and belongs to the day whose 24 hours hold it. */
  lemma HourMeans(h: Hour, day: int)
    ensures InHour(HourEnd(h) - 1, h) && !InHour(HourEnd(h), h)
    ensures DayOf(h) == day <==> day * 24 <= h < day * 24 + 24
  {
  }

  ghost predicate Increasing(s: seq<int>) {
    forall i, j :: 0 <= i < j < |s| ==> s[i] < s[j]
  }

  ghost predicate Lists(s: seq<int>, elements: set<int>) {
    forall x :: x in s <==> x in elements
  }

  predicate IsLeast(m: int, s: set<int>) {
    m in s && forall x :: x in s ==> m <= x
  }

  lemma {:induction false} LeastExists(s: set<int>, y: int) returns (m: int)
    requires y in s
    ensures IsLeast(m, s)
    decreases |s|
  {
    if z :| z in s && z < y {
      m := LeastExists(s - {y}, z);
      assert forall x :: x in s ==> x == y || x in s - {y};
    } else {
      m := y;
    }
  }

  lemma SomeLeast(s: set<int>)
    requires s != {}
    ensures exists m :: IsLeast(m, s)
  {
    assert (forall y :: y !in s) ==> s == {};
    var y :| y in s;
    var m := LeastExists(s, y);
  }

  function Least(s: set<int>): (m: int)
    requires s != {}
    ensures IsLeast(m, s)
  {
    SomeLeast(s);
    var m :| IsLeast(m, s);
    m
  }

  predicate IsGreatest(m: int, s: set<int>) {
    m in s && forall x :: x in s ==> x <= m
  }

  function Negated(s: set<int>): set<int> {
    set x | x in s :: -x
  }

  lemma NegatedIs(s: set<int>)
    ensures forall x :: x in s <==> -x in Negated(s)
    ensures s != {} ==> Negated(s) != {}
  {
    forall x | x in s
      ensures -x in Negated(s)
    {
    }
    forall x | -x in Negated(s)
      ensures x in s
    {
      var y :| y in s && -y == -x;
    }
    assert (forall y :: y !in s) ==> s == {};
  }

  function Greatest(s: set<int>): (m: int)
    requires s != {}
    ensures IsGreatest(m, s)
  {
    NegatedIs(s);
    -Least(Negated(s))
  }

  /** ORDER BY: the elements of s, smallest first. */
  function Sorted(s: set<int>): (r: seq<int>)
    ensures Increasing(r) && Lists(r, s) && |r| == |s|
  {
    if s == {} then []
    else
      var m := Least(s);
      [m] + Sorted(s - {m})
  }

  /** An increasing listing of a set is the only one. */
  lemma {:induction false} SortedIsUnique(s: seq<int>, t: seq<int>)
    requires Increasing(s) && Increasing(t)
    requires forall x :: x in s <==> x in t
    ensures s == t
    decreases |s|
  {
    HeadIsIn(s);
    HeadIsIn(t);
    if s != [] && t != [] {
      assert s[0] in t && t[0] in s;
      var j :| 0 <= j < |t| && t[j] == s[0];
      var i :| 0 <= i < |s| && s[i] == t[0];
      assert s[0] == t[0];
      TailOf(s);
      TailOf(t);
      SortedIsUnique(s[1..], t[1..]);
      assert s == [s[0]] + s[1..] && t == [t[0]] + t[1..];
    }
  }

  lemma HeadIsIn(s: seq<int>)
    ensures s == [] || s[0] in s
  {
  }

  lemma TailOf(s: seq<int>)
    requires Increasing(s) && s != []
    ensures Increasing(s[1..])
    ensures forall x :: x in s[1..] <==> x in s && x != s[0]
  {
    assert s == [s[0]] + s[1..];
  }
}
