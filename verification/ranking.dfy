/** Ordering scored eateries best first: `sorted(scores.items(),
    key=lambda x: x[1], reverse=True)`, a stable sort on the score alone,
    and the cut to the first `n` entries. */
module Ranking {
  import opened Paths

  /** An `(eatery_id, score)` item of the score mapping. */
  type Scored = (NodeId, real)

  predicate SortedDesc(s: seq<Scored>)
  {
    forall i, j :: 0 <= i < j < |s| ==> s[i].1 >= s[j].1
  }

  /** Places `x` ahead of the first entry that does not beat it, so that it
      stays in front of the later entries with the same score. */
  function InsertDesc(x: Scored, t: seq<Scored>): (r: seq<Scored>)
    requires SortedDesc(t)
    ensures |r| == |t| + 1
    ensures multiset(r) == multiset(t) + multiset{x}
    ensures SortedDesc(r)
  {
    if t == [] || t[0].1 <= x.1 then [x] + t
    else
      var rest := InsertDesc(x, t[1..]);
      assert t == [t[0]] + t[1..];
      HeadLeads(x, t, rest);
      [t[0]] + rest
  }

  /** The head of a best-first order still leads once a lower entry is
      inserted behind it. */
  lemma HeadLeads(x: Scored, t: seq<Scored>, rest: seq<Scored>)
    requires SortedDesc(t) && t != [] && x.1 < t[0].1
    requires multiset(rest) == multiset(t[1..]) + multiset{x}
    ensures forall k :: 0 <= k < |rest| ==> rest[k].1 <= t[0].1
  {
    forall k | 0 <= k < |rest| ensures rest[k].1 <= t[0].1 {
      assert rest[k] in multiset(rest);
      if rest[k] != x {
        assert rest[k] in multiset(t[1..]);
        var j :| 0 <= j < |t[1..]| && t[1..][j] == rest[k];
        assert t[j + 1] == rest[k];
      }
    }
  }

  /** The scored items, best first. */
  function SortDesc(s: seq<Scored>): (r: seq<Scored>)
    ensures |r| == |s|
    ensures multiset(r) == multiset(s)
    ensures SortedDesc(r)
  {
    if s == [] then []
    else
      assert s == [s[0]] + s[1..];
      InsertDesc(s[0], SortDesc(s[1..]))
  }

  /** The entries with score `v`, in their order in `s`. */
  function Tied(s: seq<Scored>, v: real): seq<Scored>
  {
    if s == [] then [] else (if s[0].1 == v then [s[0]] else []) + Tied(s[1..], v)
  }

  /** The new entry comes ahead of every entry with its own score. */
  lemma {:induction false} InsertTied(x: Scored, t: seq<Scored>, v: real)
    requires SortedDesc(t)
    ensures Tied(InsertDesc(x, t), v) == (if x.1 == v then [x] else []) + Tied(t, v)
    decreases |t|
  {
    if t == [] || t[0].1 <= x.1 {
      assert ([x] + t)[1..] == t;
    } else {
      var rest := InsertDesc(x, t[1..]);
      assert ([t[0]] + rest)[1..] == rest;
      InsertTied(x, t[1..], v);
    }
  }

  /** The sort is stable: entries with equal scores keep their order. */
  lemma {:induction false} SortStable(s: seq<Scored>, v: real)
    ensures Tied(SortDesc(s), v) == Tied(s, v)
    decreases |s|
  {
    if s != [] {
      SortStable(s[1..], v);
      InsertTied(s[0], SortDesc(s[1..]), v);
    }
  }

  /** The first `n` entries of a best-first order are the best `n`: nothing
      left out scores above anything kept. */
  lemma TopIsBest(s: seq<Scored>, n: nat)
    requires SortedDesc(s) && n <= |s|
    ensures forall x :: x in multiset(s) - multiset(s[..n]) ==> forall k :: 0 <= k < n ==> x.1 <= s[k].1
  {
    assert s == s[..n] + s[n..];
    assert multiset(s) - multiset(s[..n]) == multiset(s[n..]);
    forall x | x in multiset(s) - multiset(s[..n]) ensures forall k :: 0 <= k < n ==> x.1 <= s[k].1 {
      assert x in s[n..];
      var j :| 0 <= j < |s[n..]| && s[n..][j] == x;
      assert s[n + j] == x;
    }
  }

  /** Every entry that beats position `i` of a best-first order sits before
      it. */
  lemma AheadOf(s: seq<Scored>, i: nat, x: Scored)
    requires SortedDesc(s) && i < |s| && x in s && x.1 > s[i].1
    ensures exists k :: 0 <= k < i && s[k] == x
  {
    var k :| 0 <= k < |s| && s[k] == x;
  }
}
