/**
 * The timeframe selector of the controls panel (components/Controls.tsx):
 * toggling one timeframe in or out of the selection, which is kept in the
 * canonical order `ALL_TF`.
 */
module Controls {
  import opened Types

  /** `ALL_TF`: the canonical order of the timeframes. */
  const AllTf: seq<Timeframe> := [M1, M5, M15, H1, H4, D1]

  /** `ALL_TF.indexOf(tf)`. */
  function Rank(tf: Timeframe): (r: nat)
    ensures r < |AllTf| && AllTf[r] == tf
  {
    match tf
    case M1 => 0
    case M5 => 1
    case M15 => 2
    case H1 => 3
    case H4 => 4
    case D1 => 5
  }

  /** `ALL_TF` lists every timeframe once, each at its rank. */
  lemma AllTfRanks()
    ensures forall i :: 0 <= i < |AllTf| ==> Rank(AllTf[i]) == i
    ensures forall tf: Timeframe :: tf in AllTf
  {
    forall tf: Timeframe
      ensures tf in AllTf
    {
      assert AllTf[Rank(tf)] == tf;
    }
  }

  /** Strictly increasing rank: sorted by `ALL_TF` order and free of duplicates. */
  predicate Canonical(s: seq<Timeframe>)
  {
    forall i, j :: 0 <= i < j < |s| ==> Rank(s[i]) < Rank(s[j])
  }

  function Members(s: seq<Timeframe>): set<Timeframe>
  {
    set t | t in s
  }

  /** The selection after `set.has(tf) ? set.delete(tf) : set.add(tf)`. */
  function Toggled(members: set<Timeframe>, tf: Timeframe): (m: set<Timeframe>)
    ensures tf in m <==> tf !in members
    ensures forall t :: t != tf ==> (t in m <==> t in members)
  {
    if tf in members then members - {tf} else members + {tf}
  }

  /** The elements of `order` that are in `members`, in the order of `order`. */
  function Filter(order: seq<Timeframe>, members: set<Timeframe>): seq<Timeframe>
    decreases |order|
  {
    if |order| == 0 then []
    else
      var front := Filter(order[..|order| - 1], members);
      if order[|order| - 1] in members then front + [order[|order| - 1]] else front
  }

  /** A selection in canonical order. */
  function InOrder(members: set<Timeframe>): (s: seq<Timeframe>)
    ensures Canonical(s)
    ensures Members(s) == members
  {
    AllTfRanks();
    FilterMembers(AllTf, members);
    FilterCanonical(AllTf, members);
    Filter(AllTf, members)
  }

  lemma {:induction false} FilterMembers(order: seq<Timeframe>, members: set<Timeframe>)
    ensures forall t :: t in Filter(order, members) <==> t in order && t in members
    decreases |order|
  {
    if |order| > 0 {
      var front := order[..|order| - 1];
      FilterMembers(front, members);
      assert order == front + [order[|order| - 1]];
    }
  }

  lemma {:induction false} FilterCanonical(order: seq<Timeframe>, members: set<Timeframe>)
    requires Canonical(order)
    ensures Canonical(Filter(order, members))
    decreases |order|
  {
    if |order| > 0 {
      var front, x := order[..|order| - 1], order[|order| - 1];
      assert Canonical(front) by {
        forall i, j | 0 <= i < j < |front|
          ensures Rank(front[i]) < Rank(front[j])
        {
          assert front[i] == order[i] && front[j] == order[j];
        }
      }
      FilterCanonical(front, members);
      FilterMembers(front, members);
      var f := Filter(front, members);
      if x in members {
        forall i | 0 <= i < |f|
          ensures Rank(f[i]) < Rank(x)
        {
          assert f[i] in front;
          var k :| 0 <= k < |front| && front[k] == f[i];
          assert order[k] == f[i];
        }
        SnocCanonical(f, x);
      }
    }
  }

  lemma SnocCanonical(s: seq<Timeframe>, x: Timeframe)
    requires Canonical(s)
    requires forall i :: 0 <= i < |s| ==> Rank(s[i]) < Rank(x)
    ensures Canonical(s + [x])
  {
    var t := s + [x];
    forall i, j | 0 <= i < j < |t|
      ensures Rank(t[i]) < Rank(t[j])
    {
      assert t[i] == s[i];
      if j < |s| {
        assert t[j] == s[j];
      }
    }
  }

  /**
   * `toggleTf`: flip the membership of `tf`, then list the selection sorted by
   * `ALL_TF` index, here by walking `ALL_TF` and keeping the selected timeframes.
   */
  method ToggleTf(timeframes: seq<Timeframe>, tf: Timeframe) returns (result: seq<Timeframe>)
    ensures tf in result <==> tf !in timeframes
    ensures forall t :: t != tf ==> (t in result <==> t in timeframes)
    ensures Canonical(result)
    ensures result == InOrder(Toggled(Members(timeframes), tf))
  {
    var selected := set t | t in timeframes;
    if tf in selected {
      selected := selected - {tf};
    } else {
      selected := selected + {tf};
    }
    assert selected == Toggled(Members(timeframes), tf);
    result := [];
    var i := 0;
    while i < |AllTf|
      invariant 0 <= i <= |AllTf|
      invariant result == Filter(AllTf[..i], selected)
    {
      assert AllTf[..i + 1][..i] == AllTf[..i];
      if AllTf[i] in selected {
        result := result + [AllTf[i]];
      }
      i := i + 1;
    }
    assert AllTf[..|AllTf|] == AllTf;
    assert result == InOrder(selected);
    ToggleMembership(timeframes, tf);
  }

  /** The toggled timeframe changes membership and every other keeps it. */
  lemma ToggleMembership(timeframes: seq<Timeframe>, tf: Timeframe)
    ensures var r := InOrder(Toggled(Members(timeframes), tf));
      (tf in r <==> tf !in timeframes) &&
      forall t :: t != tf ==> (t in r <==> t in timeframes)
  {
    var r := InOrder(Toggled(Members(timeframes), tf));
    forall t
      ensures t in r <==> t in Toggled(Members(timeframes), tf)
    {
      assert t in r <==> t in Members(r);
    }
    assert forall t :: t in Members(timeframes) <==> t in timeframes;
  }

  /** Two canonical lists with the same elements are equal: the order leaves no choice. */
  lemma {:induction false} CanonicalUnique(a: seq<Timeframe>, b: seq<Timeframe>)
    requires Canonical(a) && Canonical(b) && Members(a) == Members(b)
    ensures a == b
    decreases |a|
  {
    EmptyMembers(a);
    EmptyMembers(b);
    if |a| > 0 && |b| > 0 {
      SameHead(a, b);
      CanonicalTail(a);
      CanonicalTail(b);
      CanonicalUnique(a[1..], b[1..]);
      assert a == [a[0]] + a[1..] && b == [b[0]] + b[1..];
    }
  }

  /** Both start with the element of least rank. */
  lemma SameHead(a: seq<Timeframe>, b: seq<Timeframe>)
    requires Canonical(a) && Canonical(b) && Members(a) == Members(b) && |a| > 0 && |b| > 0
    ensures a[0] == b[0]
  {
    assert a[0] in Members(b) && b[0] in Members(a);
    var i :| 0 <= i < |a| && a[i] == b[0];
    var j :| 0 <= j < |b| && b[j] == a[0];
    HeadIsLeast(a, i);
    HeadIsLeast(b, j);
    assert AllTf[Rank(a[0])] == a[0] && AllTf[Rank(b[0])] == b[0];
  }

  /** Dropping the head leaves a canonical list of the other elements. */
  lemma CanonicalTail(s: seq<Timeframe>)
    requires Canonical(s) && |s| > 0
    ensures Canonical(s[1..])
    ensures Members(s[1..]) == Members(s) - {s[0]}
  {
    var t := s[1..];
    forall p, q | 0 <= p < q < |t|
      ensures Rank(t[p]) < Rank(t[q])
    {
      assert t[p] == s[p + 1] && t[q] == s[q + 1];
    }
    HeadNotInTail(s);
  }

  lemma EmptyMembers(s: seq<Timeframe>)
    ensures |s| == 0 <==> Members(s) == {}
  {
    if |s| > 0 {
      assert s[0] in Members(s);
    }
  }

  lemma HeadIsLeast(s: seq<Timeframe>, k: nat)
    requires Canonical(s) && k < |s|
    ensures Rank(s[0]) <= Rank(s[k])
  {
  }

  lemma HeadNotInTail(s: seq<Timeframe>)
    requires Canonical(s) && |s| > 0
    ensures Members(s[1..]) == Members(s) - {s[0]}
  {
    forall t | t in s[1..]
      ensures t != s[0]
    {
      var k :| 0 <= k < |s[1..]| && s[1..][k] == t;
      assert s[k + 1] == t;
    }
    assert s == [s[0]] + s[1..];
  }

  /** A canonical selection is the canonical listing of its own elements. */
  lemma InOrderOfMembers(s: seq<Timeframe>)
    requires Canonical(s)
    ensures InOrder(Members(s)) == s
  {
    CanonicalUnique(InOrder(Members(s)), s);
  }

  /** Toggling the same timeframe twice gives back a canonical selection unchanged. */
  lemma ToggleTwice(s: seq<Timeframe>, tf: Timeframe)
    requires Canonical(s)
    ensures InOrder(Toggled(Members(InOrder(Toggled(Members(s), tf))), tf)) == s
  {
    var once := Toggled(Members(s), tf);
    assert Toggled(once, tf) == Members(s);
    InOrderOfMembers(s);
  }
}
