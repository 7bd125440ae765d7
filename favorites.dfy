/**
 * The favorites list: post ids the user has marked, toggled one at a time
 * with `push` and `splice`.
 */
module Favorites {

  /** `xs.indexOf(x)`: the first index holding `x`, or -1 when there is none. */
  function IndexOf(xs: seq<int>, x: int): (r: int)
    ensures r == -1 <==> x !in xs
    ensures r != -1 ==> 0 <= r < |xs| && xs[r] == x && x !in xs[..r]
  {
    if xs == [] then -1
    else if xs[0] == x then 0
    else
      var k := IndexOf(xs[1..], x);
      if k == -1 then -1
      else
        assert xs[..k + 1] == [xs[0]] + xs[1..][..k];
        k + 1
  }

  /**
   * The list after `toggleFavorite(id)`: an id not yet present is appended
   * at the end; otherwise the first occurrence is cut out, every other entry
   * keeping its order.
   */
  function Toggled(favs: seq<int>, id: int): (r: seq<int>)
    ensures id !in favs ==> r == favs + [id]
    ensures id in favs ==>
      var k := IndexOf(favs, id);
      && |r| == |favs| - 1
      && (forall j :: 0 <= j < k ==> r[j] == favs[j])
      && (forall j :: k <= j < |r| ==> r[j] == favs[j + 1])
  {
    var idx := IndexOf(favs, id);
    if idx == -1 then favs + [id] else favs[..idx] + favs[idx + 1..]
  }

  /** Toggling adds one copy of an absent id, takes one copy of a present one, and no other id is touched. */
  lemma ToggleCounts(favs: seq<int>, id: int)
    ensures var r := Toggled(favs, id);
      && multiset(r)[id] == (if id in favs then multiset(favs)[id] - 1 else 1)
      && forall x :: x != id ==> multiset(r)[x] == multiset(favs)[x]
  {
    var k := IndexOf(favs, id);
    if k != -1 {
      assert favs == favs[..k] + [id] + favs[k + 1..];
      assert Toggled(favs, id) == favs[..k] + favs[k + 1..];
    }
  }

  /** Toggling an id that was absent twice gives back exactly the original list. */
  lemma ToggleTwiceAbsent(favs: seq<int>, id: int)
    requires id !in favs
    ensures Toggled(Toggled(favs, id), id) == favs
  {
    var once := favs + [id];
    assert IndexOf(once, id) == |favs| by {
      assert once[|favs|] == id && once[..|favs|] == favs;
    }
    assert once[..|favs|] == favs && once[|favs| + 1..] == [];
  }

  /**
   * Toggling twice restores whether `id` is a favorite exactly when it is
   * not listed twice: an id listed exactly twice loses both copies.
   */
  lemma ToggleTwiceMembership(favs: seq<int>, id: int)
    ensures (id in Toggled(Toggled(favs, id), id)) == (id in favs) <==> multiset(favs)[id] != 2
  {
    var once := Toggled(favs, id);
    ToggleCounts(favs, id);
    ToggleCounts(once, id);
  }

  /** The list holds no id twice. */
  predicate NoDuplicates(xs: seq<int>) {
    forall i, j :: 0 <= i < j < |xs| ==> xs[i] != xs[j]
  }

  /** Toggling keeps a duplicate-free list free of duplicates, and flips exactly the membership of `id`. */
  lemma ToggleKeepsNoDuplicates(favs: seq<int>, id: int)
    requires NoDuplicates(favs)
    ensures NoDuplicates(Toggled(favs, id))
    ensures (id in Toggled(favs, id)) <==> id !in favs
    ensures forall x :: x != id ==> ((x in Toggled(favs, id)) <==> (x in favs))
  {
    var r := Toggled(favs, id);
    ToggleCounts(favs, id);
    assert forall x :: (x in r) <==> multiset(r)[x] > 0;
    assert forall x :: (x in favs) <==> multiset(favs)[x] > 0;
    if id in favs {
      var k := IndexOf(favs, id);
      forall i, j | 0 <= i < j < |r| ensures r[i] != r[j] {
        var i', j' := if i < k then i else i + 1, if j < k then j else j + 1;
        assert r[i] == favs[i'] && r[j] == favs[j'];
      }
      assert multiset(favs)[id] == 1 by {
        DistinctCount(favs, k);
      }
    }
  }

  /** In a duplicate-free list an element present occurs exactly once. */
  lemma {:induction false} DistinctCount(xs: seq<int>, k: nat)
    requires NoDuplicates(xs) && k < |xs|
    ensures multiset(xs)[xs[k]] == 1
  {
    var x := xs[k];
    assert xs == xs[..k] + [x] + xs[k + 1..];
    assert x !in xs[..k] by {
      forall i | 0 <= i < k ensures xs[..k][i] != x { assert xs[..k][i] == xs[i]; }
    }
    var tail := xs[k + 1..];
    assert x !in tail by {
      forall i | 0 <= i < |tail| ensures tail[i] != x {
        assert tail[i] == xs[k + 1 + i];
      }
    }
  }

  /** A list with an id listed twice shows why `ToggleTwiceMembership` needs its bound. */
  lemma DuplicateLosesMembership()
    ensures 7 in [7, 7] && 7 !in Toggled(Toggled([7, 7], 7), 7)
  {
    assert IndexOf([7, 7], 7) == 0;
    assert Toggled([7, 7], 7) == [7];
    assert IndexOf([7], 7) == 0;
    assert Toggled([7], 7) == [];
  }
}
