/**
 * The selection update of the click handler: the selected node indices
 * (at most two, start first), toggled by each click on a node, and the
 * routing request made once exactly two are selected.
 */
module Selection {
  import opened Options

  /** What the handler holds between clicks: no more than two indices, none repeated. */
  ghost predicate Valid(sel: seq<nat>) {
    |sel| <= 2 && forall i, j :: 0 <= i < j < |sel| ==> sel[i] != sel[j]
  }

  /** findIndex(n => n.index === x): the first position of x in sel, or -1. */
  function IndexOf(sel: seq<nat>, x: nat): (r: int)
    ensures x !in sel ==> r == -1
    ensures x in sel ==> 0 <= r < |sel| && sel[r] == x && forall j :: 0 <= j < r ==> sel[j] != x
  {
    if sel == [] then -1
    else if sel[0] == x then 0
    else
      var r := IndexOf(sel[1..], x);
      if r == -1 then -1 else r + 1
  }

  /**
   * One click on node idx: a selected index is spliced out; otherwise idx is
   * pushed when fewer than two are selected, and with two selected the
   * selection becomes the old second entry followed by idx.
   */
  function Toggle(sel: seq<nat>, idx: nat): (r: seq<nat>)
    ensures |r| <= |sel| + 1
    ensures Valid(sel) ==> Valid(r)
  {
    var k := IndexOf(sel, idx);
    if k != -1 then sel[..k] + sel[k + 1..]
    else if |sel| < 2 then sel + [idx]
    else [sel[1], idx]
  }

  /** The effect of a click on the rest of the page. */
  datatype ClickOutcome = ClickOutcome(selection: seq<nat>, clearPath: bool, route: Option<(nat, nat)>)

  /**
   * The handler after the nearest-node lookup: a click that hits no node
   * changes nothing; otherwise the selection is toggled, a shown route is
   * cleared when fewer than two remain, and with exactly two a route from
   * the first to the second is requested.
   */
  function HandleClick(sel: seq<nat>, clicked: Option<nat>): (o: ClickOutcome)
    ensures clicked == None ==> o == ClickOutcome(sel, false, None)
    ensures clicked.Some? ==> o.selection == Toggle(sel, clicked.value)
    ensures clicked.Some? ==> (o.route.Some? <==> |o.selection| == 2) && (o.clearPath <==> |o.selection| < 2)
    ensures o.route.Some? ==> o.route.value == (o.selection[0], o.selection[1])
    ensures Valid(sel) ==> Valid(o.selection) && (o.route.Some? ==> o.route.value.0 != o.route.value.1)
  {
    match clicked
    case None => ClickOutcome(sel, false, None)
    case Some(idx) =>
      var next := Toggle(sel, idx);
      ClickOutcome(next, |next| < 2, if |next| == 2 then Some((next[0], next[1])) else None)
  }

  /** Clicking a selected index removes exactly that entry and keeps the others in order. */
  lemma ToggleDeselects(sel: seq<nat>, idx: nat)
    requires Valid(sel) && idx in sel
    ensures idx !in Toggle(sel, idx)
    ensures multiset(Toggle(sel, idx)) == multiset(sel) - multiset{idx}
    ensures exists k :: 0 <= k < |sel| && sel[k] == idx && Toggle(sel, idx) == sel[..k] + sel[k + 1..]
  {
    var k := IndexOf(sel, idx);
    var r := sel[..k] + sel[k + 1..];
    assert sel == sel[..k] + [idx] + sel[k + 1..];
    forall i | 0 <= i < |r| ensures r[i] != idx {
      if i < k {
        assert r[i] == sel[i] && sel[i] != sel[k];
      } else {
        assert r[i] == sel[i + 1] && sel[k] != sel[i + 1];
      }
    }
  }

  /** Clicking a new index adds it at the end, pushing out the older entry when two are selected. */
  lemma ToggleSelects(sel: seq<nat>, idx: nat)
    requires idx !in sel
    ensures |sel| < 2 ==> Toggle(sel, idx) == sel + [idx]
    ensures |sel| >= 2 ==> Toggle(sel, idx) == [sel[1], idx]
    ensures Toggle(sel, idx)[|Toggle(sel, idx)| - 1] == idx
  {
  }

  /** A click that adds a node, clicked again, undoes itself while fewer than two were selected. */
  lemma ToggleTwice(sel: seq<nat>, idx: nat)
    requires idx !in sel && |sel| < 2
    ensures Toggle(Toggle(sel, idx), idx) == sel
  {
    var t := sel + [idx];
    assert IndexOf(t, idx) == |sel| by {
      assert t[|sel|] == idx && idx !in t[..|sel|] by {
        assert t[..|sel|] == sel;
      }
    }
    assert t[..|sel|] == sel;
  }
}
