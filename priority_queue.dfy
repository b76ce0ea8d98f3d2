/**
 * The frontier of the search: an array of (element, priority) entries kept
 * sorted by priority. `enqueue` pushes the new entry and re-sorts with a
 * stable sort, `dequeue` shifts the head off.
 */
module PriorityQueues {
  import opened Options

  datatype Entry = Entry(element: nat, priority: real)

  /** Priorities never decrease along s. */
  ghost predicate Sorted(s: seq<Entry>) {
    forall i, j :: 0 <= i < j < |s| ==> s[i].priority <= s[j].priority
  }

  /** The entries of s whose priority is p, in the order in which they occur in s. */
  function AtPriority(s: seq<Entry>, p: real): seq<Entry> {
    if s == [] then []
    else AtPriority(s[..|s| - 1], p) + (if s[|s| - 1].priority == p then [s[|s| - 1]] else [])
  }

  /**
   * What a stable sort by priority makes of s + [e] when s is already sorted:
   * e moves in front of the entries of strictly greater priority and stays
   * behind every entry of equal priority.
   */
  function Insert(s: seq<Entry>, e: Entry): seq<Entry> {
    if s == [] then [e]
    else if s[|s| - 1].priority > e.priority then Insert(s[..|s| - 1], e) + [s[|s| - 1]]
    else s + [e]
  }

  lemma {:induction false} InsertMultiset(s: seq<Entry>, e: Entry)
    ensures multiset(Insert(s, e)) == multiset(s) + multiset{e}
  {
    if s != [] && s[|s| - 1].priority > e.priority {
      InsertMultiset(s[..|s| - 1], e);
      assert s == s[..|s| - 1] + [s[|s| - 1]];
    }
  }

  /** Inserting into a sorted sequence keeps it sorted. */
  lemma {:induction false} InsertSorted(s: seq<Entry>, e: Entry)
    requires Sorted(s)
    ensures Sorted(Insert(s, e))
  {
    if s != [] && s[|s| - 1].priority > e.priority {
      var init := s[..|s| - 1];
      InsertSorted(init, e);
      InsertMultiset(init, e);
      var r := Insert(init, e);
      forall x | x in r ensures x.priority <= s[|s| - 1].priority {
        assert x in multiset(r);
        if x != e {
          assert x in init;
        }
      }
      var t := r + [s[|s| - 1]];
      forall i, j | 0 <= i < j < |t| ensures t[i].priority <= t[j].priority {
        if j == |r| {
          assert t[i] in r;
        }
      }
    }
  }

  lemma AtPriorityAppendOne(s: seq<Entry>, x: Entry, p: real)
    ensures AtPriority(s + [x], p) == AtPriority(s, p) + (if x.priority == p then [x] else [])
  {
    assert (s + [x])[..|s + [x]| - 1] == s;
  }

  /**
   * Insert is stable: at every priority the entries keep the order they
   * had in s + [e], so e comes after every entry of equal priority.
   */
  lemma {:induction false} InsertStable(s: seq<Entry>, e: Entry, p: real)
    ensures AtPriority(Insert(s, e), p) == AtPriority(s + [e], p)
  {
    if s != [] && s[|s| - 1].priority > e.priority {
      var init, last := s[..|s| - 1], s[|s| - 1];
      assert Insert(s, e) == Insert(init, e) + [last];
      assert s == init + [last];
      InsertStable(init, e, p);
      AtPriorityAppendOne(Insert(init, e), last, p);
      AtPriorityAppendOne(init, e, p);
      AtPriorityAppendOne(s, e, p);
      AtPriorityAppendOne(init, last, p);
      var pe := if e.priority == p then [e] else [];
      var pl := if last.priority == p then [last] else [];
      assert pe == [] || pl == [];
      assert AtPriority(Insert(s, e), p) == AtPriority(init, p) + pe + pl;
      assert AtPriority(s + [e], p) == AtPriority(init, p) + pl + pe;
    }
  }

  lemma {:induction false} AtPriorityEmpty(s: seq<Entry>, p: real)
    requires forall i :: 0 <= i < |s| ==> s[i].priority != p
    ensures AtPriority(s, p) == []
  {
    if s != [] {
      AtPriorityEmpty(s[..|s| - 1], p);
    }
  }

  lemma AtPriorityHasLast(s: seq<Entry>)
    requires s != []
    ensures AtPriority(s, s[|s| - 1].priority) != []
  {
  }

  /** Dropping the last entry of s takes it off the subsequence at its own priority and leaves the others alone. */
  lemma AtPriorityDropLast(s: seq<Entry>, p: real)
    requires s != []
    ensures s[|s| - 1].priority == p ==> AtPriority(s[..|s| - 1], p) == AtPriority(s, p)[..|AtPriority(s, p)| - 1]
    ensures s[|s| - 1].priority != p ==> AtPriority(s[..|s| - 1], p) == AtPriority(s, p)
  {
    var x := AtPriority(s[..|s| - 1], p);
    if s[|s| - 1].priority == p {
      assert AtPriority(s, p) == x + [s[|s| - 1]];
      assert (x + [s[|s| - 1]])[..|x|] == x;
    } else {
      assert AtPriority(s, p) == x + [];
    }
  }

  /** Two sequences ending at the same priority, with the same entries at that priority, end in the same entry. */
  lemma SameLast(a: seq<Entry>, b: seq<Entry>)
    requires a != [] && b != [] && a[|a| - 1].priority == b[|b| - 1].priority
    requires AtPriority(a, a[|a| - 1].priority) == AtPriority(b, a[|a| - 1].priority)
    ensures a[|a| - 1] == b[|b| - 1]
  {
    var p := a[|a| - 1].priority;
    assert AtPriority(a, p) == AtPriority(a[..|a| - 1], p) + [a[|a| - 1]];
    assert AtPriority(b, p) == AtPriority(b[..|b| - 1], p) + [b[|b| - 1]];
  }

  /** Sequences with the same per-priority subsequences are empty together. */
  lemma EmptyTogether(a: seq<Entry>, b: seq<Entry>)
    requires forall p :: AtPriority(a, p) == AtPriority(b, p)
    ensures a == [] <==> b == []
  {
    if a != [] {
      AtPriorityHasLast(a);
    }
    if b != [] {
      AtPriorityHasLast(b);
    }
  }

  /** A sorted sequence has no entry above the priority of its last entry. */
  lemma AtPriorityAboveLast(s: seq<Entry>, p: real)
    requires Sorted(s) && s != [] && s[|s| - 1].priority < p
    ensures AtPriority(s, p) == []
  {
    assert forall i :: 0 <= i < |s| ==> s[i].priority <= s[|s| - 1].priority;
    AtPriorityEmpty(s, p);
  }

  /** Sorted sequences with the same per-priority subsequences end at the same priority. */
  lemma SameLastPriority(a: seq<Entry>, b: seq<Entry>)
    requires Sorted(a) && Sorted(b) && a != [] && b != []
    requires forall p :: AtPriority(a, p) == AtPriority(b, p)
    ensures a[|a| - 1].priority == b[|b| - 1].priority
  {
    var la, lb := a[|a| - 1], b[|b| - 1];
    if la.priority < lb.priority {
      AtPriorityAboveLast(a, lb.priority);
      AtPriorityHasLast(b);
      assert false;
    } else if lb.priority < la.priority {
      AtPriorityAboveLast(b, la.priority);
      AtPriorityHasLast(a);
      assert false;
    }
  }

  /**
   * A sorted sequence is determined by its per-priority subsequences, so
   * every stable sort of the same input yields the same sequence: Insert is
   * exactly what `push` followed by the stable `sort` produces.
   */
  lemma {:induction false} StableSortUnique(a: seq<Entry>, b: seq<Entry>)
    requires Sorted(a) && Sorted(b)
    requires forall p :: AtPriority(a, p) == AtPriority(b, p)
    ensures a == b
  {
    EmptyTogether(a, b);
    if a != [] {
      var pa, pb := a[..|a| - 1], b[..|b| - 1];
      SameLastPriority(a, b);
      SameLast(a, b);
      forall p ensures AtPriority(pa, p) == AtPriority(pb, p) {
        AtPriorityDropLast(a, p);
        AtPriorityDropLast(b, p);
      }
      StableSortUnique(pa, pb);
      assert a == pa + [a[|a| - 1]] && b == pb + [b[|b| - 1]];
    }
  }

  /**
   * The head of a sorted queue has the least priority, and among the entries
   * of that priority it is the one that comes first: with stable insertion,
   * the one inserted first.
   */
  lemma {:induction false} HeadIsFirstMinimum(s: seq<Entry>)
    requires Sorted(s) && s != []
    ensures forall i :: 0 <= i < |s| ==> s[0].priority <= s[i].priority
    ensures AtPriority(s, s[0].priority) != [] && AtPriority(s, s[0].priority)[0] == s[0]
  {
    if |s| > 1 {
      HeadIsFirstMinimum(s[..|s| - 1]);
    }
  }

  /** One step of the insertion loop, on the specification side. */
  lemma InsertBack(s: seq<Entry>, e: Entry, j: nat)
    requires 0 < j <= |s| && s[j - 1].priority > e.priority
    ensures Insert(s[..j], e) + s[j..] == Insert(s[..j - 1], e) + s[j - 1..]
  {
    assert s[..j][..j - 1] == s[..j - 1];
    assert s[j - 1..] == [s[j - 1]] + s[j..];
  }

  /** One step of the insertion loop, on the sequence: the new entry swaps with its left neighbour. */
  lemma SwapBack(s: seq<Entry>, e: Entry, j: nat)
    requires 0 < j <= |s|
    ensures (s[..j] + [e] + s[j..])[j - 1 := e][j := s[j - 1]] == s[..j - 1] + [e] + s[j - 1..]
  {
    var t := (s[..j] + [e] + s[j..])[j - 1 := e][j := s[j - 1]];
    var u := s[..j - 1] + [e] + s[j - 1..];
    assert |t| == |u|;
    forall i | 0 <= i < |t| ensures t[i] == u[i] {
      if i < j - 1 {
      } else if i == j - 1 {
      } else if i == j {
      } else {
        assert t[i] == s[i - 1];
      }
    }
  }

  /** Where the insertion loop stops, the new entry is placed right there. */
  lemma InsertStop(s: seq<Entry>, e: Entry, j: nat)
    requires j <= |s| && (j == 0 || s[j - 1].priority <= e.priority)
    ensures Insert(s[..j], e) + s[j..] == s[..j] + [e] + s[j..]
  {
    if j == 0 {
      assert s[..j] == [];
    } else {
      assert s[..j][j - 1] == s[j - 1];
    }
  }

  class PriorityQueue {
    var items: seq<Entry>

    ghost predicate Valid()
      reads this
    {
      Sorted(items)
    }

    constructor ()
      ensures Valid() && items == []
    {
      items := [];
    }

    /**
     * Pushes (element, priority) and re-sorts stably. Since items is already
     * sorted, the sort only moves the new entry back past the entries of
     * strictly greater priority (the comparator is zero on ties, so equal
     * priorities keep their order).
     */
    method Enqueue(element: nat, priority: real)
      requires Valid()
      modifies this
      ensures Valid()
      ensures items == Insert(old(items), Entry(element, priority))
      ensures multiset(items) == multiset(old(items)) + multiset{Entry(element, priority)}
    {
      var e := Entry(element, priority);
      var s := items;
      var t := s + [e];
      assert s[..|s|] == s && s[|s|..] == [];
      var j := |s|;
      while j > 0 && t[j - 1].priority > priority
        invariant 0 <= j <= |s|
        invariant t == s[..j] + [e] + s[j..]
        invariant Insert(s, e) == Insert(s[..j], e) + s[j..]
        decreases j
      {
        InsertBack(s, e, j);
        SwapBack(s, e, j);
        t := t[j - 1 := e][j := t[j - 1]];
        j := j - 1;
      }
      InsertStop(s, e, j);
      items := t;
      InsertSorted(s, e);
      InsertMultiset(s, e);
    }

    /** Removes and returns the head, or returns None when the queue is empty. */
    method Dequeue() returns (r: Option<Entry>)
      requires Valid()
      modifies this
      ensures Valid()
      ensures old(items) == [] ==> r == None && items == []
      ensures old(items) != [] ==> r == Some(old(items)[0]) && items == old(items)[1..]
    {
      if items == [] {
        r := None;
      } else {
        r := Some(items[0]);
        items := items[1..];
        assert forall i, j :: 0 <= i < j < |items| ==> items[i] == old(items)[i + 1] && items[j] == old(items)[j + 1];
      }
    }

    predicate IsEmpty()
      reads this
      ensures IsEmpty() <==> |items| == 0
    {
      items == []
    }
  }
}
