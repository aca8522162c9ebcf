/**
 * The shared, creation-ordered list of inputs as a sequence: what `destroy`
 * does to it and which entry the tab key moves to.
 */
module InputOrder {
  import opened JsArray

  /** The list after `destroy`: the entry `indexOf` finds is spliced out under
      a truthiness test on the index, so index 0 is never removed and a missing
      entry (index -1) splices out the last one. */
  function Unregistered<T(==)>(inputs: seq<T>, x: T): (r: seq<T>)
    ensures |inputs| > 0 && inputs[0] == x ==> r == inputs
    ensures x !in inputs && |inputs| > 0 ==> r == inputs[..|inputs| - 1]
    ensures x !in inputs && |inputs| == 0 ==> r == []
    ensures x in inputs && inputs[0] != x ==>
      exists i :: 0 < i < |inputs| && inputs[i] == x && x !in inputs[..i] && r == inputs[..i] + inputs[i + 1..]
  {
    var index := IndexOf(inputs, x);
    if index != 0 then SpliceOne(inputs, index) else inputs
  }

  /** A field removed by `destroy` from a position other than the first is gone
      from the list once (it loses exactly one occurrence) and nothing else changes. */
  lemma UnregisteredRemovesOne<T>(inputs: seq<T>, x: T)
    requires x in inputs && inputs[0] != x
    ensures multiset(Unregistered(inputs, x)) == multiset(inputs) - multiset{x}
    ensures |Unregistered(inputs, x)| == |inputs| - 1
  {
    var i := IndexOf(inputs, x);
    assert inputs == inputs[..i] + [x] + inputs[i + 1..];
    calc {
      multiset(inputs);
      multiset(inputs[..i]) + multiset{x} + multiset(inputs[i + 1..]);
      multiset(inputs[..i] + inputs[i + 1..]) + multiset{x};
    }
  }

  /** The entry the tab key moves to (`inputs[index + 1]` if it exists, else 0). */
  function NextTabIndex(index: nat, count: nat): (next: nat)
    requires count > 1
    ensures next < count
    ensures next == 0 <==> index + 1 >= count
    ensures next != 0 ==> next == index + 1
  {
    if index + 1 < count then index + 1 else 0
  }

  /** The entry reached from `start` after pressing tab `k` times. */
  function TabSteps(count: nat, start: nat, k: nat): nat
    requires count > 1
  {
    if k == 0 then start else NextTabIndex(TabSteps(count, start, k - 1), count)
  }

  /** Before the end of the list, each tab press moves to the next entry in creation order. */
  lemma {:induction false} TabAdvances(count: nat, start: nat, k: nat)
    requires count > 1 && start + k < count
    ensures TabSteps(count, start, k) == start + k
  {
    if k > 0 {
      TabAdvances(count, start, k - 1);
    }
  }

  /** Pressing tab `a + b` times is pressing it `a` times and then `b` times. */
  lemma {:induction false} TabStepsAdd(count: nat, start: nat, a: nat, b: nat)
    requires count > 1
    ensures TabSteps(count, start, a + b) == TabSteps(count, TabSteps(count, start, a), b)
  {
    if b > 0 {
      TabStepsAdd(count, start, a, b - 1);
    }
  }

  /** How many tab presses lead from `start` to `target`: forward to it, or forward to
      the end of the list, around to the first entry and on to it. */
  function TabDistance(count: nat, start: nat, target: nat): nat
    requires start < count && target < count
  {
    if start <= target then target - start else count - start + target
  }

  /** Every entry is reached from every other in fewer presses than there are entries. */
  lemma TabReaches(count: nat, start: nat, target: nat)
    requires count > 1 && start < count && target < count
    ensures TabDistance(count, start, target) < count
    ensures TabSteps(count, start, TabDistance(count, start, target)) == target
  {
    if start <= target {
      TabAdvances(count, start, target - start);
    } else {
      var a := count - 1 - start;
      TabAdvances(count, start, a);
      assert TabSteps(count, start, a + 1) == 0;
      TabStepsAdd(count, start, a + 1, target);
      TabAdvances(count, 0, target);
    }
  }

  /** Entry `j` is reached from `start` by fewer tab presses than there are entries. */
  ghost predicate Visited(count: nat, start: nat, j: nat)
    requires count > 1
  {
    exists k: nat :: k < count && TabSteps(count, start, k) == j
  }

  /** Tabbing cycles: from any entry, `count` presses come back to it, and every entry
      of the list is visited on the way. */
  lemma TabCycles(count: nat, start: nat)
    requires count > 1 && start < count
    ensures TabSteps(count, start, count) == start
    ensures forall j :: 0 <= j < count ==> Visited(count, start, j)
  {
    var a := count - 1 - start;
    TabAdvances(count, start, a);
    assert TabSteps(count, start, a + 1) == 0;
    TabStepsAdd(count, start, a + 1, start);
    TabAdvances(count, 0, start);
    forall j | 0 <= j < count
      ensures Visited(count, start, j)
    {
      TabReaches(count, start, j);
      var k := TabDistance(count, start, j);
      assert 0 <= k < count && TabSteps(count, start, k) == j;
    }
  }
}
