/**
 The least total increment that makes a list strictly increasing, by a single greedy pass.
 */
module MinOperations {

  predicate Increasing(t: seq<int>) {
    forall i, j :: 0 <= i < j < |t| ==> t[i] < t[j]
  }

  /** A strictly increasing sequence that can be reached from `nums` by increments. */
  predicate Feasible(nums: seq<int>, t: seq<int>) {
    |t| == |nums| && Increasing(t) && forall i :: 0 <= i < |t| ==> nums[i] <= t[i]
  }

  function Cost(nums: seq<int>, t: seq<int>): int
    requires |t| == |nums|
  {
    if t == [] then 0 else Cost(nums[..|t| - 1], t[..|t| - 1]) + t[|t| - 1] - nums[|t| - 1]
  }

  /** The greedy sequence: each element is raised just above the one before, if it has to be. */
  function Raised(nums: seq<int>): (t: seq<int>)
    ensures |t| == |nums|
  {
    if nums == [] then []
    else
      var n := |nums| - 1;
      var t := Raised(nums[..n]);
      t + [if n > 0 && nums[n] <= t[n - 1] then t[n - 1] + 1 else nums[n]]
  }

  lemma {:induction false} RaisedIsFeasible(nums: seq<int>)
    ensures Feasible(nums, Raised(nums))
  {
    if nums != [] {
      var n := |nums| - 1;
      RaisedIsFeasible(nums[..n]);
      var t, r := Raised(nums[..n]), Raised(nums);
      assert r[..n] == t;
      forall i | 0 <= i < |r| ensures nums[i] <= r[i] {
        if i < n { assert nums[i] == nums[..n][i] && r[i] == t[i]; }
      }
    }
  }

  /** The greedy sequence is pointwise least among all feasible ones. */
  lemma {:induction false} RaisedIsLeast(nums: seq<int>, t: seq<int>, i: nat)
    requires Feasible(nums, t) && i < |t|
    ensures Raised(nums)[i] <= t[i]
    decreases |nums|
  {
    var n := |nums| - 1;
    assert Feasible(nums[..n], t[..n]);
    if i < n {
      RaisedIsLeast(nums[..n], t[..n], i);
    } else if n > 0 {
      RaisedIsLeast(nums[..n], t[..n], n - 1);
      assert t[n - 1] < t[n];
    }
  }

  lemma {:induction false} CostMonotone(nums: seq<int>, s: seq<int>, t: seq<int>)
    requires |s| == |t| == |nums| && forall i :: 0 <= i < |s| ==> s[i] <= t[i]
    ensures Cost(nums, s) <= Cost(nums, t)
  {
    if s != [] {
      var n := |s| - 1;
      CostMonotone(nums[..n], s[..n], t[..n]);
    }
  }

  /** No strictly increasing sequence above the input costs less than the greedy one. */
  lemma RaisedIsCheapest(nums: seq<int>, t: seq<int>)
    requires Feasible(nums, t)
    ensures Cost(nums, Raised(nums)) <= Cost(nums, t)
  {
    forall i | 0 <= i < |t| ensures Raised(nums)[i] <= t[i] {
      RaisedIsLeast(nums, t, i);
    }
    CostMonotone(nums, Raised(nums), t);
  }

  lemma RaisedIsMinimum(nums: seq<int>)
    ensures forall t :: Feasible(nums, t) ==> Cost(nums, Raised(nums)) <= Cost(nums, t)
    ensures Feasible(nums, Raised(nums))
  {
    RaisedIsFeasible(nums);
    forall t | Feasible(nums, t) ensures Cost(nums, Raised(nums)) <= Cost(nums, t) {
      RaisedIsCheapest(nums, t);
    }
  }

  /** `minOperations` returns the minimum over all feasible sequences, and some sequence attains it. */
  method MinOperations(nums: seq<int>) returns (steps: int)
    ensures forall t :: Feasible(nums, t) ==> steps <= Cost(nums, t)
    ensures exists t :: Feasible(nums, t) && steps == Cost(nums, t)
  {
    RaisedIsMinimum(nums);
    if |nums| <= 1 {
      assert nums[..0] == [] && (|nums| == 1 ==> Raised(nums) == nums);
      return 0;
    }
    hide Feasible;
    hide Raised;
    assert Cost([], []) == 0 && Raised(nums[..0]) == [];
    hide Cost;
    steps := 0;
    var needAddTo := nums[0];
    var i := 0;
    while i < |nums|
      invariant 0 <= i <= |nums| && steps == Cost(nums[..i], Raised(nums[..i]))
      invariant needAddTo == if i == 0 then nums[0] else Raised(nums[..i])[i - 1] + 1
    {
      RaisedStep(nums, i);
      var item := nums[i];
      if item > needAddTo {
        needAddTo := item + 1;
      } else {
        steps := steps + needAddTo - item;
        needAddTo := needAddTo + 1;
      }
      i := i + 1;
    }
    assert nums[..i] == nums;
  }

  /** What one more element adds to the greedy sequence and its cost. */
  lemma RaisedStep(nums: seq<int>, i: nat)
    requires i < |nums|
    ensures var a, b := Raised(nums[..i]), Raised(nums[..i + 1]);
      && b == a + [if i > 0 && nums[i] <= a[i - 1] then a[i - 1] + 1 else nums[i]]
      && Cost(nums[..i + 1], b) == Cost(nums[..i], a) + b[i] - nums[i]
  {
    assert nums[..i + 1][..i] == nums[..i];
    assert Raised(nums[..i + 1])[..i] == Raised(nums[..i]);
  }
}
