/** What giving up on a request means for the backends. */
module BalanceRetry {
  import opened Options
  import opened Listing
  import opened Balance

  /** So a request that gives up has tried every backend that was healthy all the time. */
  lemma HealthyIsTried(brokenUntil: seq<Option<int>>, tried: seq<nat>, world: World, i: nat)
    requires |tried| == |brokenUntil| && i < |brokenUntil|
    requires forall k :: 0 <= k < |tried| ==> tried[k] < |brokenUntil| && GoesOn(brokenUntil, tried, world, k)
    requires forall k :: 0 <= k < |tried| ==> Healthy(brokenUntil[i], world.selectAt(k))
    ensures i in tried
  {
    if i !in tried {
      forall k | 0 <= k < |tried| ensures tried[k] !in tried[..k] {
        assert GoesOn(brokenUntil, tried, world, k);
      }
      hide GoesOn, Healthy;
      assert Distinct(tried) by {
        forall j, k | 0 <= j < k < |tried| ensures tried[j] != tried[k] {
          assert tried[..k][j] == tried[j];
        }
      }
      DistinctCardinality(tried);
      var others := NumbersBelow(|tried|) - {i};
      assert |others| == |tried| - 1;
      Included(Elements(tried), others);
      assert false;
    }
  }

  lemma Included(s: set<nat>, t: set<nat>)
    requires s <= t
    ensures |s| <= |t|
  {
    assert t == s + (t - s);
  }

  ghost function NumbersBelow(n: nat): (s: set<nat>)
    ensures |s| == n && forall x :: x in s <==> 0 <= x < n
  {
    if n == 0 then {} else NumbersBelow(n - 1) + {n - 1}
  }
}
