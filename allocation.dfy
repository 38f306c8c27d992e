/**
 * The reward allocator: every non-zero stake gets `stake * reward / totalStaked` wei,
 * stored in the table as ether text.
 */
module Allocation {
  import opened Wrappers
  import opened Depositors
  import opened Stakes
  import opened EtherUnits

  function Abs(x: int): (r: nat) {
    if x < 0 then -x else x
  }

  function Sum(xs: seq<int>): (r: int)
    decreases |xs|
  {
    if xs == [] then 0 else Sum(xs[..|xs| - 1]) + xs[|xs| - 1]
  }

  // ---------------------------------------------------------------------------
  // One share

  /** Floor division of non-negative integers, stated by its defining inequalities. */
  lemma FloorDivision(x: nat, d: nat)
    requires 0 < d
    ensures (x / d) * d <= x < (x / d + 1) * d
  {
  }

  /**
   * `stake.mul(reward).div(total)`. BigNumber division truncates toward zero, so the
   * share's magnitude is the floor of `stake * |reward| / total` and its sign is the
   * reward's.
   */
  function Share(stake: nat, reward: int, total: nat): (share: int)
    requires 0 < total
    ensures Abs(share) * total <= stake * Abs(reward) < (Abs(share) + 1) * total
    ensures reward < 0 ==> share <= 0
    ensures 0 <= reward ==> 0 <= share
    ensures stake <= total ==> Abs(share) <= Abs(reward)
  {
    var magnitude := FloorShare(stake, Abs(reward), total);
    if reward < 0 then -(magnitude as int) else magnitude
  }

  /** The floor of `stake * reward / total`, with its defining inequalities. */
  function FloorShare(stake: nat, reward: nat, total: nat): (q: nat)
    requires 0 < total
    ensures q * total <= stake * reward < (q + 1) * total
    ensures stake <= total ==> q <= reward
  {
    var p := stake * reward;
    var q := p / total;
    FloorDivision(p, total);
    QuotientBelow(q, stake, reward, total);
    q
  }

  /** `q * total <= stake * reward <= total * reward` gives `q <= reward` once the stake is at most the total. */
  lemma QuotientBelow(q: nat, stake: nat, reward: nat, total: nat)
    requires 0 < total && q * total <= stake * reward
    ensures stake <= total ==> q <= reward
  {
    if stake <= total {
      MulMonotone(reward, stake, total);
      assert total * q <= total * reward < total * (reward + 1);
      MulCancel(total, q, reward + 1);
    }
  }

  /** The shares of a sequence of stakes against one total. */
  function Shares(stakes: seq<nat>, reward: int, total: nat): (shares: seq<int>)
    requires 0 < total
    ensures |shares| == |stakes|
    ensures forall i | 0 <= i < |stakes| :: shares[i] == Share(stakes[i], reward, total)
  {
    seq(|stakes|, i requires 0 <= i < |stakes| => Share(stakes[i], reward, total))
  }

  // ---------------------------------------------------------------------------
  // Conservation and proportionality

  lemma MulMonotone(x: int, a: int, b: int)
    requires 0 <= x && a <= b
    ensures x * a <= x * b
  {
  }

  lemma MulStrictlyMonotone(x: int, a: int, b: int)
    requires 0 < x && a < b
    ensures x * a < x * b
  {
  }

  /** Dividing both sides by a positive factor keeps a strict order. */
  lemma MulCancel(x: int, a: int, b: int)
    requires 0 < x && x * a < x * b
    ensures a < b
  {
    if b <= a {
      MulMonotone(x, b, a);
    }
  }

  /**
   * Summed over any stakes, the floor shares fall short of the exact proportional
   * amounts by at most `total - 1` per stake.
   */
  lemma {:induction false} FloorRemainders(stakes: seq<nat>, reward: nat, total: nat)
    requires 0 < total
    ensures total * Sum(Shares(stakes, reward, total)) <= reward * Sum(stakes)
    ensures reward * Sum(stakes) <= total * Sum(Shares(stakes, reward, total)) + |stakes| * (total - 1)
    decreases |stakes|
  {
    if stakes != [] {
      var n := |stakes| - 1;
      var init, s := stakes[..n], stakes[n];
      FloorRemainders(init, reward, total);
      var shares := Shares(stakes, reward, total);
      assert shares[..n] == Shares(init, reward, total);
      var q := shares[n];
      var a, b := Sum(Shares(init, reward, total)), Sum(init);
      assert Sum(shares) == a + q;
      assert stakes[..n] == init;
      assert Sum(stakes) == b + s;
      StepRemainders(a, b, q, s, n, reward, total);
    }
  }

  /** One step of FloorRemainders: adding one stake and its share to the sums. */
  lemma StepRemainders(a: int, b: int, q: nat, s: nat, n: nat, reward: nat, total: nat)
    requires 0 < total
    requires q * total <= s * reward < (q + 1) * total
    requires total * a <= reward * b <= total * a + n * (total - 1)
    ensures total * (a + q) <= reward * (b + s)
    ensures reward * (b + s) <= total * (a + q) + (n + 1) * (total - 1)
  {
    assert reward * (b + s) == reward * b + s * reward;
    assert total * (a + q) == total * a + q * total;
    assert (q + 1) * total == q * total + total;
    assert (n + 1) * (total - 1) == n * (total - 1) + total - 1;
  }

  /**
   * Bounded conservation: when the total is the sum of the stakes, the shares add up to
   * at most the reward, and the unallocated residue is smaller than the number of
   * stakes.
   */
  lemma Conservation(stakes: seq<nat>, reward: nat)
    requires 0 < Sum(stakes)
    ensures Sum(Shares(stakes, reward, Sum(stakes))) <= reward
    ensures reward - Sum(Shares(stakes, reward, Sum(stakes))) < |stakes|
  {
    var total := Sum(stakes);
    var distributed := Sum(Shares(stakes, reward, total));
    FloorRemainders(stakes, reward, total);
    assert stakes != [];
    ResidueBound(distributed, reward, total, |stakes|);
  }

  /** The arithmetic behind Conservation, with the sums as plain numbers. */
  lemma ResidueBound(distributed: int, reward: nat, total: nat, n: nat)
    requires 0 < total && 0 < n
    requires total * distributed <= reward * total <= total * distributed + n * (total - 1)
    ensures distributed <= reward
    ensures reward - distributed < n
  {
    assert reward * total == total * reward;
    if reward < distributed {
      MulStrictlyMonotone(total, reward, distributed);
    }
    assert n * (total - 1) == total * n - n;
    assert total * reward <= total * (distributed + n) - n;
    MulCancel(total, reward, distributed + n);
  }

  /**
   * Proportionality under floor rounding: for two positive stakes a and b with shares
   * ra and rb, `ra * b` and `rb * a` differ by less than the larger stake.
   */
  lemma Proportionality(a: nat, b: nat, reward: nat, total: nat)
    requires 0 < total && 0 < a && 0 < b
    ensures var ra, rb := Share(a, reward, total), Share(b, reward, total);
            -(b as int) < ra * b - rb * a < a
  {
    var ra, rb := Share(a, reward, total), Share(b, reward, total);
    CrossBound(a, b, ra, rb, reward, total);
    CrossBound(b, a, rb, ra, reward, total);
  }

  /** The upper half of Proportionality, for shares given by their floor inequalities. */
  lemma CrossBound(a: nat, b: nat, ra: nat, rb: nat, reward: nat, total: nat)
    requires 0 < total && 0 < a && 0 < b
    requires ra * total <= a * reward
    requires b * reward < (rb + 1) * total
    ensures ra * b - rb * a < a
  {
    MulMonotone(b, ra * total, a * reward);
    MulStrictlyMonotone(a, b * reward, (rb + 1) * total);
    assert b * (a * reward) == a * (b * reward);
    assert b * (ra * total) == total * (ra * b);
    assert a * ((rb + 1) * total) == total * (rb * a + a);
    MulCancel(total, ra * b, rb * a + a);
  }

  // ---------------------------------------------------------------------------
  // The allocation loop

  /** The text stored as `rewardShare`: `formatEther` of the share. */
  function ShareText(stake: nat, reward: int, total: nat): (text: string)
    requires 0 < total
    ensures ParseEther(text) == Some(Share(stake, reward, total))
  {
    EtherRoundTrip(Share(stake, reward, total));
    FormatEther(Share(stake, reward, total))
  }

  /** An entry after the allocation loop has visited it. */
  function Allocated(entry: UserStake, reward: int, total: nat): (r: UserStake)
    requires entry.stake <= total
    ensures r.stake == entry.stake
    ensures entry.stake == 0 ==> r == entry
    ensures entry.stake != 0 ==> 0 < total && ParseEther(r.rewardShare) == Some(Share(entry.stake, reward, total))
  {
    if entry.stake == 0 then entry else entry.(rewardShare := ShareText(entry.stake, reward, total))
  }

  /**
   * The state of the allocation loop after it visited the first i users of `before`'s
   * iteration order: those entries are allocated, the others are as they were.
   */
  ghost predicate AllocatedUpTo(before: StakeTable, reward: int, total: nat, t: StakeTable, i: nat) {
    && before.Valid()
    && (forall u | u in before.entries :: before.entries[u].stake <= total)
    && t.Valid() && t.users == before.users
    && forall k | 0 <= k < |before.users| ::
         t.entries[before.users[k]]
           == if k < i then Allocated(before.entries[before.users[k]], reward, total)
              else before.entries[before.users[k]]
  }

  /**
   * The allocation loop of `fetchActualDeposits`: in iteration order, every entry with a
   * non-zero stake gets `rewardShare = formatEther(stake * reward / totalStaked)`; an
   * entry with zero stake is not touched, so it keeps its `""`.
   */
  method AllocateRewards(userStakes: StakeTable, totalStaked: nat, totalReward: int)
    returns (rewarded: StakeTable)
    requires userStakes.Valid()
    requires forall u | u in userStakes.entries :: userStakes.entries[u].stake <= totalStaked
    ensures rewarded.Valid()
    ensures rewarded.users == userStakes.users
    ensures forall u :: u in rewarded.entries <==> u in userStakes.entries
    ensures forall u | u in userStakes.entries :: rewarded.entries[u].stake == userStakes.entries[u].stake
    ensures forall u | u in userStakes.entries && userStakes.entries[u].stake == 0 ::
              rewarded.entries[u] == userStakes.entries[u]
    ensures forall u | u in userStakes.entries && userStakes.entries[u].stake != 0 ::
              rewarded.entries[u].rewardShare
                == ShareText(userStakes.entries[u].stake, totalReward, totalStaked)
  {
    var users := userStakes.users;
    rewarded := userStakes;
    for i := 0 to |users|
      invariant AllocatedUpTo(userStakes, totalReward, totalStaked, rewarded, i)
    {
      var user := users[i];
      var entry := rewarded.entries[user];
      if entry.stake != 0 {
        // a non-zero stake is part of totalStaked, so the division is by a positive number
        RewardStep(userStakes, totalReward, totalStaked, rewarded, i);
        rewarded := Put(rewarded, user, entry.(rewardShare := ShareText(entry.stake, totalReward, totalStaked)));
      } else {
        SkipStep(userStakes, totalReward, totalStaked, rewarded, i);
      }
    }
    AllocationDone(userStakes, totalReward, totalStaked, rewarded);
  }

  /** Visiting a non-zero entry stores its share text. */
  lemma RewardStep(before: StakeTable, reward: int, total: nat, t: StakeTable, i: nat)
    requires i < |before.users| && AllocatedUpTo(before, reward, total, t, i)
    requires t.entries[before.users[i]].stake != 0
    ensures 0 < total
    ensures var entry := t.entries[before.users[i]];
            AllocatedUpTo(before, reward, total,
              Put(t, before.users[i], entry.(rewardShare := ShareText(entry.stake, reward, total))), i + 1)
  {
    var users := before.users;
    assert t.entries[users[i]] == before.entries[users[i]];
    assert users[i] in before.entries;
    forall k | 0 <= k < |users| && k != i
      ensures users[k] != users[i]
    {
    }
  }

  /** Visiting a zero entry leaves it as it is. */
  lemma SkipStep(before: StakeTable, reward: int, total: nat, t: StakeTable, i: nat)
    requires i < |before.users| && AllocatedUpTo(before, reward, total, t, i)
    requires t.entries[before.users[i]].stake == 0
    ensures AllocatedUpTo(before, reward, total, t, i + 1)
  {
    assert t.entries[before.users[i]] == before.entries[before.users[i]];
  }

  /** What the finished loop guarantees, entry by entry. */
  lemma AllocationDone(before: StakeTable, reward: int, total: nat, t: StakeTable)
    requires AllocatedUpTo(before, reward, total, t, |before.users|)
    ensures forall u :: u in t.entries <==> u in before.entries
    ensures forall u | u in before.entries :: t.entries[u] == Allocated(before.entries[u], reward, total)
  {
    forall u | u in before.entries
      ensures t.entries[u] == Allocated(before.entries[u], reward, total)
    {
      var k :| 0 <= k < |before.users| && before.users[k] == u;
    }
  }
}
