/**
 * One run of the keeper (`fetchActualDeposits`): resolve the depositors, aggregate
 * their stakes, allocate the reward and make one `disperseEther` call.
 */
module Keeper {
  import opened Wrappers
  import opened Depositors
  import opened Stakes
  import opened EtherUnits
  import opened Allocation
  import opened Dispersal

  /** Why a run stopped before any transaction was sent. */
  datatype Abort =
    | InvalidTotalReward            // parseEther(TOTAL_REWARD) threw
    | ShareNotParsed(user: Address) // parseEther of a stored rewardShare threw
    | UnencodableAmount             // the carried value or a value is not a uint256

  /** How a run ends: the one call was confirmed, it reverted, or it was never sent. */
  datatype RunOutcome =
    | Confirmed(call: DisperseCall)
    | Reverted(call: DisperseCall)
    | Aborted(reason: Abort)

  // ---------------------------------------------------------------------------
  // The reference payout

  /** The depositors whose balance was fetched and is non-zero, in query order. */
  function Staked(users: seq<Address>, balanceOf: Address -> Option<nat>): (r: seq<Address>)
    ensures forall u :: u in r <==> u in users && balanceOf(u).Some? && balanceOf(u).value != 0
    decreases |users|
  {
    if users == [] then []
    else
      var n := |users| - 1;
      assert forall u :: u in users <==> u in users[..n] || u == users[n];
      var init := Staked(users[..n], balanceOf);
      var b := balanceOf(users[n]);
      if b.Some? && b.value != 0 then init + [users[n]] else init
  }

  /** The fetched balances of users whose balance was fetched. */
  function StakesOf(users: seq<Address>, balanceOf: Address -> Option<nat>): (stakes: seq<nat>)
    requires forall u | u in users :: balanceOf(u).Some?
    ensures |stakes| == |users|
    ensures forall i | 0 <= i < |users| :: stakes[i] == balanceOf(users[i]).value
  {
    seq(|users|, i requires 0 <= i < |users| => balanceOf(users[i]).value)
  }

  /**
   * The call a run makes, defined from the depositors and the oracle directly: every
   * depositor with a fetched non-zero balance, in query order, gets the floor of its
   * proportional part of the reward against the sum of all fetched balances, and the
   * call carries the whole reward.
   */
  function Payout(depositors: seq<Address>, balanceOf: Address -> Option<nat>, reward: int): (call: DisperseCall)
  {
    var recipients := Staked(depositors, balanceOf);
    var total := SumFetched(depositors, balanceOf);
    var values := if total == 0 then [] else Shares(StakesOf(recipients, balanceOf), reward, total);
    DisperseCall(recipients, values, reward)
  }

  /** The sum of every fetched balance is the sum of the recipients' stakes. */
  lemma {:induction false} StakedSum(users: seq<Address>, balanceOf: Address -> Option<nat>)
    ensures SumFetched(users, balanceOf) == Sum(StakesOf(Staked(users, balanceOf), balanceOf))
    decreases |users|
  {
    if users != [] {
      var n := |users| - 1;
      StakedSum(users[..n], balanceOf);
      var r, init := Staked(users, balanceOf), Staked(users[..n], balanceOf);
      var b := balanceOf(users[n]);
      if b.Some? && b.value != 0 {
        var stakes := StakesOf(r, balanceOf);
        assert r[..|r| - 1] == init;
        assert stakes[..|stakes| - 1] == StakesOf(init, balanceOf);
      }
    }
  }

  /** The non-zero entries of the aggregated table are the staked depositors. */
  lemma {:induction false} StakedUsersOfTable(users: seq<Address>, balanceOf: Address -> Option<nat>, entries: map<Address, UserStake>)
    requires forall u | u in Fetched(users, balanceOf) :: u in entries && entries[u].stake == balanceOf(u).value
    ensures StakedUsers(Fetched(users, balanceOf), entries) == Staked(users, balanceOf)
    decreases |users|
  {
    if users != [] {
      var n := |users| - 1;
      StakedUsersOfTable(users[..n], balanceOf, entries);
      var f := Fetched(users, balanceOf);
      if balanceOf(users[n]).Some? {
        assert f[..|f| - 1] == Fetched(users[..n], balanceOf);
      }
    }
  }

  /**
   * What the payout promises: index-aligned lists, exactly the non-zero-stake
   * depositors as recipients, each value the floor share of its stake, the whole reward
   * carried, and (for a non-negative reward) bounded conservation.
   */
  lemma PayoutProperties(depositors: seq<Address>, balanceOf: Address -> Option<nat>, reward: int)
    ensures var call := Payout(depositors, balanceOf, reward);
            && |call.values| == |call.recipients|
            && (forall u :: u in call.recipients <==>
                  u in depositors && balanceOf(u).Some? && balanceOf(u).value != 0)
            && (NoDuplicates(depositors) ==> NoDuplicates(call.recipients))
            && call.carriedValue == reward
            && (forall i | 0 <= i < |call.values| ::
                  0 < SumFetched(depositors, balanceOf)
                  && call.values[i]
                       == Share(balanceOf(call.recipients[i]).value, reward, SumFetched(depositors, balanceOf)))
            && (0 <= reward ==> Sum(call.values) <= reward)
            && (0 <= reward && call.recipients != [] ==> reward - Sum(call.values) < |call.recipients|)
  {
    var recipients := Staked(depositors, balanceOf);
    var total := SumFetched(depositors, balanceOf);
    var stakes := StakesOf(recipients, balanceOf);
    StakedSum(depositors, balanceOf);
    StakedDistinct(depositors, balanceOf);
    if recipients != [] {
      FetchedBelowTotal(depositors, balanceOf, recipients[0]);
      assert 0 < total;
      if 0 <= reward {
        Conservation(stakes, reward);
      }
    }
  }

  lemma {:induction false} StakedDistinct(users: seq<Address>, balanceOf: Address -> Option<nat>)
    ensures NoDuplicates(users) ==> NoDuplicates(Staked(users, balanceOf))
    decreases |users|
  {
    if users != [] {
      var n := |users| - 1;
      StakedDistinct(users[..n], balanceOf);
      if NoDuplicates(users) {
        assert NoDuplicates(users[..n]);
        assert users[n] !in users[..n];
      }
    }
  }

  // ---------------------------------------------------------------------------
  // Sending the call

  /** 2^256: every `uint256` is below it. */
  const Uint256Bound: nat := 0x1_0000_0000_0000_0000_0000_0000_0000_0000_0000_0000_0000_0000_0000_0000_0000_0000

  predicate IsUint256(x: int) {
    0 <= x < Uint256Bound
  }

  /**
   * ethers encodes `values` as `uint256[]` and the carried value as a quantity; a
   * negative amount, or one of 2^256 or more, makes it throw before anything is sent.
   */
  predicate Encodable(call: DisperseCall) {
    IsUint256(call.carriedValue) && forall i | 0 <= i < |call.values| :: IsUint256(call.values[i])
  }

  /**
   * The reference payout can be sent exactly when the reward is a `uint256`: every share
   * is between zero and the reward, so only the reward itself can be out of range.
   */
  lemma EncodableIff(depositors: seq<Address>, balanceOf: Address -> Option<nat>, reward: int)
    ensures Encodable(Payout(depositors, balanceOf, reward)) <==> IsUint256(reward)
  {
    var call := Payout(depositors, balanceOf, reward);
    var total := SumFetched(depositors, balanceOf);
    PayoutProperties(depositors, balanceOf, reward);
    if IsUint256(reward) {
      forall i | 0 <= i < |call.values|
        ensures IsUint256(call.values[i])
      {
        var u := call.recipients[i];
        FetchedBelowTotal(depositors, balanceOf, u);
        assert 0 <= Share(balanceOf(u).value, reward, total) <= reward;
      }
    }
  }

  // ---------------------------------------------------------------------------
  // The run

  /** The call that the dispersal loop builds from the allocated table is the reference payout. */
  lemma DispersalIsPayout(depositors: seq<Address>, balanceOf: Address -> Option<nat>, rewarded: StakeTable, reward: int, call: DisperseCall)
    requires rewarded.Valid() && rewarded.users == Fetched(depositors, balanceOf)
    requires forall u | u in rewarded.entries ::
               balanceOf(u).Some? && rewarded.entries[u].stake == balanceOf(u).value
               && rewarded.entries[u].stake <= SumFetched(depositors, balanceOf)
    requires forall u | u in rewarded.entries && rewarded.entries[u].stake != 0 ::
               ParseEther(rewarded.entries[u].rewardShare)
                 == Some(Share(rewarded.entries[u].stake, reward, SumFetched(depositors, balanceOf)))
    requires call.recipients == StakedUsers(rewarded.users, rewarded.entries)
    requires |call.values| == |call.recipients| && call.carriedValue == reward
    requires forall i | 0 <= i < |call.values| ::
               ParseEther(rewarded.entries[call.recipients[i]].rewardShare) == Some(call.values[i])
    ensures call == Payout(depositors, balanceOf, reward)
  {
    var expected := Payout(depositors, balanceOf, reward);
    StakedUsersOfTable(depositors, balanceOf, rewarded.entries);
    PayoutProperties(depositors, balanceOf, reward);
    assert call.recipients == expected.recipients;
    assert call.values == expected.values;
  }

  /**
   * `fetchActualDeposits` followed by `disperseRewards`. The indexer's response, the
   * balance oracle, the TOTAL_REWARD setting and the ledger's verdict on the call are
   * inputs. An unparsable TOTAL_REWARD stops the run before any transaction, and so does
   * a call ethers cannot encode; otherwise exactly the reference payout is sent, once,
   * and the ledger confirms or reverts it.
   */
  method FetchActualDeposits(
    response: Option<seq<Deposit>>,
    balanceOf: Address -> Option<nat>,
    totalRewardText: string,
    ledgerAccepts: DisperseCall -> bool)
    returns (outcome: RunOutcome)
    ensures ParseEther(totalRewardText).None? ==> outcome == Aborted(InvalidTotalReward)
    ensures ParseEther(totalRewardText).Some? ==>
              var call := Payout(FetchUniqueDepositors(response), balanceOf, ParseEther(totalRewardText).value);
              outcome == if !Encodable(call) then Aborted(UnencodableAmount)
                         else if ledgerAccepts(call) then Confirmed(call) else Reverted(call)
    ensures ParseEther(totalRewardText).Some? ==>
              (outcome.Aborted? <==> !IsUint256(ParseEther(totalRewardText).value))
  {
    var uniqueDepositors := FetchUniqueDepositors(response);
    var userStakes, totalStaked := AggregateStakes(uniqueDepositors, balanceOf);
    match ParseEther(totalRewardText) {
      case None =>
        return Aborted(InvalidTotalReward);
      case Some(totalReward) =>
        var rewarded := AllocateRewards(userStakes, totalStaked, totalReward);
        var dispersal := DisperseRewards(rewarded, totalReward);
        match dispersal {
          case Failure(e) =>
            return Aborted(ShareNotParsed(e.user));
          case Success(call) =>
            DispersalIsPayout(uniqueDepositors, balanceOf, rewarded, totalReward, call);
            EncodableIff(uniqueDepositors, balanceOf, totalReward);
            if !Encodable(call) {
              return Aborted(UnencodableAmount);
            }
            outcome := if ledgerAccepts(call) then Confirmed(call) else Reverted(call);
        }
    }
  }
}
