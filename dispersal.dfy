/**
 * The dispersal orchestrator: parallel `recipients` and `values` lists built from the
 * table, and the one `disperseEther` call that carries the whole reward.
 */
module Dispersal {
  import opened Wrappers
  import opened Depositors
  import opened Stakes
  import opened EtherUnits

  /** The recorded `disperseEther(recipients, values, {value: carriedValue})` call. */
  datatype DisperseCall = DisperseCall(recipients: seq<Address>, values: seq<int>, carriedValue: int)

  /** `parseEther` threw on this recipient's `rewardShare`, so no call was made. */
  datatype DisperseError = UnparsableShare(user: Address)

  /** The users with a non-zero stake, in iteration order. */
  function StakedUsers(users: seq<Address>, entries: map<Address, UserStake>): (r: seq<Address>)
    requires forall u | u in users :: u in entries
    ensures forall u :: u in r <==> u in users && entries[u].stake != 0
    ensures NoDuplicates(users) ==> NoDuplicates(r)
    decreases |users|
  {
    if users == [] then []
    else
      var n := |users| - 1;
      assert forall u :: u in users <==> u in users[..n] || u == users[n];
      var init := StakedUsers(users[..n], entries);
      if entries[users[n]].stake != 0 then init + [users[n]] else init
  }

  /**
   * The state of the dispersal loop after the first i users: the staked ones among them
   * are the recipients so far, and each value is the parsed share of its recipient.
   */
  ghost predicate BuiltUpTo(t: StakeTable, i: nat, recipients: seq<Address>, values: seq<int>) {
    && t.Valid() && i <= |t.users|
    && recipients == StakedUsers(t.users[..i], t.entries)
    && |values| == |recipients|
    && forall k | 0 <= k < |values| :: ParseEther(t.entries[recipients[k]].rewardShare) == Some(values[k])
  }

  /**
   * The loop of `disperseRewards`: every user with a non-zero stake, in iteration order,
   * is pushed onto `recipients` and `parseEther` of its `rewardShare` onto `values`;
   * the call carries `parseEther(TOTAL_REWARD)` whatever the values add up to. A share
   * that does not parse makes ethers throw, and no call is made.
   */
  method DisperseRewards(userStakes: StakeTable, totalReward: int)
    returns (result: Result<DisperseCall, DisperseError>)
    requires userStakes.Valid()
    ensures result.Success? <==>
              forall u | u in StakedUsers(userStakes.users, userStakes.entries) ::
                ParseEther(userStakes.entries[u].rewardShare).Some?
    ensures result.Success? ==>
              && result.value.recipients == StakedUsers(userStakes.users, userStakes.entries)
              && |result.value.values| == |result.value.recipients|
              && (forall i | 0 <= i < |result.value.values| ::
                    ParseEther(userStakes.entries[result.value.recipients[i]].rewardShare)
                      == Some(result.value.values[i]))
              && result.value.carriedValue == totalReward
    ensures result.Failure? ==>
              && result.error.user in StakedUsers(userStakes.users, userStakes.entries)
              && ParseEther(userStakes.entries[result.error.user].rewardShare).None?
  {
    var users, entries := userStakes.users, userStakes.entries;
    var recipients: seq<Address> := [];
    var values: seq<int> := [];
    for i := 0 to |users|
      invariant BuiltUpTo(userStakes, i, recipients, values)
    {
      var user := users[i];
      if entries[user].stake != 0 {
        match ParseEther(entries[user].rewardShare) {
          case None =>
            RejectedShare(userStakes, i);
            return Failure(UnparsableShare(user));
          case Some(rewardShareWei) =>
            PushShare(userStakes, i, recipients, values, rewardShareWei);
            recipients := recipients + [user];
            values := values + [rewardShareWei];
        }
      } else {
        PassZero(userStakes, i, recipients, values);
      }
    }
    BuiltAll(userStakes, recipients, values);
    result := Success(DisperseCall(recipients, values, totalReward));
  }

  /** One more user extends the staked prefix by that user exactly when its stake is non-zero. */
  lemma PushStep(t: StakeTable, i: nat)
    requires t.Valid() && i < |t.users|
    ensures StakedUsers(t.users[..i + 1], t.entries)
              == StakedUsers(t.users[..i], t.entries) + (if t.entries[t.users[i]].stake != 0 then [t.users[i]] else [])
  {
    assert t.users[..i + 1][..i] == t.users[..i];
  }

  /** A staked user whose share parses is pushed with its value. */
  lemma PushShare(t: StakeTable, i: nat, recipients: seq<Address>, values: seq<int>, w: int)
    requires BuiltUpTo(t, i, recipients, values) && i < |t.users|
    requires t.entries[t.users[i]].stake != 0 && ParseEther(t.entries[t.users[i]].rewardShare) == Some(w)
    ensures BuiltUpTo(t, i + 1, recipients + [t.users[i]], values + [w])
  {
    PushStep(t, i);
  }

  /** A user with zero stake is passed over. */
  lemma PassZero(t: StakeTable, i: nat, recipients: seq<Address>, values: seq<int>)
    requires BuiltUpTo(t, i, recipients, values) && i < |t.users|
    requires t.entries[t.users[i]].stake == 0
    ensures BuiltUpTo(t, i + 1, recipients, values)
  {
    PushStep(t, i);
  }

  /** A staked user reached by the loop is a staked user of the table. */
  lemma RejectedShare(t: StakeTable, i: nat)
    requires t.Valid() && i < |t.users| && t.entries[t.users[i]].stake != 0
    ensures t.users[i] in StakedUsers(t.users, t.entries)
  {
  }

  /** After the last user the recipients are all staked users, and each share parsed. */
  lemma BuiltAll(t: StakeTable, recipients: seq<Address>, values: seq<int>)
    requires BuiltUpTo(t, |t.users|, recipients, values)
    ensures recipients == StakedUsers(t.users, t.entries)
    ensures forall u | u in recipients :: ParseEther(t.entries[u].rewardShare).Some?
  {
    assert t.users[..|t.users|] == t.users;
    forall u | u in recipients
      ensures ParseEther(t.entries[u].rewardShare).Some?
    {
      var k :| 0 <= k < |recipients| && recipients[k] == u;
      assert ParseEther(t.entries[recipients[k]].rewardShare) == Some(values[k]);
    }
  }
}
