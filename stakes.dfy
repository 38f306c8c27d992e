/**
 * The stake aggregator: one balance query per depositor, a running total of the
 * balances that were fetched, and the `userStakes` table.
 */
module Stakes {
  import opened Wrappers
  import opened Depositors

  /** One value of `userStakes`: the fetched balance (wei) and the formatted reward share. */
  datatype UserStake = UserStake(stake: nat, rewardShare: string)

  /**
   * The `userStakes` object. Its keys are non-numeric strings, so JavaScript iterates
   * them in insertion order: `users` is that order and `entries` the key-value pairs.
   */
  datatype StakeTable = StakeTable(users: seq<Address>, entries: map<Address, UserStake>) {
    ghost predicate Valid() {
      NoDuplicates(users) && forall u :: u in entries <==> u in users
    }
  }

  /** The empty object `{}`. */
  function EmptyTable(): (t: StakeTable)
    ensures t.Valid() && t.users == [] && t.entries == map[]
  {
    StakeTable([], map[])
  }

  /**
   * `userStakes[user] = value`: an existing key keeps its place in the iteration order
   * and gets the new value; a new key goes last.
   */
  function Put(t: StakeTable, user: Address, value: UserStake): (r: StakeTable)
    requires t.Valid()
    ensures r.Valid()
    ensures r.entries == t.entries[user := value]
    ensures user in t.entries ==> r.users == t.users
    ensures user !in t.entries ==> r.users == t.users + [user]
  {
    if user in t.entries then t.(entries := t.entries[user := value])
    else StakeTable(t.users + [user], t.entries[user := value])
  }

  /** The sum of the stakes of the given users, in order. */
  function SumStakes(users: seq<Address>, entries: map<Address, UserStake>): (r: nat)
    requires forall u | u in users :: u in entries
    decreases |users|
  {
    if users == [] then 0
    else
      var n := |users| - 1;
      assert forall u | u in users[..n] :: u in users;
      SumStakes(users[..n], entries) + entries[users[n]].stake
  }

  /** The sum of all stakes of a table. */
  function TotalStakes(t: StakeTable): (r: nat)
    requires t.Valid()
  {
    SumStakes(t.users, t.entries)
  }

  // ---------------------------------------------------------------------------
  // The balance oracle

  /** The users whose balance query succeeded, in query order. */
  function Fetched(users: seq<Address>, balanceOf: Address -> Option<nat>): (r: seq<Address>)
    ensures forall u :: u in r <==> u in users && balanceOf(u).Some?
    ensures NoDuplicates(users) ==> NoDuplicates(r)
    ensures |r| <= |users|
    decreases |users|
  {
    if users == [] then []
    else
      var n := |users| - 1;
      var init := Fetched(users[..n], balanceOf);
      assert forall u :: u in users <==> u in users[..n] || u == users[n];
      if balanceOf(users[n]).Some? then init + [users[n]] else init
  }

  /** The sum, with repetition, of every balance that was fetched. */
  function SumFetched(users: seq<Address>, balanceOf: Address -> Option<nat>): (r: nat)
    decreases |users|
  {
    if users == [] then 0
    else
      var n := |users| - 1;
      SumFetched(users[..n], balanceOf) + match balanceOf(users[n]) case Some(b) => b case None => 0
  }

  /**
   * The state of the aggregation loop after the users of `prefix` were queried: the
   * table holds the fetched users in first-seen order, each with its balance and an
   * empty share, and the total is the sum of the fetched balances.
   */
  ghost predicate Aggregated(prefix: seq<Address>, balanceOf: Address -> Option<nat>, t: StakeTable, total: nat) {
    && t.Valid()
    && t.users == FirstSeen(Fetched(prefix, balanceOf))
    && (forall u | u in t.entries :: balanceOf(u).Some? && t.entries[u] == UserStake(balanceOf(u).value, ""))
    && total == SumFetched(prefix, balanceOf)
  }

  /**
   * The aggregation loop of `fetchActualDeposits`: for each user, a successful balance
   * query adds the balance to `totalStaked` and records `{stake, rewardShare: ""}`; a
   * failed one is logged and skipped.
   */
  method AggregateStakes(users: seq<Address>, balanceOf: Address -> Option<nat>)
    returns (userStakes: StakeTable, totalStaked: nat)
    ensures userStakes.Valid()
    ensures userStakes.users == FirstSeen(Fetched(users, balanceOf))
    ensures forall u :: u in userStakes.entries <==> u in users && balanceOf(u).Some?
    ensures forall u | u in userStakes.entries ::
              userStakes.entries[u] == UserStake(balanceOf(u).value, "")
    ensures totalStaked == SumFetched(users, balanceOf)
    ensures forall u | u in userStakes.entries :: userStakes.entries[u].stake <= totalStaked
    ensures NoDuplicates(users) ==>
              userStakes.users == Fetched(users, balanceOf) && TotalStakes(userStakes) == totalStaked
  {
    userStakes := EmptyTable();
    totalStaked := 0;
    for i := 0 to |users|
      invariant Aggregated(users[..i], balanceOf, userStakes, totalStaked)
    {
      var user := users[i];
      match balanceOf(user) {
        case Some(actualBalance) =>
          FetchedStep(users, balanceOf, i, userStakes, totalStaked, actualBalance);
          totalStaked := totalStaked + actualBalance;
          userStakes := Put(userStakes, user, UserStake(actualBalance, ""));
        case None =>
          FailedStep(users, balanceOf, i, userStakes, totalStaked);
      }
    }
    assert users[..|users|] == users;
    AggregatedFacts(users, balanceOf, userStakes, totalStaked);
  }

  /** A successful query: the user is recorded (or overwritten) and its balance added. */
  lemma FetchedStep(users: seq<Address>, balanceOf: Address -> Option<nat>, i: nat, t: StakeTable, total: nat, b: nat)
    requires i < |users| && balanceOf(users[i]) == Some(b)
    requires Aggregated(users[..i], balanceOf, t, total)
    ensures Aggregated(users[..i + 1], balanceOf, Put(t, users[i], UserStake(b, "")), total + b)
  {
    var user, seen := users[i], Fetched(users[..i], balanceOf);
    var next := Put(t, user, UserStake(b, ""));
    PrefixStep(users, balanceOf, i);
    assert next.users == FirstSeen(Fetched(users[..i + 1], balanceOf)) by {
      FirstSeenAppend(seen, user);
      assert user in t.entries <==> user in seen;
    }
    assert forall u | u in next.entries :: balanceOf(u).Some? && next.entries[u] == UserStake(balanceOf(u).value, "") by {
      assert next.entries == t.entries[user := UserStake(b, "")];
    }
  }

  /** A failed query changes nothing. */
  lemma FailedStep(users: seq<Address>, balanceOf: Address -> Option<nat>, i: nat, t: StakeTable, total: nat)
    requires i < |users| && balanceOf(users[i]).None?
    requires Aggregated(users[..i], balanceOf, t, total)
    ensures Aggregated(users[..i + 1], balanceOf, t, total)
  {
    PrefixStep(users, balanceOf, i);
  }

  /** What the finished loop guarantees about its table and total. */
  lemma AggregatedFacts(users: seq<Address>, balanceOf: Address -> Option<nat>, t: StakeTable, total: nat)
    requires Aggregated(users, balanceOf, t, total)
    ensures forall u :: u in t.entries <==> u in users && balanceOf(u).Some?
    ensures forall u | u in t.entries :: t.entries[u].stake <= total
    ensures NoDuplicates(users) ==> t.users == Fetched(users, balanceOf) && TotalStakes(t) == total
  {
    forall u | u in t.entries
      ensures t.entries[u].stake <= total
    {
      FetchedBelowTotal(users, balanceOf, u);
    }
    if NoDuplicates(users) {
      FirstSeenOfDistinct(Fetched(users, balanceOf));
      SumOfFetched(users, balanceOf, t.entries);
    }
  }

  // ---------------------------------------------------------------------------
  // What aggregation guarantees

  /** Extending the queried prefix by one user extends the fetched users and the sum by its answer. */
  lemma PrefixStep(users: seq<Address>, balanceOf: Address -> Option<nat>, i: nat)
    requires i < |users|
    ensures balanceOf(users[i]).Some? ==>
              Fetched(users[..i + 1], balanceOf) == Fetched(users[..i], balanceOf) + [users[i]]
    ensures balanceOf(users[i]).None? ==> Fetched(users[..i + 1], balanceOf) == Fetched(users[..i], balanceOf)
    ensures SumFetched(users[..i + 1], balanceOf)
              == SumFetched(users[..i], balanceOf) + match balanceOf(users[i]) case Some(b) => b case None => 0
  {
    assert users[..i + 1][..i] == users[..i];
  }

  /** Every fetched balance is at most the total: a non-zero stake makes the total positive. */
  lemma {:induction false} FetchedBelowTotal(users: seq<Address>, balanceOf: Address -> Option<nat>, u: Address)
    requires u in users && balanceOf(u).Some?
    ensures balanceOf(u).value <= SumFetched(users, balanceOf)
    decreases |users|
  {
    var n := |users| - 1;
    if users[n] != u {
      assert u in users[..n];
      FetchedBelowTotal(users[..n], balanceOf, u);
    }
  }

  /** The stakes of the fetched users add up to the sum of the fetched balances. */
  lemma {:induction false} SumOfFetched(users: seq<Address>, balanceOf: Address -> Option<nat>, entries: map<Address, UserStake>)
    requires forall u | u in Fetched(users, balanceOf) :: u in entries && entries[u].stake == balanceOf(u).value
    ensures SumStakes(Fetched(users, balanceOf), entries) == SumFetched(users, balanceOf)
    decreases |users|
  {
    if users != [] {
      var n := |users| - 1;
      SumOfFetched(users[..n], balanceOf, entries);
      var f := Fetched(users, balanceOf);
      if balanceOf(users[n]).Some? {
        assert f[..|f| - 1] == Fetched(users[..n], balanceOf);
      }
    }
  }
}
