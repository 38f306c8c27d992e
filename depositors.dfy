/**
 * The participant resolver: the deposit records returned by the indexer become the
 * distinct depositor addresses, in the order in which a JavaScript `Set` built from
 * them iterates, that is, first-seen order.
 */
module Depositors {
  import opened Wrappers

  /** A depositor address, compared as an exact string (no case folding). */
  type Address = string

  /** One record of the indexer's `Deposits` query (only the `user` field is read). */
  datatype Deposit = Deposit(user: Address)

  predicate NoDuplicates(xs: seq<Address>) {
    forall i, j | 0 <= i < j < |xs| :: xs[i] != xs[j]
  }

  /** The index of the first occurrence of x in xs. */
  function FirstIndex(xs: seq<Address>, x: Address): (k: nat)
    requires x in xs
    ensures k < |xs| && xs[k] == x && x !in xs[..k]
  {
    if xs[0] == x then 0
    else
      var k := 1 + FirstIndex(xs[1..], x);
      assert xs[..k] == [xs[0]] + xs[1..][..k - 1];
      k
  }

  /**
   * The distinct elements of xs, each kept where it first occurs: what
   * `Array.from(new Set(xs))` yields, since a Set is iterated in insertion order.
   */
  function FirstSeen(xs: seq<Address>): (r: seq<Address>)
    ensures NoDuplicates(r)
    ensures forall x :: x in r <==> x in xs
    decreases |xs|
  {
    if xs == [] then []
    else
      var prefix := FirstSeen(xs[..|xs| - 1]);
      var last := xs[|xs| - 1];
      assert forall x :: x in xs <==> x in xs[..|xs| - 1] || x == last;
      if last in prefix then prefix else prefix + [last]
  }

  /** Deduplicating one more element: it is appended unless it was already seen. */
  lemma FirstSeenAppend(xs: seq<Address>, x: Address)
    ensures FirstSeen(xs + [x]) == if x in xs then FirstSeen(xs) else FirstSeen(xs) + [x]
  {
    assert (xs + [x])[..|xs|] == xs;
  }

  /** A first index is the only index that holds x with no earlier x. */
  lemma FirstIndexUnique(xs: seq<Address>, x: Address, k: nat)
    requires k < |xs| && xs[k] == x && x !in xs[..k]
    ensures FirstIndex(xs, x) == k
  {
  }

  /**
   * FirstSeen keeps first-seen order: an element listed earlier occurs first earlier
   * in the input. With NoDuplicates and the membership equivalence this pins the
   * result down completely.
   */
  lemma {:induction false} FirstSeenOrder(xs: seq<Address>)
    ensures forall i, j | 0 <= i < j < |FirstSeen(xs)| ::
              FirstIndex(xs, FirstSeen(xs)[i]) < FirstIndex(xs, FirstSeen(xs)[j])
    decreases |xs|
  {
    if xs != [] {
      var n := |xs| - 1;
      var init, last := xs[..n], xs[n];
      FirstSeenOrder(init);
      var p := FirstSeen(init);
      var r := FirstSeen(xs);
      assert xs[..n] == init;
      // an element of the prefix keeps its first index in the longer input
      forall x | x in init
        ensures FirstIndex(xs, x) == FirstIndex(init, x)
      {
        var k := FirstIndex(init, x);
        assert xs[..k] == init[..k];
        FirstIndexUnique(xs, x, k);
      }
      if last !in p {
        FirstIndexUnique(xs, last, n);
        forall i, j | 0 <= i < j < |r|
          ensures FirstIndex(xs, r[i]) < FirstIndex(xs, r[j])
        {
          if j < |p| {
            assert r[i] == p[i] && r[j] == p[j];
          } else {
            assert r[i] == p[i] && r[i] in init;
          }
        }
      }
    }
  }

  /** An input without repeats is its own deduplication. */
  lemma {:induction false} FirstSeenOfDistinct(xs: seq<Address>)
    requires NoDuplicates(xs)
    ensures FirstSeen(xs) == xs
    decreases |xs|
  {
    if xs != [] {
      var n := |xs| - 1;
      FirstSeenOfDistinct(xs[..n]);
      assert xs[n] !in xs[..n];
      assert xs[..n] + [xs[n]] == xs;
    }
  }

  /** The `user` field of every deposit record, in order. */
  function Users(deposits: seq<Deposit>): (users: seq<Address>)
    ensures |users| == |deposits|
    ensures forall i | 0 <= i < |deposits| :: users[i] == deposits[i].user
  {
    seq(|deposits|, i requires 0 <= i < |deposits| => deposits[i].user)
  }

  /**
   * `fetchUniqueDepositors`: the indexer's response, None when the request (or reading
   * its `data.data.Deposits` field) failed, gives the distinct depositors in first-seen
   * order; a failed request gives no depositor at all.
   */
  function FetchUniqueDepositors(response: Option<seq<Deposit>>): (users: seq<Address>)
    ensures NoDuplicates(users)
    ensures response.None? ==> users == []
    ensures response.Some? ==>
              forall u :: u in users <==> exists i | 0 <= i < |response.value| :: response.value[i].user == u
  {
    match response
    case None => []
    case Some(deposits) =>
      var users := FirstSeen(Users(deposits));
      assert forall u :: u in Users(deposits) <==> exists i | 0 <= i < |deposits| :: deposits[i].user == u;
      users
  }
}
