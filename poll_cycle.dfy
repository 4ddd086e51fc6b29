/** What one scrape does once the login has succeeded: visit the ids in
    order, fetch each, set the gauge of every fetch that returned a value,
    count the ones that raised. The controller's answer to a fetch of `id`
    is `replies(id)`; since the table has unique keys, each id is fetched
    once per cycle and that single answer is all there is. */
module PollCycle {
  import opened RemoteClient
  import opened Datapoints

  /** The request log kept by the model: the controller sees a login and
      then one fetch per visited datapoint. */
  datatype Request = LoginRequest | FetchRequest(id: int)

  /** Gauge values after visiting `ids` in order, starting from `g`. */
  function Refreshed(g: map<int, real>, ids: seq<int>, replies: int -> Response): map<int, real>
    decreases |ids|
  {
    if ids == [] then g
    else
      var before := Refreshed(g, ids[..|ids| - 1], replies);
      var id := ids[|ids| - 1];
      match GetDp(replies(id))
      case Ok(v) => before[id := v]
      case Fail(_) => before
  }

  /** The ids among `ids` whose fetch returned a value. */
  function Succeeded(ids: seq<int>, replies: int -> Response): set<int>
  {
    set id | id in ids && GetDp(replies(id)).Ok?
  }

  /** The ids among `ids` whose fetch raised. */
  function FailedIds(ids: seq<int>, replies: int -> Response): set<int>
  {
    set id | id in ids && GetDp(replies(id)).Fail?
  }

  /** The failure tally `failed_metrics` after visiting `ids`: never more
      than the number visited, and zero exactly when every fetch returned a
      value. */
  function Failures(ids: seq<int>, replies: int -> Response): (n: nat)
    ensures n <= |ids|
    ensures n == 0 <==> forall i :: 0 <= i < |ids| ==> GetDp(replies(ids[i])).Ok?
    decreases |ids|
  {
    if ids == [] then 0
    else
      Failures(ids[..|ids| - 1], replies)
        + (if GetDp(replies(ids[|ids| - 1])).Fail? then 1 else 0)
  }

  /** The fetch requests made while visiting `ids`, in order. */
  function FetchRequests(ids: seq<int>): seq<Request>
    decreases |ids|
  {
    if ids == [] then [] else FetchRequests(ids[..|ids| - 1]) + [FetchRequest(ids[|ids| - 1])]
  }

  /** The keys of the gauge map only grow by ids that were fetched
      successfully. */
  lemma {:induction false} RefreshedKeys(g: map<int, real>, ids: seq<int>, replies: int -> Response)
    ensures Refreshed(g, ids, replies).Keys == g.Keys + Succeeded(ids, replies)
    decreases |ids|
  {
    if ids != [] {
      var front := ids[..|ids| - 1];
      RefreshedKeys(g, front, replies);
      assert forall id :: id in ids <==> id in front || id == ids[|ids| - 1];
    }
  }

  /** Per gauge, after a scrape: an id whose fetch returned v holds v; any
      other key holds what it held before, and no key appears or vanishes
      apart from the successful ones. */
  lemma {:induction false} RefreshedAt(g: map<int, real>, ids: seq<int>, replies: int -> Response, k: int)
    ensures k in ids && GetDp(replies(k)).Ok? ==>
              k in Refreshed(g, ids, replies) && Refreshed(g, ids, replies)[k] == GetDp(replies(k)).value
    ensures !(k in ids && GetDp(replies(k)).Ok?) ==>
              (k in Refreshed(g, ids, replies) <==> k in g) &&
              (k in g ==> Refreshed(g, ids, replies)[k] == g[k])
    decreases |ids|
  {
    if ids != [] {
      var front := ids[..|ids| - 1];
      RefreshedAt(g, front, replies, k);
      assert forall id :: id in ids <==> id in front || id == ids[|ids| - 1];
    }
  }

  /** A scrape over ids the gauge map already has leaves its key set as it
      was. */
  lemma KeysStay(g: map<int, real>, ids: seq<int>, replies: int -> Response)
    requires forall i :: 0 <= i < |ids| ==> ids[i] in g
    ensures Refreshed(g, ids, replies).Keys == g.Keys
  {
    RefreshedKeys(g, ids, replies);
  }

  /** A scrape of the whole table keeps the gauge registry's key set. */
  lemma ScrapeKeepsRegistry(g: map<int, real>, replies: int -> Response)
    requires g.Keys == TableIdSet
    ensures Refreshed(g, TableIds, replies).Keys == TableIdSet
  {
    KeysStay(g, TableIds, replies);
  }

  /** Partial-failure isolation: if the fetch of x raises, the scrape ends
      exactly as it would have had x succeeded, except that gauge x keeps
      its old value. Nothing another fetch does depends on x. */
  lemma FailureIsIsolated(g: map<int, real>, ids: seq<int>, good: int -> Response, bad: int -> Response, x: int)
    requires x in g
    requires GetDp(bad(x)).Fail?
    requires forall id :: id != x ==> bad(id) == good(id)
    ensures Refreshed(g, ids, bad) == Refreshed(g, ids, good)[x := g[x]]
  {
    var b, a := Refreshed(g, ids, bad), Refreshed(g, ids, good)[x := g[x]];
    RefreshedKeys(g, ids, bad);
    RefreshedKeys(g, ids, good);
    assert b.Keys == a.Keys;
    forall k | k in b ensures b[k] == a[k] {
      RefreshedAt(g, ids, bad, k);
      RefreshedAt(g, ids, good, k);
    }
  }

  /** Repeating a scrape on unchanged replies changes nothing. */
  lemma RefreshIsIdempotent(g: map<int, real>, ids: seq<int>, replies: int -> Response)
    ensures Refreshed(Refreshed(g, ids, replies), ids, replies) == Refreshed(g, ids, replies)
  {
    var once := Refreshed(g, ids, replies);
    var twice := Refreshed(once, ids, replies);
    RefreshedKeys(g, ids, replies);
    RefreshedKeys(once, ids, replies);
    forall k | k in twice ensures twice[k] == once[k] {
      RefreshedAt(g, ids, replies, k);
      RefreshedAt(once, ids, replies, k);
    }
  }

  /** Visiting one more id adds it to exactly one of the two sets. */
  lemma SplitLast(ids: seq<int>, replies: int -> Response)
    requires ids != []
    ensures var front, last := ids[..|ids| - 1], ids[|ids| - 1];
      FailedIds(ids, replies) == FailedIds(front, replies) + (if GetDp(replies(last)).Fail? then {last} else {}) &&
      Succeeded(ids, replies) == Succeeded(front, replies) + (if GetDp(replies(last)).Ok? then {last} else {})
  {
  }

  /** Over distinct ids the tally is the number of distinct datapoints whose
      fetch raised, and the ones that raised and the ones that returned a
      value split the ids between them. */
  lemma {:induction false} FailuresCountsFailedIds(ids: seq<int>, replies: int -> Response)
    requires Distinct(ids)
    ensures Failures(ids, replies) == |FailedIds(ids, replies)|
    ensures Failures(ids, replies) + |Succeeded(ids, replies)| == |ids|
    decreases |ids|
  {
    if ids != [] {
      var front, last := ids[..|ids| - 1], ids[|ids| - 1];
      assert Distinct(front);
      FailuresCountsFailedIds(front, replies);
      assert last !in front;
      assert last !in FailedIds(front, replies) && last !in Succeeded(front, replies);
      SplitLast(ids, replies);
    }
  }

  /** The fetch requests are the ids in order, one each: over distinct ids,
      every id is requested exactly once, whatever the replies. */
  lemma {:induction false} EachIdFetchedOnce(ids: seq<int>, id: int)
    requires Distinct(ids)
    ensures |FetchRequests(ids)| == |ids|
    ensures forall i :: 0 <= i < |ids| ==> FetchRequests(ids)[i] == FetchRequest(ids[i])
    ensures multiset(FetchRequests(ids))[FetchRequest(id)] == if id in ids then 1 else 0
    decreases |ids|
  {
    if ids != [] {
      var front := ids[..|ids| - 1];
      assert Distinct(front);
      EachIdFetchedOnce(front, id);
      assert forall x :: x in ids <==> x in front || x == ids[|ids| - 1];
    }
  }
}
