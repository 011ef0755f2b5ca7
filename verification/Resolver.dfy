// The requests of the asynchronous resolver: ids, timeouts and callbacks
// (libathemecore/res.c:161-198, 288-337, 421-434, 440-577, 742-866).
module Resolver {
  import opened Basics

  datatype Kind = Ptr | Addr

  // struct reslist. builds tells whether a question can be made of the name; sent whether one was.
  // asked and created say when the query was put and when this request for it was made.
  datatype Req = Req(id: nat, sent: bool, builds: bool, kind: Kind, query: nat,
                     retries: int, sentAt: int, timeout: int, asked: int, created: int)

  const IDS: nat := 0x1_0000

  predicate Used(list: seq<Req>, id: nat) {
    exists r <- list :: r.id == id
  }

  // No two requests that were sent have the same id.
  ghost predicate DistinctIds(list: seq<Req>) {
    forall i, j :: 0 <= i < j < |list| && list[i].sent && list[j].sent ==> list[i].id != list[j].id
  }

  // An id that can be drawn for the next sending: no listed request has it.
  predicate Drawable(list: seq<Req>, id: nat) {
    id < IDS && !Used(list, id)
  }

  // The time now, the time of the last look for requests that are due, and by how many seconds more
  // than one the longest time between two such looks was exceeded so far.
  datatype Clock = Clock(now: int, swept: int, late: nat)

  // A request waits 4, then 8, then 16 seconds, and longer only as far as the looks come late; the
  // second request of a query was made in time. Its id is 0 until it is sent, and not 0 until it is
  // sent again.
  ghost predicate OnSchedule(r: Req, c: Clock) {
    && r.id < IDS && (!r.sent ==> r.id == 0) && (r.sent && r.retries == 3 ==> r.id != 0)
    && r.sentAt <= c.now && c.swept < r.sentAt + r.timeout && 1 <= r.retries <= 3
    && (r.retries == 3 ==> r.timeout == 4 && r.sentAt == r.created)
    && (r.retries == 2 ==> r.timeout == 8 && r.created + 4 <= r.sentAt <= r.created + 4 + c.late)
    && (r.retries == 1 ==> r.timeout == 16 && r.created + 12 <= r.sentAt <= r.created + 12 + 2 * c.late)
    && r.asked <= r.created <= r.asked + 28 + 3 * c.late && (r.kind == Ptr ==> r.created == r.asked)
  }

  ghost predicate AllOnSchedule(list: seq<Req>, c: Clock) {
    forall r <- list :: OnSchedule(r, c)
  }

  function Queries(list: seq<Req>): multiset<nat> {
    if list == [] then multiset{} else Queries(list[..|list| - 1]) + multiset{list[|list| - 1].query}
  }

  function Removed(list: seq<Req>, i: nat): seq<Req>
    requires i < |list|
  {
    list[..i] + list[i + 1..]
  }

  lemma {:induction false} QueriesJoined(a: seq<Req>, b: seq<Req>)
    ensures Queries(a + b) == Queries(a) + Queries(b)
    decreases |b|
  {
    if b == [] {
      assert a + b == a;
    } else {
      assert (a + b)[..|a + b| - 1] == a + b[..|b| - 1];
      QueriesJoined(a, b[..|b| - 1]);
    }
  }

  lemma QueriesOne(r: Req)
    ensures Queries([r]) == multiset{r.query}
  {
    assert Queries([r]) == Queries([]) + multiset{r.query};
  }

  lemma QueriesMiddle(a: seq<Req>, r: Req, b: seq<Req>)
    ensures Queries(a + [r] + b) == Queries(a + b) + multiset{r.query}
  {
    QueriesJoined(a + [r], b);
    QueriesJoined(a, [r]);
    QueriesJoined(a, b);
    QueriesOne(r);
  }

  lemma QueriesAt(list: seq<Req>, i: nat, r: Req)
    requires i < |list|
    ensures Queries(list) == Queries(Removed(list, i)) + multiset{list[i].query}
    ensures r.query == list[i].query ==> Queries(list[i := r]) == Queries(list)
  {
    hide Queries;
    var a, b := list[..i], list[i + 1..];
    assert list == a + [list[i]] + b && list[i := r] == a + [r] + b;
    QueriesMiddle(a, list[i], b);
    QueriesMiddle(a, r, b);
  }

  function Others(list: seq<Req>, query: nat): seq<Req> {
    if list == [] then []
    else Others(list[..|list| - 1], query) + if list[|list| - 1].query == query then [] else [list[|list| - 1]]
  }

  lemma OthersNone(query: nat)
    ensures Others([], query) == []
  {
  }

  lemma OthersMore(list: seq<Req>, k: nat, query: nat)
    requires k < |list|
    ensures list[k].query == query ==> Others(list[..k + 1], query) == Others(list[..k], query)
    ensures list[k].query != query ==> Others(list[..k + 1], query) == Others(list[..k], query) + [list[k]]
  {
    assert list[..k + 1][..k] == list[..k];
  }

  lemma {:induction false} FewIds(list: seq<Req>) returns (ids: set<nat>)
    ensures |ids| <= |list| && forall id :: Used(list, id) <==> id in ids
  {
    if list == [] {
      ids := {};
    } else {
      var n := |list| - 1;
      var rest := FewIds(list[..n]);
      ids := rest + {list[n].id};
      forall id ensures Used(list, id) <==> id in ids {
        assert Used(list, id) <==> Used(list[..n], id) || list[n].id == id;
      }
    }
  }

  // While there are fewer requests than ids, the search for a new id comes to an end.
  lemma SomeIdIsFree(list: seq<Req>)
    requires |list| < IDS
    ensures exists id: nat :: Drawable(list, id)
  {
    var ids := FewIds(list);
    var all := Numbers(IDS);
    if forall id: nat :: !Drawable(list, id) {
      assert forall id: nat :: id in all ==> !Drawable(list, id);
      assert all <= ids;
      SubsetIsSmaller(all, ids);
    }
  }

  // What a look at the requests leaves of them, but for the ids of those sent again.
  function Due(r: Req, now: int): bool {
    now >= r.sentAt + r.timeout
  }

  function Retried(r: Req, now: int): Req {
    r.(retries := r.retries - 1, sentAt := now, timeout := r.timeout + r.timeout)
  }

  // A request that is left, and whether it is sent again.
  datatype Left = Left(req: Req, again: bool)

  function Ticked(list: seq<Req>, now: int): seq<Left> {
    if list == [] then []
    else
      var n := |list| - 1;
      Ticked(list[..n], now)
      + if !Due(list[n], now) then [Left(list[n], false)]
        else if list[n].retries > 1 then [Left(Retried(list[n], now), true)] else []
  }

  // What became of a request that was sent again: a new id, if a question can be made for it.
  ghost predicate Resent(was: Req, r: Req) {
    r == (if was.builds then was.(id := r.id, sent := true) else was) && (was.builds ==> r.id < IDS && r.id != was.id)
  }

  // The requests that are not due stay exactly as they are, in order; those that are due are sent
  // again or gone.
  ghost predicate AfterTick(was: seq<Req>, now: int, list: seq<Req>) {
    var left := Ticked(was, now);
    |list| == |left| && forall i :: 0 <= i < |list| ==> AfterTurn(left[i], list[i])
  }

  // A request sent again at this moment has a new id.
  ghost predicate AfterTurn(left: Left, r: Req) {
    if left.again then Resent(left.req, r) else r == left.req
  }

  class Resolver {
    // request_list
    var list: seq<Req>
    var now: int
    ghost var swept: int
    ghost var late: nat
    // the queries put, those called back and those deleted on request
    ghost var asked: multiset<nat>
    ghost var answered: multiset<nat>
    ghost var deleted: multiset<nat>

    ghost function C(): Clock
      reads this`now, this`swept, this`late
    {
      Clock(now, swept, late)
    }

    ghost predicate InTime()
      reads this`now, this`swept, this`late
    {
      swept <= now <= swept + 1 + late
    }

    ghost predicate Valid()
      reads this
    {
      AllOnSchedule(list, C()) && Counted() && InTime()
    }

    ghost predicate Counted()
      reads this
    {
      DistinctIds(list) && asked == Queries(list) + answered + deleted
    }

    constructor (now: int)
      ensures Valid() && list == [] && asked == multiset{} && this.now == now && swept == now && late == 0
    {
      this.now, this.swept, this.late := now, now, 0;
      list, asked, answered, deleted := [], multiset{}, multiset{}, multiset{};
    }

    // find_id()
    method FindId(id: nat) returns (r: Option<nat>)
      ensures r.Some? ==> r.value < |list| && list[r.value].id == id && !Used(list[..r.value], id)
      ensures r.None? <==> !Used(list, id)
    {
      var i := 0;
      while i < |list|
        invariant 0 <= i <= |list| && !Used(list[..i], id)
      {
        if list[i].id == id {
          return Some(i);
        }
        i := i + 1;
      }
      assert list[..i] == list;
      return None;
    }

    // query_name(): the id is drawn until no request has it, not even this one.
    method QueryName(i: nat)
      requires i < |list| < IDS && DistinctIds(list)
      modifies this`list
      ensures |list| == |old(list)|
      ensures list[i] == if old(list)[i].builds then old(list)[i].(id := list[i].id, sent := true) else old(list)[i]
      ensures list[i].builds ==> list[i].id < IDS && !Used(old(list), list[i].id) && list[i].id != old(list)[i].id
      ensures DistinctIds(list) && list == old(list)[i := list[i]] && Queries(list) == Queries(old(list))
    {
      if list[i].builds {
        SomeIdIsFree(list);
        var id: nat :| Drawable(list, id);
        NewId(list, i, id);
        hide DistinctIds, Queries;
        list := list[i := list[i].(id := id, sent := true)];
      }
    }

    // make_request() and the first sending: gethost_byname_type() and gethost_byaddr()
    method Ask(query: nat, kind: Kind, builds: bool)
      requires Valid() && |list| + 1 < IDS
      modifies this`list, this`asked
      ensures Valid() && asked == old(asked) + multiset{query}
      ensures |list| == |old(list)| + 1 && list[..|old(list)|] == old(list)
      ensures var r := list[|old(list)|]; r.query == query && r.kind == kind && r.created == now && (r.sent <==> builds)
      ensures var r := list[|old(list)|]; r.retries == 3 && r.timeout == 4 && r.sentAt == now
      ensures list[|old(list)|].sent ==> list[|old(list)|].id != 0
    {
      Append(query, kind, builds, now);
      asked := asked + multiset{query};
    }

    method Append(query: nat, kind: Kind, builds: bool, askedAt: int)
      requires DistinctIds(list) && AllOnSchedule(list, C()) && InTime() && |list| + 1 < IDS
      requires askedAt <= now <= askedAt + 28 + 3 * late && (kind == Ptr ==> askedAt == now)
      modifies this`list
      ensures DistinctIds(list) && AllOnSchedule(list, C())
      ensures Queries(list) == Queries(old(list)) + multiset{query}
      ensures |list| == |old(list)| + 1 && list[..|old(list)|] == old(list)
      ensures var r := list[|old(list)|];
        r.query == query && r.kind == kind && r.created == now && r.asked == askedAt && (r.sent <==> builds)
      ensures var r := list[|old(list)|]; r.retries == 3 && r.timeout == 4 && r.sentAt == now
      ensures list[|old(list)|].sent ==> list[|old(list)|].id != 0
    {
      var n := |list|;
      list := list + [Req(0, false, builds, kind, query, 3, now, 4, askedAt, now)];
      QueryName(n);
      assert list == old(list) + [list[n]] && list[..n] == old(list);
    }

    // rem_request()
    method Remove(i: nat)
      requires i < |list| && DistinctIds(list)
      modifies this`list
      ensures list == Removed(old(list), i) && DistinctIds(list)
      ensures Queries(old(list)) == Queries(list) + multiset{old(list)[i].query}
      ensures AllOnSchedule(old(list), C()) ==> AllOnSchedule(list, C())
    {
      QueriesAt(list, i, list[i]);
      list := list[..i] + list[i + 1..];
    }

    // The query is called back and its request removed.
    method CallBack(i: nat)
      requires i < |list| && Counted()
      modifies this`list, this`answered
      ensures Counted() && list == Removed(old(list), i) && answered == old(answered) + multiset{old(list)[i].query}
      ensures AllOnSchedule(old(list), C()) ==> AllOnSchedule(list, C())
    {
      hide DistinctIds, Queries, AllOnSchedule;
      answered := answered + multiset{list[i].query};
      Remove(i);
    }

    // The request of a query that is given up is removed without a callback.
    method GiveUp(i: nat)
      requires i < |list| && Counted()
      modifies this`list, this`deleted
      ensures Counted() && list == Removed(old(list), i) && deleted == old(deleted) + multiset{old(list)[i].query}
      ensures AllOnSchedule(old(list), C()) ==> AllOnSchedule(list, C())
    {
      hide DistinctIds, Queries, AllOnSchedule;
      deleted := deleted + multiset{list[i].query};
      Remove(i);
    }

    // delete_resolver_queries()
    method DeleteQueries(query: nat)
      requires Valid()
      modifies this`list, this`deleted
      ensures Valid() && asked == old(asked) && list == Others(old(list), query)
    {
      hide AllOnSchedule, Counted, Others, Removed;
      ghost var was, k := list, 0;
      OthersNone(query);
      var i := 0;
      while i < |list|
        invariant 0 <= k <= |was| && 0 <= i <= |list| && Valid() && asked == old(asked)
        invariant list[i..] == was[k..] && list[..i] == Others(was[..k], query)
        decreases |list| - i
      {
        OneFurther(list, i, was, k);
        OthersMore(was, k, query);
        if list[i].query == query {
          GiveUp(i);
        } else {
          assert list[..i + 1] == list[..i] + [list[i]];
          i := i + 1;
        }
        k := k + 1;
      }
      assert was[..k] == was && list[..i] == list;
    }

    // Time passes.
    method Wait(to: int)
      requires Valid() && now <= to
      modifies this`now, this`late
      ensures Valid() && now == to && late == if to <= swept + 1 + old(late) then old(late) else to - swept - 1
    {
      LaterOnSchedule(list, C(), Clock(to, swept, if to <= swept + 1 + late then late else to - swept - 1));
      hide Counted, AllOnSchedule;
      late := if to <= swept + 1 + late then late else to - swept - 1;
      now := to;
    }

    // timeout_query_list(): the look for requests that are due, however late it comes.
    method Tick()
      requires Valid() && |list| < IDS
      modifies this`list, this`swept, this`answered
      ensures Valid() && swept == now && asked == old(asked)
      ensures AfterTick(old(list), now, list)
      ensures forall k :: 0 <= k < |old(list)| && now < old(list)[k].created + 28 ==>
                exists i :: 0 <= i < |list| && SameRequest(old(list)[k], list[i])
    {
      hide DistinctIds, Queries, AllOnSchedule, OnSchedule, AfterTick;
      ghost var was, k, before := list, 0, C();
      ghost var c := Clock(now, now, late);
      StillNothing(list, c);
      var i := 0;
      while i < |list|
        invariant 0 <= k <= |was| && 0 <= i <= |list| < IDS && list[i..] == was[k..]
        invariant Counted() && InTime() && C() == before && asked == old(asked) && AllOnSchedule(was, before)
        invariant AllOnSchedule(list[..i], c) && AfterTick(was[..k], now, list[..i])
        decreases |list| - i
      {
        OneFurther(list, i, was, k);
        InSchedule(was, k, before);
        ghost var done := list[..i];
        i := TickOne(i);
        OneMoreTicked(was, k, c, done, list[..i]);
        k := k + 1;
      }
      assert was[..k] == was && list[..i] == list;
      AllInSchedule(was, now, list, before);
      swept := now;
    }

    // One turn of the loop; the request is passed or gone.
    method TickOne(i: nat) returns (j: nat)
      requires i < |list| < IDS && Counted() && OnSchedule(list[i], C()) && InTime()
      modifies this`list, this`answered
      ensures Counted() && j <= |list| <= |old(list)| && list[j..] == old(list)[i + 1..]
      ensures OneTicked(old(list)[i], Clock(now, now, late), old(list)[..i], list[..j])
    {
      hide DistinctIds, Queries;
      var r := list[i];
      if now >= r.sentAt + r.timeout {
        if r.retries - 1 <= 0 {
          CallBack(i);
          j := i;
        } else {
          Retry(i);
          j := i + 1;
        }
      } else {
        j := i + 1;
      }
    }

    method Retry(i: nat)
      requires i < |list| < IDS && Counted() && OnSchedule(list[i], C()) && InTime() && Due(list[i], now) && list[i].retries > 1
      modifies this`list
      ensures |list| == |old(list)| && list[..i] == old(list)[..i] && list[i + 1..] == old(list)[i + 1..]
      ensures OnSchedule(list[i], Clock(now, now, late)) && Counted()
      ensures Resent(Retried(old(list)[i], now), list[i])
    {
      hide DistinctIds, Queries, Used;
      var again := Retried(list[i], now);
      DistinctSame(list, i, again);
      list := list[i := again];
      QueryName(i);
    }

    // The name found for an address is asked for in turn: the query goes on with a second request.
    method FollowUp(i: nat, builds: bool)
      requires Valid() && i < |list| && list[i].kind == Ptr && |list| + 1 < IDS
      modifies this`list
      ensures Valid() && |list| == |old(list)| && list[..|list| - 1] == Removed(old(list), i)
      ensures list[|list| - 1].kind == Addr && list[|list| - 1].query == old(list)[i].query
    {
      hide DistinctIds, Queries, OnSchedule, AllOnSchedule, Removed;
      var r := list[i];
      ghost var was := list;
      FirstInTime(list, i, C());
      Append(r.query, Addr, builds, r.asked);
      ghost var more := list;
      LastComesDown(was, more, i);
      Remove(i);
      CancelOne(Queries(list), Queries(was), r.query);
    }

    // res_read_single_reply(): a reply with this id. ours: from one of our servers; question: about
    // the name asked for; good: no error and with an answer; decoded: the answer could be read.
    method Reply(id: nat, ours: bool, question: bool, good: bool, decoded: bool, builds: bool)
      returns (ghost hit: Option<nat>)
      requires Valid() && |list| + 1 < IDS
      modifies this`list, this`answered
      ensures Valid() && asked == old(asked)
      ensures hit.Some? <==> Used(old(list), id) && ours && question
      ensures hit.None? ==> list == old(list) && answered == old(answered)
      ensures hit.Some? ==> hit.value < |old(list)| && old(list)[hit.value].id == id
      ensures hit.Some? && good && decoded && old(list)[hit.value].kind == Ptr ==>
        answered == old(answered) && |list| == |old(list)| && list[..|list| - 1] == Removed(old(list), hit.value)
        && list[|list| - 1].kind == Addr && list[|list| - 1].query == old(list)[hit.value].query
      ensures hit.Some? && !(good && decoded && old(list)[hit.value].kind == Ptr) ==>
        answered == old(answered) + multiset{old(list)[hit.value].query} && list == Removed(old(list), hit.value)
    {
      var found := FindId(id);
      hit := None;
      if found.None? || !ours || !question {
        return;
      }
      hit := found;
      var i := found.value;
      var r := list[i];
      hide DistinctIds, Queries, OnSchedule, AllOnSchedule;
      if !good || !decoded {
        CallBack(i);
      } else if r.kind == Ptr {
        FollowUp(i, builds);
      } else {
        CallBack(i);
      }
    }
  }

  lemma NewId(list: seq<Req>, i: nat, id: nat)
    requires i < |list| && DistinctIds(list) && !Used(list, id)
    ensures DistinctIds(list[i := list[i].(id := id, sent := true)])
    ensures Queries(list[i := list[i].(id := id, sent := true)]) == Queries(list) && id != list[i].id
  {
    QueriesAt(list, i, list[i].(id := id, sent := true));
    assert forall j :: 0 <= j < |list| ==> list[j] in list;
  }

  lemma LastComesDown(was: seq<Req>, more: seq<Req>, i: nat)
    requires i < |was| && |more| == |was| + 1 && more[..|was|] == was
    ensures more[i] == was[i] && |Removed(more, i)| == |was|
    ensures Removed(more, i)[..|was| - 1] == Removed(was, i) && Removed(more, i)[|was| - 1] == more[|was|]
  {
  }

  lemma CancelOne(a: multiset<nat>, b: multiset<nat>, q: nat)
    requires a + multiset{q} == b + multiset{q}
    ensures a == b
  {
    forall x ensures a[x] == b[x] {
      assert (a + multiset{q})[x] == (b + multiset{q})[x];
    }
  }

  lemma DistinctSame(list: seq<Req>, i: nat, r: Req)
    requires i < |list| && DistinctIds(list) && r.id == list[i].id && r.sent == list[i].sent && r.query == list[i].query
    ensures DistinctIds(list[i := r]) && Queries(list[i := r]) == Queries(list)
  {
    QueriesAt(list, i, r);
  }

  lemma OneFurther(list: seq<Req>, i: nat, was: seq<Req>, k: nat)
    requires i < |list| && k <= |was| && list[i..] == was[k..]
    ensures k < |was| && list[i] == was[k] && list[i + 1..] == was[k + 1..] && was[..k + 1][..k] == was[..k]
    ensures |Removed(list, i)| == |list| - 1
    ensures Removed(list, i)[i..] == was[k + 1..] && Removed(list, i)[..i] == list[..i]
  {
    assert list[i] == list[i..][0] && list[i + 1..] == list[i..][1..];
  }

  lemma StillNothing(list: seq<Req>, c: Clock)
    ensures AllOnSchedule(list[..0], c) && AfterTick(list[..0], c.now, list[..0])
  {
  }

  lemma LaterOnSchedule(list: seq<Req>, c: Clock, d: Clock)
    requires AllOnSchedule(list, c) && c.now <= d.now && c.swept == d.swept && c.late <= d.late
    ensures AllOnSchedule(list, d)
  {
  }

  lemma InSchedule(list: seq<Req>, i: nat, c: Clock)
    requires i < |list| && AllOnSchedule(list, c)
    ensures OnSchedule(list[i], c) && list[i].retries >= 1
  {
    assert list[i] in list;
  }

  lemma FirstInTime(list: seq<Req>, i: nat, c: Clock)
    requires i < |list| && AllOnSchedule(list, c) && list[i].kind == Ptr && c.now <= c.swept + 1 + c.late
    ensures list[i].asked <= c.now <= list[i].asked + 28 + 3 * c.late
  {
    InSchedule(list, i, c);
  }

  // What the turn for r makes of the requests before it.
  ghost predicate OneTicked(r: Req, c: Clock, before: seq<Req>, after: seq<Req>) {
    if Due(r, c.now) && r.retries <= 1 then after == before
    else
      && |after| == |before| + 1 && after[..|before|] == before && OnSchedule(after[|before|], c)
      && if Due(r, c.now) then Resent(Retried(r, c.now), after[|before|]) else after[|before|] == r
  }

  lemma OneMoreTicked(was: seq<Req>, k: nat, c: Clock, before: seq<Req>, after: seq<Req>)
    requires k < |was| && OneTicked(was[k], c, before, after)
    requires AllOnSchedule(before, c) && AfterTick(was[..k], c.now, before)
    ensures AllOnSchedule(after, c) && AfterTick(was[..k + 1], c.now, after)
  {
    assert was[..k + 1][..k] == was[..k];
    if |after| == |before| + 1 {
      assert after == before + [after[|before|]];
    }
  }

  // A request is done with within 4 + 8 + 16 seconds, and a query within twice that, as its second
  // request is made within the time of the first; each of the looks can add what it comes late.
  lemma DoneInTime(r: Resolver)
    requires r.Valid()
    ensures forall q <- r.list :: r.now <= q.created + 28 + 3 * r.late && r.now <= q.asked + 56 + 6 * r.late
    ensures forall q <- r.list :: q.kind == Ptr ==> r.now <= q.asked + 28 + 3 * r.late
    ensures r.swept == r.now ==> forall q <- r.list :: r.now < q.created + 28 + 3 * r.late
  {
    forall q <- r.list ensures OnSchedule(q, r.C()) {
    }
  }

  // Every query was called back or deleted once for each time it was put, or still waits.
  lemma {:induction false} CountedOnce(r: Resolver, query: nat)
    requires r.Valid() && forall q <- r.list :: q.query != query
    ensures r.answered[query] + r.deleted[query] == r.asked[query]
  {
    NotWaiting(r.list, query);
  }

  lemma {:induction false} NotWaiting(list: seq<Req>, query: nat)
    requires forall q <- list :: q.query != query
    ensures query !in Queries(list)
  {
    if list != [] {
      NotWaiting(list[..|list| - 1], query);
    }
  }

  // The first id of a request is never 0, as the request itself is listed with 0. A later one is 0
  // if that is drawn, which can happen exactly when no listed request still has it.
  lemma ZeroIsDrawn(list: seq<Req>, i: nat, c: Clock)
    requires i < |list| && AllOnSchedule(list, c)
    ensures Drawable(list, 0) <==> forall r <- list :: r.sent && r.id != 0
    ensures !list[i].sent ==> !Drawable(list, 0)
    ensures list[i].sent && list[i].retries == 3 ==> list[i].id != 0
  {
    InSchedule(list, i, c);
    forall r <- list ensures !r.sent ==> r.id == 0 {
      assert OnSchedule(r, c);
    }
  }

  // It does happen: one query, sent, and a little later due to be sent again.
  method ZeroCanBeDrawn(query: nat, kind: Kind) returns (r: Resolver)
    ensures r.Valid() && |r.list| == 1 && r.list[0].sent && r.list[0].id != 0 && r.asked == multiset{query}
    ensures Due(r.list[0], r.now) && r.list[0].retries > 1 && r.late == 0 && Drawable(r.list, 0)
  {
    hide AllOnSchedule, OnSchedule, DistinctIds, Queries, AfterTick, Drawable;
    r := new Resolver(0);
    r.Ask(query, kind, true);
    var k := 0;
    while k < 3
      invariant 0 <= k <= 3 && fresh(r) && r.Valid() && r.now == r.swept == k && r.late == 0 && r.asked == multiset{query}
      invariant |r.list| == 1 && r.list[0].sent && r.list[0].id != 0
      invariant r.list[0].sentAt == 0 && r.list[0].timeout == 4 && r.list[0].retries == 3
    {
      r.Wait(k + 1);
      ghost var was := r.list;
      NotDueNow(was, r.now);
      r.Tick();
      k := k + 1;
    }
    r.Wait(4);
    assert forall x <- r.list :: x == r.list[0];
    ZeroIsDrawn(r.list, 0, r.C());
  }

  // A look at one request that is not due changes nothing.
  lemma NotDueNow(was: seq<Req>, now: int)
    requires |was| == 1 && !Due(was[0], now)
    ensures forall list :: AfterTick(was, now, list) ==> list == was
  {
    assert Ticked(was, now) == Ticked(was[..0], now) + [Left(was[0], false)] == [Left(was[0], false)];
  }

  // It is the same request, perhaps sent again.
  predicate SameRequest(was: Req, r: Req) {
    r.query == was.query && r.kind == was.kind && r.asked == was.asked && r.created == was.created && r.builds == was.builds
  }

  lemma {:induction false} StaysOrDone(was: seq<Req>, now: int, c: Clock, k: nat) returns (i: nat)
    requires k < |was| && OnSchedule(was[k], c) && now < was[k].created + 28
    ensures i < |Ticked(was, now)| && SameRequest(was[k], Ticked(was, now)[i].req)
    decreases |was|
  {
    var n := |was| - 1;
    if k == n {
      i := |Ticked(was[..n], now)|;
    } else {
      i := StaysOrDone(was[..n], now, c, k);
      assert Ticked(was, now)[i] == Ticked(was[..n], now)[i];
    }
  }

  // No look gives a request up in the 28 seconds after it was made.
  lemma NotGivenUp(was: seq<Req>, now: int, list: seq<Req>, c: Clock, k: nat)
    requires AfterTick(was, now, list) && k < |was| && OnSchedule(was[k], c) && now < was[k].created + 28
    ensures exists i :: 0 <= i < |list| && SameRequest(was[k], list[i])
  {
    var i := StaysOrDone(was, now, c, k);
    assert AfterTurn(Ticked(was, now)[i], list[i]);
  }

  lemma AllInSchedule(was: seq<Req>, now: int, list: seq<Req>, c: Clock)
    requires AfterTick(was, now, list) && AllOnSchedule(was, c)
    ensures forall k :: 0 <= k < |was| && now < was[k].created + 28 ==> exists i :: 0 <= i < |list| && SameRequest(was[k], list[i])
  {
    hide AfterTick, OnSchedule, SameRequest;
    forall k | 0 <= k < |was| && now < was[k].created + 28 ensures exists i :: 0 <= i < |list| && SameRequest(was[k], list[i]) {
      NotGivenUp(was, now, list, c, k);
    }
  }
}
