/** `requeue_urls` (code/crawler.py): the tasks waiting in the crawler's
    shared queue are grouped by host and put back one host at a time, so
    that consecutive fetches go to different servers. Each round visits the
    hosts still holding tasks in an order chosen by `random.shuffle`; here
    that order is an oracle parameter, and all the model assumes of it is
    that it is a permutation of the host list it is given. Draining the
    asyncio queue and handing tasks to the event loop are not modelled: the
    queue's contents are the input and the requeued order is the result. */
module Requeue {
  import Frontier
  import Discovery
  import UrlLists

  type Task = Frontier.Task

  /** `get_domain(url)`: the network location of the task's URL. */
  function Host(t: Task): string {
    Discovery.Netloc(t.url)
  }

  /** The hosts of `ts`, one per task. */
  function HostList(ts: seq<Task>): (r: seq<string>)
    ensures |r| == |ts|
    decreases |ts|
  {
    if |ts| == 0 then [] else HostList(ts[..|ts| - 1]) + [Host(ts[|ts| - 1])]
  }

  /** The tasks of `ts` whose host is `h`, in their order in `ts`. */
  function OfHost(ts: seq<Task>, h: string): seq<Task>
    decreases |ts|
  {
    if |ts| == 0 then []
    else (if Host(ts[0]) == h then [ts[0]] else []) + OfHost(ts[1..], h)
  }

  lemma {:induction false} OfHostAppend(a: seq<Task>, b: seq<Task>, h: string)
    ensures OfHost(a + b, h) == OfHost(a, h) + OfHost(b, h)
    decreases |a|
  {
    if |a| == 0 {
      assert a + b == b;
    } else {
      var x := if Host(a[0]) == h then [a[0]] else [];
      assert (a + b)[0] == a[0] && (a + b)[1..] == a[1..] + b;
      OfHostAppend(a[1..], b, h);
      assert x + (OfHost(a[1..], h) + OfHost(b, h)) == (x + OfHost(a[1..], h)) + OfHost(b, h);
    }
  }

  /** Every task of `ts` is among the tasks of its own host. */
  lemma {:induction false} OfHostHas(ts: seq<Task>, t: Task)
    requires t in ts
    ensures t in OfHost(ts, Host(t))
    decreases |ts|
  {
    if ts[0] != t {
      OfHostHas(ts[1..], t);
    }
  }

  /** Picking out one host's tasks keeps every copy of each of them. */
  lemma {:induction false} CountOfHost(ts: seq<Task>, t: Task)
    ensures multiset(OfHost(ts, Host(t)))[t] == multiset(ts)[t]
    decreases |ts|
  {
    if |ts| > 0 {
      CountOfHost(ts[1..], t);
      CountCons(ts, t);
    }
  }

  lemma CountCons(ts: seq<Task>, t: Task)
    requires |ts| > 0
    ensures multiset(OfHost(ts, Host(t)))[t] + multiset(ts[1..])[t]
         == multiset(ts)[t] + multiset(OfHost(ts[1..], Host(t)))[t]
  {
    assert ts == [ts[0]] + ts[1..];
    OfHostCons(ts[0], ts[1..], Host(t));
    if ts[0] == t {
      CountHead(t, ts[1..], OfHost(ts[1..], Host(t)));
    } else {
      CountOther(ts[0], ts[1..], t);
      CountOther(ts[0], OfHost(ts[1..], Host(t)), t);
    }
  }

  lemma CountHead(t: Task, a: seq<Task>, b: seq<Task>)
    ensures multiset([t] + a)[t] + multiset(b)[t] == multiset(a)[t] + multiset([t] + b)[t]
  {
  }

  lemma CountOther(u: Task, a: seq<Task>, t: Task)
    requires u != t
    ensures multiset([u] + a)[t] == multiset(a)[t]
    ensures multiset(([] + a))[t] == multiset(a)[t]
  {
    assert [] + a == a;
  }

  /** Two task lists that agree host by host are permutations of each
      other. */
  lemma SameHostsPermutation(a: seq<Task>, b: seq<Task>)
    requires forall h :: OfHost(a, h) == OfHost(b, h)
    ensures multiset(a) == multiset(b)
  {
    forall t ensures multiset(a)[t] == multiset(b)[t] {
      CountOfHost(a, t);
      CountOfHost(b, t);
    }
  }

  // ---------------------------------------------------------------- buckets

  /** One entry of the `domain_urls` dictionary: a host and its tasks. */
  datatype Bucket = Bucket(host: string, tasks: seq<Task>)

  /** `list(domain_urls.keys())`: the hosts in the dictionary's order. */
  function Hosts(bs: seq<Bucket>): (r: seq<string>)
    ensures |r| == |bs|
    decreases |bs|
  {
    if |bs| == 0 then [] else [bs[0].host] + Hosts(bs[1..])
  }

  /** The dictionary's shape: no host twice, no empty bucket, and each
      bucket holding tasks of its own host only. */
  predicate WellFormed(bs: seq<Bucket>)
    decreases |bs|
  {
    |bs| == 0 ||
    (&& bs[0].host !in Hosts(bs[1..])
     && |bs[0].tasks| > 0
     && (forall k :: 0 <= k < |bs[0].tasks| ==> Host(bs[0].tasks[k]) == bs[0].host)
     && WellFormed(bs[1..]))
  }

  /** `domain_urls.get(h, [])`. */
  function Lookup(bs: seq<Bucket>, h: string): seq<Task>
    decreases |bs|
  {
    if |bs| == 0 then []
    else if bs[0].host == h then bs[0].tasks
    else Lookup(bs[1..], h)
  }

  /** The number of tasks the dictionary holds. */
  function Total(bs: seq<Bucket>): nat
    decreases |bs|
  {
    if |bs| == 0 then 0 else |bs[0].tasks| + Total(bs[1..])
  }

  /** A host is a key exactly when its bucket is non-empty, and a bucket
      holds tasks of its own host only. */
  lemma {:induction false} LookupMeaning(bs: seq<Bucket>, h: string)
    requires WellFormed(bs)
    ensures h in Hosts(bs) <==> |Lookup(bs, h)| > 0
    ensures forall k :: 0 <= k < |Lookup(bs, h)| ==> Host(Lookup(bs, h)[k]) == h
    decreases |bs|
  {
    if |bs| > 0 && bs[0].host != h {
      LookupMeaning(bs[1..], h);
    }
  }

  /** The first task of a bucket belongs to the bucket's host. */
  lemma {:induction false} FirstOfBucket(bs: seq<Bucket>, h: string)
    requires WellFormed(bs) && |Lookup(bs, h)| > 0
    ensures Host(Lookup(bs, h)[0]) == h
    decreases |bs|
  {
    if bs[0].host != h {
      FirstOfBucket(bs[1..], h);
    }
  }

  lemma {:induction false} HostsDistinct(bs: seq<Bucket>)
    requires WellFormed(bs)
    ensures Frontier.Distinct(Hosts(bs))
    decreases |bs|
  {
    if |bs| > 0 {
      HostsDistinct(bs[1..]);
      var hs := Hosts(bs);
      assert hs == [bs[0].host] + Hosts(bs[1..]);
      forall i, j | 0 <= i < j < |hs| ensures hs[i] != hs[j] {
        if i == 0 {
          assert hs[j] == Hosts(bs[1..])[j - 1];
        }
      }
    }
  }

  // ---------------------------------------------------------------- grouping

  /** `domain_urls.setdefault(get_domain(url), []).append(task)`: a task
      joins its host's bucket; a new host gets a bucket at the end. */
  function AddTask(bs: seq<Bucket>, t: Task): seq<Bucket>
    decreases |bs|
  {
    if |bs| == 0 then [Bucket(Host(t), [t])]
    else if bs[0].host == Host(t) then [bs[0].(tasks := bs[0].tasks + [t])] + bs[1..]
    else [bs[0]] + AddTask(bs[1..], t)
  }

  /** A task of a new host adds that host at the end of the keys; otherwise
      the keys stay as they are. */
  lemma {:induction false} AddTaskHosts(bs: seq<Bucket>, t: Task)
    ensures Hosts(AddTask(bs, t)) == if Host(t) in Hosts(bs) then Hosts(bs) else Hosts(bs) + [Host(t)]
    decreases |bs|
  {
    if |bs| > 0 && bs[0].host != Host(t) {
      AddTaskHosts(bs[1..], t);
      assert AddTask(bs, t)[1..] == AddTask(bs[1..], t);
      assert Hosts(bs) == [bs[0].host] + Hosts(bs[1..]);
    }
  }

  /** Adding a task appends it to its own host's tasks and to no other. */
  lemma {:induction false} AddTaskLookup(bs: seq<Bucket>, t: Task, h: string)
    ensures Lookup(AddTask(bs, t), h) == Lookup(bs, h) + (if Host(t) == h then [t] else [])
    decreases |bs|
  {
    if |bs| > 0 {
      if bs[0].host == Host(t) {
        assert AddTask(bs, t)[1..] == bs[1..];
      } else {
        AddTaskLookup(bs[1..], t, h);
        assert AddTask(bs, t)[1..] == AddTask(bs[1..], t);
      }
    }
  }

  lemma {:induction false} AddTaskWellFormed(bs: seq<Bucket>, t: Task)
    requires WellFormed(bs)
    ensures WellFormed(AddTask(bs, t))
    decreases |bs|
  {
    if |bs| > 0 {
      var r := AddTask(bs, t);
      if bs[0].host == Host(t) {
        assert r[1..] == bs[1..];
      } else {
        AddTaskWellFormed(bs[1..], t);
        AddTaskHosts(bs[1..], t);
        assert r[1..] == AddTask(bs[1..], t);
      }
    }
  }

  /** The grouping loop of `requeue_urls`, task by task. */
  function GroupByHost(ts: seq<Task>): seq<Bucket>
    decreases |ts|
  {
    if |ts| == 0 then [] else AddTask(GroupByHost(ts[..|ts| - 1]), ts[|ts| - 1])
  }

  lemma {:induction false} GroupWellFormed(ts: seq<Task>)
    ensures WellFormed(GroupByHost(ts))
    decreases |ts|
  {
    if |ts| > 0 {
      GroupWellFormed(ts[..|ts| - 1]);
      AddTaskWellFormed(GroupByHost(ts[..|ts| - 1]), ts[|ts| - 1]);
    }
  }

  /** The dictionary's keys are the queue's hosts in order of first
      appearance. */
  lemma {:induction false} GroupHosts(ts: seq<Task>)
    ensures Hosts(GroupByHost(ts)) == UrlLists.Unique(HostList(ts))
    decreases |ts|
  {
    if |ts| > 0 {
      var p, t := ts[..|ts| - 1], ts[|ts| - 1];
      GroupHosts(p);
      AddTaskHosts(GroupByHost(p), t);
      assert HostList(ts)[..|ts| - 1] == HostList(p);
    }
  }

  /** The bucket of each host holds that host's tasks in queue order. */
  lemma {:induction false} GroupLookup(ts: seq<Task>, h: string)
    ensures Lookup(GroupByHost(ts), h) == OfHost(ts, h)
    decreases |ts|
  {
    if |ts| > 0 {
      var p, t := ts[..|ts| - 1], ts[|ts| - 1];
      assert ts == p + [t];
      GroupLookup(p, h);
      AddTaskLookup(GroupByHost(p), t, h);
      OfHostAppend(p, [t], h);
      OfHostSingle(t, h);
    }
  }

  lemma OfHostSingle(t: Task, h: string)
    ensures OfHost([t], h) == if Host(t) == h then [t] else []
  {
    assert [t][1..] == [];
  }

  lemma OfHostCons(t: Task, ts: seq<Task>, h: string)
    ensures OfHost([t] + ts, h) == (if Host(t) == h then [t] else []) + OfHost(ts, h)
  {
    assert ([t] + ts)[1..] == ts;
  }

  // ---------------------------------------------------------------- rounds

  /** `domain_urls[h].pop(0)`, then `del domain_urls[h]` once the bucket is
      empty; the other keys keep their order. */
  function Pop(bs: seq<Bucket>, h: string): seq<Bucket>
    decreases |bs|
  {
    if |bs| == 0 then []
    else if bs[0].host == h then
      (if |bs[0].tasks| <= 1 then bs[1..] else [Bucket(h, bs[0].tasks[1..])] + bs[1..])
    else [bs[0]] + Pop(bs[1..], h)
  }

  lemma {:induction false} LookupAbsent(bs: seq<Bucket>, h: string)
    requires h !in Hosts(bs)
    ensures Lookup(bs, h) == []
    decreases |bs|
  {
    if |bs| > 0 {
      LookupAbsent(bs[1..], h);
    }
  }

  lemma {:induction false} HostsPop(bs: seq<Bucket>, h: string, g: string)
    requires g in Hosts(Pop(bs, h))
    ensures g in Hosts(bs)
    decreases |bs|
  {
    if |bs| > 0 && bs[0].host != h && g != bs[0].host {
      assert Pop(bs, h)[1..] == Pop(bs[1..], h);
      HostsPop(bs[1..], h, g);
    }
  }

  lemma {:induction false} PopWellFormed(bs: seq<Bucket>, h: string)
    requires WellFormed(bs)
    ensures WellFormed(Pop(bs, h))
    decreases |bs|
  {
    if |bs| > 0 {
      var r := Pop(bs, h);
      if bs[0].host == h {
        if |bs[0].tasks| > 1 {
          assert r[1..] == bs[1..];
        }
      } else {
        PopWellFormed(bs[1..], h);
        assert r[1..] == Pop(bs[1..], h);
        if bs[0].host in Hosts(r[1..]) {
          HostsPop(bs[1..], h, bs[0].host);
        }
      }
    }
  }

  /** Popping removes the first task of `h` and leaves every other host's
      tasks alone. */
  lemma {:induction false} PopLookup(bs: seq<Bucket>, h: string, g: string)
    requires WellFormed(bs) && |Lookup(bs, h)| > 0
    ensures Lookup(Pop(bs, h), g) == if g == h then Lookup(bs, h)[1..] else Lookup(bs, g)
    decreases |bs|
  {
    var r := Pop(bs, h);
    if bs[0].host == h {
      if g == h {
        LookupAbsent(bs[1..], h);
      }
      if |bs[0].tasks| > 1 {
        assert r[1..] == bs[1..];
      }
    } else {
      PopLookup(bs[1..], h, g);
      assert r[1..] == Pop(bs[1..], h);
    }
  }

  lemma {:induction false} PopTotal(bs: seq<Bucket>, h: string)
    requires |Lookup(bs, h)| > 0
    ensures Total(Pop(bs, h)) + 1 == Total(bs)
    decreases |bs|
  {
    var r := Pop(bs, h);
    if bs[0].host == h {
      if |bs[0].tasks| > 1 {
        assert r[1..] == bs[1..];
      }
    } else {
      PopTotal(bs[1..], h);
      assert r[1..] == Pop(bs[1..], h);
    }
  }

  /** One pass of the `for domain in domains` loop over the hosts in
      `order`: each host still holding tasks gives up its first one. The
      tasks requeued, in order, and the dictionary left. */
  function Round(bs: seq<Bucket>, order: seq<string>): (seq<Task>, seq<Bucket>)
    decreases |order|
  {
    if |order| == 0 then ([], bs)
    else if |Lookup(bs, order[0])| > 0 then
      var next := Round(Pop(bs, order[0]), order[1..]);
      ([Lookup(bs, order[0])[0]] + next.0, next.1)
    else Round(bs, order[1..])
  }

  lemma {:induction false} RoundWellFormed(bs: seq<Bucket>, order: seq<string>)
    requires WellFormed(bs)
    ensures WellFormed(Round(bs, order).1)
    decreases |order|
  {
    if |order| > 0 {
      if |Lookup(bs, order[0])| > 0 {
        PopWellFormed(bs, order[0]);
        RoundWellFormed(Pop(bs, order[0]), order[1..]);
      } else {
        RoundWellFormed(bs, order[1..]);
      }
    }
  }

  /** A round moves each host's tasks from the dictionary to the output
      without losing, adding or reordering any of them. */
  lemma {:induction false} RoundKeeps(bs: seq<Bucket>, order: seq<string>, h: string)
    requires WellFormed(bs)
    ensures OfHost(Round(bs, order).0, h) + Lookup(Round(bs, order).1, h) == Lookup(bs, h)
    decreases |order|
  {
    if |order| > 0 {
      var h0 := order[0];
      if |Lookup(bs, h0)| > 0 {
        var q := Lookup(bs, h0);
        var popped := Pop(bs, h0);
        PopWellFormed(bs, h0);
        PopLookup(bs, h0, h);
        RoundKeeps(popped, order[1..], h);
        var next := Round(popped, order[1..]);
        assert Round(bs, order) == ([q[0]] + next.0, next.1);
        FirstOfBucket(bs, h0);
        HitStep(q, next.0, Lookup(next.1, h), Lookup(bs, h), h);
      } else {
        RoundKeeps(bs, order[1..], h);
      }
    }
  }

  /** The task a hit requeues, ahead of what the rest of the round does
      with the dictionary, accounts for every task of host `h`. */
  lemma HitStep(q: seq<Task>, out: seq<Task>, b: seq<Task>, whole: seq<Task>, h: string)
    requires |q| > 0
    requires Host(q[0]) == h ==> whole == q && OfHost(out, h) + b == q[1..]
    requires Host(q[0]) != h ==> OfHost(out, h) + b == whole
    ensures OfHost([q[0]] + out, h) + b == whole
  {
    OfHostCons(q[0], out, h);
    if Host(q[0]) == h {
      ConsFirst(q, OfHost(out, h), b);
    } else {
      assert [] + OfHost(out, h) == OfHost(out, h);
    }
  }

  lemma ConsFirst(q: seq<Task>, a: seq<Task>, b: seq<Task>)
    requires |q| > 0 && a + b == q[1..]
    ensures [q[0]] + a + b == q
  {
    assert q == [q[0]] + q[1..];
  }

  /** What a round requeues is what the dictionary loses. */
  lemma {:induction false} RoundTotal(bs: seq<Bucket>, order: seq<string>)
    ensures |Round(bs, order).0| + Total(Round(bs, order).1) == Total(bs)
    decreases |order|
  {
    if |order| > 0 {
      if |Lookup(bs, order[0])| > 0 {
        PopTotal(bs, order[0]);
        RoundTotal(Pop(bs, order[0]), order[1..]);
      } else {
        RoundTotal(bs, order[1..]);
      }
    }
  }

  /** A round requeues something as soon as its order names a host that
      holds tasks. */
  lemma {:induction false} RoundProgress(bs: seq<Bucket>, order: seq<string>, k: nat)
    requires k < |order| && |Lookup(bs, order[k])| > 0
    ensures |Round(bs, order).0| > 0
    decreases |order|
  {
    if |Lookup(bs, order[0])| == 0 {
      RoundProgress(bs, order[1..], k - 1);
    }
  }

  /** When the order lists distinct hosts that all hold tasks, the round
      requeues exactly one task of each, in that order. */
  lemma {:induction false} RoundOnePerHost(bs: seq<Bucket>, order: seq<string>)
    requires WellFormed(bs) && Frontier.Distinct(order)
    requires forall k :: 0 <= k < |order| ==> |Lookup(bs, order[k])| > 0
    ensures |Round(bs, order).0| == |order|
    ensures forall i :: 0 <= i < |order| ==> Host(Round(bs, order).0[i]) == order[i]
    decreases |order|
  {
    if |order| > 0 {
      var h0 := order[0];
      var popped := Pop(bs, h0);
      PopWellFormed(bs, h0);
      LookupMeaning(bs, h0);
      forall k | 0 <= k < |order[1..]| ensures |Lookup(popped, order[1..][k])| > 0 {
        assert order[1..][k] == order[k + 1] != h0;
        PopLookup(bs, h0, order[k + 1]);
      }
      RoundOnePerHost(popped, order[1..]);
    }
  }

  // ---------------------------------------------------------------- interleave

  /** What `random.shuffle` is relied on for: round `n` visits the hosts it
      is given, each once, in some order. */
  ghost predicate Shuffles(shuffle: (nat, seq<string>) -> seq<string>) {
    forall n, ds :: multiset(shuffle(n, ds)) == multiset(ds)
  }

  /** The order of a round names a host holding tasks, so the round makes
      progress. */
  lemma FirstHostInOrder(bs: seq<Bucket>, order: seq<string>)
    requires WellFormed(bs) && |bs| > 0
    requires multiset(order) == multiset(Hosts(bs))
    ensures |Round(bs, order).0| > 0
  {
    assert Hosts(bs)[0] == bs[0].host;
    assert bs[0].host in multiset(Hosts(bs));
    var k :| 0 <= k < |order| && order[k] == bs[0].host;
    RoundProgress(bs, order, k);
  }

  /** The `while domain_urls` loop from round `n` on. */
  function Interleave(bs: seq<Bucket>, n: nat, shuffle: (nat, seq<string>) -> seq<string>): seq<Task>
    requires WellFormed(bs) && Shuffles(shuffle)
    decreases Total(bs)
  {
    if |bs| == 0 then []
    else
      var order := shuffle(n, Hosts(bs));
      RoundWellFormed(bs, order);
      RoundTotal(bs, order);
      FirstHostInOrder(bs, order);
      var next := Round(bs, order);
      next.0 + Interleave(next.1, n + 1, shuffle)
  }

  /** The loop requeues every task of each host, in the host's order. */
  lemma {:induction false} InterleaveKeeps(bs: seq<Bucket>, n: nat, shuffle: (nat, seq<string>) -> seq<string>, h: string)
    requires WellFormed(bs) && Shuffles(shuffle)
    ensures OfHost(Interleave(bs, n, shuffle), h) == Lookup(bs, h)
    decreases Total(bs)
  {
    if |bs| > 0 {
      var order := shuffle(n, Hosts(bs));
      RoundWellFormed(bs, order);
      RoundTotal(bs, order);
      FirstHostInOrder(bs, order);
      RoundKeeps(bs, order, h);
      var next := Round(bs, order);
      InterleaveKeeps(next.1, n + 1, shuffle, h);
      OfHostAppend(next.0, Interleave(next.1, n + 1, shuffle), h);
    }
  }

  /** `requeue_urls`: the queue's tasks in the order they are put back. The
      result is a permutation of the queue in which each host's tasks keep
      their relative order. */
  function RequeueUrls(ts: seq<Task>, shuffle: (nat, seq<string>) -> seq<string>): (r: seq<Task>)
    requires Shuffles(shuffle)
    ensures multiset(r) == multiset(ts)
    ensures forall h :: OfHost(r, h) == OfHost(ts, h)
  {
    var bs := GroupByHost(ts);
    GroupWellFormed(ts);
    var r := Interleave(bs, 0, shuffle);
    forall h ensures OfHost(r, h) == OfHost(ts, h) {
      GroupLookup(ts, h);
      InterleaveKeeps(bs, 0, shuffle, h);
    }
    SameHostsPermutation(r, ts);
    r
  }

  lemma DistinctByCount(xs: seq<string>)
    requires forall x :: multiset(xs)[x] <= 1
    ensures Frontier.Distinct(xs)
  {
    forall i, j | 0 <= i < j < |xs| ensures xs[i] != xs[j] {
      if xs[i] == xs[j] {
        CountTwice(xs, i, j);
      }
    }
  }

  lemma CountTwice(xs: seq<string>, i: nat, j: nat)
    requires i < j < |xs| && xs[i] == xs[j]
    ensures multiset(xs)[xs[j]] >= 2
  {
    var x := xs[j];
    assert xs == xs[..j] + [x] + xs[j + 1..];
    assert xs[..j][i] == x;
  }

  lemma {:induction false} CountOfDistinct(xs: seq<string>)
    requires Frontier.Distinct(xs)
    ensures forall x :: multiset(xs)[x] <= 1
    decreases |xs|
  {
    if |xs| > 0 {
      assert xs == [xs[0]] + xs[1..];
      CountOfDistinct(xs[1..]);
      assert xs[0] !in xs[1..];
    }
  }

  /** A permutation of a list without repeats has none either. */
  lemma PermutedDistinct(a: seq<string>, b: seq<string>)
    requires Frontier.Distinct(a) && multiset(b) == multiset(a)
    ensures Frontier.Distinct(b) && |b| == |a|
  {
    CountOfDistinct(a);
    DistinctByCount(b);
    assert |multiset(b)| == |multiset(a)|;
  }

  /** The order of the first round lists every host of the dictionary
      once, each holding tasks. */
  lemma FirstOrder(bs: seq<Bucket>, order: seq<string>)
    requires WellFormed(bs) && multiset(order) == multiset(Hosts(bs))
    ensures Frontier.Distinct(order) && |order| == |bs|
    ensures forall k :: 0 <= k < |order| ==> |Lookup(bs, order[k])| > 0
    ensures forall h :: h in Hosts(bs) ==> h in order
  {
    HostsDistinct(bs);
    PermutedDistinct(Hosts(bs), order);
    forall k | 0 <= k < |order| ensures |Lookup(bs, order[k])| > 0 {
      assert order[k] in multiset(Hosts(bs));
      LookupMeaning(bs, order[k]);
    }
    forall h | h in Hosts(bs) ensures h in order {
      assert h in multiset(order);
    }
  }

  /** The first round over a dictionary puts back one task of every host,
      each host once. */
  lemma FirstRound(bs: seq<Bucket>, shuffle: (nat, seq<string>) -> seq<string>)
    requires WellFormed(bs) && Shuffles(shuffle) && |bs| > 0
    ensures var r := Interleave(bs, 0, shuffle);
      && |bs| <= |r|
      && (forall i, j :: 0 <= i < j < |bs| ==> Host(r[i]) != Host(r[j]))
      && (forall h :: h in Hosts(bs) ==> exists i :: 0 <= i < |bs| && Host(r[i]) == h)
  {
    var order := shuffle(0, Hosts(bs));
    FirstOrder(bs, order);
    RoundOnePerHost(bs, order);
    RoundWellFormed(bs, order);
    RoundTotal(bs, order);
    FirstHostInOrder(bs, order);
    var first := Round(bs, order).0;
    var r := Interleave(bs, 0, shuffle);
    assert r == first + Interleave(Round(bs, order).1, 1, shuffle);
    assert forall i :: 0 <= i < |bs| ==> Host(r[i]) == order[i];
  }

  /** Domain diversity: the first tasks put back, one per host of the
      queue, all have different hosts, and every host of the queue is among
      them. */
  lemma FirstRoundDiverse(ts: seq<Task>, shuffle: (nat, seq<string>) -> seq<string>)
    requires Shuffles(shuffle)
    ensures var r, hs := RequeueUrls(ts, shuffle), UrlLists.Unique(HostList(ts));
      && |hs| <= |r|
      && (forall i, j :: 0 <= i < j < |hs| ==> Host(r[i]) != Host(r[j]))
      && (forall t :: t in ts ==> exists i :: 0 <= i < |hs| && Host(r[i]) == Host(t))
  {
    var bs := GroupByHost(ts);
    GroupWellFormed(ts);
    GroupHosts(ts);
    forall t | t in ts ensures Host(t) in Hosts(bs) {
      OfHostHas(ts, t);
      GroupLookup(ts, Host(t));
      LookupMeaning(bs, Host(t));
    }
    if |bs| > 0 {
      FirstRound(bs, shuffle);
    }
  }
}
