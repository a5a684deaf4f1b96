/**
 * The main thread's scheduling rules in `innerCrawl`: every host of the
 * ready list is given to one worker, the pool is capped, and workers that
 * have gone idle are restarted.  One cycle is one sequential step; threads,
 * joins and sleeps are not modelled.
 */
module Scheduler {
  import opened Wrappers
  import opened ItemUrl
  import opened Frontier
  import opened Pipelines

  /** `MAX_NUM_THREADS`. */
  const MaxThreads: nat := 100

  /** A `CrawlerThread`: the hosts it is responsible for and its busy flag. */
  datatype Worker = Worker(hosts: seq<string>, busy: bool)

  /** The main thread's view: the host index and the worker pool, by position. */
  datatype Pool = Pool(hostIndex: map<string, nat>, workers: seq<Worker>)

  /** What the main thread does to the chosen worker. */
  datatype Action = Start | Restart | Leave

  /** The outcome of assigning one host: the new pool, the chosen worker and the action on it. */
  datatype Assignment = Assignment(pool: Pool, chosen: nat, action: Action)

  /**
   * The pool never exceeds its cap, every indexed host points at a worker
   * that lists it, and every listed host is indexed to the worker listing it.
   */
  predicate WellFormed(p: Pool) {
    |p.workers| <= MaxThreads
    && (forall h | h in p.hostIndex :: p.hostIndex[h] < |p.workers| && h in p.workers[p.hostIndex[h]].hosts)
    && (forall i, h | 0 <= i < |p.workers| && h in p.workers[i].hosts :: h in p.hostIndex && p.hostIndex[h] == i)
  }

  /** The pool before the first cycle: no hosts, no workers. */
  function InitialPool(): (p: Pool)
    ensures WellFormed(p) && p.workers == [] && p.hostIndex == map[]
  {
    Pool(map[], [])
  }

  // ---------------------------------------------------------------------
  // getFreeThread and threadsBusy
  // ---------------------------------------------------------------------

  /** The scan of `getFreeThread` from position `i` on. */
  function FreeFrom(workers: seq<Worker>, i: nat): (r: Option<nat>)
    requires i <= |workers|
    ensures r.Some? ==> i <= r.value < |workers| && !workers[r.value].busy
                        && forall j | i <= j < r.value :: workers[j].busy
    ensures r.None? <==> forall j | i <= j < |workers| :: workers[j].busy
    decreases |workers| - i
  {
    if i == |workers| then None
    else if !workers[i].busy then Some(i)
    else FreeFrom(workers, i + 1)
  }

  /**
   * `getFreeThread`: the lowest position of a worker that is not busy; none
   * (the source's -1) when all are busy or there are no workers.
   */
  function FreeThread(workers: seq<Worker>): (r: Option<nat>)
    ensures r.Some? ==> r.value < |workers| && !workers[r.value].busy
                        && forall j | 0 <= j < r.value :: workers[j].busy
    ensures r.None? <==> forall j | 0 <= j < |workers| :: workers[j].busy
  {
    FreeFrom(workers, 0)
  }

  /** The scan of `threadsBusy` from position `i` on. */
  function BusyFrom(workers: seq<Worker>, i: nat): (b: bool)
    requires i <= |workers|
    ensures b <==> exists j | i <= j < |workers| :: workers[j].busy
    decreases |workers| - i
  {
    if i == |workers| then false
    else if workers[i].busy then true
    else BusyFrom(workers, i + 1)
  }

  /** `threadsBusy`: some worker is busy; false for an empty pool. */
  function ThreadsBusy(workers: seq<Worker>): (b: bool)
    ensures b <==> exists j | 0 <= j < |workers| :: workers[j].busy
  {
    BusyFrom(workers, 0)
  }

  /**
   * The two scans agree: a non-empty pool with no free worker has a busy
   * one, and a pool with no busy worker has its first worker free.
   */
  lemma FreeAndBusy(workers: seq<Worker>)
    ensures |workers| > 0 && FreeThread(workers).None? ==> ThreadsBusy(workers)
    ensures |workers| > 0 && !ThreadsBusy(workers) ==> FreeThread(workers) == Some(0)
  {
    if |workers| > 0 && FreeThread(workers).None? {
      assert workers[0].busy;
    }
  }

  // ---------------------------------------------------------------------
  // Host assignment
  // ---------------------------------------------------------------------

  /**
   * The assignment of one ready item's host.  A host already indexed keeps
   * its worker, which is restarted when idle.  A new host gets a new worker
   * while the pool is below its cap; otherwise it is appended to the first
   * free worker, or to worker `rand` when all are busy, which is restarted
   * when idle.  A started or restarted worker sets its busy flag first thing,
   * so the chosen worker is busy afterwards.
   */
  function Assign(p: Pool, host: string, rand: nat): (r: Assignment)
    requires WellFormed(p) && rand < MaxThreads
    ensures r.chosen < |r.pool.workers| && r.pool.workers[r.chosen].busy
    ensures host in r.pool.hostIndex && r.pool.hostIndex[host] == r.chosen
  {
    if host in p.hostIndex then
      var i := p.hostIndex[host];
      var w := p.workers[i];
      Assignment(Pool(p.hostIndex, p.workers[i := Worker(w.hosts, true)]), i, if w.busy then Leave else Restart)
    else if |p.workers| >= MaxThreads then
      var i := SharedWorker(p.workers, rand);
      var w := p.workers[i];
      Assignment(Pool(p.hostIndex[host := i], p.workers[i := Worker(w.hosts + [host], true)]), i,
                 if w.busy then Leave else Restart)
    else
      var i := |p.workers|;
      Assignment(Pool(p.hostIndex[host := i], p.workers + [Worker([host], true)]), i, Start)
  }

  /** The worker a saturated pool shares: the first free one, else the random draw. */
  function SharedWorker(workers: seq<Worker>, rand: nat): (i: nat)
    requires |workers| == MaxThreads && rand < MaxThreads
    ensures i < |workers|
    ensures FreeThread(workers).Some? ==> i == FreeThread(workers).value && !workers[i].busy
    ensures FreeThread(workers).None? ==> i == rand && workers[i].busy
  {
    match FreeThread(workers) case Some(f) => f case None => rand
  }

  /** Assignment keeps the pool well formed. */
  lemma AssignWellFormed(p: Pool, host: string, rand: nat)
    requires WellFormed(p) && rand < MaxThreads
    ensures WellFormed(Assign(p, host, rand).pool)
  {
    var a := Assign(p, host, rand);
    var q := a.pool;
    var i := a.chosen;
    if host !in p.hostIndex && |p.workers| >= MaxThreads {
      forall j, h | 0 <= j < |q.workers| && h in q.workers[j].hosts ensures h in q.hostIndex && q.hostIndex[h] == j {
        if j != i || h != host {
          assert h in p.workers[j].hosts;
        }
      }
    } else if host !in p.hostIndex {
      forall j, h | 0 <= j < |q.workers| && h in q.workers[j].hosts ensures h in q.hostIndex && q.hostIndex[h] == j {
        if j != i {
          assert h in p.workers[j].hosts;
        }
      }
    } else {
      forall j, h | 0 <= j < |q.workers| && h in q.workers[j].hosts ensures h in q.hostIndex && q.hostIndex[h] == j {
        assert h in p.workers[j].hosts;
      }
    }
  }

  /**
   * A host's worker index is set only when absent and never changes
   * afterwards; a known host keeps its worker and changes no index.
   */
  lemma AssignKeepsIndex(p: Pool, host: string, rand: nat)
    requires WellFormed(p) && rand < MaxThreads
    ensures var r := Assign(p, host, rand);
      (forall h | h in p.hostIndex :: h in r.pool.hostIndex && r.pool.hostIndex[h] == p.hostIndex[h])
      && r.pool.hostIndex.Keys == p.hostIndex.Keys + {host}
      && (host in p.hostIndex ==> r.chosen == p.hostIndex[host] && r.pool.hostIndex == p.hostIndex)
  {
  }

  /**
   * The pool grows by one fresh worker holding only the host exactly when
   * the host is new and the pool is below its cap; it never passes the cap.
   */
  lemma AssignGrowsPool(p: Pool, host: string, rand: nat)
    requires WellFormed(p) && rand < MaxThreads
    ensures var r := Assign(p, host, rand);
      |r.pool.workers| <= MaxThreads
      && |p.workers| <= |r.pool.workers| <= |p.workers| + 1
      && (|r.pool.workers| > |p.workers| <==> r.action == Start)
      && (r.action == Start <==> host !in p.hostIndex && |p.workers| < MaxThreads)
      && (r.action == Start ==> r.chosen == |p.workers| && r.pool.workers[r.chosen].hosts == [host])
  {
  }

  /** A new host is appended to the chosen worker's list; no other list changes. */
  lemma AssignAppendsHost(p: Pool, host: string, rand: nat)
    requires WellFormed(p) && rand < MaxThreads
    ensures var r := Assign(p, host, rand);
      forall i | 0 <= i < |p.workers| ::
        r.pool.workers[i].hosts == if i == r.chosen && host !in p.hostIndex then p.workers[i].hosts + [host]
                                   else p.workers[i].hosts
  {
  }

  /**
   * A new host in a saturated pool goes to the lowest-positioned idle
   * worker, or to the random draw when every worker is busy.
   */
  lemma AssignSaturatedChoice(p: Pool, host: string, rand: nat)
    requires WellFormed(p) && rand < MaxThreads
    requires host !in p.hostIndex && |p.workers| >= MaxThreads
    ensures var r := Assign(p, host, rand);
      (forall j | 0 <= j < r.chosen :: p.workers[j].busy)
      && (!p.workers[r.chosen].busy || (r.chosen == rand && forall j | 0 <= j < |p.workers| :: p.workers[j].busy))
  {
  }

  /**
   * An existing worker is restarted exactly when it was idle; no other
   * worker's busy flag changes.
   */
  lemma AssignRestartsIdle(p: Pool, host: string, rand: nat)
    requires WellFormed(p) && rand < MaxThreads
    ensures var r := Assign(p, host, rand);
      (r.action != Start ==> (r.action == Restart <==> !p.workers[r.chosen].busy))
      && forall i | 0 <= i < |p.workers| && i != r.chosen :: r.pool.workers[i].busy == p.workers[i].busy
  {
  }

  /** A host's worker never changes: assigning it again chooses the same worker and changes no index. */
  lemma AssignStable(p: Pool, host: string, rand: nat, rand': nat)
    requires WellFormed(p) && rand < MaxThreads && rand' < MaxThreads
    ensures var q := Assign(p, host, rand).pool;
      WellFormed(q)
      && Assign(q, host, rand').chosen == Assign(p, host, rand).chosen
      && Assign(q, host, rand').pool.hostIndex == q.hostIndex
  {
    AssignWellFormed(p, host, rand);
  }

  // ---------------------------------------------------------------------
  // One scheduler cycle
  // ---------------------------------------------------------------------

  /**
   * The assignment loop over the deduplicated ready list, from position `k`
   * on; `pick(k)` is the random draw the `k`-th assignment would use.
   */
  function AssignFrom(p: Pool, ready: seq<Item>, k: nat, pick: nat -> nat): (r: Pool)
    requires WellFormed(p) && k <= |ready|
    requires forall n :: pick(n) < MaxThreads
    ensures WellFormed(r)
    ensures forall h | h in p.hostIndex :: h in r.hostIndex && r.hostIndex[h] == p.hostIndex[h]
    ensures |p.workers| <= |r.workers|
    decreases |ready| - k
  {
    if k == |ready| then p
    else
      var a := Assign(p, ready[k].url.host, pick(k));
      AssignWellFormed(p, ready[k].url.host, pick(k));
      AssignKeepsIndex(p, ready[k].url.host, pick(k));
      AssignGrowsPool(p, ready[k].url.host, pick(k));
      AssignFrom(a.pool, ready, k + 1, pick)
  }

  /**
   * After the assignment loop every host of the ready list from `k` on has
   * a worker, and every newly indexed host is one of them.
   */
  lemma {:induction false} AssignFromHosts(p: Pool, ready: seq<Item>, k: nat, pick: nat -> nat)
    requires WellFormed(p) && k <= |ready|
    requires forall n :: pick(n) < MaxThreads
    ensures var r := AssignFrom(p, ready, k, pick);
      (forall j | k <= j < |ready| :: ready[j].url.host in r.hostIndex)
      && forall h | h in r.hostIndex :: h in p.hostIndex || exists j | k <= j < |ready| :: ready[j].url.host == h
    decreases |ready| - k
  {
    if k < |ready| {
      var a := Assign(p, ready[k].url.host, pick(k));
      AssignWellFormed(p, ready[k].url.host, pick(k));
      AssignKeepsIndex(p, ready[k].url.host, pick(k));
      AssignFromHosts(a.pool, ready, k + 1, pick);
      var r := AssignFrom(a.pool, ready, k + 1, pick);
      assert AssignFrom(p, ready, k, pick) == r;
      forall j | k <= j < |ready| ensures ready[j].url.host in r.hostIndex {
        if j == k {
          assert ready[k].url.host in a.pool.hostIndex;
        }
      }
      forall h | h in r.hostIndex
        ensures h in p.hostIndex || exists j | k <= j < |ready| :: ready[j].url.host == h
      {
        if h !in a.pool.hostIndex {
          var j :| k + 1 <= j < |ready| && ready[j].url.host == h;
        } else if h !in p.hostIndex {
          assert ready[k].url.host == h;
        }
      }
    }
  }

  /** The whole state of the main thread between cycles. */
  datatype Crawl = Crawl(pool: Pool, lists: Lists)

  /**
   * One pass of the `innerCrawl` loop body: the ready list is deduplicated,
   * each of its hosts is assigned to a worker, then the tentative list is
   * drained and merged.
   */
  function Cycle(c: Crawl, pick: nat -> nat): (r: Crawl)
    requires WellFormed(c.pool)
    requires forall n :: pick(n) < MaxThreads
    ensures WellFormed(r.pool)
    ensures forall h | h in c.pool.hostIndex :: h in r.pool.hostIndex && r.pool.hostIndex[h] == c.pool.hostIndex[h]
    ensures Coherent(c.lists.next) ==> forall j | 0 <= j < |c.lists.next| :: c.lists.next[j].url.host in r.pool.hostIndex
    ensures r.lists.tentative == [] && r.lists.visited == c.lists.visited && r.lists.excluded == c.lists.excluded
    ensures UniqueItems(r.lists.next)
  {
    var ready := CleanUrlList(c.lists.next);
    var pool := AssignFrom(c.pool, ready, 0, pick);
    AssignFromHosts(c.pool, ready, 0, pick);
    ReadyKeepsHosts(c.lists.next);
    Crawl(pool, CycleLists(c.lists))
  }

  /** Deduplication loses no host of a coherent list. */
  lemma ReadyKeepsHosts(next: seq<Item>)
    ensures var ready := CleanUrlList(next);
      Coherent(next) ==> forall j | 0 <= j < |next| :: exists a | 0 <= a < |ready| :: ready[a].url.host == next[j].url.host
  {
    var ready := CleanUrlList(next);
    if Coherent(next) {
      forall j | 0 <= j < |next| ensures exists a | 0 <= a < |ready| :: ready[a].url.host == next[j].url.host {
        assert HasText(ready, next[j].url.text);
        var a :| 0 <= a < |ready| && ready[a].url.text == next[j].url.text;
        var q :| 0 <= q < |next| && ready[a].url == next[q].url;
      }
    }
  }

  /**
   * Entries printing alike are the same URL, as they are for `java.net.URL`,
   * whose parts are a function of its text.
   */
  predicate Coherent(items: seq<Item>) {
    forall j, q | 0 <= j < |items| && 0 <= q < |items| && items[j].url.text == items[q].url.text :: items[j].url == items[q].url
  }

  /**
   * The loop goes on while anything waits in the ready or tentative list or
   * any worker is busy.
   */
  function Continues(c: Crawl): (b: bool)
    ensures !b <==> c.lists.next == [] && c.lists.tentative == []
                    && forall j | 0 <= j < |c.pool.workers| :: !c.pool.workers[j].busy
  {
    KeepCrawling(c.lists, ThreadsBusy(c.pool.workers))
  }
}
