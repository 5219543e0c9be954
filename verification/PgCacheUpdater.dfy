/** The updater object behind the refresh protocol: each callback updates the fields in place, and
    its contract ties the new fields to the protocol's step on the old ones. */
module PgCacheUpdaters {
  import opened RefreshProtocol

  class PgCacheUpdater {
    var cache: Table
    var updateTime: Watermark
    var lastUpdateTime: Watermark
    // Outstanding asynchronous operations.
    var timers: nat
    var queries: seq<Query>
    var posts: seq<Table>

    /** The fields as one value. */
    ghost function View(): Updater
      reads this
    {
      Updater(cache, updateTime, lastUpdateTime, timers, queries, posts)
    }

    constructor ()
      ensures View() == Updater(map[], NoText, NoText, 0, [], [])
    {
      cache, updateTime, lastUpdateTime := map[], NoText, NoText;
      timers, queries, posts := 0, [], [];
    }

    method SetUpdateTimer()
      modifies this`timers
      ensures View() == old(View()).(timers := old(timers) + 1)
    {
      timers := timers + 1;
    }

    /** The argument is ignored: the updater's own captured time is copied instead. */
    method SetLastUpdateTime(time: Watermark)
      modifies this`lastUpdateTime
      ensures View() == old(View()).(lastUpdateTime := old(updateTime))
    {
      lastUpdateTime := updateTime;
    }

    /** `PgCache::AsyncRunUpdate` with the time captured before the init query. */
    method AsyncRunUpdate(initTime: Watermark)
      modifies this`lastUpdateTime, this`timers
      ensures View() == old(View()).Start(old(updateTime))
    {
      SetLastUpdateTime(initTime);
      SetUpdateTimer();
    }

    method DoQuery(now: nat)
      modifies this`updateTime, this`queries
      ensures View() == old(View()).DoQuery(now)
    {
      updateTime := At(now);
      queries := queries + [Sent(lastUpdateTime)];
    }

    /** The armed timer fires, possibly with an error. */
    method OnUpdateTimer(failed: bool, now: nat)
      requires timers > 0
      modifies this`updateTime, this`queries, this`timers
      ensures View() == old(View()).OnUpdateTimer(failed, now)
    {
      timers := timers - 1;
      if failed {
        SetUpdateTimer();
      }
      DoQuery(now);
    }

    /** Query `q` ends, with an error or with its rows. */
    method OnQueryCompletion(q: nat, failed: bool)
      requires q < |queries| && (!failed ==> queries[q].Answered?)
      modifies this`queries, this`timers, this`posts
      ensures View() == if failed then old(View()).OnQueryError(q) else old(View()).OnQueryRows(q)
    {
      var done := queries[q];
      queries := queries[..q] + queries[q + 1..];
      if failed {
        SetUpdateTimer();
        return;
      }
      posts := posts + [done.rows];
    }

    /** The posted apply `p` runs on the strand. */
    method UpdateCache(p: nat)
      requires p < |posts|
      modifies this
      ensures View() == old(View()).Apply(p)
    {
      var rows := posts[p];
      posts := posts[..p] + posts[p + 1..];
      lastUpdateTime := updateTime;
      cache := cache + rows;
      SetUpdateTimer();
    }
  }

  /** The loop as the code starts it: whatever time the init query captured, the first watermark
      is empty, so a database that rejects the empty text never refreshes the cache again. */
  method StartAsWritten(initTime: Watermark, snapshot: Table) returns (updater: PgCacheUpdater)
    ensures fresh(updater) && updater.View() == Updater(snapshot, NoText, NoText, 1, [], [])
    ensures forall db: Db, es :: CanRun(false, State(db, updater.View(), Running), es) ==>
      Run(false, State(db, updater.View(), Running), es).up.cache == snapshot
  {
    updater := new PgCacheUpdater();
    updater.cache := snapshot;
    updater.AsyncRunUpdate(initTime);
    forall db: Db, es | CanRun(false, State(db, updater.View(), Running), es)
      ensures Run(false, State(db, updater.View(), Running), es).up.cache == snapshot
    {
      EmptyWatermarkFreezesCache(State(db, updater.View(), Running), es, snapshot);
    }
  }
}
