/**
 * One harvest run, from `RunSpider.__execute_one_spider_task`,
 * `RunSpider.run` and `RunSpider.start` in file_celery/schedule_spider.py.
 *
 * Every spider's proxies are validated by `check_proxy` (the parameter
 * `check`) and merged into the catalog one after another, in the order
 * the spider produces them. An exception while producing, validating or
 * merging a proxy ends that spider's task: the proxies before it stay
 * merged, the ones after it are never looked at, and the other spiders
 * are not affected. The source runs the spiders as greenlets of one pool;
 * here they run one after the other, which is one of the interleavings
 * the pool allows.
 */
module Harvest {
  import opened Wrappers
  import opened Catalog
  import opened SpiderNames

  /**
   * A spider as its task sees it: the proxies `get_proxies()` yields, and
   * the position, if any, at which processing raises.
   */
  datatype Spider = Spider(proxies: seq<Record>, failAt: Option<nat>)

  /** The proxies of a spider that are processed before its task stops. */
  function Processed(s: Spider): seq<Record> {
    match s.failAt
    case Some(i) => if i < |s.proxies| then s.proxies[..i] else s.proxies
    case None => s.proxies
  }

  /** The table after merging the validated `candidates` in order. */
  function MergeAll(rows: seq<Entry>, candidates: seq<Record>, check: Record -> Record, now: int): seq<Entry>
    decreases |candidates|
  {
    if candidates == [] then rows
    else
      var n := |candidates| - 1;
      Merged(MergeAll(rows, candidates[..n], check, now), check(candidates[n]), now)
  }

  /** The table after every spider's task, the spiders taken in order. */
  function RunAll(rows: seq<Entry>, spiders: seq<Spider>, check: Record -> Record, now: int): seq<Entry>
    decreases |spiders|
  {
    if spiders == [] then rows
    else
      var n := |spiders| - 1;
      MergeAll(RunAll(rows, spiders[..n], check, now), Processed(spiders[n]), check, now)
  }

  /** The keys of the candidates that pass validation. */
  ghost function ValidKeys(candidates: seq<Record>, check: Record -> Record): set<Key> {
    set i | 0 <= i < |candidates| && IsValid(check(candidates[i])) :: RecordKey(check(candidates[i]))
  }

  /** The keys of every processed candidate of every spider that passes validation. */
  ghost function HarvestedKeys(spiders: seq<Spider>, check: Record -> Record): set<Key> {
    set j, k | 0 <= j < |spiders| && k in ValidKeys(Processed(spiders[j]), check) :: k
  }

  lemma HarvestedKeysSnoc(spiders: seq<Spider>, check: Record -> Record)
    requires |spiders| > 0
    ensures var n := |spiders| - 1;
      HarvestedKeys(spiders, check) == HarvestedKeys(spiders[..n], check) + ValidKeys(Processed(spiders[n]), check)
  {
    var n := |spiders| - 1;
    var init := spiders[..n];
    forall k | k in HarvestedKeys(spiders, check)
      ensures k in HarvestedKeys(init, check) + ValidKeys(Processed(spiders[n]), check)
    {
      var j :| 0 <= j < |spiders| && k in ValidKeys(Processed(spiders[j]), check);
      if j < n { assert init[j] == spiders[j]; }
    }
    forall k | k in HarvestedKeys(init, check) ensures k in HarvestedKeys(spiders, check) {
      var j :| 0 <= j < |init| && k in ValidKeys(Processed(init[j]), check);
      assert init[j] == spiders[j];
    }
  }

  lemma ValidKeysSnoc(candidates: seq<Record>, check: Record -> Record)
    requires |candidates| > 0
    ensures var n := |candidates| - 1; var r := check(candidates[n]);
      ValidKeys(candidates, check) ==
        ValidKeys(candidates[..n], check) + (if IsValid(r) then {RecordKey(r)} else {})
  {
    var n := |candidates| - 1;
    var init := candidates[..n];
    forall k | k in ValidKeys(candidates, check)
      ensures k in ValidKeys(init, check) || (IsValid(check(candidates[n])) && k == RecordKey(check(candidates[n])))
    {
      var i :| 0 <= i < |candidates| && IsValid(check(candidates[i])) && RecordKey(check(candidates[i])) == k;
      if i < n { assert init[i] == candidates[i]; }
    }
    forall k | k in ValidKeys(init, check) ensures k in ValidKeys(candidates, check) {
      var i :| 0 <= i < |init| && IsValid(check(init[i])) && RecordKey(check(init[i])) == k;
      assert init[i] == candidates[i];
    }
  }

  /** Merging a spider's candidates adds exactly the keys of those that pass validation. */
  lemma {:induction false} MergeAllKeys(rows: seq<Entry>, candidates: seq<Record>, check: Record -> Record, now: int)
    ensures Keys(MergeAll(rows, candidates, check, now)) == Keys(rows) + ValidKeys(candidates, check)
    decreases |candidates|
  {
    if candidates == [] {
      assert ValidKeys(candidates, check) == {};
    } else {
      var n := |candidates| - 1;
      MergeAllKeys(rows, candidates[..n], check, now);
      MergedKeys(MergeAll(rows, candidates[..n], check, now), check(candidates[n]), now);
      ValidKeysSnoc(candidates, check);
    }
  }

  /** Merging a spider's candidates keeps at most one row per key. */
  lemma {:induction false} MergeAllUnique(rows: seq<Entry>, candidates: seq<Record>, check: Record -> Record, now: int)
    requires Unique(rows)
    ensures Unique(MergeAll(rows, candidates, check, now))
    decreases |candidates|
  {
    if candidates != [] {
      var n := |candidates| - 1;
      MergeAllUnique(rows, candidates[..n], check, now);
      MergedUnique(MergeAll(rows, candidates[..n], check, now), check(candidates[n]), now);
    }
  }

  /** A run adds exactly the keys of the validated, processed candidates of all spiders. */
  lemma {:induction false} RunAllKeys(rows: seq<Entry>, spiders: seq<Spider>, check: Record -> Record, now: int)
    ensures Keys(RunAll(rows, spiders, check, now)) == Keys(rows) + HarvestedKeys(spiders, check)
    decreases |spiders|
  {
    if spiders != [] {
      var n := |spiders| - 1;
      RunAllKeys(rows, spiders[..n], check, now);
      HarvestedKeysSnoc(spiders, check);
      MergeAllKeys(RunAll(rows, spiders[..n], check, now), Processed(spiders[n]), check, now);
    }
  }

  /** A run keeps at most one row per key. */
  lemma {:induction false} RunAllUnique(rows: seq<Entry>, spiders: seq<Spider>, check: Record -> Record, now: int)
    requires Unique(rows)
    ensures Unique(RunAll(rows, spiders, check, now))
    decreases |spiders|
  {
    if spiders != [] {
      var n := |spiders| - 1;
      RunAllUnique(rows, spiders[..n], check, now);
      MergeAllUnique(RunAll(rows, spiders[..n], check, now), Processed(spiders[n]), check, now);
    }
  }

  /**
   * The row count grows by the number of harvested keys that were not in
   * the table before: the net yield of a run.
   */
  lemma RunAllCount(rows: seq<Entry>, spiders: seq<Spider>, check: Record -> Record, now: int)
    requires Unique(rows)
    ensures |RunAll(rows, spiders, check, now)| == |rows| + |HarvestedKeys(spiders, check) - Keys(rows)|
  {
    var after := RunAll(rows, spiders, check, now);
    var before := Keys(rows);
    var added := HarvestedKeys(spiders, check) - before;
    RunAllKeys(rows, spiders, check, now);
    RunAllUnique(rows, spiders, check, now);
    UniqueCount(rows);
    UniqueCount(after);
    assert Keys(after) == before + added;
    assert before * added == {};
  }

  /** Spider `s` processes, at position `i`, a candidate that validates to key `k`. */
  ghost predicate Contributes(s: Spider, i: int, check: Record -> Record, k: Key) {
    0 <= i < |Processed(s)| && IsValid(check(Processed(s)[i])) && RecordKey(check(Processed(s)[i])) == k
  }

  /**
   * Isolation: whichever spiders fail and wherever, every validated
   * candidate that some spider processed before its own failure is in the
   * table afterwards, and every key in the table was there before or comes
   * from such a candidate; nothing after a spider's fault point contributes.
   */
  lemma Isolation(rows: seq<Entry>, spiders: seq<Spider>, check: Record -> Record, now: int)
    ensures forall j, i, k :: 0 <= j < |spiders| && Contributes(spiders[j], i, check, k) ==>
      k in Keys(RunAll(rows, spiders, check, now))
    ensures forall k :: k in Keys(RunAll(rows, spiders, check, now)) ==>
      k in Keys(rows) || exists j, i :: 0 <= j < |spiders| && Contributes(spiders[j], i, check, k)
  {
    RunAllKeys(rows, spiders, check, now);
    forall k ensures k in HarvestedKeys(spiders, check) <==>
      exists j, i :: 0 <= j < |spiders| && Contributes(spiders[j], i, check, k)
    {
      forall j | 0 <= j < |spiders|
        ensures k in ValidKeys(Processed(spiders[j]), check) <==> exists i :: Contributes(spiders[j], i, check, k)
      {
        ContributesMembers(spiders[j], check, k);
      }
    }
  }

  lemma ContributesMembers(s: Spider, check: Record -> Record, k: Key)
    ensures k in ValidKeys(Processed(s), check) <==> exists i :: Contributes(s, i, check, k)
  {
    var p := Processed(s);
    if k in ValidKeys(p, check) {
      var i :| 0 <= i < |p| && IsValid(check(p[i])) && RecordKey(check(p[i])) == k;
      assert Contributes(s, i, check, k);
    }
  }

  /**
   * A spider that raises at position `i` leaves the table exactly as a
   * spider that only ever produced its first `i` proxies would.
   */
  lemma {:induction false} FailureTruncates(rows: seq<Entry>, spiders: seq<Spider>, j: nat, check: Record -> Record, now: int)
    requires j < |spiders|
    requires spiders[j].failAt.Some? && spiders[j].failAt.value < |spiders[j].proxies|
    ensures var truncated := Spider(spiders[j].proxies[..spiders[j].failAt.value], None);
      RunAll(rows, spiders, check, now) == RunAll(rows, spiders[j := truncated], check, now)
    decreases |spiders|
  {
    var truncated := Spider(spiders[j].proxies[..spiders[j].failAt.value], None);
    var other := spiders[j := truncated];
    var n := |spiders| - 1;
    assert Processed(truncated) == Processed(spiders[j]);
    if j < n {
      assert other[..n] == spiders[..n][j := truncated];
      FailureTruncates(rows, spiders[..n], j, check, now);
      assert other[n] == spiders[n];
    } else {
      assert other[..n] == spiders[..n];
    }
  }

  /** Running the same spiders twice changes neither the key set nor the count the second time. */
  lemma RunReplay(rows: seq<Entry>, spiders: seq<Spider>, check: Record -> Record, t1: int, t2: int)
    requires Unique(rows)
    ensures var once := RunAll(rows, spiders, check, t1);
      && Keys(RunAll(once, spiders, check, t2)) == Keys(once)
      && |RunAll(once, spiders, check, t2)| == |once|
  {
    var once := RunAll(rows, spiders, check, t1);
    RunAllKeys(rows, spiders, check, t1);
    RunAllKeys(once, spiders, check, t2);
    RunAllUnique(rows, spiders, check, t1);
    RunAllCount(once, spiders, check, t2);
    assert HarvestedKeys(spiders, check) - Keys(once) == {};
  }

  /**
   * Two spiders: A yields a valid proxy X:1 of speed 50 and then an invalid
   * one, B yields X:1 again with speed 80. A runs at time t1 and B at t2.
   * From an empty table this leaves one row, for X:1, carrying B's speed
   * and origin, a score reset to the maximum and the creation time of A's
   * insert, and nothing for the invalid proxy.
   */
  lemma TwoSpidersExample(score: Score, t1: int, t2: int)
    ensures
      var x50 := Record("X", "1", 0, 0, 50, "", score, [], "A");
      var bad := Record("Y", "2", 0, 0, INVALID_SPEED, "", score, [], "A");
      var x80 := Record("X", "1", 0, 0, 80, "", score, [], "B");
      var check: Record -> Record := r => r;
      var after := RunAll(RunAll([], [Spider([x50, bad], None)], check, t1), [Spider([x80], None)], check, t2);
      && |after| == 1
      && KeyOf(after[0]) == ("X", "1")
      && after[0].speed == 80 && after[0].origin == "B"
      && after[0].score == Score(MAX_SCORE, 0)
      && after[0].createTime == t1
  {
    var x50 := Record("X", "1", 0, 0, 50, "", score, [], "A");
    var bad := Record("Y", "2", 0, 0, INVALID_SPEED, "", score, [], "A");
    var x80 := Record("X", "1", 0, 0, 80, "", score, [], "B");
    var check: Record -> Record := r => r;
    var a := Spider([x50, bad], None);
    var b := Spider([x80], None);
    // spider A at time t1: X:1 is inserted, the invalid proxy is rejected
    assert [x50, bad][..1] == [x50] && [x50][..0] == [];
    var inserted := MergeAll([], [x50], check, t1);
    assert check(x50) == x50;
    assert MergeAll([], [x50][..0], check, t1) == [];
    assert inserted == Merged(MergeAll([], [x50][..0], check, t1), check([x50][0]), t1);
    assert inserted == Merged([], x50, t1);
    assert Merged([], x50, t1) == [NewEntry(x50, t1)];
    var afterA := MergeAll([], [x50, bad], check, t1);
    assert afterA == Merged(inserted, bad, t1) == inserted;
    assert [a][..0] == [];
    assert RunAll([], [a], check, t1) == afterA;
    // spider B at time t2: X:1 is found and refreshed, its creation time kept
    assert [b][..0] == [] && [x80][..0] == [];
    assert Find(afterA, ("X", "1")) == Some(0);
    var after := MergeAll(afterA, [x80], check, t2);
    assert check(x80) == x80;
    assert MergeAll(afterA, [x80][..0], check, t2) == afterA;
    assert after == Merged(MergeAll(afterA, [x80][..0], check, t2), check([x80][0]), t2);
    assert after == Merged(afterA, x80, t2);
    assert Merged(afterA, x80, t2) == [Refreshed(NewEntry(x50, t1), x80)];
    assert RunAll(afterA, [b], check, t2) == after;
  }

  /**
   * One spider's task: validate each proxy it yields and merge it, until
   * the proxies run out or processing one of them raises.
   */
  method ExecuteOneSpiderTask(table: ProxyTable, spider: Spider, check: Record -> Record, now: int)
    requires table.Valid()
    modifies table
    ensures table.Valid()
    ensures table.rows == MergeAll(old(table.rows), Processed(spider), check, now)
  {
    var i := 0;
    while i < |spider.proxies|
      invariant 0 <= i <= |Processed(spider)|
      invariant Processed(spider)[..i] == spider.proxies[..i]
      invariant table.Valid()
      invariant table.rows == MergeAll(old(table.rows), spider.proxies[..i], check, now)
    {
      if spider.failAt == Some(i) {
        // the exception ends this spider's task
        return;
      }
      var proxy := check(spider.proxies[i]);
      var outcome := table.Merge(proxy, now);
      assert spider.proxies[..i + 1][..i] == spider.proxies[..i];
      i := i + 1;
    }
    assert spider.proxies[..i] == spider.proxies;
  }

  /** `RunSpider.run`: every spider's task, with the pool's join as the end of the loop. */
  method Run(table: ProxyTable, spiders: seq<Spider>, check: Record -> Record, now: int)
    requires table.Valid()
    modifies table
    ensures table.Valid()
    ensures table.rows == RunAll(old(table.rows), spiders, check, now)
  {
    for j := 0 to |spiders|
      invariant table.Valid()
      invariant table.rows == RunAll(old(table.rows), spiders[..j], check, now)
    {
      ExecuteOneSpiderTask(table, spiders[j], check, now);
      assert spiders[..j + 1][..j] == spiders[..j];
    }
    assert spiders[..|spiders|] == spiders;
  }

  /** The spiders the configured names load to, when every name resolves. */
  ghost function LoadedSpiders(names: seq<string>, load: ((string, string)) -> Option<Spider>): seq<Spider>
    requires forall i :: 0 <= i < |names| ==> Resolvable(names[i], load)
  {
    seq(|names|, i requires 0 <= i < |names| => Loaded(names[i], load))
  }

  /** The spider one resolvable name loads to. */
  function Loaded(name: string, load: ((string, string)) -> Option<Spider>): Spider
    requires Resolvable(name, load)
  {
    load(SplitName(name).value).value
  }

  /**
   * `RunSpider.start`: resolve the configured names, then run every spider.
   * A name that does not resolve raises before any spider has run, and the
   * table is left as it was.
   */
  method Start(table: ProxyTable, names: seq<string>, load: ((string, string)) -> Option<Spider>,
               check: Record -> Record, now: int)
    returns (err: Option<ConfigError>)
    requires table.Valid()
    modifies table
    ensures table.Valid()
    ensures err.None? <==> forall i :: 0 <= i < |names| ==> Resolvable(names[i], load)
    ensures err.Some? ==> table.rows == old(table.rows)
    ensures err.None? ==> table.rows == RunAll(old(table.rows), LoadedSpiders(names, load), check, now)
  {
    var resolved := ResolveSpiders(names, load);
    if resolved.Failure? {
      return Some(resolved.error);
    }
    assert resolved.value == LoadedSpiders(names, load);
    Run(table, resolved.value, check, now);
    return None;
  }
}
