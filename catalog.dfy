/**
 * The proxy catalog: the `Proxy` table and the merge (upsert) that one
 * validated proxy performs on it, from the inner body of
 * `RunSpider.__execute_one_spider_task` in file_celery/schedule_spider.py.
 *
 * The table is a sequence of rows. A row is looked up by its
 * `(ip, port)` key with the first matching row winning, as
 * `query(Proxy).filter(...).first()` does; the invariant `Unique` says
 * that no two rows share a key.
 */
module Catalog {
  import opened Wrappers

  /** The speed `check_proxy` reports for an unreachable proxy. */
  const INVALID_SPEED: int := -1

  /** `settings.MAX_SCORE`, the score a rediscovered proxy is reset to. */
  const MAX_SCORE: int := 50

  /** The composite score column: `{'score': ..., 'power': ...}`. */
  datatype Score = Score(score: int, power: int)

  /** A proxy as `check_proxy` returns it: a candidate plus its validation outcome. */
  datatype Record = Record(
    ip: string,
    port: string,
    protocol: int,
    nickType: int,
    speed: int,
    area: string,
    score: Score,
    disableDomain: seq<string>,
    origin: string)

  /** A persisted row of the `Proxy` table. */
  datatype Entry = Entry(
    ip: string,
    port: string,
    protocol: int,
    nickType: int,
    speed: int,
    area: string,
    score: Score,
    disableDomain: seq<string>,
    origin: string,
    createTime: int)

  /** What the merge of one record did (the three branches the source logs). */
  datatype Outcome = Inserted | Updated | Rejected

  type Key = (string, string)

  function KeyOf(e: Entry): Key { (e.ip, e.port) }

  function RecordKey(r: Record): Key { (r.ip, r.port) }

  predicate IsValid(r: Record) { r.speed != INVALID_SPEED }

  /** The set of keys present in the table. */
  ghost function Keys(rows: seq<Entry>): set<Key> {
    set i | 0 <= i < |rows| :: KeyOf(rows[i])
  }

  /** At most one row per `(ip, port)` key. */
  ghost predicate Unique(rows: seq<Entry>) {
    forall i, j :: 0 <= i < j < |rows| ==> KeyOf(rows[i]) != KeyOf(rows[j])
  }

  /** The index of the first row whose key is `k`, if any. */
  function Find(rows: seq<Entry>, k: Key): (r: Option<nat>)
    ensures r.Some? ==> r.value < |rows| && KeyOf(rows[r.value]) == k
    ensures r.Some? ==> forall j :: 0 <= j < r.value ==> KeyOf(rows[j]) != k
    ensures r.None? <==> k !in Keys(rows)
  {
    if |rows| == 0 then None
    else if KeyOf(rows[0]) == k then Some(0)
    else match Find(rows[1..], k)
      case None =>
        assert Keys(rows) == {KeyOf(rows[0])} + Keys(rows[1..]) by {
          KeysCons(rows);
        }
        None
      case Some(i) => Some(i + 1)
  }

  lemma KeysCons(rows: seq<Entry>)
    requires |rows| > 0
    ensures Keys(rows) == {KeyOf(rows[0])} + Keys(rows[1..])
  {
    forall k | k in Keys(rows) ensures k in {KeyOf(rows[0])} + Keys(rows[1..]) {
      var i :| 0 <= i < |rows| && KeyOf(rows[i]) == k;
      if i > 0 { assert KeyOf(rows[1..][i - 1]) == k; }
    }
    forall k | k in Keys(rows[1..]) ensures k in Keys(rows) {
      var i :| 0 <= i < |rows[1..]| && KeyOf(rows[1..][i]) == k;
      assert KeyOf(rows[i + 1]) == k;
    }
  }

  /** The row inserted for a key not yet in the table. */
  function NewEntry(r: Record, now: int): Entry {
    Entry(r.ip, r.port, r.protocol, r.nickType, r.speed, r.area, r.score,
          r.disableDomain, r.origin, now)
  }

  /** An existing row after its proxy is seen again. */
  function Refreshed(e: Entry, r: Record): Entry {
    e.(score := Score(MAX_SCORE, 0), port := r.port, protocol := r.protocol,
       nickType := r.nickType, speed := r.speed, area := r.area,
       disableDomain := r.disableDomain, origin := r.origin)
  }

  /** The table after merging one validated record at time `now`. */
  function Merged(rows: seq<Entry>, r: Record, now: int): seq<Entry> {
    if !IsValid(r) then rows
    else match Find(rows, RecordKey(r))
      case None => rows + [NewEntry(r, now)]
      case Some(i) => rows[i := Refreshed(rows[i], r)]
  }

  /** The outcome `Merged` reports. */
  function MergeOutcome(rows: seq<Entry>, r: Record): (o: Outcome)
    ensures o == Rejected <==> r.speed == INVALID_SPEED
    ensures o == Inserted <==> IsValid(r) && RecordKey(r) !in Keys(rows)
    ensures o == Updated <==> IsValid(r) && RecordKey(r) in Keys(rows)
  {
    if !IsValid(r) then Rejected
    else if Find(rows, RecordKey(r)).None? then Inserted
    else Updated
  }

  /** A record with the invalid speed leaves the table exactly as it was. */
  lemma MergeRejected(rows: seq<Entry>, r: Record, now: int)
    requires r.speed == INVALID_SPEED
    ensures Merged(rows, r, now) == rows
  {
  }

  /**
   * A valid record with an unseen key adds exactly one row, carrying the
   * record's fields and the creation time `now`; every old row stays.
   */
  lemma MergeInserts(rows: seq<Entry>, r: Record, now: int)
    requires IsValid(r) && RecordKey(r) !in Keys(rows)
    ensures var m := Merged(rows, r, now);
      && |m| == |rows| + 1
      && m[..|rows|] == rows
      && var e := m[|rows|];
      && e.ip == r.ip && e.port == r.port && e.protocol == r.protocol
      && e.nickType == r.nickType && e.speed == r.speed && e.area == r.area
      && e.score == r.score && e.disableDomain == r.disableDomain
      && e.origin == r.origin && e.createTime == now
  {
    assert Find(rows, RecordKey(r)).None?;
    assert (rows + [NewEntry(r, now)])[..|rows|] == rows;
  }

  /**
   * A valid record with a key already present updates that row in place:
   * the count is unchanged, the score is reset to `MAX_SCORE` with power 0
   * whatever it was, the mutable fields take the record's values, the key
   * and the creation time stay, and no other row changes.
   */
  lemma MergeUpdates(rows: seq<Entry>, r: Record, now: int)
    requires IsValid(r) && RecordKey(r) in Keys(rows)
    ensures var m := Merged(rows, r, now);
      && |m| == |rows|
      && (exists i ::
            && 0 <= i < |rows| && KeyOf(rows[i]) == RecordKey(r)
            && KeyOf(m[i]) == KeyOf(rows[i])
            && m[i].score == Score(MAX_SCORE, 0)
            && m[i].protocol == r.protocol && m[i].nickType == r.nickType
            && m[i].speed == r.speed && m[i].area == r.area
            && m[i].disableDomain == r.disableDomain && m[i].origin == r.origin
            && m[i].createTime == rows[i].createTime
            && (forall j :: 0 <= j < |rows| && j != i ==> m[j] == rows[j]))
  {
    var i := Find(rows, RecordKey(r)).value;
    var m := Merged(rows, r, now);
    assert m == rows[i := Refreshed(rows[i], r)];
    assert KeyOf(m[i]) == KeyOf(rows[i]);
  }

  /** Merging adds the record's key to the key set when, and only when, it is valid. */
  lemma MergedKeys(rows: seq<Entry>, r: Record, now: int)
    ensures Keys(Merged(rows, r, now)) ==
      if IsValid(r) then Keys(rows) + {RecordKey(r)} else Keys(rows)
  {
    var m := Merged(rows, r, now);
    if IsValid(r) {
      match Find(rows, RecordKey(r))
      case None =>
        assert m == rows + [NewEntry(r, now)];
        forall k | k in Keys(m) ensures k in Keys(rows) + {RecordKey(r)} {
          var i :| 0 <= i < |m| && KeyOf(m[i]) == k;
          if i < |rows| { assert m[i] == rows[i]; }
        }
        forall k | k in Keys(rows) ensures k in Keys(m) {
          var i :| 0 <= i < |rows| && KeyOf(rows[i]) == k;
          assert m[i] == rows[i];
        }
        assert KeyOf(m[|rows|]) == RecordKey(r);
      case Some(i) =>
        assert KeyOf(Refreshed(rows[i], r)) == KeyOf(rows[i]);
        forall j | 0 <= j < |rows| ensures KeyOf(m[j]) == KeyOf(rows[j]) { }
        forall k | k in Keys(m) ensures k in Keys(rows) {
          var j :| 0 <= j < |m| && KeyOf(m[j]) == k;
        }
        forall k | k in Keys(rows) ensures k in Keys(m) {
          var j :| 0 <= j < |rows| && KeyOf(rows[j]) == k;
          assert KeyOf(m[j]) == k;
        }
    }
  }

  /** Every merge keeps at most one row per key: insertion happens only after the lookup found none. */
  lemma MergedUnique(rows: seq<Entry>, r: Record, now: int)
    requires Unique(rows)
    ensures Unique(Merged(rows, r, now))
  {
    var m := Merged(rows, r, now);
    if IsValid(r) {
      match Find(rows, RecordKey(r))
      case None =>
        forall i, j | 0 <= i < j < |m| ensures KeyOf(m[i]) != KeyOf(m[j]) {
          if j == |rows| {
            assert KeyOf(rows[i]) in Keys(rows);
          } else {
            assert m[i] == rows[i] && m[j] == rows[j];
          }
        }
      case Some(p) =>
        forall i, j | 0 <= i < j < |m| ensures KeyOf(m[i]) != KeyOf(m[j]) {
          assert KeyOf(m[i]) == KeyOf(rows[i]) && KeyOf(m[j]) == KeyOf(rows[j]);
        }
    }
  }

  /** The row count changes by exactly one on an insert and not at all otherwise. */
  lemma MergedCount(rows: seq<Entry>, r: Record, now: int)
    ensures |Merged(rows, r, now)| ==
      if IsValid(r) && RecordKey(r) !in Keys(rows) then |rows| + 1 else |rows|
  {
  }

  /** Replaying a valid record changes neither the key set nor the count the second time. */
  lemma MergeReplay(rows: seq<Entry>, r: Record, t1: int, t2: int)
    ensures var once := Merged(rows, r, t1);
      && Keys(Merged(once, r, t2)) == Keys(once)
      && |Merged(once, r, t2)| == |once|
  {
    var once := Merged(rows, r, t1);
    MergedKeys(rows, r, t1);
    MergedKeys(once, r, t2);
    MergedCount(once, r, t2);
  }

  /** In a table with unique keys the row count is the number of keys. */
  lemma {:induction false} UniqueCount(rows: seq<Entry>)
    requires Unique(rows)
    ensures |Keys(rows)| == |rows|
  {
    if |rows| > 0 {
      KeysCons(rows);
      UniqueCount(rows[1..]);
      assert KeyOf(rows[0]) !in Keys(rows[1..]) by {
        forall i | 0 <= i < |rows[1..]| ensures KeyOf(rows[1..][i]) != KeyOf(rows[0]) {
          assert rows[1..][i] == rows[i + 1];
        }
      }
    }
  }

  /** The `Proxy` table, updated in place by each merge. */
  class ProxyTable {
    var rows: seq<Entry>

    ghost predicate Valid()
      reads this
    {
      Unique(rows)
    }

    constructor (initial: seq<Entry>)
      requires Unique(initial)
      ensures Valid() && rows == initial
    {
      rows := initial;
    }

    /** `session.query(Proxy).count()` */
    function Count(): (n: nat)
      reads this
      requires Valid()
      ensures n == |Keys(rows)|
    {
      UniqueCount(rows);
      |rows|
    }

    /**
     * Merge one validated proxy: reject it on the invalid speed, insert it
     * when no row has its key, otherwise refresh the row that has it.
     */
    method Merge(r: Record, now: int) returns (outcome: Outcome)
      requires Valid()
      modifies this
      ensures Valid()
      ensures rows == Merged(old(rows), r, now)
      ensures outcome == MergeOutcome(old(rows), r)
    {
      MergedUnique(rows, r, now);
      if r.speed != INVALID_SPEED {
        var exist := Find(rows, RecordKey(r));
        if exist.None? {
          rows := rows + [NewEntry(r, now)];
          outcome := Inserted;
        } else {
          var i := exist.value;
          rows := rows[i := Refreshed(rows[i], r)];
          outcome := Updated;
        }
      } else {
        outcome := Rejected;
      }
    }
  }
}
