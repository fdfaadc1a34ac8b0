/**
 * The activity log of Managers/ProtectionManager.php: a PHP array from a
 * timestamp (seconds) to an entry, capped at `logs.max_logs` entries by
 * dropping the oldest ones.
 */
module ActivityLog {
  import opened Wrappers
  import PhpArray

  datatype Action = ProtectionCreated | ProtectionRemoved

  /** One log record: what happened, to whose claim, and where. */
  datatype LogEntry = LogEntry(action: Action, player: string, world: string, x: int, y: int, z: int)

  /** The stored log: (timestamp, entry) pairs in insertion order. */
  type Log = seq<(int, LogEntry)>

  /** The last `m` entries of `s` (all of them when there are fewer). */
  function LastN<T>(s: seq<T>, m: nat): seq<T>
  {
    s[|s| - Min(m, |s|)..]
  }

  /** Timestamps strictly increase along the log. */
  predicate Ascending(s: Log)
  {
    forall i, j :: 0 <= i < j < |s| ==> s[i].0 < s[j].0
  }

  /**
   * The cap on the log: when it holds more than `maxLogs` entries,
   * `array_slice($logs, -$maxLogs, null, true)`, which keeps the newest
   * `maxLogs` entries in their order (and, for a cap of 0, all of them).
   */
  function Trim(l: Log, maxLogs: int): (r: Log)
    ensures |r| <= |l| && r == l[|l| - |r|..]
    ensures |l| <= maxLogs ==> r == l
    ensures 0 <= maxLogs ==> |r| == (if maxLogs == 0 then |l| else Min(maxLogs, |l|))
    ensures PhpArray.DistinctKeys(l) ==> PhpArray.DistinctKeys(r)
  {
    if |l| > maxLogs then
      var r := PhpArray.Slice(l, -maxLogs, None);
      assert PhpArray.DistinctKeys(l) ==> PhpArray.DistinctKeys(r) by {
        if PhpArray.DistinctKeys(l) {
          PhpArray.SuffixDistinct(l, |l| - |r|);
        }
      }
      r
    else l
  }

  /**
   * The log store after `addLog` writes `entry` at second `now`: nothing
   * when logging is disabled; otherwise `$logs[now] = entry`, then the cap.
   */
  function Record(logs: Log, now: int, entry: LogEntry, enabled: bool, maxLogs: int): (r: Log)
    ensures !enabled ==> r == logs
    ensures enabled ==>
      var l := PhpArray.Set(logs, now, entry);
      |r| <= |l| && r == l[|l| - |r|..]
    ensures PhpArray.DistinctKeys(logs) ==> PhpArray.DistinctKeys(r)
    ensures enabled && 1 <= maxLogs ==> |r| <= maxLogs
  {
    if !enabled then logs else Trim(PhpArray.Set(logs, now, entry), maxLogs)
  }

  /** A fresh timestamp: the new entry goes last and the oldest entries beyond `maxLogs` are dropped. */
  lemma RecordFresh(logs: Log, now: int, entry: LogEntry, maxLogs: int)
    requires 1 <= maxLogs
    requires !PhpArray.HasKey(logs, now)
    ensures Record(logs, now, entry, true, maxLogs) == LastN(logs + [(now, entry)], maxLogs)
    ensures Record(logs, now, entry, true, maxLogs) == LastN(logs, maxLogs - 1) + [(now, entry)]
  {
    var l := PhpArray.Set(logs, now, entry);
    assert l == logs + [(now, entry)];
    TrimIsLastN(l, maxLogs);
    LastNAppend(logs, (now, entry), maxLogs);
  }

  lemma TrimIsLastN(l: Log, maxLogs: int)
    requires 1 <= maxLogs
    ensures Trim(l, maxLogs) == LastN(l, maxLogs)
  {
  }

  /** The last `m` entries after appending `x`: the last `m - 1` before it, then `x`. */
  lemma LastNAppend<T>(s: seq<T>, x: T, m: nat)
    requires 1 <= m
    ensures LastN(s + [x], m) == LastN(s, m - 1) + [x]
  {
    var t := s + [x];
    var k := |s| - Min(m - 1, |s|);
    assert |t| - Min(m, |t|) == k;
    assert t[k..] == s[k..] + [x];
  }

  /** A cap of 0 never trims: `array_slice($logs, -0)` is the whole log. */
  lemma RecordUncapped(logs: Log, now: int, entry: LogEntry)
    ensures Record(logs, now, entry, true, 0) == PhpArray.Set(logs, now, entry)
  {
    var l := PhpArray.Set(logs, now, entry);
    assert |Trim(l, 0)| == |l|;
  }

  /** Taking the last `m` of a suffix that is itself at least that long changes nothing. */
  lemma LastNOfSuffix<T>(s: seq<T>, k: nat, m: nat)
    requires k <= |s| && Min(m, |s|) <= |s| - k
    ensures LastN(s[k..], m) == LastN(s, m)
  {
    assert s[k..][|s| - k - Min(m, |s| - k)..] == s[|s| - Min(m, |s|)..];
  }

  /** `addLog` called for each event in turn, with logging on. */
  function RecordAll(logs: Log, events: Log, maxLogs: int): Log
    decreases |events|
  {
    if events == [] then logs
    else RecordAll(Record(logs, events[0].0, events[0].1, true, maxLogs), events[1..], maxLogs)
  }

  /**
   * With increasing timestamps, appending events to a log within the cap,
   * or at least one event to any log, leaves exactly the `maxLogs` most
   * recent entries (or all, if fewer), oldest first, in time order.
   */
  lemma RecordAllKeepsMostRecent(logs: Log, events: Log, maxLogs: int)
    requires 1 <= maxLogs && (|logs| <= maxLogs || events != [])
    requires Ascending(logs + events)
    ensures RecordAll(logs, events, maxLogs) == LastN(logs + events, maxLogs)
    ensures |RecordAll(logs, events, maxLogs)| == Min(maxLogs, |logs| + |events|)
    ensures Ascending(RecordAll(logs, events, maxLogs))
  {
    var all := logs + events;
    AscendingDistinct(all);
    RecordAllIsLastN(logs, events, maxLogs);
    SuffixAscending(all, |all| - Min(maxLogs, |all|));
  }

  lemma AscendingDistinct(s: Log)
    requires Ascending(s)
    ensures PhpArray.DistinctKeys(s)
  {
  }

  /** With distinct timestamps, repeated `addLog` keeps the last `maxLogs` entries of everything written. */
  lemma {:induction false} RecordAllIsLastN(logs: Log, events: Log, maxLogs: int)
    requires 1 <= maxLogs && (|logs| <= maxLogs || events != [])
    requires PhpArray.DistinctKeys(logs + events)
    ensures RecordAll(logs, events, maxLogs) == LastN(logs + events, maxLogs)
    decreases |events|
  {
    if events == [] {
      assert logs + events == logs;
    } else {
      var all := logs + events;
      var next := LastN(logs + [events[0]], maxLogs);
      var k := RecordFirst(logs, events, maxLogs);
      PhpArray.SuffixDistinct(all, k);
      RecordAllIsLastN(next, events[1..], maxLogs);
      LastNOfSuffix(all, k, maxLogs);
    }
  }

  /** The first event of a run is fresh: it appends and trims, leaving a suffix of everything written. */
  lemma RecordFirst(logs: Log, events: Log, maxLogs: int) returns (k: nat)
    requires 1 <= maxLogs && events != []
    requires PhpArray.DistinctKeys(logs + events)
    ensures Record(logs, events[0].0, events[0].1, true, maxLogs) == LastN(logs + [events[0]], maxLogs)
    ensures k <= |logs + events|
    ensures LastN(logs + [events[0]], maxLogs) + events[1..] == (logs + events)[k..]
    ensures Min(maxLogs, |logs + events|) <= |logs + events| - k
  {
    var e := events[0];
    FreshFirst(logs, events);
    RecordFresh(logs, e.0, e.1, maxLogs);
    k := |logs| + 1 - Min(maxLogs, |logs| + 1);
    LastNThenRest(logs + [e], events[1..], maxLogs);
    assert logs + [e] + events[1..] == logs + events by {
      assert events == [e] + events[1..];
    }
  }

  lemma FreshFirst(logs: Log, events: Log)
    requires events != [] && PhpArray.DistinctKeys(logs + events)
    ensures !PhpArray.HasKey(logs, events[0].0)
  {
    var all := logs + events;
    assert all[|logs|] == events[0];
    forall i | 0 <= i < |logs| ensures logs[i].0 != events[0].0 {
      assert all[i] == logs[i];
    }
  }

  lemma LastNThenRest<T>(s: seq<T>, rest: seq<T>, m: nat)
    ensures LastN(s, m) + rest == (s + rest)[|s| - Min(m, |s|)..]
  {
  }

  lemma SuffixAscending(s: Log, k: nat)
    requires Ascending(s) && k <= |s|
    ensures Ascending(s[k..])
  {
    forall i, j | 0 <= i < j < |s| - k ensures s[k..][i].0 < s[k..][j].0 {
      assert s[k..][i] == s[k + i] && s[k..][j] == s[k + j];
    }
  }

  /**
   * Two events in the same second share one key: the second replaces the
   * first in place, and the log keeps a single entry for that second.
   */
  lemma SameSecondOverwrites(logs: Log, now: int, first: LogEntry, second: LogEntry, maxLogs: int)
    requires 1 <= maxLogs
    requires PhpArray.DistinctKeys(logs)
    requires !PhpArray.HasKey(logs, now)
    ensures Record(Record(logs, now, first, true, maxLogs), now, second, true, maxLogs)
         == Record(logs, now, second, true, maxLogs)
  {
    var kept := LastN(logs, maxLogs - 1);
    RecordFresh(logs, now, first, maxLogs);
    RecordFresh(logs, now, second, maxLogs);
    var once := kept + [(now, first)];
    assert once[..|once| - 1] == kept;
    SetLast(once, now, second);
    assert |kept + [(now, second)]| <= maxLogs;
  }

  /** Writing to the key of the last entry replaces that entry only. */
  lemma SetLast(l: Log, k: int, v: LogEntry)
    requires PhpArray.DistinctKeys(l) && l != [] && l[|l| - 1].0 == k
    ensures PhpArray.Set(l, k, v) == l[..|l| - 1] + [(k, v)]
  {
    assert PhpArray.HasKey(l, k);
    var r := PhpArray.Set(l, k, v);
    forall i | 0 <= i < |l| - 1 ensures r[i] == l[i] {
      assert l[i].0 != k;
    }
  }
}
