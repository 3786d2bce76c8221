/**
 * The bounded access-log buffer of the debug HTTP server (main.go).
 *
 * Every request the server handles is turned into an `AccessLog` record and
 * appended to one `AccessLogger`; the `/logs` endpoint serves a copy of the
 * buffer. The buffer keeps only the most recent `size` records, oldest first.
 * The Go server's reader/writer lock is not modelled: `Add` and `GetLogs`
 * are atomic sequential operations here.
 */
module AccessLogging {

  /** One logged request; the fields are those serialized by the `/logs` endpoint. */
  datatype AccessLog = AccessLog(
    timestamp: string,
    httpMethod: string,
    path: string,
    clientAddress: string,
    clientPort: int,
    userAgent: string,
    referer: string,
    host: string)

  /** The capacity of the process-wide logger. */
  const DefaultCapacity: nat := 100

  /** The last `n` elements of `s`, or all of `s` when it is shorter. */
  function LastN<T>(s: seq<T>, n: nat): (r: seq<T>)
    ensures |r| == if |s| <= n then |s| else n
  {
    if |s| <= n then s else s[|s| - n..]
  }

  /**
   * The contents after one `Add`: `entry` appended, then only the most recent
   * `size` entries kept.
   */
  function Appended(logs: seq<AccessLog>, entry: AccessLog, size: nat): seq<AccessLog>
  {
    LastN(logs + [entry], size)
  }

  /** The contents of a logger of capacity `size` after adding `entries` in order to `logs`. */
  function Replay(logs: seq<AccessLog>, entries: seq<AccessLog>, size: nat): seq<AccessLog>
    decreases |entries|
  {
    if entries == [] then logs
    else Replay(Appended(logs, entries[0], size), entries[1..], size)
  }

  /** A logger never holds more than its capacity. */
  lemma AppendedBounded(logs: seq<AccessLog>, entry: AccessLog, size: nat)
    ensures |Appended(logs, entry, size)| <= size
    ensures |logs| < size ==> |Appended(logs, entry, size)| == |logs| + 1
    ensures size <= |logs| ==> |Appended(logs, entry, size)| == size
  {
  }

  /** Below capacity nothing is dropped: the new entry goes at the end. */
  lemma AppendedBelowCapacity(logs: seq<AccessLog>, entry: AccessLog, size: nat)
    requires |logs| < size
    ensures Appended(logs, entry, size) == logs + [entry]
  {
  }

  /**
   * At or over capacity the oldest entries go: what remains is the newest
   * `size - 1` old entries, in their old order, then the new entry.
   */
  lemma AppendedAtCapacity(logs: seq<AccessLog>, entry: AccessLog, size: nat)
    requires 0 < size <= |logs|
    ensures Appended(logs, entry, size) == logs[|logs| - size + 1..] + [entry]
  {
    var s := logs + [entry];
    assert s[|s| - size..] == logs[|logs| - size + 1..] + [entry];
  }

  /** With a positive capacity the newest entry is always the last one kept. */
  lemma AppendedEndsWithEntry(logs: seq<AccessLog>, entry: AccessLog, size: nat)
    requires 0 < size
    ensures |Appended(logs, entry, size)| > 0
    ensures Appended(logs, entry, size)[|Appended(logs, entry, size)| - 1] == entry
  {
  }

  /** With capacity zero nothing is ever kept. */
  lemma AppendedZeroCapacity(logs: seq<AccessLog>, entry: AccessLog)
    ensures Appended(logs, entry, 0) == []
  {
  }

  /**
   * Adding `entries` one by one to a valid buffer leaves exactly the last
   * `size` entries of everything it has held, in insertion order (FIFO eviction).
   */
  lemma {:induction false} ReplayKeepsLast(logs: seq<AccessLog>, entries: seq<AccessLog>, size: nat)
    requires |logs| <= size
    ensures Replay(logs, entries, size) == LastN(logs + entries, size)
    decreases |entries|
  {
    if entries == [] {
      assert logs + entries == logs;
    } else {
      var next := Appended(logs, entries[0], size);
      ReplayKeepsLast(next, entries[1..], size);
      TrimThenExtend(logs + [entries[0]], entries[1..], size);
      assert logs + [entries[0]] + entries[1..] == logs + entries;
    }
  }

  /** Trimming a prefix to its last `n` entries does not change the last `n` of an extension. */
  lemma TrimThenExtend<T>(s: seq<T>, rest: seq<T>, n: nat)
    ensures LastN(LastN(s, n) + rest, n) == LastN(s + rest, n)
  {
    if n < |s| {
      var t := LastN(s, n);
      var a, b := t + rest, s + rest;
      assert a == b[|s| - n..];
    }
  }

  /**
   * The buffer itself. `logs` holds the retained records, oldest first;
   * `size` is the capacity fixed at construction.
   */
  class AccessLogger {
    var logs: seq<AccessLog>
    const size: nat

    /** The object invariant: the buffer is never over capacity. */
    ghost predicate Valid()
      reads this
    {
      |logs| <= size
    }

    /** A fresh, empty logger that remembers its capacity. */
    constructor (size: nat)
      ensures Valid()
      ensures this.size == size && logs == []
    {
      this.size := size;
      logs := [];
    }

    /** Appends `entry` and trims the front so that only the last `size` entries remain. */
    method Add(entry: AccessLog)
      requires Valid()
      modifies this
      ensures Valid()
      ensures logs == Appended(old(logs), entry, size)
    {
      logs := logs + [entry];
      if |logs| > size {
        logs := logs[|logs| - size..];
      }
    }

    /** Copies the contents, oldest first, into a newly allocated array. */
    method GetLogs() returns (result: array<AccessLog>)
      ensures fresh(result)
      ensures result[..] == logs
    {
      result := new AccessLog[|logs|];
      var i := 0;
      while i < |logs|
        invariant 0 <= i <= |logs| == result.Length
        invariant result[..i] == logs[..i]
      {
        result[i] := logs[i];
        i := i + 1;
      }
    }
  }

  /** The process-wide logger is created with capacity 100. */
  method NewDefaultLogger() returns (logger: AccessLogger)
    ensures fresh(logger) && logger.Valid()
    ensures logger.size == DefaultCapacity && logger.logs == []
  {
    logger := new AccessLogger(DefaultCapacity);
  }

  /**
   * Five adds to a capacity-3 logger leave exactly the last three, in order.
   */
  method FiveIntoThree(a: AccessLog, b: AccessLog, c: AccessLog, d: AccessLog, e: AccessLog)
    returns (snapshot: seq<AccessLog>)
    ensures snapshot == [c, d, e]
  {
    var logger := new AccessLogger(3);
    logger.Add(a);
    assert logger.logs == [a] by { AppendedBelowCapacity([], a, 3); }
    logger.Add(b);
    assert logger.logs == [a, b] by { AppendedBelowCapacity([a], b, 3); }
    logger.Add(c);
    assert logger.logs == [a, b, c] by { AppendedBelowCapacity([a, b], c, 3); }
    logger.Add(d);
    assert logger.logs == [b, c, d] by { AppendedAtCapacity([a, b, c], d, 3); }
    logger.Add(e);
    assert logger.logs == [c, d, e] by { AppendedAtCapacity([b, c, d], e, 3); }
    var copy := logger.GetLogs();
    snapshot := copy[..];
  }

  /**
   * Two adds to the default logger both appear, in insertion order.
   */
  method TwoIntoDefault(first: AccessLog, second: AccessLog) returns (snapshot: seq<AccessLog>)
    ensures snapshot == [first, second]
  {
    var logger := NewDefaultLogger();
    logger.Add(first);
    assert logger.logs == [first] by { AppendedBelowCapacity([], first, DefaultCapacity); }
    logger.Add(second);
    assert logger.logs == [first, second] by { AppendedBelowCapacity([first], second, DefaultCapacity); }
    var copy := logger.GetLogs();
    snapshot := copy[..];
  }

  /**
   * A snapshot is independent of the logger: a later `Add` leaves it as it was,
   * and reading the logger changes nothing.
   */
  method SnapshotSurvivesAdd(logger: AccessLogger, entry: AccessLog)
    returns (snapshot: array<AccessLog>)
    requires logger.Valid()
    modifies logger
    ensures fresh(snapshot)
    ensures snapshot[..] == old(logger.logs)
    ensures logger.logs == Appended(old(logger.logs), entry, logger.size)
  {
    snapshot := logger.GetLogs();
    logger.Add(entry);
  }
}
