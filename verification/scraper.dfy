/**
 * The per-line pipeline of the relay-list scraper (`main`): skip comment
 * and header lines, split a record on commas, dispatch one task per record
 * with at least 15 fields, and keep the entries whose configuration blob
 * yields a port.  The tasks run concurrently in the source and append to a
 * shared list under a mutex, so the order of the result is not fixed; the
 * model runs them one at a time in an arbitrary order and states the result
 * as a multiset.
 */
module Scraper {
  import opened Wrappers
  import opened GoStrings
  import Config
  import Base64

  /** One relay, as emitted; `configBase64` is never serialised and never set. */
  datatype VPNEntry = VPNEntry(
    hostName: string,
    ip: string,
    country: string,
    score: string,
    ping: string,
    speed: string,
    port: string,
    configBase64: string)

  /** Fewest comma-separated fields a record must have. */
  const MinFields: nat := 15
  /** Position of the base64 configuration blob among the fields. */
  const ConfigField: nat := 14

  /** A dispatched task: the fields of its record and the configuration blob it was handed. */
  datatype Task = Task(fields: seq<string>, config: string)

  predicate ValidTask(t: Task)
  {
    |t.fields| >= MinFields && t.config == t.fields[ConfigField]
  }

  predicate AllValid(tasks: seq<Task>)
  {
    forall i :: 0 <= i < |tasks| ==> ValidTask(tasks[i])
  }

  /**
   * Lines that are never parsed: comment lines, whose first character is
   * `*` or `#`, and the header line, in which `HostName` occurs.
   */
  function IsSkipped(line: string): (b: bool)
    ensures b <==> (|line| > 0 && (line[0] == '*' || line[0] == '#')) || exists i :: OccursAt(line, "HostName", i)
  {
    HasPrefix(line, "*") || HasPrefix(line, "#") || Contains(line, "HostName")
  }

  /** Lines for which a task is dispatched. */
  predicate IsDispatched(line: string)
  {
    !IsSkipped(line) && |Split(line, ',')| >= MinFields
  }

  /**
   * What a task contributes: the entry built from the record's fields by
   * position, kept only when the extracted port is non-empty.  Tasks are
   * only dispatched with at least `MinFields` fields; a shorter one would
   * contribute nothing.
   */
  function TaskResult(t: Task): (r: Option<VPNEntry>)
    ensures r.Some? <==> |t.fields| >= MinFields && Config.ExtractPort(t.config) != []
    ensures r.Some? ==>
      && r.value.hostName == t.fields[0] && r.value.ip == t.fields[1]
      && r.value.score == t.fields[2] && r.value.ping == t.fields[3]
      && r.value.speed == t.fields[4] && r.value.country == t.fields[5]
    ensures r.Some? ==>
      && r.value.port == Config.ExtractPort(t.config) && NoSpace(r.value.port)
      && r.value.configBase64 == []
  {
    if |t.fields| < MinFields then None
    else
      var f := t.fields;
      var entry := VPNEntry(f[0], f[1], f[5], f[2], f[3], f[4], Config.ExtractPort(t.config), []);
      if entry.port != [] then Some(entry) else None
  }

  /** The task dispatched for one input line, if any. */
  function LineTask(line: string): (r: Option<Task>)
    ensures r.Some? <==> IsDispatched(line)
    ensures r.Some? ==> ValidTask(r.value)
  {
    if IsSkipped(line) then None
    else
      var fields := Split(line, ',');
      if |fields| < MinFields then None
      else Some(Task(fields, fields[ConfigField]))
  }

  /** What one input line contributes to the output. */
  function LineEntry(line: string): Option<VPNEntry>
  {
    match LineTask(line)
    case None => None
    case Some(t) => TaskResult(t)
  }

  /**
   * The successful results of a step applied to every element, in order:
   * what a loop builds that appends a result only when there is one.
   */
  function Yields<T, U>(xs: seq<T>, f: T -> Option<U>): seq<U>
    decreases |xs|
  {
    if xs == [] then []
    else ToSeq(f(xs[0])) + Yields(xs[1..], f)
  }

  /** The tasks dispatched for a sequence of lines, in scan order. */
  function Dispatched(lines: seq<string>): seq<Task>
  {
    Yields(lines, LineTask)
  }

  /** The entries produced by running a sequence of tasks in that order. */
  function Outcomes(tasks: seq<Task>): seq<VPNEntry>
  {
    Yields(tasks, TaskResult)
  }

  /** The entries of all lines, in input order: the reference for the concurrent run. */
  function Collect(lines: seq<string>): seq<VPNEntry>
  {
    Yields(lines, LineEntry)
  }

  /** Number of lines for which a task is dispatched. */
  function CountDispatched(lines: seq<string>): nat
    decreases |lines|
  {
    if lines == [] then 0
    else (if IsDispatched(lines[0]) then 1 else 0) + CountDispatched(lines[1..])
  }

  /** Yields of a concatenation is the concatenation of the yields. */
  lemma {:induction false} YieldsAppend<T, U>(a: seq<T>, b: seq<T>, f: T -> Option<U>)
    ensures Yields(a + b, f) == Yields(a, f) + Yields(b, f)
    decreases |a|
  {
    if a != [] {
      assert (a + b)[0] == a[0];
      assert (a + b)[1..] == a[1..] + b;
      YieldsAppend(a[1..], b, f);
    } else {
      assert a + b == b;
    }
  }

  /** Handling one more element appends its result, if any. */
  lemma YieldsSnoc<T, U>(xs: seq<T>, i: int, f: T -> Option<U>)
    requires 0 <= i < |xs|
    ensures Yields(xs[..i + 1], f) == Yields(xs[..i], f) + ToSeq(f(xs[i]))
  {
    assert xs[..i + 1] == xs[..i] + [xs[i]];
    YieldsAppend(xs[..i], [xs[i]], f);
    YieldsSingle(xs[i], f);
  }

  /** The results around one element are those before it, its own, and those after it. */
  lemma YieldsAround<T, U>(a: seq<T>, x: T, b: seq<T>, f: T -> Option<U>)
    ensures Yields(a + [x] + b, f) == Yields(a, f) + ToSeq(f(x)) + Yields(b, f)
  {
    assert a + [x] + b == a + ([x] + b);
    YieldsAppend(a, [x] + b, f);
    YieldsCons(x, b, f);
  }

  /**
   * Taking any one element out of the input takes exactly its result out of
   * the multiset of results: the order of the remaining work does not matter.
   */
  lemma YieldsRemove<T, U>(a: seq<T>, x: T, b: seq<T>, f: T -> Option<U>)
    ensures multiset(Yields(a + [x] + b, f)) == multiset(Yields(a + b, f)) + multiset(ToSeq(f(x)))
  {
    YieldsAround(a, x, b, f);
    YieldsAppend(a, b, f);
    var ya, yx, yb := Yields(a, f), ToSeq(f(x)), Yields(b, f);
    assert multiset(ya + yx + yb) == multiset(ya + yb) + multiset(yx);
  }

  /** A sequence is its prefix, the element at the cut, and its suffix. */
  lemma SplitAround<T>(xs: seq<T>, k: int)
    requires 0 <= k < |xs|
    ensures xs == xs[..k] + [xs[k]] + xs[k + 1..]
  {
  }

  /** An element in front yields its own result in front. */
  lemma YieldsCons<T, U>(x: T, xs: seq<T>, f: T -> Option<U>)
    ensures Yields([x] + xs, f) == ToSeq(f(x)) + Yields(xs, f)
  {
    assert ([x] + xs)[0] == x;
    assert ([x] + xs)[1..] == xs;
  }

  /** A single element yields its own result. */
  lemma YieldsSingle<T, U>(x: T, f: T -> Option<U>)
    ensures Yields([x], f) == ToSeq(f(x))
  {
    assert [x][1..] == [];
  }

  /** An element is yielded exactly when some input's step produces it. */
  lemma {:induction false} YieldsMember<T, U>(xs: seq<T>, f: T -> Option<U>, y: U)
    ensures y in Yields(xs, f) <==> exists i :: 0 <= i < |xs| && f(xs[i]) == Some(y)
    decreases |xs|
  {
    if xs != [] {
      YieldsMember(xs[1..], f, y);
      if y in Yields(xs, f) {
        if f(xs[0]) != Some(y) {
          assert y in Yields(xs[1..], f);
          var i :| 0 <= i < |xs[1..]| && f(xs[1..][i]) == Some(y);
          assert f(xs[i + 1]) == Some(y);
        }
      }
      if exists i :: 0 <= i < |xs| && f(xs[i]) == Some(y) {
        var i :| 0 <= i < |xs| && f(xs[i]) == Some(y);
        if i > 0 {
          assert f(xs[1..][i - 1]) == Some(y);
        }
      }
    }
  }

  /**
   * Every collected entry has a non-empty, whitespace-free port and no
   * configuration blob, and there is at most one entry per dispatched line.
   */
  lemma {:induction false} CollectEntries(lines: seq<string>)
    ensures forall e :: e in Collect(lines) ==> e.port != [] && NoSpace(e.port) && e.configBase64 == []
    ensures |Collect(lines)| <= CountDispatched(lines)
    decreases |lines|
  {
    if lines != [] {
      CollectEntries(lines[1..]);
      var line := lines[0];
      if !IsSkipped(line) {
        var fields := Split(line, ',');
        if |fields| >= MinFields {
          var port := Config.ExtractPort(fields[ConfigField]);
          assert NoSpace(port);
        }
      }
    }
  }

  /** An entry is collected exactly when some input line produces it. */
  lemma CollectMember(lines: seq<string>, e: VPNEntry)
    ensures e in Collect(lines) <==> exists i :: 0 <= i < |lines| && LineEntry(lines[i]) == Some(e)
  {
    YieldsMember(lines, LineEntry, e);
  }

  /** A line that is skipped, or splits into too few fields, contributes nothing. */
  lemma CollectIgnores(before: seq<string>, line: string, after: seq<string>)
    requires !IsDispatched(line)
    ensures Collect(before + [line] + after) == Collect(before) + Collect(after)
  {
    assert LineTask(line) == None;
    YieldsAround(before, line, after, LineEntry);
  }

  /**
   * A record line built from fields without commas, that is not skipped,
   * yields the entry that takes its fields by position: host name 0,
   * address 1, score 2, ping 3, speed 4, country 5, and the port extracted
   * from field 14; a record whose blob yields no port yields nothing.
   */
  lemma RecordEntry(f: seq<string>)
    requires |f| >= MinFields
    requires forall j :: 0 <= j < |f| ==> ',' !in f[j]
    requires !IsSkipped(Join(f, ','))
    ensures var port := Config.ExtractPort(f[ConfigField]);
            LineEntry(Join(f, ',')) ==
              if port != [] then Some(VPNEntry(f[0], f[1], f[5], f[2], f[3], f[4], port, []))
              else None
  {
    SplitJoin(f, ',');
  }

  /**
   * End to end for one record: when field 14 is the base64 encoding of a
   * configuration whose first port line is `remote <host> <port>`, the
   * record yields the entry with that port and its other fields by position.
   */
  lemma RecordWithDirective(f: seq<string>, before: seq<string>, host: string, port: string, after: seq<string>)
    requires |f| >= MinFields
    requires forall j :: 0 <= j < |f| ==> ',' !in f[j]
    requires !IsSkipped(Join(f, ','))
    requires host != [] && NoSpace(host) && port != [] && NoSpace(port)
    requires Config.IsByteString(host) && Config.IsByteString(port)
    requires forall i :: 0 <= i < |before| ==> '\n' !in before[i] && Config.IsByteString(before[i])
    requires forall i :: 0 <= i < |after| ==> '\n' !in after[i] && Config.IsByteString(after[i])
    requires Config.NoPortLineBefore(before, |before|)
    requires var text := Join(before + [Config.Directive(host, port)] + after, '\n');
      Config.IsByteString(text) && f[ConfigField] == Base64.Encode(Config.StringToBytes(text))
    ensures LineEntry(Join(f, ',')) == Some(VPNEntry(f[0], f[1], f[5], f[2], f[3], f[4], port, []))
  {
    Config.PortOfEncodedConfig(before, host, port, after);
    RecordEntry(f);
  }

  /** The dispatched tasks are valid, one per dispatched line. */
  lemma {:induction false} DispatchedTasks(lines: seq<string>)
    ensures AllValid(Dispatched(lines))
    ensures |Dispatched(lines)| == CountDispatched(lines)
    decreases |lines|
  {
    if lines != [] {
      DispatchedTasks(lines[1..]);
      var t := ToSeq(LineTask(lines[0]));
      var rest := Dispatched(lines[1..]);
      assert Dispatched(lines) == t + rest;
      forall i | 0 <= i < |t + rest| ensures ValidTask((t + rest)[i]) {
        if i >= |t| {
          assert (t + rest)[i] == rest[i - |t|];
        }
      }
    }
  }

  /** Running the dispatched tasks in scan order yields exactly the collected entries. */
  lemma {:induction false} DispatchedOutcomes(lines: seq<string>)
    ensures Outcomes(Dispatched(lines)) == Collect(lines)
    decreases |lines|
  {
    if lines != [] {
      DispatchedOutcomes(lines[1..]);
      var t := ToSeq(LineTask(lines[0]));
      YieldsAppend(t, Dispatched(lines[1..]), TaskResult);
      if t != [] {
        assert Yields(t, TaskResult) == ToSeq(TaskResult(t[0])) + Yields([], TaskResult);
      }
    }
  }

  /** One iteration of the completion loop keeps its invariant, whichever pending task runs. */
  lemma CompleteStep(tasks: seq<Task>, before: seq<Task>, task: Task, after: seq<Task>, entries: seq<VPNEntry>)
    requires AllValid(before + [task] + after)
    requires multiset(entries) + multiset(Outcomes(before + [task] + after)) == multiset(Outcomes(tasks))
    ensures ValidTask(task) && AllValid(before + after)
    ensures multiset(entries + ToSeq(TaskResult(task))) + multiset(Outcomes(before + after))
            == multiset(Outcomes(tasks))
  {
    YieldsRemove(before, task, after, TaskResult);
    var pending := before + [task] + after;
    assert pending[|before|] == task;
    forall i | 0 <= i < |before + after| ensures ValidTask((before + after)[i]) {
      if i < |before| {
        assert (before + after)[i] == pending[i];
      } else {
        assert (before + after)[i] == pending[i + 1];
      }
    }
  }

  /** Any arrangement of the collected entries keeps their guarantees and their bound. */
  lemma EntriesOfCollect(entries: seq<VPNEntry>, lines: seq<string>)
    requires multiset(entries) == multiset(Collect(lines))
    ensures forall e :: e in entries ==> e.port != [] && NoSpace(e.port) && e.configBase64 == []
    ensures |entries| <= CountDispatched(lines)
  {
    CollectEntries(lines);
    assert |entries| == |multiset(entries)| == |multiset(Collect(lines))| == |Collect(lines)|;
    forall e | e in entries ensures e.port != [] && NoSpace(e.port) && e.configBase64 == [] {
      assert e in multiset(Collect(lines));
    }
  }

  /**
   * The body of one worker goroutine: build the entry from the record's
   * fields by position and keep it only when the extracted port is non-empty.
   */
  method RunTask(task: Task) returns (result: Option<VPNEntry>)
    requires |task.fields| >= MinFields
    ensures result.Some? <==> Config.ExtractPort(task.config) != []
    ensures result.Some? ==> result.value == VPNEntry(task.fields[0], task.fields[1], task.fields[5],
      task.fields[2], task.fields[3], task.fields[4], Config.ExtractPort(task.config), [])
    ensures result.Some? ==> result.value.port != [] && NoSpace(result.value.port)
    ensures result == TaskResult(task)
  {
    var f := task.fields;
    var port := Config.ExtractPortFromConfig(task.config);
    var entry := VPNEntry(f[0], f[1], f[5], f[2], f[3], f[4], port, []);
    if port != [] {
      result := Some(entry);
    } else {
      result := None;
    }
  }

  /**
   * main's scan loop: dispatch a task for every line that is not skipped
   * and splits into at least `MinFields` fields, handing it field
   * `ConfigField` as its configuration blob.
   */
  method DispatchTasks(lines: seq<string>) returns (tasks: seq<Task>)
    ensures tasks == Dispatched(lines)
  {
    tasks := [];
    var i := 0;
    while i < |lines|
      invariant 0 <= i <= |lines|
      invariant tasks == Dispatched(lines[..i])
    {
      var line := lines[i];
      if !(HasPrefix(line, "*") || HasPrefix(line, "#") || Contains(line, "HostName")) {
        var fields := Split(line, ',');
        if |fields| >= MinFields {
          tasks := tasks + [Task(fields, fields[ConfigField])];
        }
      }
      YieldsSnoc(lines, i, LineTask);
      i := i + 1;
    }
    assert lines[..i] == lines;
  }

  /**
   * The worker goroutines up to `wg.Wait()`: every dispatched task runs to
   * completion, in whatever order the scheduler picks, and appends its entry
   * under the mutex when the extracted port is non-empty.
   */
  method CompleteTasks(tasks: seq<Task>) returns (entries: seq<VPNEntry>)
    requires AllValid(tasks)
    ensures multiset(entries) == multiset(Outcomes(tasks))
  {
    var pending := tasks;
    entries := [];
    while pending != []
      invariant AllValid(pending)
      invariant multiset(entries) + multiset(Outcomes(pending)) == multiset(Outcomes(tasks))
      decreases |pending|
    {
      var k :| 0 <= k < |pending|;
      var before, task, after := pending[..k], pending[k], pending[k + 1..];
      SplitAround(pending, k);
      CompleteStep(tasks, before, task, after, entries);
      var result := RunTask(task);
      entries := entries + ToSeq(result);
      pending := before + after;
    }
  }

  /** The scraper from the downloaded lines to the list of entries it writes out. */
  method ScrapeEntries(lines: seq<string>) returns (entries: seq<VPNEntry>)
    ensures multiset(entries) == multiset(Collect(lines))
    ensures forall e :: e in entries ==> e.port != [] && NoSpace(e.port) && e.configBase64 == []
    ensures |entries| <= CountDispatched(lines)
  {
    var tasks := DispatchTasks(lines);
    DispatchedTasks(lines);
    DispatchedOutcomes(lines);
    entries := CompleteTasks(tasks);
    EntriesOfCollect(entries, lines);
  }
}
