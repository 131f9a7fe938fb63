/**
 * Building the table from the two samtools logs. Both logs alternate a
 * library name line and a read-count line; record k takes its name from
 * line 2k of the experimental log and its counts from line 2k+1 of each log.
 * A log is given as the list `file.readlines()` returns.
 */
module CountLogs {
  import opened Wrappers
  import opened PyText
  import opened Records

  function NameLine(log: seq<string>, k: nat): string
    requires 2 * k < |log|
  {
    log[2 * k]
  }

  function CountLine(log: seq<string>, k: nat): string
    requires 2 * k + 1 < |log|
  {
    log[2 * k + 1]
  }

  /** One turn of the reading loop, failing where the script raises. */
  function ReadRecord(exp: seq<string>, spike: seq<string>, k: nat): Result<Library, Failure>
  {
    var i := 2 * k;
    if i >= |exp| then Err(MissingLine(Experimental, i))
    else if i + 1 >= |exp| then Err(MissingLine(Experimental, i + 1))
    else match ParseCount(exp[i + 1])
      case None => Err(NotAnInteger(Experimental, i + 1))
      case Some(scer) =>
        if i + 1 >= |spike| then Err(MissingLine(SpikeIn, i + 1))
        else match ParseCount(spike[i + 1])
          case None => Err(NotAnInteger(SpikeIn, i + 1))
          case Some(spom) => Ok(Library(StripNewlines(exp[i]), scer, spom))
  }

  /** The first n records, or the first failure met while reading them. */
  function PairPrefix(exp: seq<string>, spike: seq<string>, n: nat): Result<seq<Library>, Failure>
  {
    if n == 0 then Ok([])
    else match PairPrefix(exp, spike, n - 1)
      case Err(e) => Err(e)
      case Ok(rs) =>
        match ReadRecord(exp, spike, n - 1)
        case Err(e) => Err(e)
        case Ok(r) => Ok(rs + [r])
  }

  /** The table the script builds from the two logs (lines 23-51). */
  function PairLogs(exp: seq<string>, spike: seq<string>): Result<seq<Library>, Failure>
  {
    PairPrefix(exp, spike, RecordCount)
  }

  /** The data frame constructor of lines 45-51: three equally long columns side by side. */
  function Zip(names: seq<string>, scer: seq<int>, spom: seq<int>): (t: seq<Library>)
    requires |names| == |scer| == |spom|
    ensures |t| == |names|
    ensures forall i :: 0 <= i < |t| ==> t[i] == Library(names[i], scer[i], spom[i])
  {
    seq(|names|, i requires 0 <= i < |names| => Library(names[i], scer[i], spom[i]))
  }

  lemma {:induction false} PairPrefixFails(exp: seq<string>, spike: seq<string>, k: nat, n: nat, e: Failure)
    requires k < n
    requires PairPrefix(exp, spike, k).Ok? && ReadRecord(exp, spike, k) == Err(e)
    ensures PairPrefix(exp, spike, n) == Err(e)
    decreases n
  {
    if n - 1 > k {
      PairPrefixFails(exp, spike, k, n - 1, e);
    }
  }

  /** One turn of the reading loop of lines 27-37: the name line, then the two count lines. */
  method ReadLibrary(exp: seq<string>, spike: seq<string>, k: nat) returns (r: Result<Library, Failure>)
    ensures r == ReadRecord(exp, spike, k)
  {
    var i := 2 * k;
    if i >= |exp| {
      return Err(MissingLine(Experimental, i));
    }
    var name := StripNewlines(exp[i]);
    if i + 1 >= |exp| {
      return Err(MissingLine(Experimental, i + 1));
    }
    var scer := ParseCount(exp[i + 1]);
    if scer.None? {
      return Err(NotAnInteger(Experimental, i + 1));
    }
    if i + 1 >= |spike| {
      return Err(MissingLine(SpikeIn, i + 1));
    }
    var spom := ParseCount(spike[i + 1]);
    if spom.None? {
      return Err(NotAnInteger(SpikeIn, i + 1));
    }
    r := Ok(Library(name, scer.value, spom.value));
  }

  /**
   * The reading loop of lines 23-38 and the frame of lines 45-51, run for the
   * first n records (the comment of line 26 asks for the range bound to match
   * the logs): the three lists grow by one entry per turn; the first
   * unreadable line ends the run.
   */
  method ReadRecords(exp: seq<string>, spike: seq<string>, n: nat) returns (r: Result<seq<Library>, Failure>)
    ensures r == PairPrefix(exp, spike, n)
  {
    var libraries: seq<string> := [];
    var scerCounts: seq<int> := [];
    var spomCounts: seq<int> := [];
    var k := 0;
    while k < n
      invariant 0 <= k <= n
      invariant |libraries| == |scerCounts| == |spomCounts| == k
      invariant PairPrefix(exp, spike, k) == Ok(Zip(libraries, scerCounts, spomCounts))
    {
      var record := ReadLibrary(exp, spike, k);
      if record.Err? {
        PairPrefixFails(exp, spike, k, n, record.error);
        return Err(record.error);
      }
      var lib := record.value;
      ZipAppend(libraries, scerCounts, spomCounts, lib.name, lib.scer, lib.spom);
      PairPrefixStep(exp, spike, k, Zip(libraries, scerCounts, spomCounts), lib);
      libraries := libraries + [lib.name];
      scerCounts := scerCounts + [lib.scer];
      spomCounts := spomCounts + [lib.spom];
      k := k + 1;
    }
    r := Ok(Zip(libraries, scerCounts, spomCounts));
  }

  /** The script as written: `range(0, 32, 2)`, 16 records. */
  method ReadCounts(exp: seq<string>, spike: seq<string>) returns (r: Result<seq<Library>, Failure>)
    ensures r == PairLogs(exp, spike)
  {
    r := ReadRecords(exp, spike, RecordCount);
  }

  lemma PairPrefixStep(exp: seq<string>, spike: seq<string>, k: nat, prefix: seq<Library>, r: Library)
    requires PairPrefix(exp, spike, k) == Ok(prefix) && ReadRecord(exp, spike, k) == Ok(r)
    ensures PairPrefix(exp, spike, k + 1) == Ok(prefix + [r])
  {
  }

  lemma ZipAppend(names: seq<string>, scer: seq<int>, spom: seq<int>, name: string, c: int, d: int)
    requires |names| == |scer| == |spom|
    ensures Zip(names + [name], scer + [c], spom + [d]) == Zip(names, scer, spom) + [Library(name, c, d)]
  {
  }

  /** Every count line of the first n records exists in its log and holds an integer. */
  predicate Readable(exp: seq<string>, spike: seq<string>, n: nat)
  {
    2 * n <= |exp| && 2 * n <= |spike| &&
    forall k :: 0 <= k < n ==>
      ParseCount(CountLine(exp, k)).Some? && ParseCount(CountLine(spike, k)).Some?
  }

  /** Record k holds the name of line 2k and the integers of line 2k+1 of each log. */
  predicate RecordFromLines(exp: seq<string>, spike: seq<string>, k: nat, r: Library)
    requires 2 * k + 1 < |exp| && 2 * k + 1 < |spike|
  {
    r.name == StripNewlines(NameLine(exp, k)) &&
    ParseCount(CountLine(exp, k)) == Some(r.scer) &&
    ParseCount(CountLine(spike, k)) == Some(r.spom)
  }

  /** One turn of the loop succeeds exactly when both of its count lines exist and hold integers. */
  lemma ReadRecordSpec(exp: seq<string>, spike: seq<string>, k: nat)
    ensures ReadRecord(exp, spike, k).Ok? <==>
      2 * k + 1 < |exp| && 2 * k + 1 < |spike| &&
      ParseCount(CountLine(exp, k)).Some? && ParseCount(CountLine(spike, k)).Some?
    ensures ReadRecord(exp, spike, k).Ok? ==> RecordFromLines(exp, spike, k, ReadRecord(exp, spike, k).value)
  {
  }

  /** The first n records are the results of the first n turns, in order. */
  lemma {:induction false} PairPrefixRecords(exp: seq<string>, spike: seq<string>, n: nat)
    requires PairPrefix(exp, spike, n).Ok?
    ensures var t := PairPrefix(exp, spike, n).value;
      |t| == n && forall k :: 0 <= k < n ==> ReadRecord(exp, spike, k) == Ok(t[k])
  {
    if n > 0 {
      var k := n - 1;
      PairPrefixRecords(exp, spike, k);
      var prefix := PairPrefix(exp, spike, k).value;
      var r := ReadRecord(exp, spike, k).value;
      PairPrefixStep(exp, spike, k, prefix, r);
      var t := prefix + [r];
      assert ReadRecord(exp, spike, k) == Ok(r);
      forall j | 0 <= j < n ensures ReadRecord(exp, spike, j) == Ok(t[j]) {
        if j < k {
          assert t[j] == prefix[j];
        } else {
          assert t[j] == r;
        }
      }
    }
  }

  /** The first n turns all succeed exactly when their lines are there and readable. */
  lemma {:induction false} PairPrefixOk(exp: seq<string>, spike: seq<string>, n: nat)
    ensures PairPrefix(exp, spike, n).Ok? <==> Readable(exp, spike, n)
  {
    if n > 0 {
      var k := n - 1;
      PairPrefixOk(exp, spike, k);
      ReadRecordSpec(exp, spike, k);
      ReadableStep(exp, spike, k);
      assert PairPrefix(exp, spike, n).Ok? <==> PairPrefix(exp, spike, k).Ok? && ReadRecord(exp, spike, k).Ok?;
    }
  }

  lemma ReadableStep(exp: seq<string>, spike: seq<string>, k: nat)
    ensures Readable(exp, spike, k + 1) <==>
      (Readable(exp, spike, k) && 2 * k + 1 < |exp| && 2 * k + 1 < |spike| &&
       ParseCount(CountLine(exp, k)).Some? && ParseCount(CountLine(spike, k)).Some?)
  {
    if Readable(exp, spike, k + 1) {
      assert Readable(exp, spike, k);
    }
  }

  lemma PairPrefixSpec(exp: seq<string>, spike: seq<string>, n: nat)
    ensures PairPrefix(exp, spike, n).Ok? <==> Readable(exp, spike, n)
    ensures PairPrefix(exp, spike, n).Ok? ==>
      var t := PairPrefix(exp, spike, n).value;
      |t| == n && forall k :: 0 <= k < n ==> RecordFromLines(exp, spike, k, t[k])
  {
    PairPrefixOk(exp, spike, n);
    if PairPrefix(exp, spike, n).Ok? {
      PairPrefixRecords(exp, spike, n);
      var t := PairPrefix(exp, spike, n).value;
      forall k | 0 <= k < n ensures RecordFromLines(exp, spike, k, t[k]) {
        ReadRecordSpec(exp, spike, k);
      }
    }
  }

  /**
   * The pairing of lines 27-37: the logs yield a table exactly when every
   * count line read exists and holds an integer; the table then has 16
   * records in log order, record k built from lines 2k and 2k+1.
   */
  lemma PairLogsSpec(exp: seq<string>, spike: seq<string>)
    ensures PairLogs(exp, spike).Ok? <==> Readable(exp, spike, RecordCount)
    ensures PairLogs(exp, spike).Ok? ==>
      var t := PairLogs(exp, spike).value;
      |t| == RecordCount && forall k :: 0 <= k < RecordCount ==> RecordFromLines(exp, spike, k, t[k])
  {
    PairPrefixSpec(exp, spike, RecordCount);
  }

  /**
   * A failing turn k fails on line 2k or 2k+1; a spike-in fault comes after a
   * readable experimental count; when the experimental log reaches line 2k,
   * a missing experimental line is the one just past its end.
   */
  lemma ReadRecordFailure(exp: seq<string>, spike: seq<string>, k: nat)
    requires ReadRecord(exp, spike, k).Err?
    ensures var e := ReadRecord(exp, spike, k).error;
      !e.ReferenceNotInput? && (e.line == 2 * k || e.line == 2 * k + 1) && e.line / 2 == k &&
      (e.log == SpikeIn ==> e.line < |exp| && ParseCount(exp[e.line]).Some?) &&
      (e.MissingLine? && e.log == Experimental && 2 * k <= |exp| ==> e.line == |exp|)
  {
    Halves(k);
  }

  lemma {:induction false} PairPrefixFailure(exp: seq<string>, spike: seq<string>, n: nat)
    requires PairPrefix(exp, spike, n).Err?
    ensures match PairPrefix(exp, spike, n).error
      case MissingLine(Experimental, l) => l < 2 * n && l >= |exp|
      case MissingLine(SpikeIn, l) => l < 2 * n && l >= |spike| && l % 2 == 1
      case NotAnInteger(Experimental, l) => l < 2 * n && l < |exp| && l % 2 == 1 && ParseCount(exp[l]).None?
      case NotAnInteger(SpikeIn, l) => l < 2 * n && l < |spike| && l % 2 == 1 && ParseCount(spike[l]).None?
      case ReferenceNotInput(_) => false
  {
    var k := n - 1;
    if PairPrefix(exp, spike, k).Err? {
      assert PairPrefix(exp, spike, n) == PairPrefix(exp, spike, k);
      PairPrefixFailure(exp, spike, k);
    } else {
      assert PairPrefix(exp, spike, n).error == ReadRecord(exp, spike, k).error;
    }
  }

  /**
   * The failure reported is the first the loop meets: the records before its
   * line are readable, and a missing experimental line is the first line past
   * the end of that log.
   */
  lemma {:induction false} PairPrefixFirstFailure(exp: seq<string>, spike: seq<string>, n: nat)
    requires PairPrefix(exp, spike, n).Err?
    ensures var e := PairPrefix(exp, spike, n).error;
      !e.ReferenceNotInput? && Readable(exp, spike, e.line / 2) &&
      (e.log == SpikeIn ==> e.line < |exp| && ParseCount(exp[e.line]).Some?) &&
      (e.MissingLine? && e.log == Experimental ==> e.line == |exp|)
  {
    var k := n - 1;
    if PairPrefix(exp, spike, k).Err? {
      assert PairPrefix(exp, spike, n) == PairPrefix(exp, spike, k);
      PairPrefixFirstFailure(exp, spike, k);
    } else {
      assert PairPrefix(exp, spike, n).error == ReadRecord(exp, spike, k).error;
      PairPrefixOk(exp, spike, k);
      ReadRecordFailure(exp, spike, k);
    }
  }

  /**
   * A failed read names a real fault: a line index past the end of its log,
   * or a count line of that log that `int()` rejects. It is the first fault
   * the loop meets: every record before its line is readable, and a fault in
   * the spike-in log comes after the experimental count line of the same turn
   * was read, and a missing experimental line is the first one past the end
   * of that log. Reading never fails on the alpha reference.
   */
  lemma PairLogsFailure(exp: seq<string>, spike: seq<string>)
    requires PairLogs(exp, spike).Err?
    ensures match PairLogs(exp, spike).error
      case MissingLine(Experimental, l) => l < 2 * RecordCount && l >= |exp|
      case MissingLine(SpikeIn, l) => l < 2 * RecordCount && l >= |spike| && l % 2 == 1
      case NotAnInteger(Experimental, l) => l < 2 * RecordCount && l < |exp| && l % 2 == 1 && ParseCount(exp[l]).None?
      case NotAnInteger(SpikeIn, l) => l < 2 * RecordCount && l < |spike| && l % 2 == 1 && ParseCount(spike[l]).None?
      case ReferenceNotInput(_) => false
    ensures var e := PairLogs(exp, spike).error;
      !e.ReferenceNotInput? && Readable(exp, spike, e.line / 2) &&
      (e.log == SpikeIn ==> e.line < |exp| && ParseCount(exp[e.line]).Some?) &&
      (e.MissingLine? && e.log == Experimental ==> e.line == |exp|)
  {
    PairPrefixFailure(exp, spike, RecordCount);
    PairPrefixFirstFailure(exp, spike, RecordCount);
  }

  /** Library names come from the experimental log only: the spike-in log's name lines are never read. */
  lemma NamesFromExperimentalLog(exp: seq<string>, spike1: seq<string>, spike2: seq<string>)
    requires PairLogs(exp, spike1).Ok? && PairLogs(exp, spike2).Ok?
    ensures Names(PairLogs(exp, spike1).value) == Names(PairLogs(exp, spike2).value)
  {
    PairLogsSpec(exp, spike1);
    PairLogsSpec(exp, spike2);
  }

  /** The log samtools would write for a table: name line, then count line, per library. */
  function RenderLog(t: seq<Library>, log: Log): seq<string>
  {
    seq(2 * |t|, i requires 0 <= i < 2 * |t| => LogLine(t, log, i))
  }

  /** Line i of a rendered log: the name or the count of library i / 2. */
  function LogLine(t: seq<Library>, log: Log, i: nat): string
    requires i < 2 * |t|
  {
    var r := t[i / 2];
    if i % 2 == 0 then r.name + "\n" else Show(CountOf(r, log)) + "\n"
  }

  function CountOf(r: Library, log: Log): int
  {
    if log == Experimental then r.scer else r.spom
  }

  /** Library k of a rendered log sits on lines 2k and 2k+1. */
  lemma RenderLogAt(t: seq<Library>, log: Log, k: nat)
    requires k < |t|
    ensures |RenderLog(t, log)| == 2 * |t|
    ensures NameLine(RenderLog(t, log), k) == t[k].name + "\n"
    ensures CountLine(RenderLog(t, log), k) == Show(CountOf(t[k], log)) + "\n"
  {
    RenderedNameLine(t, log, k);
    RenderedCountLine(t, log, k);
  }

  lemma RenderedNameLine(t: seq<Library>, log: Log, k: nat)
    requires k < |t|
    ensures |RenderLog(t, log)| == 2 * |t|
    ensures NameLine(RenderLog(t, log), k) == t[k].name + "\n"
  {
    Halves(k);
    assert RenderLog(t, log)[2 * k] == LogLine(t, log, 2 * k);
  }

  lemma RenderedCountLine(t: seq<Library>, log: Log, k: nat)
    requires k < |t|
    ensures |RenderLog(t, log)| == 2 * |t|
    ensures CountLine(RenderLog(t, log), k) == Show(CountOf(t[k], log)) + "\n"
  {
    var lines := RenderLog(t, log);
    assert lines[2 * k + 1] == LogLine(t, log, 2 * k + 1);
    CountLogLine(t, log, k);
  }

  lemma CountLogLine(t: seq<Library>, log: Log, k: nat)
    requires k < |t|
    ensures LogLine(t, log, 2 * k + 1) == Show(CountOf(t[k], log)) + "\n"
  {
    Halves(k);
  }

  lemma Halves(k: nat)
    ensures (2 * k) / 2 == k && (2 * k) % 2 == 0
    ensures (2 * k + 1) / 2 == k && (2 * k + 1) % 2 == 1
  {
  }

  predicate NewlineFreeEnds(s: string)
  {
    s != [] ==> s[0] != '\n' && s[|s| - 1] != '\n'
  }

  /** Record k of the rendered logs reads back as library k. */
  lemma RenderedRecord(t: seq<Library>, k: nat)
    requires k < |t| && NewlineFreeEnds(t[k].name)
    ensures var exp, spike := RenderLog(t, Experimental), RenderLog(t, SpikeIn);
      2 * k + 1 < |exp| && 2 * k + 1 < |spike| &&
      ParseCount(CountLine(exp, k)).Some? && ParseCount(CountLine(spike, k)).Some? &&
      forall r :: RecordFromLines(exp, spike, k, r) ==> r == t[k]
  {
    RenderLogAt(t, Experimental, k);
    RenderLogAt(t, SpikeIn, k);
    ParseCountOfLine(t[k].scer);
    ParseCountOfLine(t[k].spom);
    StripNewlinesOfLine(t[k].name);
  }

  lemma RenderedLogsReadable(t: seq<Library>)
    requires |t| == RecordCount
    requires forall k :: 0 <= k < |t| ==> NewlineFreeEnds(t[k].name)
    ensures Readable(RenderLog(t, Experimental), RenderLog(t, SpikeIn), RecordCount)
  {
    var exp, spike := RenderLog(t, Experimental), RenderLog(t, SpikeIn);
    RenderedRecord(t, 0);
    forall k | 0 <= k < RecordCount
      ensures ParseCount(CountLine(exp, k)).Some? && ParseCount(CountLine(spike, k)).Some?
    {
      RenderedRecord(t, k);
    }
  }

  /**
   * Round trip: reading the two logs written for 16 libraries gives back
   * exactly those libraries, in order.
   */
  lemma ReadRenderedLogs(t: seq<Library>)
    requires |t| == RecordCount
    requires forall k :: 0 <= k < |t| ==> NewlineFreeEnds(t[k].name)
    ensures PairLogs(RenderLog(t, Experimental), RenderLog(t, SpikeIn)) == Ok(t)
  {
    var exp, spike := RenderLog(t, Experimental), RenderLog(t, SpikeIn);
    RenderedLogsReadable(t);
    PairLogsSpec(exp, spike);
    var r := PairLogs(exp, spike).value;
    forall k | 0 <= k < RecordCount ensures r[k] == t[k] {
      RenderedRecord(t, k);
      assert RecordFromLines(exp, spike, k, r[k]);
    }
    assert r == t;
  }
}
