/**
 * Lines 90-99: each alpha is rendered as text, then the (library, text) pairs
 * are written one line per library, in table order, with no header and no
 * index column. The rendering `format(x, '.16f')` is IEEE float printing and
 * is a parameter of the model.
 */
module Export {
  import opened Wrappers
  import opened PyText
  import opened Records
  import opened CountLogs
  import opened Alpha

  /** The loop of lines 91-92: fills `alpha_IP_float` cell by cell. */
  method FormatAlpha(alphaIP: array<real>, format: real -> string) returns (alphaFloat: array<string>)
    ensures fresh(alphaFloat) && alphaFloat.Length == alphaIP.Length
    ensures forall i :: 0 <= i < alphaIP.Length ==> alphaFloat[i] == format(alphaIP[i])
  {
    alphaFloat := new string[alphaIP.Length];
    for i := 0 to alphaIP.Length
      invariant forall j :: 0 <= j < i ==> alphaFloat[j] == format(alphaIP[j])
    {
      alphaFloat[i] := format(alphaIP[i]);
    }
  }

  /** Line 99: the rows of the exported table, columns `library` and `alpha_IP_float`. */
  function ExportRows(t: seq<Library>, alphaFloat: seq<string>): (rows: seq<(string, string)>)
    requires |alphaFloat| == |t|
    ensures |rows| == |t|
    ensures forall i :: 0 <= i < |t| ==> rows[i] == (t[i].name, alphaFloat[i])
  {
    seq(|t|, i requires 0 <= i < |t| => (t[i].name, alphaFloat[i]))
  }

  function MapSeq(f: real -> string, s: seq<real>): (r: seq<string>)
    ensures |r| == |s| && forall i :: 0 <= i < |s| ==> r[i] == f(s[i])
  {
    seq(|s|, i requires 0 <= i < |s| => f(s[i]))
  }

  /** What the script needs of the logs beyond being readable (see AlphaReady and TagsMatch). */
  predicate Usable(exp: seq<string>, spike: seq<string>)
  {
    PairLogs(exp, spike).Ok? ==> AlphaReady(PairLogs(exp, spike).value) && TagsMatch(PairLogs(exp, spike).value)
  }

  /** The normalisation table the script writes, or the error that stops it. */
  function NormalizationSpec(exp: seq<string>, spike: seq<string>, format: real -> string)
    : Result<seq<(string, string)>, Failure>
    requires Usable(exp, spike)
  {
    match PairLogs(exp, spike)
    case Err(e) => Err(e)
    case Ok(t) =>
      match AlphaColumn(t)
      case Err(e) => Err(e)
      case Ok(alpha) => Ok(ExportRows(t, MapSeq(format, alpha)))
  }

  /** The whole script, minus plotting: read the logs, compute alpha, format and export. */
  method NormalizationTable(exp: seq<string>, spike: seq<string>, format: real -> string)
    returns (r: Result<seq<(string, string)>, Failure>)
    requires Usable(exp, spike)
    ensures r == NormalizationSpec(exp, spike, format)
  {
    var table := ReadCounts(exp, spike);
    if table.Err? {
      return Err(table.error);
    }
    var t := table.value;
    var alphaIP := new real[|t|];
    var err := AssignAlpha(t, alphaIP);
    if err.Some? {
      return Err(err.value);
    }
    var alphaFloat := FormatAlpha(alphaIP, format);
    assert alphaFloat[..] == MapSeq(format, AlphaColumn(t).value);
    r := Ok(ExportRows(t, alphaFloat[..]));
  }

  /**
   * The exported table has one row per library, in log order: row k pairs the
   * name on line 2k of the experimental log with the formatted alpha of
   * library k, which comes from its block's input row 4b+2.
   */
  lemma NormalizationRows(exp: seq<string>, spike: seq<string>, format: real -> string)
    requires Usable(exp, spike)
    requires NormalizationSpec(exp, spike, format).Ok?
    ensures PairLogs(exp, spike).Ok? && ReferencesFrom(PairLogs(exp, spike).value, 0)
    ensures var rows := NormalizationSpec(exp, spike, format).value;
      var t := PairLogs(exp, spike).value;
      |rows| == RecordCount && 2 * RecordCount <= |exp| &&
      forall k :: 0 <= k < RecordCount ==>
        rows[k] == (StripNewlines(NameLine(exp, k)), format(RowAlpha(t, k)))
  {
    PairLogsSpec(exp, spike);
    var t := PairLogs(exp, spike).value;
    AlphaSpec(t);
  }

  /** The script fails exactly when a log cannot be read or some block's row 4b+2 is not an input row. */
  lemma NormalizationFails(exp: seq<string>, spike: seq<string>, format: real -> string)
    requires Usable(exp, spike)
    ensures NormalizationSpec(exp, spike, format).Err? <==>
      PairLogs(exp, spike).Err? || !ReferencesFrom(PairLogs(exp, spike).value, 0)
  {
    PairLogsSpec(exp, spike);
    if PairLogs(exp, spike).Ok? {
      AlphaSpec(PairLogs(exp, spike).value);
    }
  }
}
