/**
 * The dashboard page's state and the handlers that change it: the
 * intercepted console appends log lines; starting an analysis resets the
 * log and sets the loading flag; its outcome either replaces the result
 * tables (normalised) or appends an error line, and always clears the
 * loading flag. The analysis call itself runs between `BeginRun` and
 * `FinishRun`, and the lines it logs arrive through `Info` and `Error`.
 */
module Session {
  import opened Options
  import opened Rows
  import opened LogFeed
  import opened Display

  /** The analysis result as the page reads it; absent commit or failure lists default to empty. */
  datatype RawResult = RawResult(codeStats: seq<CodeStat>, commitStats: Option<seq<CommitStat>>, failureStats: Option<seq<FailureRecord>>)

  /** How the awaited analysis ended: a result, or the error it was rejected with. */
  datatype Outcome = Resolved(result: RawResult) | Rejected(error: string)

  /** The tables a run replaces. */
  datatype Tables = Tables(codeStats: seq<CodeStat>, commitStats: seq<CommitStat>, failureStats: seq<FailureRecord>, expandedKeys: seq<string>)

  const StartMessage := "开始分析..."
  const DoneMessage := "分析完成！"
  const FailedMessage := "分析失败:"

  class Session {
    var logs: seq<string>
    var codeStats: seq<CodeStat>
    var commitStats: seq<CommitStat>
    var failureStats: seq<FailureRecord>
    var expandedKeys: seq<string>
    var loading: bool
    var showFireworks: bool
    var dateRange: (string, string)

    /** The code table is always shown normalised. */
    ghost predicate Valid()
      reads this
    {
      Normalized(codeStats)
    }

    function Shown(): Tables
      reads this
    {
      Tables(codeStats, commitStats, failureStats, expandedKeys)
    }

    constructor()
      ensures Valid()
      ensures logs == [] && Shown() == Tables([], [], [], [])
      ensures !loading && !showFireworks && dateRange == ("", "")
    {
      logs, codeStats, commitStats, failureStats, expandedKeys := [], [], [], [], [];
      loading, showFireworks, dateRange := false, false, ("", "");
    }

    /** The intercepted `console.log`. */
    method Info(args: seq<string>)
      requires Valid()
      modifies this
      ensures Valid()
      ensures logs == old(logs) + [InfoLine(args)]
      ensures Shown() == old(Shown()) && loading == old(loading)
      ensures showFireworks == old(showFireworks) && dateRange == old(dateRange)
    {
      logs := logs + [InfoLine(args)];
    }

    /** The intercepted `console.error`; the new line is shown as an error. */
    method Error(args: seq<string>)
      requires Valid()
      modifies this
      ensures Valid()
      ensures logs == old(logs) + [ErrorLine(args)] && IsErrorLine(logs[|logs| - 1])
      ensures Shown() == old(Shown()) && loading == old(loading)
      ensures showFireworks == old(showFireworks) && dateRange == old(dateRange)
    {
      logs := logs + [ErrorLine(args)];
      ErrorLinesAreErrors(args);
    }

    /** The "clear log" button. */
    method ClearLogs()
      requires Valid()
      modifies this
      ensures Valid()
      ensures logs == []
      ensures Shown() == old(Shown()) && loading == old(loading)
      ensures showFireworks == old(showFireworks) && dateRange == old(dateRange)
    {
      logs := [];
    }

    /** The part of `handleAnalyze` before the analysis is awaited. */
    method BeginRun(startDate: string, endDate: string)
      requires Valid()
      modifies this
      ensures Valid()
      ensures loading && logs == [InfoLine([StartMessage])] && dateRange == (startDate, endDate)
      ensures Shown() == old(Shown()) && showFireworks == old(showFireworks)
    {
      loading := true;
      logs := [];
      Info([StartMessage]);
      dateRange := (startDate, endDate);
    }

    /** The part of `handleAnalyze` after the analysis settles, including its `finally`. */
    method FinishRun(outcome: Outcome)
      requires Valid()
      modifies this
      ensures Valid()
      ensures !loading && dateRange == old(dateRange)
      ensures outcome.Resolved? ==>
        var res := outcome.result;
        && codeStats == Normalize(res.codeStats)
        && expandedKeys == ExpandKeys(codeStats)
        && commitStats == res.commitStats.GetOr([])
        && failureStats == res.failureStats.GetOr([])
        && logs == old(logs) + [InfoLine([DoneMessage])]
        && showFireworks
      ensures outcome.Rejected? ==>
        && Shown() == old(Shown())
        && logs == old(logs) + [ErrorLine([FailedMessage, outcome.error])]
        && IsErrorLine(logs[|logs| - 1])
        && showFireworks == old(showFireworks)
    {
      match outcome {
        case Resolved(res) =>
          var finalCodeStats := Normalize(res.codeStats);
          var allKeys := ExpandKeys(finalCodeStats);
          codeStats := finalCodeStats;
          expandedKeys := allKeys;
          commitStats := res.commitStats.GetOr([]);
          failureStats := res.failureStats.GetOr([]);
          Info([DoneMessage]);
          showFireworks := true;
        case Rejected(error) =>
          Error([FailedMessage, error]);
      }
      loading := false;
    }

    /** The table's own expand and collapse clicks. */
    method SetExpandedKeys(keys: seq<string>)
      requires Valid()
      modifies this
      ensures Valid()
      ensures expandedKeys == keys && logs == old(logs)
      ensures codeStats == old(codeStats) && commitStats == old(commitStats) && failureStats == old(failureStats)
      ensures loading == old(loading) && showFireworks == old(showFireworks) && dateRange == old(dateRange)
    {
      expandedKeys := keys;
    }

    /** The fireworks animation reports that it has finished. */
    method CelebrationDone()
      requires Valid()
      modifies this
      ensures Valid()
      ensures !showFireworks && logs == old(logs)
      ensures Shown() == old(Shown()) && loading == old(loading) && dateRange == old(dateRange)
    {
      showFireworks := false;
    }
  }
}
