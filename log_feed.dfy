/**
 * The dashboard's log feed: the intercepted `console.log` and
 * `console.error` each turn their arguments into one line, and a line is
 * shown as an error when it contains the error tag.
 */
module LogFeed {
  import opened Text

  const InfoTag := "[INFO] "
  const ErrorTag := "[ERROR] "
  /** What the log view looks for to colour a line as an error. */
  const ErrorMark := "[ERROR]"

  /** The line for `console.log(...args)`: the tag, then the arguments joined by single spaces. */
  function InfoLine(args: seq<string>): (line: string)
    ensures StartsWith(line, InfoTag) && line[|InfoTag|..] == Join(args, " ")
  {
    InfoTag + Join(args, " ")
  }

  /** The line for `console.error(...args)`. */
  function ErrorLine(args: seq<string>): (line: string)
    ensures StartsWith(line, ErrorTag) && line[|ErrorTag|..] == Join(args, " ")
  {
    ErrorTag + Join(args, " ")
  }

  /** The log panel colours a line red when it contains the error mark anywhere. */
  predicate IsErrorLine(line: string): (b: bool)
    ensures b <==> exists i :: OccursAt(line, ErrorMark, i)
  {
    ContainsIff(line, ErrorMark);
    Contains(line, ErrorMark)
  }

  /** Every `console.error` line is shown as an error. */
  lemma ErrorLinesAreErrors(args: seq<string>)
    ensures IsErrorLine(ErrorLine(args))
  {
    var line := ErrorLine(args);
    assert OccursAt(line, ErrorMark, 0);
  }

  /** The info tag cannot hold the start of an error mark. */
  lemma NoMarkInInfoTag(text: string, i: nat)
    requires i < |InfoTag|
    ensures !OccursAt(InfoTag + text, ErrorMark, i)
  {
    assert (InfoTag + text)[i] == InfoTag[i];
  }

  /**
   * A `console.log` line is shown as an error exactly when its joined
   * arguments contain the error mark.
   */
  lemma InfoLineIsErrorIff(args: seq<string>)
    ensures IsErrorLine(InfoLine(args)) <==> Contains(Join(args, " "), ErrorMark)
  {
    var text := Join(args, " ");
    var line := InfoLine(args);
    var n := |InfoTag|;
    assert line == InfoTag + text;
    ContainsIff(text, ErrorMark);
    if IsErrorLine(line) {
      var i :| OccursAt(line, ErrorMark, i);
      if i < n {
        NoMarkInInfoTag(text, i);
      }
      SliceAfterPrefix(InfoTag, text, i, |ErrorMark|);
      assert OccursAt(text, ErrorMark, i - n);
    }
    if Contains(text, ErrorMark) {
      var j :| OccursAt(text, ErrorMark, j);
      SliceAfterPrefix(InfoTag, text, j + n, |ErrorMark|);
      assert OccursAt(line, ErrorMark, j + n);
    }
  }

  /** Arguments without spaces can be read back from their line. */
  lemma InfoLineArguments(args: seq<string>)
    requires |args| >= 1
    requires forall i | 0 <= i < |args| :: ' ' !in args[i]
    ensures Split(InfoLine(args)[|InfoTag|..], ' ') == args
  {
    SplitJoin(args, ' ');
  }
}
