/**
 * The collaborators of the pipeline loader whose code is not part of this
 * model: the `PipeFile` line classifiers, the `CommandLineParser`,
 * `StringUtils::Trim` and `StringUtils::ShellQuote`, and the file-system
 * probes. They are values of the record `Env`, so every property proved
 * about the loader holds whatever these functions are.
 *
 * The `PipeFile` line cursor (`ReadLine`, `CurrentLine`, `Pos`) is the class
 * `LineCursor` over the lines of an already-read file.
 */
module Collaborators {
  import opened Wrappers

  /** The kind of a bracket line: `{`/`}` (sequential) or `{{`/`}}` (parallel). */
  datatype Bracket = Single | Double

  /**
   * What `CommandLineParser::Parse` reports about a text: the argument lists
   * it splits the text into, that the text continues on the next line, or a
   * syntax error.
   */
  datatype ParseResult = Parsed(argLists: seq<seq<string>>) | Unfinished | Malformed

  /**
   * The collaborators.
   * - `isEmptyLine`, `isCommentLine`, `isDescLine`: the `PipeFile` predicates.
   * - `leftBracket`, `rightBracket`: `IsLeftBracket`/`IsRightBracket` with the bracket they read.
   * - `funcLine`: `IsFuncLine`, giving the procedure name and the bracket at the end of the header, if any.
   * - `incLine`: `IsIncLine`, giving the included file name.
   * - `varLine`: `IsVarLine`, giving the variable name and value.
   * - `parse`: `CommandLineParser::Parse` with `IsUnfinished` and `GetArgLists`.
   * - `trim`, `shellQuote`: `StringUtils::Trim` and `StringUtils::ShellQuote(s, false)`.
   * - `readLines`: the lines of a file, or `None` when it cannot be opened.
   * - `fileExists`, `dirName`: `System::CheckFileExists` and `System::DirName`.
   */
  datatype Env = Env(
    isEmptyLine: string -> bool,
    isCommentLine: string -> bool,
    isDescLine: string -> bool,
    leftBracket: string -> Option<Bracket>,
    rightBracket: string -> Option<Bracket>,
    funcLine: string -> Option<(string, Option<Bracket>)>,
    incLine: string -> Option<string>,
    varLine: string -> Option<(string, string)>,
    parse: string -> ParseResult,
    trim: string -> string,
    shellQuote: string -> string,
    readLines: string -> Option<seq<string>>,
    fileExists: string -> bool,
    dirName: string -> string)

  /**
   * The read position in the lines of a pipeline file. `lineNo` counts the
   * lines read so far; once at least one line is read, the current line is
   * `lines[lineNo - 1]` and `lineNo` is the position reported in messages.
   */
  class LineCursor {
    const lines: seq<string>
    var lineNo: nat

    ghost predicate Valid()
      reads this
    {
      lineNo <= |lines|
    }

    constructor(lines: seq<string>)
      ensures Valid()
      ensures this.lines == lines && lineNo == 0
    {
      this.lines := lines;
      lineNo := 0;
    }

    function CurrentLine(): string
      reads this
      requires 1 <= lineNo <= |lines|
    {
      lines[lineNo - 1]
    }

    /** Moves to the next line; false, without moving, at the end of the file. */
    method ReadLine() returns (ok: bool)
      requires Valid()
      modifies this
      ensures Valid()
      ensures ok <==> old(lineNo) < |lines|
      ensures lineNo == if ok then old(lineNo) + 1 else old(lineNo)
    {
      if lineNo < |lines| {
        lineNo := lineNo + 1;
        ok := true;
      } else {
        ok := false;
      }
    }
  }
}
