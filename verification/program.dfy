/**
 * FileTextReplace: copy the text of an input file to an output file,
 * optionally replacing every occurrence of a "find" string with a
 * "replace" string.
 *
 * The file system is a value: a map from path to contents, where a path
 * that is not a key cannot be read, and a set of the paths that can be
 * written. The case-insensitive branch runs the .NET regular-expression
 * engine, which is passed in as the function `regex`.
 */
module FileTextReplace {
  import opened Wrappers
  import opened Arguments
  import LiteralReplace

  /** The exceptions that `Execute` can throw. */
  datatype Error =
    | DestinationMissing
    | FindMissing
    | ReplacementMissing
    | CouldNotRead(path: string)
    | CouldNotWrite(path: string)
    | PatternRejected(message: string)

  /**
   * The message printed after "ERROR: " for each error. It only records
   * the strings; printing is not part of the model.
   */
  function Message(e: Error): string {
    match e
    case DestinationMissing => "Destination filename was not specified."
    case FindMissing => "Text to find was not specified."
    case ReplacementMissing => "Replacement text was not specified."
    case CouldNotRead(path) => "Could not read from '" + path + "'."
    case CouldNotWrite(path) => "Could not write to '" + path + "'."
    case PatternRejected(message) => message
  }

  datatype FileSystem = FileSystem(files: map<string, string>, writable: set<string>)

  /**
   * `Regex.Replace(text, pattern, replacement, RegexOptions.IgnoreCase)`:
   * the replaced text, or the message of the exception thrown when the
   * engine rejects the pattern.
   */
  type RegexReplace = (string, string, string) -> Result<string, string>

  const ExitOk := 0
  const ExitError := 1

  /** `String.Empty.Equals(s)`: false for a null string. */
  predicate IsEmpty(s: Option<string>) {
    s == Some("")
  }

  /**
   * The checks made before any file is touched: the destination must be
   * given, and find and replace must be both empty or both non-empty.
   */
  function Validate(c: Config): (r: Outcome<Error>)
    ensures c.outputFilename.None? ==> r == Fail(DestinationMissing)
    ensures r == Pass <==> c.outputFilename.Some? && (IsEmpty(c.findWhat) <==> IsEmpty(c.replaceWith))
    ensures r == Fail(FindMissing) <==>
      c.outputFilename.Some? && IsEmpty(c.findWhat) && !IsEmpty(c.replaceWith)
    ensures r == Fail(ReplacementMissing) <==>
      c.outputFilename.Some? && !IsEmpty(c.findWhat) && IsEmpty(c.replaceWith)
  {
    if c.outputFilename.None? then
      Fail(DestinationMissing)
    else if !IsEmpty(c.findWhat) || !IsEmpty(c.replaceWith) then
      if IsEmpty(c.findWhat) then Fail(FindMissing)
      else if IsEmpty(c.replaceWith) then Fail(ReplacementMissing)
      else Pass
    else
      Pass
  }

  /** The path the text is loaded from: the input file, else the output file itself. */
  function SourcePath(c: Config): string
    requires c.outputFilename.Some?
  {
    match c.inputFilename
    case Some(path) => path
    case None => c.outputFilename.value
  }

  /** Both find and replace are empty: the text is copied as it is. */
  predicate CopyMode(c: Config) {
    IsEmpty(c.findWhat) && IsEmpty(c.replaceWith)
  }

  /** Reading a file: its contents, or the read error naming the path. */
  function LoadTextFromFile(fs: FileSystem, path: string): (r: Result<string, Error>)
    ensures r.Success? <==> path in fs.files
    ensures r.Success? ==> r.value == fs.files[path]
    ensures r.Failure? ==> r.error == CouldNotRead(path)
  {
    if path in fs.files then Success(fs.files[path]) else Failure(CouldNotRead(path))
  }

  /**
   * Writing a file: on success the path holds exactly `text` and nothing
   * else changes; otherwise the write error naming the path.
   */
  function SaveTextToFile(fs: FileSystem, text: string, path: string): (r: Result<FileSystem, Error>)
    ensures r.Success? <==> path in fs.writable
    ensures r.Success? ==> r.value.writable == fs.writable && path in r.value.files && r.value.files[path] == text
    ensures r.Success? ==> r.value.files.Keys == fs.files.Keys + {path}
    ensures r.Success? ==> forall p :: p in fs.files && p != path ==> r.value.files[p] == fs.files[p]
    ensures r.Failure? ==> r.error == CouldNotWrite(path)
  {
    if path in fs.writable then Success(fs.(files := fs.files[path := text]))
    else Failure(CouldNotWrite(path))
  }

  /**
   * `ReplaceText`: case-sensitive, every leftmost non-overlapping match is
   * replaced and this cannot fail; ignoring case, the regex engine decides,
   * and a pattern it rejects is an error.
   */
  function ReplaceText(text: string, find: string, replace: string, ignoreCase: bool, regex: RegexReplace): (r: Result<string, Error>)
    requires ignoreCase || find != []
    ensures !ignoreCase ==> r == Success(LiteralReplace.Join(LiteralReplace.Split(text, find), replace))
    ensures ignoreCase ==> (r.Success? <==> regex(text, find, replace).Success?)
    ensures ignoreCase && r.Success? ==> r.value == regex(text, find, replace).value
    ensures ignoreCase && r.Failure? ==> r.error == PatternRejected(regex(text, find, replace).error)
  {
    if !ignoreCase then
      LiteralReplace.ReplaceIsJoinOfSplit(text, find, replace);
      Success(LiteralReplace.Replace(text, find, replace))
    else
      match regex(text, find, replace)
      case Success(replaced) => Success(replaced)
      case Failure(message) => Failure(PatternRejected(message))
  }

  /** The text to write to the output file, given the loaded text. */
  function Output(c: Config, loaded: string, regex: RegexReplace): Result<string, Error>
    requires c.findWhat.Some? && c.replaceWith.Some? && Validate(c) == Pass
  {
    if CopyMode(c) then Success(loaded)
    else ReplaceText(loaded, c.findWhat.value, c.replaceWith.value, c.ignoreCase, regex)
  }

  /**
   * What one execution does to the file system: validate, load, transform,
   * save, each step throwing before the next one runs. Only the output path
   * may change, and only on success.
   */
  function ExecuteResult(c: Config, fs: FileSystem, regex: RegexReplace): (r: Result<FileSystem, Error>)
    requires c.findWhat.Some? && c.replaceWith.Some?
    ensures Validate(c).Fail? ==> r == Failure(Validate(c).error)
    ensures Validate(c) == Pass && SourcePath(c) !in fs.files ==> r == Failure(CouldNotRead(SourcePath(c)))
    ensures Validate(c) == Pass && SourcePath(c) in fs.files ==>
      var out := Output(c, fs.files[SourcePath(c)], regex);
      && (out.Failure? ==> r == Failure(out.error))
      && (out.Success? && c.outputFilename.value !in fs.writable ==>
            r == Failure(CouldNotWrite(c.outputFilename.value)))
      && (out.Success? && c.outputFilename.value in fs.writable ==>
            r == Success(fs.(files := fs.files[c.outputFilename.value := out.value])))
    ensures r.Success? <==>
      && Validate(c) == Pass
      && SourcePath(c) in fs.files
      && Output(c, fs.files[SourcePath(c)], regex).Success?
      && c.outputFilename.value in fs.writable
    ensures r.Success? ==> r.value.writable == fs.writable
    ensures r.Success? ==> r.value.files.Keys == fs.files.Keys + {c.outputFilename.value}
    ensures r.Success? ==>
      forall p :: p in fs.files && p != c.outputFilename.value ==> r.value.files[p] == fs.files[p]
  {
    match Validate(c)
    case Fail(e) => Failure(e)
    case Pass =>
      match LoadTextFromFile(fs, SourcePath(c))
      case Failure(e) => Failure(e)
      case Success(text) =>
        match Output(c, text, regex)
        case Failure(e) => Failure(e)
        case Success(replaced) => SaveTextToFile(fs, replaced, c.outputFilename.value)
  }

  /** The program object: its fields are set by the constructor and by `Execute`. */
  class Program {
    var debugMode: bool
    var justTheHelp: bool
    var ignoreCase: bool
    var inputFilename: Option<string>
    var outputFilename: Option<string>
    var findWhat: Option<string>
    var replaceWith: Option<string>
    var justCopyText: bool
    var finalText: string

    /** After parsing, find and replace are never null. */
    ghost predicate Valid()
      reads this
    {
      findWhat.Some? && replaceWith.Some?
    }

    /** The parsed configuration held in the fields. */
    function Settings(): Config
      reads this
    {
      Config(debugMode, justTheHelp, ignoreCase, inputFilename, outputFilename, findWhat, replaceWith)
    }

    constructor (args: seq<string>)
      ensures Valid() && Settings() == Parse(args)
      ensures !justCopyText && finalText == ""
    {
      debugMode, justTheHelp, ignoreCase := false, false, false;
      inputFilename, outputFilename, findWhat, replaceWith := None, None, None, None;
      justCopyText, finalText := false, "";
      new;
      ParseArguments(args);
    }

    method ParseArguments(args: seq<string>)
      modifies this
      ensures Valid() && Settings() == Parse(args)
      ensures justCopyText == old(justCopyText) && finalText == old(finalText)
    {
      debugMode, justTheHelp, ignoreCase, inputFilename, outputFilename, findWhat, replaceWith :=
        GetSwitch(args, DebugSwitch), GetSwitch(args, HelpSwitch), GetSwitch(args, IgnoreCaseSwitch),
        GetArgumentValue(args, InputOption, None), GetArgumentValue(args, OutputOption, None),
        GetArgumentValue(args, FindOption, Some("")), GetArgumentValue(args, ReplaceOption, Some(""));
    }

    /**
     * Validates, loads, transforms and saves. `justCopyText` is updated
     * once the text has been loaded, and `finalText` once the replacement
     * has been made, even if the save then fails.
     */
    method Execute(fs: FileSystem, regex: RegexReplace) returns (result: Result<FileSystem, Error>)
      requires Valid()
      modifies this`justCopyText, this`finalText
      ensures Valid() && Settings() == old(Settings())
      ensures result == ExecuteResult(Settings(), fs, regex)
      ensures var c := Settings();
        if Validate(c) == Pass && SourcePath(c) in fs.files then
          var out := Output(c, fs.files[SourcePath(c)], regex);
          justCopyText == CopyMode(c) &&
          finalText == if !CopyMode(c) && out.Success? then out.value else old(finalText)
        else
          justCopyText == old(justCopyText) && finalText == old(finalText)
    {
      var valid := Validate(Settings());
      if valid.Fail? {
        return Failure(valid.error);
      }

      var loaded := LoadTextFromFile(fs, if inputFilename.Some? then inputFilename.value else outputFilename.value);
      if loaded.Failure? {
        return Failure(loaded.error);
      }
      var text := loaded.value;

      // Copy mode when neither a find nor a replace string was given.
      justCopyText := IsEmpty(findWhat) && IsEmpty(replaceWith);

      if !justCopyText {
        var replaced := ReplaceText(text, findWhat.value, replaceWith.value, ignoreCase, regex);
        if replaced.Failure? {
          return Failure(replaced.error);
        }
        text := replaced.value;
        finalText := text;
      }

      result := SaveTextToFile(fs, text, outputFilename.value);
    }

    /**
     * The program's entry point without the console: `--help` stops before
     * anything is touched; otherwise the exit code says whether `Execute`
     * threw, and the file system is changed only when it did not.
     */
    static method RunProgram(args: seq<string>, fs: FileSystem, regex: RegexReplace)
      returns (exitCode: int, after: FileSystem)
      ensures HelpSwitch in args ==> exitCode == ExitOk && after == fs
      ensures HelpSwitch !in args ==>
        match ExecuteResult(Parse(args), fs, regex)
        case Success(changed) => exitCode == ExitOk && after == changed
        case Failure(_) => exitCode == ExitError && after == fs
    {
      var p := new Program(args);

      if p.justTheHelp {
        return ExitOk, fs;
      }

      var result := p.Execute(fs, regex);
      match result
      case Success(changed) =>
        exitCode, after := ExitOk, changed;
      case Failure(_) =>
        exitCode, after := ExitError, fs;
    }
  }

  /** Omitting the destination always fails, whatever else is given. */
  lemma MissingDestinationFails(args: seq<string>, fs: FileSystem, regex: RegexReplace)
    requires NoValueFor(args, OutputOption)
    ensures ExecuteResult(Parse(args), fs, regex) == Failure(DestinationMissing)
  {
  }

  /** Giving only one of find and replace fails before any file is read or written. */
  lemma UnbalancedPairFails(args: seq<string>, fs: FileSystem, regex: RegexReplace)
    requires !NoValueFor(args, OutputOption)
    requires IsEmpty(Parse(args).findWhat) != IsEmpty(Parse(args).replaceWith)
    ensures ExecuteResult(Parse(args), fs, regex).Failure?
    ensures ExecuteResult(Parse(args), fs, regex).error ==
      if IsEmpty(Parse(args).findWhat) then FindMissing else ReplacementMissing
  {
  }

  /** In copy mode the output file receives the loaded text unchanged. */
  lemma CopyModeCopiesVerbatim(c: Config, fs: FileSystem, regex: RegexReplace)
    requires c.outputFilename.Some? && CopyMode(c)
    requires SourcePath(c) in fs.files && c.outputFilename.value in fs.writable
    ensures ExecuteResult(c, fs, regex) ==
      Success(fs.(files := fs.files[c.outputFilename.value := fs.files[SourcePath(c)]]))
  {
  }

  /** Without an input file the output file is read and then overwritten. */
  lemma MissingInputEditsInPlace(c: Config, fs: FileSystem, regex: RegexReplace)
    requires c.findWhat.Some? && c.replaceWith.Some?
    requires c.outputFilename.Some? && c.inputFilename.None? && Validate(c) == Pass
    ensures var path := c.outputFilename.value;
      ExecuteResult(c, fs, regex).Success? <==>
        path in fs.files && path in fs.writable && Output(c, fs.files[path], regex).Success?
    ensures var path := c.outputFilename.value;
      ExecuteResult(c, fs, regex).Success? ==>
        ExecuteResult(c, fs, regex).value.files[path] == Output(c, fs.files[path], regex).value
  {
  }

  /**
   * A pattern rejected by the regex engine under `--ignore-case` fails the
   * run after the text was loaded, and nothing is written.
   */
  lemma RejectedPatternFails(c: Config, fs: FileSystem, regex: RegexReplace)
    requires c.findWhat.Some? && c.replaceWith.Some? && c.ignoreCase && !CopyMode(c)
    requires Validate(c) == Pass && SourcePath(c) in fs.files
    requires regex(fs.files[SourcePath(c)], c.findWhat.value, c.replaceWith.value).Failure?
    ensures ExecuteResult(c, fs, regex) ==
      Failure(PatternRejected(regex(fs.files[SourcePath(c)], c.findWhat.value, c.replaceWith.value).error))
  {
  }

  /**
   * Case-sensitive substitution writes the loaded text cut at its leftmost
   * non-overlapping matches and glued with the replacement: the pieces
   * contain no match, and glued with the find string they give back the
   * loaded text.
   */
  lemma CaseSensitiveSubstitution(c: Config, fs: FileSystem, regex: RegexReplace)
    requires c.findWhat.Some? && c.replaceWith.Some? && !c.ignoreCase && !CopyMode(c)
    requires ExecuteResult(c, fs, regex).Success?
    ensures var find, loaded := c.findWhat.value, fs.files[SourcePath(c)];
      && find != []
      && ExecuteResult(c, fs, regex).value.files[c.outputFilename.value] ==
           LiteralReplace.Join(LiteralReplace.Split(loaded, find), c.replaceWith.value)
      && LiteralReplace.Join(LiteralReplace.Split(loaded, find), find) == loaded
      && forall k :: 0 <= k < |LiteralReplace.Split(loaded, find)| ==>
           !LiteralReplace.Occurs(find, LiteralReplace.Split(loaded, find)[k])
  {
    var find, loaded := c.findWhat.value, fs.files[SourcePath(c)];
    LiteralReplace.ReplaceIsJoinOfSplit(loaded, find, c.replaceWith.value);
    LiteralReplace.SplitJoinRoundTrip(loaded, find);
    LiteralReplace.SplitPiecesHaveNoMatch(loaded, find);
  }

  /** Case-sensitive substitution leaves the text alone when the find string is absent. */
  lemma CaseSensitiveWithoutMatchCopies(c: Config, fs: FileSystem, regex: RegexReplace)
    requires c.findWhat.Some? && c.replaceWith.Some? && !c.ignoreCase
    requires ExecuteResult(c, fs, regex).Success?
    requires !LiteralReplace.Occurs(c.findWhat.value, fs.files[SourcePath(c)])
    ensures ExecuteResult(c, fs, regex).value.files[c.outputFilename.value] == fs.files[SourcePath(c)]
  {
    if !CopyMode(c) {
      var find, loaded := c.findWhat.value, fs.files[SourcePath(c)];
      LiteralReplace.ReplaceIsJoinOfSplit(loaded, find, c.replaceWith.value);
    }
  }
}
