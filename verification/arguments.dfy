/**
 * The command-line layer of FileTextReplace: switches that are on when
 * present, valued options that take the token right after their name, and
 * the configuration that the program's constructor builds from them.
 */
module Arguments {
  import opened Wrappers

  const DebugSwitch := "--debug"
  const HelpSwitch := "--help"
  const IgnoreCaseSwitch := "--ignore-case"
  const InputOption := "-i"
  const OutputOption := "-o"
  const FindOption := "-f"
  const ReplaceOption := "-r"

  /** Position `i` holds the first occurrence of `name`. */
  predicate FirstAt(args: seq<string>, name: string, i: int) {
    0 <= i < |args| && args[i] == name && name !in args[..i]
  }

  /**
   * `List<String>.IndexOf`: the first position of `name` in `args`, or -1
   * when `name` is not among them.
   */
  function IndexOf(args: seq<string>, name: string): (index: int)
    ensures -1 <= index < |args|
    ensures index == -1 <==> name !in args
    ensures 0 <= index ==> FirstAt(args, name, index)
  {
    if args == [] then -1
    else if args[0] == name then 0
    else
      var k := IndexOf(args[1..], name);
      assert k >= 0 ==> FirstAt(args[1..], name, k) && args[..k + 1] == [args[0]] + args[1..][..k];
      if k == -1 then -1 else k + 1
  }

  /** A switch is on exactly when its name is one of the tokens, at any position. */
  function GetSwitch(args: seq<string>, name: string): (on: bool)
    ensures on <==> exists i :: 0 <= i < |args| && args[i] == name
  {
    name in args
  }

  /**
   * A valued option: the token right after the first occurrence of `name`,
   * or `defaultValue` when `name` is absent or only the last token.
   */
  function GetArgumentValue(args: seq<string>, name: string, defaultValue: Option<string>): (value: Option<string>)
    ensures forall i :: i < |args| - 1 && FirstAt(args, name, i) ==> value == Some(args[i + 1])
    ensures |args| > 0 && name in args[..|args| - 1] ==>
      exists i :: i < |args| - 1 && FirstAt(args, name, i) && value == Some(args[i + 1])
    ensures |args| == 0 || name !in args[..|args| - 1] ==> value == defaultValue
  {
    var index := IndexOf(args, name);
    if index >= 0 && |args| > index + 1 then Some(args[index + 1]) else defaultValue
  }

  /** The configuration fields that parsing sets; `None` is a `null` string. */
  datatype Config = Config(
    debugMode: bool,
    justTheHelp: bool,
    ignoreCase: bool,
    inputFilename: Option<string>,
    outputFilename: Option<string>,
    findWhat: Option<string>,
    replaceWith: Option<string>)

  /** The option is missing, or its name occurs only as the final token. */
  predicate NoValueFor(args: seq<string>, name: string) {
    |args| == 0 || name !in args[..|args| - 1]
  }

  /**
   * Parsing: the three switches, the two file names (null when missing)
   * and the find/replace pair (empty when missing).
   */
  function Parse(args: seq<string>): (c: Config)
    ensures c.debugMode <==> DebugSwitch in args
    ensures c.justTheHelp <==> HelpSwitch in args
    ensures c.ignoreCase <==> IgnoreCaseSwitch in args
    ensures c.inputFilename.None? <==> NoValueFor(args, InputOption)
    ensures c.outputFilename.None? <==> NoValueFor(args, OutputOption)
    ensures c.findWhat.Some? && c.replaceWith.Some?
    ensures NoValueFor(args, FindOption) ==> c.findWhat == Some("")
    ensures NoValueFor(args, ReplaceOption) ==> c.replaceWith == Some("")
  {
    Config(
      GetSwitch(args, DebugSwitch),
      GetSwitch(args, HelpSwitch),
      GetSwitch(args, IgnoreCaseSwitch),
      GetArgumentValue(args, InputOption, None),
      GetArgumentValue(args, OutputOption, None),
      GetArgumentValue(args, FindOption, Some("")),
      GetArgumentValue(args, ReplaceOption, Some("")))
  }

  /**
   * Tokens are not filtered: a value may itself look like an option name,
   * in which case it counts both as the value and as that option.
   */
  lemma TokensAreNotFiltered()
    ensures Parse([FindOption, DebugSwitch]).debugMode
    ensures Parse([FindOption, DebugSwitch]).findWhat == Some(DebugSwitch)
    ensures Parse([OutputOption, FindOption]).outputFilename == Some(FindOption)
    ensures Parse([OutputOption, FindOption]).findWhat == Some("")
  {
  }

  /** Only the first occurrence of a valued option is looked at. */
  lemma FirstOccurrenceWins(before: seq<string>, name: string, value: string, after: seq<string>)
    requires name !in before
    ensures GetArgumentValue(before + [name, value] + after, name, None) == Some(value)
  {
    var args := before + [name, value] + after;
    var i := |before|;
    assert args[i] == name && args[i + 1] == value;
    assert args[..i] == before;
  }
}
