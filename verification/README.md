# FileTextReplace (ftreplace) in Dafny

FileTextReplace is a command-line tool. It copies the text of an input file to
an output file. Along the way it can replace every occurrence of a "find"
string with a "replace" string. This project models its core:

- the token-list parser that turns the command line into a configuration
  (`-i`, `-o`, `-f`, `-r`, `--ignore-case`, `--help`, `--debug`);
- the validation of that configuration;
- the decision between copying and substituting, and the effect on the files;
- the case-sensitive literal replacement that .NET's ordinal `String.Replace`
  performs.

Files:

- `wrappers.dfy`: `Option` (a C# `null` string is `None`), `Result` and `Outcome`.
- `literal_replace.dfy`, module `LiteralReplace`. `Replace` computes the same
  result as the library's leftmost, non-overlapping replacement, one character
  at a time. `IndexOf` (the leftmost occurrence), `Split` and `Join` give an
  independent, search-based definition of that result. The lemmas tie the two
  together and state what the replacement promises.
- `arguments.dfy`, module `Arguments`. It holds the option names,
  `List.IndexOf`, `GetSwitch`, `GetArgumentValue` and the parsed configuration
  `Config` with its function `Parse`.
- `program.dfy`, module `FileTextReplace`. The class `Program` has the
  source's fields. `ParseArguments` and `Execute` assign them step by step.
  `Validate`, `ExecuteResult` and the lemmas specify them. `RunProgram` is the
  entry point without the console: it handles the `--help` short-circuit and
  the exit code.

The file system is a value, `FileSystem(files, writable)`. Reading a path that
is not a key of `files` is the "Could not read" error. Writing a path outside
`writable` is the "Could not write" error. The case-insensitive branch calls
the .NET regular-expression engine. That engine is passed to `Execute` as the
function parameter `regex`. It returns either the replaced text or the message
of the exception it throws for a pattern it rejects. A rejection is the
`PatternRejected` error: the run stops before writing and exits with code 1.

A substitution can create a new occurrence of the find string from the text
around a match. So the output is not free of the find string in general:
`LiteralReplace.ReplaceMayLeaveMatches` shows that replacing `ab` by `a` in
`abb` gives `ab`. What does hold is `LiteralReplace.SplitPiecesHaveNoMatch`:
no piece of text left between two replaced matches contains the find string.

## Model

| member | source | states |
|---|---|---|
| `Arguments.IndexOf` | ftreplace/Program.cs:225 | The result is -1 exactly when the name is not a token. Otherwise it is a position holding the name, with no earlier position holding it. |
| `Arguments.GetSwitch` | ftreplace/Program.cs:212-214 | A switch is on exactly when some token, at any position, equals its name. |
| `Arguments.GetArgumentValue` | ftreplace/Program.cs:224-231 | The value is the token right after the first occurrence of the name. The default is returned when the name is absent or occurs only as the last token. Later duplicates are ignored. |
| `Arguments.Parse` | ftreplace/Program.cs:94-105 | Each switch is on iff its name is present. The input and output names are null exactly when their option has no following token. Find and replace are never null and are empty when their option has no value. |
| `Arguments.TokensAreNotFiltered` | ftreplace/Program.cs:94-105 | `-f --debug` both sets find to `--debug` and turns debug mode on. `-o -f` makes the output file `-f` and leaves find empty. |
| `Arguments.FirstOccurrenceWins` | ftreplace/Program.cs:224-228 | Whatever follows, an option takes the token after its first occurrence. |
| `FileTextReplace.Validate` | ftreplace/Program.cs:107-122 | A missing destination fails first, whatever find and replace are. With a destination, the check passes exactly when find and replace are both empty or both non-empty. Only replace given gives "Text to find"; only find given gives "Replacement text". |
| `FileTextReplace.LoadTextFromFile` | ftreplace/Program.cs:170-181 | Reading succeeds exactly when the path exists and then returns its contents. Otherwise the error is "Could not read" naming the path. |
| `FileTextReplace.SaveTextToFile` | ftreplace/Program.cs:183-194 | Writing succeeds exactly when the path is writable. The path then holds exactly the text, the writable set is unchanged, the paths are the old ones plus this one, and every other file is unchanged. Otherwise the error is "Could not write" naming the path. |
| `FileTextReplace.ReplaceText` | ftreplace/Program.cs:196-202 | Case-sensitive, the result is the text cut at its leftmost non-overlapping matches and glued with the replacement, and it cannot fail. Ignoring case, it succeeds exactly when the regex engine does, with the engine's text; a rejected pattern gives `PatternRejected` with the engine's message. It requires a non-empty find string only on the case-sensitive branch. |
| `FileTextReplace.ExecuteResult` | ftreplace/Program.cs:151-168 | The errors come in the source's order: a validation error before any file is used, then "Could not read" for the source path, then the replacement's error, then "Could not write" for the output path. Success holds exactly when all four steps pass, and the output path then holds the computed text. On success only the output path changes: the same writable set, the old paths plus the output path, and every other file unchanged. |
| `FileTextReplace.Program.constructor` | ftreplace/Program.cs:90-92 | The fields hold `Parse(args)`. Find and replace are not null. `finalText` starts empty and `justCopyText` false. |
| `FileTextReplace.Program.ParseArguments` | ftreplace/Program.cs:94-105 | Sets the seven configuration fields to `Parse(args)` and leaves `justCopyText` and `finalText` alone. |
| `FileTextReplace.Program.Execute` | ftreplace/Program.cs:151-168 | The result is `ExecuteResult` of the fields. The configuration is unchanged. Once the text is loaded, `justCopyText` is the copy-mode test. `finalText` is then the substituted text. It keeps its old value in copy mode and when the regex engine rejects the pattern. Before loading, neither field changes. |
| `FileTextReplace.Program.RunProgram` | ftreplace/Program.cs:41-66 | With `--help` among the tokens, exit code 0 and the files are untouched, whatever else is given. Otherwise exit code 0 with the new files when execution succeeds, and exit code 1 with the files untouched when it throws. |
| `FileTextReplace.MissingDestinationFails` | ftreplace/Program.cs:107-111 | Without a value for `-o`, execution fails with the destination error. |
| `FileTextReplace.UnbalancedPairFails` | ftreplace/Program.cs:113-121 | With a destination but only one of find and replace, execution fails with the error naming the missing one. |
| `FileTextReplace.CopyModeCopiesVerbatim` | ftreplace/Program.cs:158-167 | In copy mode the output file receives the loaded text unchanged. |
| `FileTextReplace.MissingInputEditsInPlace` | ftreplace/Program.cs:154-156 | Without `-i`, the output file is read and overwritten with the transformed text. This succeeds iff that file is readable, the transformation succeeds and the file is writable. |
| `FileTextReplace.RejectedPatternFails` | ftreplace/Program.cs:196-202 | Under `--ignore-case`, a pattern the regex engine rejects fails the run with the engine's message, and nothing is written. |
| `FileTextReplace.CaseSensitiveSubstitution` | ftreplace/Program.cs:196-199 | A case-sensitive run writes the loaded text split at its matches and joined with the replacement. Joined with the find string, the pieces give back the loaded text, and no piece contains a match. |
| `FileTextReplace.CaseSensitiveWithoutMatchCopies` | ftreplace/Program.cs:196-199 | A case-sensitive run whose find string does not occur in the loaded text writes that text unchanged. |
| `LiteralReplace.LeftmostOccurrence` | ftreplace/Program.cs:198 | Every text in which the find string occurs has a leftmost occurrence, so the search below is well defined. |
| `LiteralReplace.IndexOf` | ftreplace/Program.cs:198 | The search finds nothing exactly when the find string does not occur. Otherwise it returns the leftmost index at which the find string occurs. |
| `LiteralReplace.Replace` | ftreplace/Program.cs:198 | Replacing the find string with itself returns the text. What the replacement computes is fixed by the lemmas below, chiefly `ReplaceIsJoinOfSplit`. |
| `LiteralReplace.ReplaceKeepsUnmatchedPrefix` | ftreplace/Program.cs:198 | Characters before any match are copied unchanged. |
| `LiteralReplace.ReplaceAtFirstMatch` | ftreplace/Program.cs:198 | The leftmost match is replaced and scanning resumes right after it, so matches never overlap. |
| `LiteralReplace.ReplaceWithoutMatch` | ftreplace/Program.cs:198 | If the find string does not occur, the text is returned unchanged. |
| `LiteralReplace.ReplaceIsJoinOfSplit` | ftreplace/Program.cs:198 | The character scan equals the pieces between leftmost non-overlapping matches joined with the replacement. |
| `LiteralReplace.SplitJoinRoundTrip` | ftreplace/Program.cs:198 | The pieces joined with the find string give back the text. |
| `LiteralReplace.SplitPiecesHaveNoMatch` | ftreplace/Program.cs:198 | No piece between matches contains the find string. |
| `LiteralReplace.ReplaceLength` | ftreplace/Program.cs:198 | Each replacement made changes the length by the replacement's length minus the find string's length. |
| `LiteralReplace.ReplaceUnchangedIff` | ftreplace/Program.cs:198 | The text comes back unchanged exactly when the find string does not occur in it or is replaced by itself. |
| `LiteralReplace.ReplaceMayLeaveMatches` | ftreplace/Program.cs:198 | Replacing `ab` by `a` in `abb` gives `ab`: a new match can form around a replacement. |

## Left out

- The case-insensitive branch, `Regex.Replace` with `RegexOptions.IgnoreCase`. It uses the .NET regular-expression engine and culture-aware case folding. It also reads the find string as a pattern and the replacement as a substitution template. The engine is the function parameter `regex`. The model proves how its answer is used: its text is written, and its rejection of a pattern becomes `PatternRejected` and exit code 1. Nothing is proved about which texts or rejections the engine produces.
- Console output is not modelled: `ShowUsage`, `DebugDump` and the `ERROR:` / `Caused by:` lines. `Error` keeps the error kinds. `Message` only records the text printed for each; nothing is proved about it. The underlying .NET exception wrapped as the inner cause is not kept.
- `Environment.Exit` is not modelled. `RunProgram` returns the exit code instead.
- Real file I/O, `StreamReader` and `StreamWriter`, and text encodings are not modelled. A file is a string in a map.
- A failed write leaves the map unchanged. A real `StreamWriter` may leave a truncated or empty file behind.
- `FileTextReplace.ReplaceText` requires a non-empty find string on the case-sensitive branch. `String.Replace` throws for an empty one, but validation ensures the call is never reached with an empty find string.
- Characters are Dafny `char`s, which are Unicode scalar values, while the ordinal `String.Replace` compares UTF-16 code units. On well-formed UTF-16 the two views find the same matches: a well-formed find string cannot start or end inside a surrogate pair. `StreamReader` always yields well-formed text. Strings with unpaired surrogates, which command-line arguments can carry, cannot be represented and are left out. Lengths such as `|s|` in `LiteralReplace.ReplaceLength` count scalar values, not `String.Length` code units.
- `LiteralReplace.ReplaceLength`: states the length change in Unicode scalar values. For text outside the Basic Multilingual Plane, `String.Length` counts two code units per such character, so the .NET lengths differ from the ones stated.
