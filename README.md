# CodeValidator core, modelled in Dafny

CodeValidator is a small Windows program: the user picks a source file and a
language ("Auto-detect", "Java", "Python", "PHP" or "JavaScript"), and a
background job checks the file with the language's toolchain (`javac`,
`python -m py_compile`, `php -l`, `node --check`) and, when the check passes,
runs it, showing the tool output as one text. This project models the logic
of that job in `CodeValidator/CodeValidator.cpp`:

- `paths.dfy` (module `Paths`): the file name, extension, stem and parent
  directory of a path, a simplified stand-in for `std::filesystem::path`.
- `escaping.dfy` (module `Escaping`): `escapeFilePath`. It is an imperative
  loop (`EscapeFilePath`) proved against the function `Quote`. `Quote` is
  proved to be readable back (`Unquote`) and its length is proved.
- `validators.dfy` (module `Validators`): the four validators as the closed
  datatype `Lang`. The module covers `isCompatible`, the check and run command
  lines, the check gate of each language, and `validate` as the function
  `Validate`. The external tool is an oracle `exec: string -> string`.
  `Validate` returns the result text and the list of command lines it handed
  to the tool.
- `selection.dfy` (module `Selection`): `getValidator`.
- `job.dfy` (module `Job`): the decision chain of the background job
  (`RunJob`). It also holds `Classify`, which reads the kind of outcome off a
  result text, and `JobSlot`, a class for the "validation in progress" flag
  and the request of the job that flag guards.

The automatic selection is the literal list entry "Auto-detect"; the
lower-case word "auto" selects nothing (`Selection.LowerCaseAutoIsUnknown`).
The job returns plain text, not a status, and the source has no
classification of its results. `Job.Classify` adds one, reading five kinds
off the text: `InputError` (empty path or missing file), `SelectionError`
(no validator, or a validator that refuses the file), `CompileError`,
`RuntimeOutput` and `Unrecognised`.

## Model

| member | source | states |
|---|---|---|
| `Paths.LastSeparator` | CodeValidator/CodeValidator.cpp:76-77 | the index of the last '/' or '\' of the path, or -1; no separator follows it |
| `Paths.FileName` | CodeValidator/CodeValidator.cpp:76-77 | the final path component is a suffix of the path that contains no separator |
| `Paths.ParentPath` | CodeValidator/CodeValidator.cpp:83 | the parent directory, the separator and the file name put back together give the path; the parent is empty when there is no separator |
| `Paths.Extension` | CodeValidator/CodeValidator.cpp:76-77 | `extension()`: a suffix of the file name that is empty or starts with its only dot and is shorter than the name; pinned down by `Paths.ExtensionIff` |
| `Paths.Stem` | CodeValidator/CodeValidator.cpp:81-82 | `stem()`: the file name is the stem followed by the extension, and the stem is non-empty when there is an extension |
| `Paths.StemAndExtension` | CodeValidator/CodeValidator.cpp:81-82 | gathers the contracts of `Stem` and `Extension`: the file name is stem followed by extension; a non-empty extension starts with its only dot and leaves a non-empty stem |
| `Paths.ExtensionIff` | CodeValidator/CodeValidator.cpp:175-176 | a path has a given plain extension (a dot and at least one more character, none of them a dot or separator) exactly when the path ends with it and a non-separator character comes just before it |
| `Escaping.FindFrom` | CodeValidator/CodeValidator.cpp:64 | `find` from a position: the first index at or after it holding the character, or none when no such index exists |
| `Escaping.EscapeFilePath` | CodeValidator/CodeValidator.cpp:60-69 | the in-place find/replace loop returns the path with every backslash doubled, every other character kept, wrapped in double quotes |
| `Escaping.EscapedNoBackslash` | CodeValidator/CodeValidator.cpp:64-67 | a path without backslashes passes through the loop unchanged |
| `Escaping.EscapedLength` | CodeValidator/CodeValidator.cpp:64-67 | escaping adds exactly one character per backslash |
| `Escaping.UnescapeEscaped` | CodeValidator/CodeValidator.cpp:64-67 | halving doubled backslashes gives back the original path |
| `Escaping.QuoteRoundTrip` | CodeValidator/CodeValidator.cpp:60-69 | the quoted path is the path's length plus its backslashes plus 2 long, and unquoting it gives back the path |
| `Escaping.QuoteInjective` | CodeValidator/CodeValidator.cpp:60-69 | two different paths never give the same quoted text |
| `Escaping.UnescapeLength` | CodeValidator/CodeValidator.cpp:60-69 | text read back as a path is never longer than that path plus its backslashes, and is exactly that long only when it is the path with every backslash doubled |
| `Escaping.QuotedByLength` | CodeValidator/CodeValidator.cpp:60-69 | quoted text that reads back as a path and has the quoted path's length is exactly what `escapeFilePath` returns for it; a lone backslash is ruled out |
| `Validators.ExtensionOf` | CodeValidator/CodeValidator.cpp:75-78 | each validator's extension is a dot followed by at least one character, none of which is a dot or a separator |
| `Validators.IsCompatible` | CodeValidator/CodeValidator.cpp:75-155 | `isCompatible` of the four validators (lines 75-78, 104-107, 128-131, 152-155): an accepted file's name is longer than the extension (a hidden file is never accepted); pinned down by `Validators.CompatibleIff` |
| `Validators.CompatibleIff` | CodeValidator/CodeValidator.cpp:104-107 | `isCompatible` holds exactly when the path ends with the validator's extension and a file-name character precedes it |
| `Validators.CompatibleUnique` | CodeValidator/CodeValidator.cpp:128-131 | no path is accepted by two different validators |
| `Validators.CheckCommand` | CodeValidator/CodeValidator.cpp:86-159 | the check command lines of lines 86, 111, 135 and 159: the check program, then text that unquotes to the path and is one character per path character, one more per backslash and two quotes long, then " 2>&1"; `Validators.CommandsQuoteThePath` shows this text is exactly `escapeFilePath(path)` |
| `Validators.JavaRunCommand` | CodeValidator/CodeValidator.cpp:94 | "cd ", then text that unquotes to the parent directory, then exactly " && java ", the stem unescaped, and " 2>&1" |
| `Validators.RunCommand` | CodeValidator/CodeValidator.cpp:94-166 | the run command lines of lines 94, 118, 142 and 166: always ends with " 2>&1"; for Java it is `JavaRunCommand`; otherwise the run program, then text that unquotes to the path and has the length of the escaped, quoted path (so it is exactly `escapeFilePath(path)`, see `Validators.CommandsQuoteThePath`) |
| `Validators.CommandsQuoteThePath` | CodeValidator/CodeValidator.cpp:86-166 | from the command contracts alone: between the program and " 2>&1" of each check command and each non-Java run command stands exactly the escaped, quoted path |
| `Validators.CommandDeterminesPath` | CodeValidator/CodeValidator.cpp:86-166 | two different paths never give the same check command, or the same non-Java run command |
| `Validators.JavaRunNamesCompiledFile` | CodeValidator/CodeValidator.cpp:80-83 | for a ".java" file, the parent directory, a separator, the stem and ".java" give back the path; the stem (the class name) is not empty |
| `Validators.JavaRunCommandNamesClass` | CodeValidator/CodeValidator.cpp:80-94 | the class name the Java run command passes to `java`, followed by ".java", is the compiled file's name; relies on `RunCommand`'s ensures |
| `Validators.Contains` | CodeValidator/CodeValidator.cpp:114-138 | `find(needle) != npos` of lines 114 and 138: a found needle is no longer than the text, and the empty needle is always found; pinned down by `Validators.ContainsIff` |
| `Validators.CheckFails` | CodeValidator/CodeValidator.cpp:89-162 | the gates of lines 89, 114, 138 and 162: an empty check output blocks the run only for PHP; pinned down by `Validators.RunsIff` |
| `Validators.ContainsIff` | CodeValidator/CodeValidator.cpp:114 | `find(marker) != npos` holds exactly when the marker occurs at some position of the output |
| `Validators.Validate` | CodeValidator/CodeValidator.cpp:80-170 | the check command is issued first; the run command is issued second exactly when the gate passes; the result is the banner of the phase reached followed by the raw output of the last command |
| `Validators.RunsIff` | CodeValidator/CodeValidator.cpp:85-170 | the program runs exactly when: Java's compiler prints nothing; Python's check output has no "SyntaxError"; PHP's lint output has "No syntax errors"; Node's check prints nothing |
| `Validators.CheckQuirks` | CodeValidator/CodeValidator.cpp:114-138 | Python runs the file after any check output without "SyntaxError"; PHP rejects an empty lint output |
| `Validators.ResultShowsPhase` | CodeValidator/CodeValidator.cpp:89-97 | the result starts with the success banner exactly when the program ran, and with the error prefix exactly when only the check ran |
| `Selection.GetValidator` | CodeValidator/CodeValidator.cpp:173-191 | a validator picked under "Auto-detect" accepts the file; under any other entry the picked validator is the one the entry names; pinned down by `Selection.AutoDetectIff` and `Selection.ExplicitTagIff` |
| `Selection.AutoDetectIff` | CodeValidator/CodeValidator.cpp:174-184 | with "Auto-detect", a validator is picked exactly when it accepts the file, and none is picked exactly when no validator accepts it |
| `Selection.ExplicitTagIff` | CodeValidator/CodeValidator.cpp:185-190 | with any other entry, the validator is the one named by the entry whatever the file; an entry naming none gives none |
| `Selection.AutoDetectsPython` | CodeValidator/CodeValidator.cpp:179 | a plain name ending in ".py" is auto-detected as Python |
| `Selection.AutoDetectsNothing` | CodeValidator/CodeValidator.cpp:183 | a name ending in an unknown extension such as ".xyz" selects nothing |
| `Selection.ExplicitTagWins` | CodeValidator/CodeValidator.cpp:185 | "Java" chosen for a ".py" file gives the Java validator, which does not accept the file |
| `Selection.LowerCaseAutoIsUnknown` | CodeValidator/CodeValidator.cpp:174 | the lower-case word "auto" selects no validator |
| `Job.RunJob` | CodeValidator/CodeValidator.cpp:233-255 | an empty path gives exactly "Please select a file to validate."; a missing file gives exactly "File does not exist: " and the path; for an existing file, "Unsupported file type or language selection." comes exactly when no validator is selected; a tool runs exactly when the path is non-empty and exists and the selected validator accepts it, and then the whole result is that validator's `Validate` |
| `Job.ValidatorTextIsNotAMessage` | CodeValidator/CodeValidator.cpp:246-252 | no validator result equals one of the job's own messages or starts like the missing-file message |
| `Job.ClassifyValidatorText` | CodeValidator/CodeValidator.cpp:89-97 | a validator's text reads as a compile error when only the check ran and as run output when the program ran |
| `Job.StatusShowsProgress` | CodeValidator/CodeValidator.cpp:233-255 | the result text reads as an input error exactly for an empty or missing path; as a selection error exactly when an existing file reached no tool; as a compile error exactly when only the check ran; as run output exactly when the program ran |
| `Job.MismatchOnlyFromExplicitTag` | CodeValidator/CodeValidator.cpp:245-250 | "doesn't match the file extension" is the result exactly when an existing file gets a validator from an explicit entry (never from "Auto-detect") and that validator does not accept it |
| `Job.JobSlot.constructor` | CodeValidator/CodeValidator.cpp:34 | no validation is in progress at start-up |
| `Job.JobSlot.TryBegin` | CodeValidator/CodeValidator.cpp:196-201 | test-and-set: accepted exactly when no job was in progress; afterwards the flag is set; a rejected request leaves the running job's request as it was |
| `Job.JobSlot.Finish` | CodeValidator/CodeValidator.cpp:229-275 | the accepted job's result is the decision chain applied to its own request, and afterwards the flag is clear |
| `Job.RejectedRequestLeavesJob` | CodeValidator/CodeValidator.cpp:194-278 | a second request while a job runs is rejected, the first job still gets its own result, and a later request is accepted |

## Left out

- `executeCommand` (process start, pipe reading) is the oracle `exec`, a function from a command line to its output text. The "Error executing command" text for a process that cannot start is therefore part of the oracle's output.
- `std::filesystem::exists` is the parameter `fileExists`.
- `Paths`: the path model does not follow `std::filesystem::path` exactly. Drive letters and root names (`C:`), root directories and repeated separators get no special treatment, so the parent of `C:\x.java` is `C:` in the model and `C:\` in the library. Only the last-dot, leading-dot and ".." rules for extensions are modelled.
- The exception handlers of the job (the "Error occurred during validation" and "Unknown error occurred during validation" texts) are not modelled. Every operation of the model is total and raises nothing.
- Threads, `detach`, the mutex and message delivery with `SendMessage` are not modelled. `JobSlot` models the flag's sequential transitions. The lock is assumed to make `TryBegin` and the flag reset in `Finish` atomic.
- The "Validation already in progress" message box shown on a rejected request is not modelled; `TryBegin` returns `false` instead.
- UTF-16/UTF-8 conversions and the truncation of the text fields to `MAX_PATH` and 32 characters are not modelled. Paths and language entries are `string`s as the job receives them.
- The window procedure, the control layout and `browseForFile` are not modelled. Its extension-to-entry mapping repeats the table of `getValidator`.
- `Job.Classify` has no counterpart in the source, which returns only text. It sorts a result text into the five kinds of `Job.Status`.
