# cccommands2gemini — a Dafny model of `convert_file`

`cccommands2gemini` converts Claude Code custom commands (Markdown files under
`~/.claude/commands/`) into Gemini CLI commands (TOML files under
`~/.gemini/commands/`). This project models the per-file conversion, `convert_file`,
and proves what it does:

- the first line of the file becomes the command's `description`, trimmed of
  whitespace at both ends;
- the rest of the file, with its leading whitespace removed, becomes the `prompt`;
  in it every `$ARGUMENTS` placeholder is replaced by `{{args}}`;
- a file without a newline is all description, with an empty prompt;
- the output file keeps the source file's place relative to the input root, under
  the output root, and its extension becomes `.toml`;
- reading the file fails first (`ReadError`); a source outside the input root fails
  next (`PathError`).

The project has four modules:

- `Outcomes` (`outcomes.dfy`) holds the `Option` and `Result` types.
- `Text` (`text.dfy`) models the Rust string operations the conversion uses:
  `char::is_whitespace` (the Unicode White_Space property), `trim_start`, `trim`,
  `split_once` and `replace`. A leftmost-match search, `FindFirst`, is defined
  alongside as the reference against which `replace` is characterised; the conversion
  itself does not search.
  - `ReplaceAll` is defined the way `str::replace` works: it scans from the left
    and never lets two matches overlap.
  - `ReplaceAll` is then characterised by lemmas. It replaces the leftmost match
    and recurses on the text after it. When the replacement shares no character
    with the pattern, no match survives.
- `Paths` (`paths.dfy`) models Unix paths as the component sequences
  `Path::components` yields. It covers `strip_prefix`, `push`, `file_name`,
  `file_stem`, `extension` and `set_extension`.
  - The stem and the extension follow Rust's split at the last dot:
    - `..` has no extension;
    - a name without a dot has no extension;
    - a name whose only dot is its first character has no extension.
  - A `PathBuf` class holds the path buffer that `convert_file` changes in place.
- `Converter` (`converter.dfy`) holds:
  - the `GeminiCommand` record;
  - the text part of the conversion (`ParseCommand`);
  - the destination path, both as a function (`MapDestination`) and as the
    step-by-step method over a `PathBuf` (`DestinationPath`);
  - the whole conversion (`ConvertFile`);
  - lemmas for the header/body split, the placeholder substitution, concrete
    command files, and the directory structure being kept.

The result of reading the source file enters `ConvertFile` as a parameter: `None`
stands for a failed read.

## Model

| member | source | states |
|---|---|---|
| Text.TrimStart | src/main.rs:86 | The result is a suffix of the input. Everything dropped is whitespace. The result is empty or starts with a non-whitespace character. |
| Text.TrimStartDropsLeading | src/main.rs:86 | A whitespace prefix followed by a non-whitespace character, or by nothing, is exactly what `trim_start` removes. |
| Text.TrimEndDropsTrailing | src/main.rs:85 | A whitespace suffix after a non-whitespace character, or after nothing, is exactly what trimming the end removes. |
| Text.TrimEnd | src/main.rs:85 | The trailing half of `trim`: the result is a prefix of the input, everything dropped is whitespace, and the result is empty or ends in a non-whitespace character. |
| Text.Trim | src/main.rs:85 | The description is a slice of the header line with only whitespace around it, and it has no whitespace at either edge. |
| Text.TrimIsUnique | src/main.rs:85 | Any text without edge whitespace, framed on both sides by whitespace only, is what `trim` returns. This characterises `trim` completely. |
| Text.TrimIdempotent | src/main.rs:85 | Trimming an already trimmed description changes nothing. |
| Text.TrimKeepsCharacters | src/main.rs:85 | Trimming introduces no character that was not in its input. |
| Text.SplitOnce | src/main.rs:81 | `split_once` fails exactly when the separator is absent. Otherwise the input is the text before, the separator, then the text after, and the text before holds no separator. |
| Text.FindFirstIsLeftmost | src/main.rs:89 | The search finds a match exactly when the pattern occurs. What it finds is a match, and no match starts earlier. |
| Text.ReplaceWithoutMatchIsIdentity | src/main.rs:89 | A body without the placeholder is copied unchanged. |
| Text.ReplaceAtFirstMatch | src/main.rs:89 | Replacing gives the text before the leftmost match, then the replacement, then the replaced text after the match: matches are taken left to right and never overlap. |
| Text.FirstOccurrenceIsFound | src/main.rs:89 | An occurrence with no earlier one is exactly the match the leftmost search finds. |
| Text.NoMatchBeforePlaced | src/main.rs:89 | No match can start inside a match-free text and run into the pattern placed after it, when that text lacks the pattern's first character or the first character does not recur in the pattern. |
| Text.ReplaceSoleMatch | src/main.rs:89 | For `before + pat + after` where neither `before` nor `after` contains the pattern and no match can run across their edges (the pattern's first character is absent from `before` or does not recur in the pattern, as for `$ARGUMENTS`), only that occurrence is replaced. `before` may hold the pattern's other characters, such as a `$`. |
| Text.NoMatchAroundReplacement | src/main.rs:89 | A match in `a + rep + b` cannot straddle a replacement that shares no character with the pattern. |
| Text.ReplaceLeavesNoMatch | src/main.rs:89 | When the replacement is non-empty and shares no character with the pattern, the output holds no match of the pattern. |
| Text.ReplaceIsIdentityIff | src/main.rs:89 | Under the same condition, replacing leaves the text unchanged if and only if the pattern does not occur in it. |
| Text.LastIndexOf | src/main.rs:105 | The position of the last occurrence of a character, found exactly when the character occurs. |
| Paths.StripPrefix | src/main.rs:102 | Stripping succeeds if and only if the base's components start the path's. On success, base followed by the result is the path. |
| Paths.StripPrefixOfAppended | src/main.rs:102 | Stripping a base from `base + rel` gives back exactly `rel`. |
| Paths.Joined | src/main.rs:104 | Pushing an absolute path replaces the buffer. Pushing an empty path, or one that starts with a name or `..`, appends its components. A leading `.` is dropped unless the buffer is empty. The buffer stays a prefix whenever the pushed path is relative, and pushing preserves well-formedness. |
| Paths.PathBuf.constructor | src/main.rs:103 | A new buffer holds the output root's components. |
| Paths.PathBuf.Push | src/main.rs:104 | The buffer's new components are the old ones joined with the pushed path. |
| Paths.FileName | src/main.rs:105 | The file name exists exactly when the last component is a normal name. The path is then the directories followed by that name, and in a well-formed path the name is valid. |
| Paths.FileNameOfFile | src/main.rs:105 | The file name of `dir/name` is `name`. |
| Paths.SplitAtLastDot | src/main.rs:105 | A name splits into both parts if and only if it is not `..` and has a dot after its first character. The split is then at the last dot: the name is stem, dot, extension, the stem is non-empty and the extension holds no dot. Without a stem part the name holds no dot. Without an extension the whole name is the stem. |
| Paths.FileStem | src/main.rs:105 | The stem is a prefix of the name, and non-empty when the name is. Together with `Paths.Extension`, it is the whole name when there is no extension and the part before the last dot otherwise. |
| Paths.Extension | src/main.rs:62 | A name has an extension if and only if it is not `..` and has a dot after its first character. The extension then holds no dot, and the name is the stem, a dot and the extension. Without an extension the stem is the whole name. |
| Paths.StemDotExtension | src/main.rs:62 | For any non-empty stem and non-empty dot-free extension, `stem.ext` has extension `ext` and stem `stem`. |
| Paths.RenameExtension | src/main.rs:105 | The name `set_extension` produces: for a non-empty name and a non-empty dot-free extension, `extension` reads the new extension back and `file_stem` is unchanged. |
| Paths.WithExtension | src/main.rs:105 | A path without a file name is unchanged. Otherwise only the last component changes, and it becomes the renamed file. |
| Paths.PathBuf.SetExtension | src/main.rs:105 | The result flag is true exactly when there was a file name, and the buffer becomes the renamed path. |
| Paths.LastDotBeforeExtension | src/main.rs:105 | In `stem.ext` with a dot-free extension, the last dot is the one just after the stem. |
| Paths.WithExtensionOfFile | src/main.rs:105 | Setting the extension of `dir/name` keeps `dir` and renames `name`. |
| Paths.SetExtensionRoundTrip | src/main.rs:105 | For a well-formed path that ends in a file name, setting the extension reads back the new extension and keeps the stem. |
| Paths.SetExtensionKeepsWellFormed | src/main.rs:105 | Setting an extension without dots or separators keeps a path well formed. |
| Converter.SplitHeader | src/main.rs:81-84 | With a newline, the content is header, newline, body, and the header holds no newline. Without one, the whole content is the header and the body is empty. |
| Converter.ArgsTemplateIsSafe | src/main.rs:89 | `{{args}}` is non-empty and shares no character with `$ARGUMENTS`, and the `$` of `$ARGUMENTS` does not recur in it. |
| Converter.ParseCommand | src/main.rs:81-95 | The description holds no newline and has no edge whitespace. The prompt holds no `$ARGUMENTS`. |
| Converter.ParseSplitsAtFirstNewline | src/main.rs:81-89 | The description is the trimmed text before the first newline. The prompt is the left-trimmed text after it, with the placeholders replaced. |
| Converter.ParseHeaderAndBody | src/main.rs:81-95 | Content written as header line, newline and body gives the record of the trimmed header and the processed body. |
| Converter.ParseWithoutNewline | src/main.rs:83-85 | Without a newline, the description is the trimmed content and the prompt is empty. |
| Converter.PromptUnchangedIffNoPlaceholder | src/main.rs:86-89 | The prompt equals the left-trimmed body if and only if that body holds no `$ARGUMENTS`. |
| Converter.PlaceholderInsideWordIsReplaced | src/main.rs:89 | Substitution ignores word boundaries: `$ARGUMENTSX` becomes `{{args}}X`. |
| Converter.BlankLineBeforeBody | src/main.rs:86 | A blank line before a body that starts with a visible character or the placeholder is trimmed away. |
| Converter.HeaderBlankLineAndBody | src/main.rs:81-95 | A clean header, a blank line and a body with exactly one `$ARGUMENTS` (the text before and after it contains none, though it may contain `$`) give that header as description. In the prompt only the placeholder changes. |
| Converter.ConvertsSummarizeCommand | src/main.rs:81-95 | The command "Summarize code", a blank line, then "Run $ARGUMENTS on the file." converts to description "Summarize code" and prompt "Run {{args}} on the file.". |
| Converter.CleanOneLinerIsDescription | src/main.rs:83-85 | A single line without edge whitespace is the description as it stands, and the prompt is empty. |
| Converter.ConvertsOneLiner | src/main.rs:81-95 | "One-liner command" converts to that description with an empty prompt. |
| Converter.MapDestination | src/main.rs:102-105 | A destination exists if and only if the input root's components start the source path's. |
| Converter.DestinationPath | src/main.rs:102-105 | The destination built step by step in a path buffer (strip, push, set extension) is the one `MapDestination` defines. |
| Converter.DestinationOfNested | src/main.rs:102-105 | A file `dirs/name` below the input root maps to `dirs/` followed by the renamed `name`, below the output root. |
| Converter.DestinationRenamesFile | src/main.rs:102-105 | A file `<input>/d1/…/dn/stem.ext` with a non-empty stem and a dot-free extension is written to `<output>/d1/…/dn/stem.toml`. |
| Converter.DestinationKeepsStructure | src/main.rs:102-105 | For every non-empty stem, the `.md` filter of line 62 accepts `stem.md`, and `<input>/d1/…/dn/stem.md` is written to `<output>/d1/…/dn/stem.toml`. |
| Converter.DestinationIsWellFormed | src/main.rs:102-105 | A well-formed source under a well-formed output root gets a well-formed destination. |
| Converter.ConvertFile | src/main.rs:75-105 | A failed read gives `ReadError`. A source outside the input root then gives `PathError`. Otherwise the result is the parsed record and the mapped destination. |

## Left out

- Reading and writing files (lines 77 and 111): the content read is a parameter of `ConvertFile`, and `None` stands for a failed read. Writing the TOML text is not modelled.
- Creating directories with `create_dir_all` (lines 55 and 107-109) is not modelled; its failures are file-system errors.
- TOML serialisation with `toml::to_string` (lines 98-99) is not modelled. `ConvertFile` returns the record that would be serialised. For a record of two strings, serialisation does not fail, so the model has no serialisation error.
- The command-line interface and the default directories (lines 9-21 and 30-52): clap argument parsing, `home::home_dir` and the messages printed. Their only effect on the conversion is which input and output roots it receives.
- The directory walk with `WalkDir` (lines 59-69) is not modelled. Only the `.md` filter on line 62 appears, in `Converter.DestinationKeepsStructure`: the filter accepts `stem.md` for every non-empty stem.
- Error context strings from `anyhow` are not modelled; errors are the two cases of `ConvertError`.
- Paths are Unix component sequences. Windows path prefixes (drive letters, UNC paths) are left out.
- `Paths.PathBuf.SetExtension`: newer Rust versions panic when the extension contains a path separator. This is not modelled; the only extension used, `toml`, has none.
- Determinism of the conversion needs no lemma: every operation is a Dafny function, or a method specified by one.
