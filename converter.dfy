/**
 * The per-file conversion of a Claude Code command file (Markdown) into a Gemini CLI
 * command record: the header/body split, trimming, placeholder substitution, the
 * two-field record, and the destination path under the output tree.
 */
module Converter {
  import opened Outcomes
  import opened Text
  import opened Paths

  /** The placeholder Claude Code commands use for the caller's arguments. */
  const Placeholder: string := "$ARGUMENTS"
  /** What the Gemini CLI expects in its place. */
  const ArgsTemplate: string := "{{args}}"
  /** Extension of the files the conversion writes. */
  const TomlExtension: string := "toml"
  /** Extension of the files the directory walk hands to the conversion. */
  const MarkdownExtension: string := "md"

  /** A Gemini CLI command: the record serialised into the output file. */
  datatype GeminiCommand = GeminiCommand(description: string, prompt: string)

  /** Why converting one file failed. */
  datatype ConvertError =
    | ReadError   // the source file could not be read as text
    | PathError   // the source path does not lie under the input root

  /** A successful conversion: the record to serialise and the path it is written to. */
  datatype Converted = Converted(command: GeminiCommand, destination: Path)

  /** The raw header line and the raw body: the content split at its first newline, or all header. */
  function SplitHeader(content: string): (parts: (string, string))
    ensures '\n' in content ==> content == parts.0 + "\n" + parts.1 && '\n' !in parts.0
    ensures '\n' !in content ==> parts == (content, "")
  {
    match SplitOnce(content, '\n')
    case Some((header, body)) => (header, body)
    case None => (content, "")
  }

  /** The substitution cannot create or straddle placeholders: `{{args}}` shares no character with `$ARGUMENTS`, whose `$` does not recur. */
  lemma ArgsTemplateIsSafe()
    ensures Placeholder != [] && ArgsTemplate != [] && Disjoint(ArgsTemplate, Placeholder)
    ensures Placeholder[0] !in Placeholder[1..]
  {
  }

  /**
   * The text-level part of the conversion: the description is the trimmed header line,
   * the prompt the left-trimmed body with every placeholder replaced.
   */
  function ParseCommand(content: string): (cmd: GeminiCommand)
    ensures '\n' !in cmd.description && NoEdgeWhitespace(cmd.description)
    ensures !Contains(cmd.prompt, Placeholder)
  {
    var parts := SplitHeader(content);
    var description := Trim(parts.0);
    var body := TrimStart(parts.1);
    ArgsTemplateIsSafe();
    ReplaceLeavesNoMatch(body, Placeholder, ArgsTemplate);
    TrimKeepsCharacters(parts.0, '\n');
    GeminiCommand(description, ReplaceAll(body, Placeholder, ArgsTemplate))
  }

  /** Where the converted file goes: the source path re-rooted from the input root to the output root, as a `.toml` file. */
  function MapDestination(source: Path, inputDir: Path, outputDir: Path): (r: Option<Path>)
    ensures r.Some? <==> inputDir <= source
  {
    match StripPrefix(source, inputDir)
    case None => None
    case Some(relative) => Some(WithExtension(Joined(outputDir, relative), TomlExtension))
  }

  /** The destination path built step by step in a path buffer, as `convert_file` does. */
  method DestinationPath(source: Path, inputDir: Path, outputDir: Path) returns (r: Option<Path>)
    ensures r == MapDestination(source, inputDir, outputDir)
  {
    var relative := StripPrefix(source, inputDir);
    if relative.None? {
      return None;
    }
    var dest := new PathBuf(outputDir);
    dest.Push(relative.value);
    var _ := dest.SetExtension(TomlExtension);
    r := Some(dest.components);
  }

  /**
   * Converting one file. `content` is what reading the source produced (`None` when the
   * read failed); on success the result is the record and the path it is written to.
   */
  method ConvertFile(content: Option<string>, source: Path, inputDir: Path, outputDir: Path)
    returns (r: Result<Converted, ConvertError>)
    ensures content.None? ==> r == Err(ReadError)
    ensures content.Some? && !(inputDir <= source) ==> r == Err(PathError)
    ensures content.Some? && inputDir <= source ==>
              r.Ok? && r.value.command == ParseCommand(content.value)
              && Some(r.value.destination) == MapDestination(source, inputDir, outputDir)
  {
    if content.None? {
      return Err(ReadError);
    }
    var command := ParseCommand(content.value);
    var destination := DestinationPath(source, inputDir, outputDir);
    if destination.None? {
      return Err(PathError);
    }
    r := Ok(Converted(command, destination.value));
  }

  /** With a newline present, the description comes only from the text before the first one and the prompt only from the text after it. */
  lemma ParseSplitsAtFirstNewline(content: string, i: nat)
    requires i < |content| && content[i] == '\n' && '\n' !in content[..i]
    ensures ParseCommand(content).description == Trim(content[..i])
    ensures ParseCommand(content).prompt == ReplaceAll(TrimStart(content[i + 1..]), Placeholder, ArgsTemplate)
  {
    var parts := SplitHeader(content);
    assert |parts.0| < |content| && content[|parts.0|] == '\n';
    assert parts.0 == content[..i];
    assert parts.1 == content[i + 1..];
  }

  /** Content written as a header line, a newline and a body parses into the trimmed header and the processed body. */
  lemma ParseHeaderAndBody(content: string, header: string, body: string)
    requires content == header + "\n" + body && '\n' !in header
    ensures ParseCommand(content) == GeminiCommand(Trim(header), ReplaceAll(TrimStart(body), Placeholder, ArgsTemplate))
  {
    assert content[..|header|] == header && content[|header| + 1..] == body;
    ParseSplitsAtFirstNewline(content, |header|);
  }

  /** Without a newline, the whole trimmed content is the description and the prompt is empty. */
  lemma ParseWithoutNewline(content: string)
    requires '\n' !in content
    ensures ParseCommand(content) == GeminiCommand(Trim(content), "")
  {
  }

  /**
   * The prompt is the left-trimmed body verbatim exactly when that body holds no
   * placeholder; otherwise substitution changes it.
   */
  lemma PromptUnchangedIffNoPlaceholder(content: string)
    ensures var body := TrimStart(SplitHeader(content).1);
      ParseCommand(content).prompt == body <==> !Contains(body, Placeholder)
  {
    ArgsTemplateIsSafe();
    ReplaceIsIdentityIff(TrimStart(SplitHeader(content).1), Placeholder, ArgsTemplate);
  }

  /** Substitution ignores word boundaries: a placeholder glued to more text is still replaced. */
  lemma PlaceholderInsideWordIsReplaced()
    ensures ReplaceAll("$ARGUMENTSX", Placeholder, ArgsTemplate) == "{{args}}X"
  {
  }

  /** A body that starts with the placeholder, or with a visible character, loses exactly one leading blank line. */
  lemma BlankLineBeforeBody(before: string, after: string)
    requires before == [] || !IsWhitespace(before[0])
    ensures TrimStart("\n" + (before + Placeholder + after)) == before + Placeholder + after
  {
    var text := before + Placeholder + after;
    if before == [] {
      assert text[0] == Placeholder[0];
    } else {
      assert text[0] == before[0];
    }
    assert IsWhitespace("\n"[0]);
    TrimStartDropsLeading("\n", text);
  }

  /**
   * A header line, a blank line, and a body with exactly one placeholder: the header is the
   * description and the placeholder alone changes in the prompt.
   */
  lemma HeaderBlankLineAndBody(content: string, header: string, before: string, after: string)
    requires content == header + "\n" + ("\n" + (before + Placeholder + after))
    requires '\n' !in header && NoEdgeWhitespace(header)
    requires before == [] || !IsWhitespace(before[0])
    requires !Contains(before, Placeholder) && !Contains(after, Placeholder)
    ensures ParseCommand(content) == GeminiCommand(header, before + ArgsTemplate + after)
  {
    ParseHeaderAndBody(content, header, "\n" + (before + Placeholder + after));
    TrimIsUnique(header, 0, header);
    BlankLineBeforeBody(before, after);
    ArgsTemplateIsSafe();
    ReplaceSoleMatch(before, Placeholder, ArgsTemplate, after);
  }

  /**
   * A multi-line command, "Summarize code", a blank line, then "Run $ARGUMENTS on the file.":
   * the header becomes the description, the blank line is trimmed away, and the placeholder
   * is replaced.
   */
  lemma ConvertsSummarizeCommand(header: string, before: string, after: string)
    requires header == "Summarize code" && before == "Run " && after == " on the file."
    ensures ParseCommand(header + "\n" + ("\n" + (before + Placeholder + after)))
         == GeminiCommand("Summarize code", "Run {{args}} on the file.")
  {
    assert '\n' !in header && NoEdgeWhitespace(header);
    assert !IsWhitespace(before[0]);
    assert Placeholder[0] !in before && Placeholder[0] !in after;
    NoMatchWithoutFirstChar(before, Placeholder);
    NoMatchWithoutFirstChar(after, Placeholder);
    HeaderBlankLineAndBody(header + "\n" + ("\n" + (before + Placeholder + after)), header, before, after);
    SummarizePrompt(before, after);
  }

  lemma SummarizePrompt(before: string, after: string)
    requires before == "Run " && after == " on the file."
    ensures before + ArgsTemplate + after == "Run {{args}} on the file."
  {
  }

  /** A single line without edge whitespace is the description as it stands, with an empty prompt. */
  lemma CleanOneLinerIsDescription(content: string)
    requires '\n' !in content && NoEdgeWhitespace(content)
    ensures ParseCommand(content) == GeminiCommand(content, "")
  {
    ParseWithoutNewline(content);
    TrimIsUnique(content, 0, content);
  }

  /** A one-line command has an empty prompt. */
  lemma ConvertsOneLiner()
    ensures ParseCommand("One-liner command") == GeminiCommand("One-liner command", "")
  {
    var content := "One-liner command";
    assert forall k :: 0 <= k < |content| ==> content[k] != '\n';
    CleanOneLinerIsDescription(content);
  }

  /**
   * The directory structure under the input root is kept under the output root: a
   * Markdown file `<input>/d1/.../dn/stem.md`, which the walk's `.md` filter accepts, is
   * written to `<output>/d1/.../dn/stem.toml`.
   */
  lemma DestinationKeepsStructure(inputDir: Path, outputDir: Path, dirs: Path, stem: string)
    requires forall k :: 0 <= k < |dirs| ==> dirs[k].Normal?
    requires stem != []
    ensures Extension(stem + "." + MarkdownExtension) == Some(MarkdownExtension)
    ensures MapDestination(inputDir + dirs + [Normal(stem + "." + MarkdownExtension)], inputDir, outputDir)
         == Some(outputDir + dirs + [Normal(stem + "." + TomlExtension)])
  {
    assert '.' !in MarkdownExtension;
    StemDotExtension(stem, MarkdownExtension);
    DestinationRenamesFile(inputDir, outputDir, dirs, stem, MarkdownExtension);
  }

  /** A file `stem.ext` below the input root becomes `stem.toml` at the same place below the output root. */
  lemma DestinationRenamesFile(inputDir: Path, outputDir: Path, dirs: Path, stem: string, ext: string)
    requires forall k :: 0 <= k < |dirs| ==> dirs[k].Normal?
    requires stem != [] && ext != [] && '.' !in ext
    ensures MapDestination(inputDir + dirs + [Normal(stem + "." + ext)], inputDir, outputDir)
         == Some(outputDir + dirs + [Normal(stem + "." + TomlExtension)])
  {
    var name := stem + "." + ext;
    StemDotExtension(stem, ext);
    RenameToExtension(name, TomlExtension);
    DestinationOfNested(inputDir, outputDir, dirs, name,
      inputDir + dirs + [Normal(stem + "." + ext)], stem + "." + TomlExtension);
  }

  /** Mapping a file below the input root: the relative part is kept and the file renamed. */
  lemma DestinationOfNested(inputDir: Path, outputDir: Path, dirs: Path, name: string, source: Path, renamed: string)
    requires forall k :: 0 <= k < |dirs| ==> dirs[k].Normal?
    requires source == inputDir + dirs + [Normal(name)]
    requires renamed == RenameExtension(name, TomlExtension)
    ensures MapDestination(source, inputDir, outputDir) == Some(outputDir + dirs + [Normal(renamed)])
  {
    var relative := dirs + [Normal(name)];
    assert source == inputDir + relative;
    StripPrefixOfAppended(inputDir, relative);
    assert relative[0].Normal?;
    assert Joined(outputDir, relative) == outputDir + relative;
    assert outputDir + relative == (outputDir + dirs) + [Normal(name)];
    WithExtensionOfFile(outputDir + dirs, name, TomlExtension);
  }

  /** The destination of a well-formed source under a well-formed output root is itself well formed. */
  lemma DestinationIsWellFormed(source: Path, inputDir: Path, outputDir: Path)
    requires WellFormed(source) && WellFormed(outputDir) && inputDir <= source
    ensures WellFormed(MapDestination(source, inputDir, outputDir).value)
  {
    var relative := StripPrefix(source, inputDir).value;
    assert relative == source[|inputDir|..];
    assert WellFormed(relative) by {
      forall i | 0 <= i < |relative| ensures relative[i] == source[|inputDir| + i] {}
    }
    SetExtensionKeepsWellFormed(Joined(outputDir, relative), TomlExtension);
  }
}
