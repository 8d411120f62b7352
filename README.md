# ANSI-to-HTML span emitter of error-gallery

error-gallery runs compilers, captures their coloured terminal output and
renders it into a web page. The part of it with logic of its own is
`ansiToHTML` in `generate.go`: after HTML-escaping the captured text and
handing it to an ANSI tokenizer library, it walks the tokens and builds an
HTML fragment. Text tokens are appended as they are. Every command token
closes the open `<span>` and opens a new one whose `class` is looked up from
the command's foreground-colour code in a fixed table; a code the table
lacks is printed as a diagnostic and gets the empty class. The fragment
starts with `<span>` and ends with `</span>`.

This project models that emitter in Dafny and proves what it promises.

- `markup.dfy`, module `Markup`: a reference reading of HTML text into its
  tags (`<` up to the first `>`) and the text around them (`Tags`,
  `StripTags`), with lemmas on how a well-formed tag and tag-free text are
  read. It is the independent yardstick the emitter's output is measured by.
- `generate.dfy`, module `Generate`: the token type (`Text(content)` for
  the library's `String` tokens, `Command(fg)` for all others, carrying the
  token's `FG` field), the colour table `AnsiTable` with its eleven entries,
  the specification function `Render` (with `Body`, `Emit`, `ClassOf`), the
  loop `AnsiToHtml` proved equal to `Render`, and the lemmas below.

The tokenizer's output is the input of the model. The lemmas that read the
output's tags require `Escaped(ts)`: no text token holds a `<`. The source
guarantees this by HTML-escaping the whole input before tokenizing
(generate.go:47), which rewrites every `<` into an entity.

The emitter has no state beyond the output string: the class of each span
depends on its own command's code only (`BodyConcat`, `RenderBalanced`).

`ansiToHTML` has no bold, italic or underline classes and no cyan or bright
colours; it strips no leading zeros and does not split codes on `;`. The
class of each span depends only on the command token's `FG` string, which it
looks up as it is in a table of eleven entries (generate.go:52-67).

## Model

| member | source | states |
|---|---|---|
| `Generate.AnsiToHtml` | generate.go:70-89 | the loop's fragment equals `Render(tokens)`, and the diagnostics it reports are exactly `UnknownFgs(tokens)`, in input order |
| `Generate.Step` | generate.go:71-86 | one loop iteration appends exactly the token's own output to the fragment, plus its diagnostic when its code is unknown |
| `Generate.ClassOf` | generate.go:52-83 | every looked-up class is one of "", red, green, yellow, blue, purple, made of lower-case letters only (so it holds no `"`), and an unknown code gets "" |
| `Generate.TableClasses` | generate.go:52-67 | the table read both ways: 31 gives red, 35 purple, 38;5;12 blue, "" and 30 the empty class; each class comes from exactly the codes listed for it, and "" from the reset codes and every unknown code |
| `Generate.RenderEmpty` | generate.go:70-87 | an empty token sequence yields exactly `<span></span>` |
| `Generate.RenderFrame` | generate.go:70-87 | every fragment begins with `<span>` and ends with `</span>` |
| `Generate.RenderNoCommands` | generate.go:70-87 | without commands the fragment is `<span>`, the text tokens' contents, `</span>` |
| `Generate.BodyNoCommands` | generate.go:73-75 | without commands the emitted body is exactly the concatenated text |
| `Generate.BodyConcat` | generate.go:71-86 | the output of a concatenation of token sequences is the concatenation of their outputs: earlier tokens never change what later ones emit |
| `Generate.UnknownConcat` | generate.go:79-82 | the diagnostics for a concatenation are those of its parts, in order |
| `Generate.ScanCommand` | generate.go:85 | the markup of one command reads as exactly two tags, `</span>` then the opening tag of the command's class, and adds no text |
| `Generate.TagForms` | generate.go:70-87 | `<span>`, `</span>` and `<span class="C">` for a lower-case class C are well-formed tags (the class cannot end the tag early); the first two kinds open, `</span>` closes |
| `Generate.ScanToken` | generate.go:73-85 | one token's output reads as its text (a text token) or as its two tags (a command) |
| `Generate.ScanBody` | generate.go:71-86 | reading the body: its text is the text tokens' contents in order, its tags are one close/open pair per command |
| `Generate.RenderStripsToText` | generate.go:70-87 | deleting all tags from the fragment leaves exactly the concatenation of the text tokens' contents, in input order |
| `Generate.RenderTags` | generate.go:70-87 | the fragment's tags are `<span>`, one `</span>` plus `<span class="C">` per command in order, then `</span>` |
| `Generate.ClassesOfCommands` | generate.go:79-85 | the k-th span a command opens has the class the table gives the k-th command's colour code |
| `Generate.ClassesInPalette` | generate.go:52-67 | every class the emitted spans carry is one of "", red, green, yellow, blue, purple, in lower-case letters |
| `Generate.SpanTagsAt` | generate.go:85 | the commands' tags hold a closing tag at each even position and an opening tag at each odd one; the k-th command's opening tag carries its own class |
| `Generate.FramedTags` | generate.go:70-87 | the framed tag list has even length, opens at even positions and closes at odd ones, and the span after the k-th command has that command's class |
| `Generate.RenderBalanced` | generate.go:70-87 | the fragment holds (commands + 1) opening and as many closing span tags, strictly alternating open/close, and the span after the k-th command has the class of that command's code alone |
| `Generate.UnknownIsReset` | generate.go:79-83 | a command whose code is not in the table renders exactly as a reset command (code "") does at the same place; conversion neither stops nor fails |
| `Generate.UnknownAreMissing` | generate.go:79-81 | a code is reported exactly when some command carries it and the table lacks it; nothing is reported exactly when every command's code is in the table |
| `Generate.RenderExample` | generate.go:52-87 | red text followed by a reset gives an empty first span, the text in a `red` span, then an empty span of class "" |

## Left out

- `main` (generate.go:92-127): reading `config.toml`, substituting `$FILE`,
  parsing and executing the page template and creating `index.html` are file
  I/O and library templating.
- `executeCmd` (generate.go:34-43): starting processes on a pseudo-terminal
  and reading their output is I/O.
- `Language.Prepare` (generate.go:31-32): its body is empty.
- The ANSI tokenizer of the `go-ansiparser` library (generate.go:50,
  generate.go:71-72): the library's code is not part of this model. Its token
  stream is the model's input; how it splits the text and fills `FG` is not
  modelled.
- `template.HTMLEscapeString` (generate.go:47): a standard-library call. Its
  effect enters the model only as the `Escaped` requirement of the lemmas
  that read tags.
- The diagnostic `fmt.Printf` (generate.go:81): console output. The model
  returns the printed codes, in order, as `AnsiToHtml`'s `unknown`
  out-parameter instead.
- The `template.HTML` result type (generate.go:89) only marks the string as
  trusted for the template engine; the model returns the plain string.
