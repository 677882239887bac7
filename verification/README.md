# Markdown-to-HTML core of a static site generator, in Dafny

This project models the part of the generator that turns a Markdown page
into HTML:

- **HTML tree.** Leaf and parent elements, their attributes and the
  serialiser `to_html` (`HtmlNodes`).
- **Inline lexer.** It cuts a line of text into typed text nodes. First it
  finds links and images, then the `**` bold, `_` italic and `` ` `` code
  delimiters (`References`, `Delimiters`, `Inline`). It also maps each text
  node to an HTML leaf (`Inline`).
- **Blocks.** The splitter cuts a document at blank lines. The classifier
  tells heading, code, quote, list and paragraph blocks apart (`Blocks`).
- **Compilers.** One per block kind turns a block into an element, plus the
  document compiler that wraps all blocks in a `div` (`Compiler`). The
  code-fence split has its own module (`Fences`).
- **Page.** Title extraction, the template substitution and the page
  pipeline (`Pages`).

Python's string built-ins used by the source are defined in `Strings`:

- `strip`, `startswith` and `endswith`;
- `split(sep)`, `sep.join` and `splitlines`;
- `split(maxsplit=1)` and `split(sep, maxsplit=1)`;
- `replace` and `count`.

`Strings` also defines `find` and `in` (`FindFrom` and `Contains`), in whose
terms the splits and the replacement are stated.

A `Result` type replaces each exception the source raises. It also replaces
each `IndexError` the source hits on a missing split piece. The error values
are listed in `Errors`. `Results.MapResult` models a Python `map` whose
function may raise: the first failing element decides the error.

`textnode.py` is not part of this model. The `TextNodes` module follows how
`text_to_html.py` and `test_textnode.py` use text nodes: a text, one of six
kinds, and an optional URL.

In these places the model does what the code does:

- **Heading level.** The classifier accepts any number of `#` before the
  space. A heading with more than six `#` therefore reaches the compiler,
  which fails with `HeadingLevel` (`Compiler.HeadingTooDeep`).
- **Code blocks.** A block is CODE when it starts and ends with three
  backticks. There is no minimum length, so a lone ```` ``` ```` is CODE.
  It compiles to an empty `code` element holding a single line feed
  (`Compiler.CodeBlockLone`).
- **Quotes.** Only the block's first character is checked for `>`. The
  compiler then cuts every line at its first `>`, wherever that is. A
  later line without any `>` fails (`Compiler.QuoteMissingMarker`).
- **Empty documents.** A blank document yields a `div` with no children,
  and the serialiser rejects that (`Compiler.BlankDocument`).
- **Heading errors.** The heading compiler lexes the heading text before it
  checks the level. An inline error therefore wins over a bad level.

## Model

| member | source | states |
|---|---|---|
| HtmlNodes.PropsToHtml | src/htmlnode.py:28-31 | no attributes render as the empty string; otherwise the attribute text starts with a space |
| HtmlNodes.PropsToHtmlIsSpacedAttrs | src/htmlnode.py:28-31 | the attribute text equals each `key="value"` pair, in insertion order, each preceded by one space |
| HtmlNodes.ToHtmlOkIffValid | src/htmlnode.py:50-89 | serialisation succeeds exactly on valid trees (every leaf has a value, no `img` holds text, every parent has a tag and at least one child, recursively), and yields the empty string exactly for an empty untagged text leaf |
| HtmlNodes.ChildrenOkIffValid | src/htmlnode.py:81-85 | the children concatenate without error exactly when each child is valid; the result is empty exactly when every child is silent |
| HtmlNodes.ChildrenConcat | src/htmlnode.py:81-85 | the left fold over the children: appending a child appends its HTML |
| HtmlNodes.ChildrenFirstError | src/htmlnode.py:81-85 | the first child that fails decides the error of the whole fold |
| HtmlNodes.ParentToHtml | src/htmlnode.py:74-89 | a tagged parent with children renders as its tag and attributes around the concatenated children, or passes on the children's error |
| HtmlNodes.ImgParentToHtml | src/htmlnode.py:74-89 | a parent tagged `img` goes through the leaf rule: it self-closes when its children render to nothing and fails otherwise |
| Inline.TextNodeToHtml | src/text_to_html.py:9-29 | fails exactly for a link or image whose URL is absent or empty, with `MissingUrl`; otherwise yields a valid leaf |
| Inline.TextNodeToHtmlInverse | src/text_to_html.py:9-29 | the leaf can be read back into the text node it came from, so the mapping loses nothing |
| Inline.TextNodeToHtmlInjective | src/text_to_html.py:9-29 | distinct well-formed text nodes map to distinct leaves |
| Inline.TextNodeRendering | src/text_to_html.py:9-29 | each leaf serialises to the reference HTML of its kind: raw text, `<b>`, `<i>`, `<code>`, `<a href>` or a self-closing `<img src alt>` |
| Delimiters.DropEmpty | src/text_to_html.py:55 | keeps exactly the nodes with non-empty text: none is empty, every non-empty node stays, and a list without empty texts is returned as it is |
| Delimiters.DropEmptyAppend | src/text_to_html.py:55 | filtering a concatenation is the concatenation of the filtered parts, so the kept nodes stay in their order; a single node is kept exactly when its text is non-empty |
| Delimiters.SplitNodeDelimiter | src/text_to_html.py:38-56 | non-text nodes and texts without the delimiter pass unchanged; fails exactly when the text holds the delimiter a number of times other than zero or two, with an unclosed-delimiter error naming the delimiter; on success every piece is non-empty, URL-free and plain or of the new kind |
| Delimiters.SplitDelimiter | src/text_to_html.py:32-58 | a list without text nodes passes unchanged; every failure is an unclosed delimiter naming the delimiter |
| Delimiters.SplitDelimiterOk | src/text_to_html.py:38-49 | the pass over a list succeeds exactly when it succeeds on every node |
| Delimiters.SplitDelimiterErr | src/text_to_html.py:42-49 | the pass fails exactly when some plain text holds the delimiter a number of times other than zero or two |
| Delimiters.SplitDelimiterAppend | src/text_to_html.py:37-58 | the pass over a concatenation is the concatenation of the passes over the parts; the first failing part decides the error |
| Delimiters.SplitDelimiterConsumes | src/text_to_html.py:42-56 | after a successful pass no plain text holds the delimiter |
| Delimiters.SplitDelimiterPlainFree | src/text_to_html.py:42-56 | the pass creates no new occurrence of any string in plain text, so an earlier pass's delimiter stays consumed |
| Delimiters.SplitNodeDelimiterPair | src/text_to_html.py:42-56 | any text with exactly two occurrences, `a d b d c` cut at the leftmost ones, becomes plain `a`, `b` of the new kind and plain `c`, empty pieces dropped |
| Delimiters.SplitNodeDelimiterUnclosed | src/text_to_html.py:46-49 | any text with exactly one occurrence fails, and the error carries the text after it |
| Delimiters.SplitNodeDelimiterMany | src/text_to_html.py:46-49 | any text with three or more occurrences fails, and the error carries the text between the first two |
| Delimiters.SplitDelimiterUnlex | src/text_to_html.py:32-58 | writing the output back as Markdown gives the input, when no text holds an empty span |
| Delimiters.SplitDelimiterWellFormed | src/text_to_html.py:32-58 | the pass keeps link and image nodes with URLs and gives no other node a URL |
| Delimiters.SplitDelimiterNoOp | src/text_to_html.py:43-45 | a pass whose delimiter occurs in no text changes nothing |
| References.FindRef | src/text_to_html.py:111-112 | finds the leftmost position where the link or image pattern matches; nothing matches before it, and none is found only when none matches anywhere |
| References.MatchAfterMarkup | src/text_to_html.py:83 | a match spans exactly `[anchor](url)`, or `![anchor](url)` for images; the anchor has no `](`, the URL no `)`, and neither has a line feed |
| References.Scan | src/text_to_html.py:84 | the text between matches and the matches themselves, woven back together, give the original text; no match is found exactly when there is one piece |
| References.ScanChain | src/text_to_html.py:83-84 | the scan reads the text left to right: each match is the leftmost one from where the previous match ended, each piece is the text in between, and after the last match none is left |
| References.ChainScan | src/text_to_html.py:83-84 | any pieces and matches read that way are the scan's, so the scan is the only such reading |
| References.SplitNodeRefs | src/text_to_html.py:75-128 | writing the output back as Markdown gives the input node; text without a match passes unchanged; the new nodes are plain or of the pass's kind |
| References.SplitRefs | src/text_to_html.py:75-128 | the pass over a list preserves its Markdown and leaves non-text nodes alone |
| References.SplitRefsWellFormed | src/text_to_html.py:75-128 | every link or image the pass creates carries a URL |
| References.SplitRefsNoBracket | src/text_to_html.py:85-87 | texts without `[` pass unchanged |
| References.SplitRefsRefFree | src/text_to_html.py:79-98 | after the pass no plain text holds a match of it, and plain text that held no match of the other pass still holds none |
| References.BangBracketNoLink | src/text_to_html.py:111 | the link pattern never matches at a `[` preceded by `!`, so text whose every `[` follows a `!` passes the link pass unchanged |
| References.ImageBrackets | src/text_to_html.py:111 | in text whose only `[` belongs to one image, every `[` is preceded by `!`, so the link pass leaves it alone |
| References.SplitNodeRefsSingle | src/text_to_html.py:75-128 | text with one reference becomes the text before it, the link or image node and the text after it, empty texts dropped |
| References.SplitNodeRefsChain | src/text_to_html.py:83-98 | for any number of references: text read left to right as pieces and leftmost matches becomes each non-empty piece as plain text with a link or image node for each match between them, and stays one node when nothing matches |
| Inline.RefPasses | src/text_to_html.py:135-137 | the link pass then the image pass preserve the text's Markdown |
| Inline.TextToTextNodes | src/text_to_html.py:131-150 | the only failure of the lexer is an unclosed delimiter |
| Inline.TextToTextNodesErr | src/text_to_html.py:131-150 | the lexer fails exactly when the bold pass sees a plain text with a number of `**` other than zero or two, or the italic pass such a count of `_`, or the code pass such a count of backticks |
| Inline.TextToTextNodesConsumes | src/text_to_html.py:131-150 | when the lexer succeeds no plain text holds `**`, `_` or a backtick |
| Inline.RefPassesRefFree | src/text_to_html.py:135-137 | after the link and image passes no plain text holds a link or an image |
| Inline.TextToTextNodesWellFormed | src/text_to_html.py:131-150 | every node the lexer yields is well formed: links and images with a URL, the rest without |
| Inline.TextToTextNodesUnlex | src/text_to_html.py:131-150 | writing the lexed nodes back as Markdown gives the input text, when it holds no empty span |
| Inline.TextToTextNodesPlain | src/text_to_html.py:131-150 | text without markup lexes to one plain node |
| Inline.TextToTextNodesSpan | src/text_to_html.py:131-150 | one bold, italic or code span between plain texts lexes to plain, span, plain, empty texts dropped |
| Inline.TextToTextNodesUnclosed | src/text_to_html.py:131-150 | one unpaired delimiter in plain text makes the lexer fail, reporting it |
| Inline.TextToTextNodesRef | src/text_to_html.py:131-150 | one link or image between plain texts lexes to plain, link or image with its URL, plain |
| Inline.TextNodesToHtml | src/text_to_html.py:164 | succeeds exactly when every node converts; the leaves correspond one to one with the nodes; a failure is some node's failure |
| Inline.TextToChildren | src/text_to_html.py:163-164 | fails exactly when the lexer fails or yields a link or image without URL; every child is a valid leaf |
| Inline.TextToChildrenRendering | src/text_to_html.py:163-164 | the children serialise to the reference HTML of the lexed nodes, in order |
| Inline.TextToChildrenPlain | src/text_to_html.py:163-164 | text without markup becomes one text leaf that serialises to the text itself |
| Blocks.StripPieces | src/text_to_html.py:154-157 | every kept piece is non-empty and stripped; none remain exactly when every piece is blank |
| Blocks.StripPiecesOne | src/text_to_html.py:154-157 | a single piece is dropped when blank and otherwise kept as its stripped text |
| Blocks.StripPiecesAppend | src/text_to_html.py:154-157 | the pieces are handled one at a time and in order: the blocks of a concatenation are the blocks of its parts, concatenated |
| Blocks.MarkdownToBlocks | src/text_to_html.py:153-160 | every block is non-empty, stripped and free of blank lines |
| Blocks.MarkdownToBlocksPieces | src/text_to_html.py:153-160 | a document written as pieces between its leftmost blank lines has as blocks exactly those pieces, each stripped, the blank ones dropped, in order |
| Blocks.MarkdownToBlocksSplit | src/text_to_html.py:153-160 | every document is such a writing: its split pieces are cut at the leftmost blank lines, the last holds none, and joined they give the document back |
| Blocks.MarkdownToBlocksEmpty | src/text_to_html.py:153-160 | a document has no blocks exactly when it is all whitespace |
| Blocks.MarkdownToBlocksJoin | src/text_to_html.py:153-160 | blocks joined with blank lines split back into the same blocks |
| Blocks.BlockToBlockType | src/blocknode.py:14-26 | heading exactly when the block opens with one or more `#` and a space; each other kind implies its prefix or suffix; a block opening with none of the marker characters is a paragraph |
| Blocks.BlockTypeIff | src/blocknode.py:14-26 | code, quote, unordered and ordered list each hold exactly when their test passes and no earlier test does |
| Blocks.HeadingLineType | src/blocknode.py:15-16 | a line of n `#`, a space and a title classifies as a heading of n hashes, for every n of at least one |
| Blocks.CodeBlockType | src/blocknode.py:17-18 | anything fenced by three backticks, and a lone three backticks, is code |
| Fences.FindFence | src/text_to_html.py:174 | finds the leftmost match of the optional line feed, three backticks and optional line feed; none is found only when none matches |
| Fences.FencedText | src/text_to_html.py:174 | the second piece of the split exists exactly when the pattern matches somewhere |
| Fences.FencedBody | src/text_to_html.py:174 | a body between fences on their own lines, with no three backticks of its own, is the second piece |
| Fences.FencedAround | src/text_to_html.py:174 | any text between an opening and a closing fence, with no three backticks of its own, comes back without the line feed after the opening fence and the one before the closing fence, and nothing else removed |
| Compiler.CodeBlockToHtml | src/text_to_html.py:173-175 | fails exactly when the block holds no fence; otherwise a valid `pre` element |
| Compiler.CodeBlockBody | src/text_to_html.py:173-175 | a fenced body classifies as code and compiles to `pre` around `code` holding the body and a line feed |
| Compiler.CodeBlockFenced | src/text_to_html.py:173-175 | any text between two fences compiles to `pre` around `code` holding that text, trimmed of the fences' line feeds, and a line feed |
| Compiler.CodeBlockInfoString | src/text_to_html.py:173-175 | a language name after the opening backticks stays in the code as its first line |
| Compiler.CodeBlockInline | src/text_to_html.py:173-175 | ```` ```x``` ```` compiles to the code `x` and a line feed |
| Compiler.CodeBlockLone | src/text_to_html.py:173-175 | a lone three backticks classifies as code and compiles to a `code` element holding one line feed |
| Compiler.CodeBlockOk | src/text_to_html.py:173-175 | every block classified as code compiles |
| Compiler.HeadingTag | src/text_to_html.py:183 | the tag is `h` followed by the level's digit |
| Compiler.HeadingBlockToHtml | src/text_to_html.py:178-185 | a block of fewer than two words fails; success is a heading element without attributes |
| Compiler.HeadingLineHtml | src/text_to_html.py:178-185 | a heading line of level n classifies as a heading; it compiles to the level's tag around its text, fails with the lexer's error, or fails with `HeadingLevel` above six |
| Compiler.HeadingTooDeep | src/text_to_html.py:182-185 | a classified heading of seven or more `#` fails with `HeadingLevel` |
| Compiler.HeadingHasText | src/text_to_html.py:178-181 | a stripped block the classifier calls a heading always has a second word |
| Compiler.QuoteContent | src/text_to_html.py:190 | succeeds exactly when the line holds a `>` and yields what follows its first `>` |
| Compiler.QuoteContents | src/text_to_html.py:190 | succeeds exactly when every line holds a `>`; the contents correspond one to one with the lines |
| Compiler.QuoteContentsError | src/text_to_html.py:190 | the first line without `>` is reported |
| Compiler.QuoteContentsLines | src/text_to_html.py:190 | marking each line with `>` and taking the contents gives the lines back |
| Compiler.QuoteBlockToHtml | src/text_to_html.py:188-194 | success is a `blockquote` element without attributes |
| Compiler.QuoteBlockLines | src/text_to_html.py:188-194 | lines each marked with `>` classify as a quote and compile to a `blockquote` of the lines joined by spaces |
| Compiler.QuoteMissingMarker | src/text_to_html.py:188-194 | a quote block with a later line lacking `>` classifies as a quote but fails on that line |
| Compiler.ItemText | src/text_to_html.py:170 | succeeds exactly when the line has two words and yields the text after the first word |
| Compiler.ListItems | src/text_to_html.py:167-170 | succeeds exactly when every line has two words; the items correspond one to one with the lines |
| Compiler.ListItemsLines | src/text_to_html.py:167-170 | lines written as marker, space and item give the items back |
| Compiler.ItemHtml | src/text_to_html.py:199-200 | an item compiles exactly when its text lexes, into an `li` element |
| Compiler.ListItemsToHtml | src/text_to_html.py:199-200 | compiles exactly when every item lexes; the `li` elements correspond one to one with the items |
| Compiler.ListBlockToHtml | src/text_to_html.py:197-202 | success is an element of the given tag with one child per line |
| Compiler.UnorderedListLines | src/text_to_html.py:197-202 | lines written `- item` classify as an unordered list and compile to `ul` around the items |
| Compiler.OrderedListLines | src/text_to_html.py:197-202 | lines written `1. item` classify as an ordered list and compile to `ol` around the items |
| Compiler.ParagraphBlockToHtml | src/text_to_html.py:205-210 | success is a `p` element without attributes |
| Compiler.ParagraphLines | src/text_to_html.py:205-210 | a paragraph's lines are joined by spaces and lexed into its children |
| Compiler.BlockToHtml | src/text_to_html.py:213-226 | the element's tag always fits the block kind it was compiled for |
| Compiler.KindOfTagFits | src/text_to_html.py:213-226 | the tag determines the block kind, so no two kinds share a tag |
| Compiler.CompileBlock | src/text_to_html.py:233-234 | each block goes to the compiler of the kind the classifier gives it, and a compiled block is an attribute-free parent element whose tag fits that kind |
| Compiler.CompileBlockKind | src/text_to_html.py:233-234 | the kind read back from a compiled block's tag is the kind the classifier gave the block |
| Compiler.BlocksToHtml | src/text_to_html.py:231-234 | succeeds exactly when every block compiles; the elements correspond one to one with the blocks |
| Compiler.BlocksFirstError | src/text_to_html.py:231-234 | the first block that fails decides the error |
| Compiler.MarkdownToHtmlNode | src/text_to_html.py:229-236 | succeeds exactly when every block compiles, into a `div` with one child per block |
| Compiler.BlankDocument | src/text_to_html.py:229-236 | a blank document gives an empty `div`, which serialisation rejects |
| Compiler.DocumentBlocks | src/text_to_html.py:229-236 | blocks joined with blank lines compile to a `div` of the blocks' elements |
| Results.MapResult | src/text_to_html.py:164 | succeeds exactly when the function succeeds on every element, pointwise; a failure is some element's failure |
| Results.MapResultFirstError | src/text_to_html.py:164 | the first failing element decides the error |
| Strings.Strip | src/text_to_html.py:156 | the result is stripped, no longer than the input, and empty exactly when the input is all whitespace |
| Strings.StripIdempotent | src/text_to_html.py:156 | stripping twice equals stripping once |
| Strings.Split | src/text_to_html.py:156 | one more piece than occurrences of the separator, and the pieces joined with it give the input |
| Strings.SplitCuts | src/text_to_html.py:156 | every piece but the last ends where the first occurrence of the separator in the rest of the text begins, so the cuts are leftmost and do not overlap |
| Strings.SplitJoin | src/text_to_html.py:156 | a list whose every piece but the last ends where the first occurrence of the separator in the rest of the joined text begins, and whose last piece lacks the separator, joined and split gives the same list |
| Strings.SplitLinesJoin | src/text_to_html.py:168 | lines without line feeds, joined by line feeds, split back into the same lines |
| Strings.SplitLines | src/text_to_html.py:168 | no line holds a line feed; the lines joined by line feeds, plus the final line feed when the text ends in one, give back the text; no lines exactly for empty text |
| Strings.JoinCons | src/text_to_html.py:191 | joining a first string before a non-empty list puts the separator between it and the list's join |
| Strings.JoinAppend | src/text_to_html.py:207 | joining the concatenation of two non-empty lists gives the two joins with one separator between them |
| Strings.CountChar | src/text_to_html.py:180 | the count is at most the length; zero exactly when the character is absent; the length exactly when every character is it |
| Strings.CountCharOne | src/text_to_html.py:180 | a single character counts one when it is the character asked for and zero otherwise |
| Strings.CountCharAppend | src/text_to_html.py:180 | the count of a concatenation is the sum of the counts, so the count is the number of positions holding the character |
| Strings.SplitFirstWord | src/text_to_html.py:170 | at most two pieces; none exactly for blank text; the first is a word; the second starts with a non-space |
| Strings.SplitFirstWordParts | src/text_to_html.py:170 | the first piece is the whole first word after the leading whitespace; with one piece only whitespace follows it; the second piece is the rest of the text after a non-empty whitespace run |
| Strings.SplitOnce | src/page_generator.py:9 | one piece, the input, exactly when the separator does not occur; otherwise two |
| Strings.ReplaceAll | src/page_generator.py:26 | text without the pattern is unchanged |
| Strings.ReplaceFirst | src/page_generator.py:26 | when the first occurrence of the pattern starts right after `x`, the result is `x`, the replacement, and the rest of the text replaced on its own |
| Strings.ReplaceStep | src/page_generator.py:26 | the text up to the first occurrence is kept, that occurrence becomes the replacement, and the rest is replaced on its own; text without the pattern is kept |
| Strings.ReplaceJoin | src/page_generator.py:26 | a text cut at leftmost occurrences of the pattern, with no occurrence in its last piece, gets the replacement at exactly those cuts and nowhere else |
| Pages.ExtractTitle | src/page_generator.py:6-11 | fails exactly when the stripped document does not start with `# `; the title is the first line after `# `, stripped and without line feeds |
| Pages.TitleLine | src/page_generator.py:6-11 | a document starting with `# ` and a title, followed by a line feed or nothing, yields that title |
| Pages.FillTemplate | src/page_generator.py:26 | a template without either slot is left as it is |
| Pages.FillTemplateJoin | src/page_generator.py:26 | any template: the title goes in at each leftmost title slot, then the HTML at each leftmost content slot of the result |
| Pages.FillSlots | src/page_generator.py:26 | a template with one title slot and one content slot gets the title and the HTML in their places |
| Pages.GeneratePage | src/page_generator.py:24-26 | a document without a title heading fails with `MissingTitle`; the page is produced exactly when the title is found, the document compiles and its tree serialises; with a title, a compile failure is that failure |
| Pages.GeneratePageSlots | src/page_generator.py:22-26 | with a template holding one title slot before one content slot and no other braces, the page is the template with the extracted title and the serialised document in those places |
| Pages.HeadingOnlyHtml | src/text_to_html.py:229-236 | a document holding only `# title` serialises to `<div><h1>title</h1></div>` |
| Pages.HeadingOnlyPage | src/page_generator.py:24-26 | a document holding only `# title` fills the template with the title and `<div><h1>title</h1></div>` |

## Left out

- File reading and writing, directory creation, the existence checks and the progress message of `generate_page`, and all of `file_deploy.py` and `main.py`: they are I/O. `GeneratePage` takes the document and the template as strings and returns the page.
- `__repr__` of the element classes: it is debugging output.
- Regular expressions: each pattern the core uses is replaced by a scanner over the string. The scanners are `BlockToBlockType`'s `#` prefix test, `FindRef`/`MatchAfter` for the link and image patterns, and `FindFence` for the code-fence pattern. Only the matches they compute are modelled, not a regular-expression engine.
- `extract_markdown_images` and `extract_markdown_links` are not separate functions. `Scan` computes the split pieces and the matches together, as the source zips them together.
- Exception messages: each error carries the data its message reports, not the text.
- Whitespace: `strip` and `split()` treat space, tab, line feed and carriage return as whitespace. Python's other Unicode whitespace is not modelled.
- `splitlines`: only the line feed separates lines. Python's other line boundaries, such as a carriage return or a form feed, are not modelled.
- Code blocks keep a language tag after the opening fence as part of the code, as the source does.
- Inline.TextToTextNodesUnlex: the Markdown round trip is stated only for text without an empty span (`****`, `__`, a doubled backtick), because such a span lexes to nothing and its delimiters are lost.
- Inline.TextToTextNodesSpan, Inline.TextToTextNodesUnclosed and Inline.TextToTextNodesRef state the lexer's output only for surrounding text without other markup characters. Mixed markup is covered by the general contracts only.
- Pages.FillSlots, Pages.GeneratePageSlots and Pages.HeadingOnlyPage assume that no `{` occurs outside the two slots. Otherwise a slot could be formed by the substituted title or overlap another slot. Pages.FillTemplateJoin covers any template, stated through the leftmost cuts of each slot.
- HtmlNodes.PropsToHtml: attributes are a sequence of pairs, rendered in order. Keys are not required to be distinct: a repeated key is rendered once per pair, whereas a Python dict holds each key once. The dict's insertion order is the sequence order.
- Inline.TextToTextNodes: freedom from links and images is proved after the two reference passes (Inline.RefPassesRefFree), not carried through the three delimiter passes. The delimiter passes are proved to keep plain text free of the earlier delimiters only (Delimiters.SplitDelimiterPlainFree).
- Pages.HeadingOnlyHtml and Pages.HeadingOnlyPage require a non-empty, stripped title without markup characters.
