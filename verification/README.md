# xctree in Dafny

`xctree` prints the accessibility tree of the app running in the iOS
Simulator. It prints either a box-drawing tree or JSON. This project models the
pure core of that tool and proves properties of it:

- **ColorSupport** (`color_support.dfy`): the thirteen ANSI colour codes.
  `StripColors` removes each code in list order, as `replacingOccurrences`
  does. `VisibleLength` is the length of what is left.
- **TextWrapper** (`text_wrapper.dfy`): `Wrap` breaks a value into lines
  behind a prefix. It breaks at the last space inside the width or cuts
  hard. The width is never less than one character.
- **TreePrinter** (`tree_printer.dfy`): the role line, the attribute lines
  (`FormatAttribute`), an element with its subtree (`Format`, via `Lines`)
  and sibling roots (`FormatRoots`).
- **JsonFormatter** (`json_formatter.dfy`):
  - `EncodeNode` gives the keyed container that `TreeNode.encode(to:)`
    builds.
  - `Layout` is the `.sortedKeys` writer: every object, at every depth, in
    ascending key order.
  - `Format` returns the document, or the "Error encoding JSON: " message
    when a frame holds a non-finite number.
- **TraitDecoder** (`trait_decoder.dfy`): a 64-bit trait mask becomes the
  names of its set bits 0 to 17, in bit order.
- **ArgumentParser** (`argument_parser.dfy`): the command-line parser, with
  its defaults, its value-taking options and its five errors. `--help` is a
  separate outcome.

`wrappers.dfy` holds `Option` and `Result`. `strings.dfy` holds `Join`
(`joined(separator:)`) and `Concat`.

Strings are sequences of characters, and each character stands for one Swift
`Character`. So `count` is the sequence length.

## Model

| member | source | states |
|---|---|---|
| ColorSupport.CodeShape | Sources/TreeFormatter/ColorSupport.swift:6-24 | Every code in the strip list is ESC `[` digits `m`. No ESC follows the first character. |
| ColorSupport.CodesPrefixFree | Sources/TreeFormatter/ColorSupport.swift:21-24 | No code in the list is a prefix of a different code followed by anything. |
| ColorSupport.RemoveAllPieces | Sources/TreeFormatter/ColorSupport.swift:33 | Removing one code from text built of plain pieces and codes drops exactly that code's pieces. Everything else stays in order. |
| ColorSupport.StripPieces | Sources/TreeFormatter/ColorSupport.swift:30-44 | Text built of ESC-free pieces and known codes strips to the concatenation of its plain pieces. Its visible length is their total length. |
| ColorSupport.VisibleLength | Sources/TreeFormatter/ColorSupport.swift:42-44 | The visible length never exceeds the character count. |
| ColorSupport.StripCodesOnly | Sources/TreeFormatter/ColorSupport.swift:30-44 | Any run of known codes strips to "" and has visible length 0. |
| ColorSupport.StripPlainText | Sources/TreeFormatter/ColorSupport.swift:30-44 | Text without ESC is returned unchanged. Its visible length is its length. |
| ColorSupport.StripPainted | Sources/TreeFormatter/ColorSupport.swift:30-44 | Plain text, a code, plain text and reset strips to the two plain texts joined. The visible length is their summed length. |
| ColorSupport.StripGreenAndRed | Tests/TreeFormatterTests/ColorSupportTests.swift:205-210 | Green "Green" reset " and " red "Red" reset strips to "Green and Red". |
| ColorSupport.StripKeepsText | Sources/TreeFormatter/ColorSupport.swift:30-36 | Stripping only removes characters a code can consist of: the other characters survive, in order. |
| ColorSupport.StripKeepsUnknownCode | Sources/TreeFormatter/ColorSupport.swift:21-36 | Example: one escape sequence outside the list, bright red ESC[91m followed by "X", is left intact. StripUnchangedIff covers every such text. |
| ColorSupport.StripUnchangedIff | Sources/TreeFormatter/ColorSupport.swift:21-36 | For every text, stripping returns it unchanged exactly when none of the 13 codes occurs in it. So text whose escape sequences are all outside the list is left intact. Any text in which a known code occurs comes back strictly shorter. |
| ColorSupport.StripNotIdempotent | Sources/TreeFormatter/ColorSupport.swift:30-36 | ESC `[` ESC[96m `0m` strips to the reset code, and stripping that again gives "". So stripping twice differs from stripping once. |
| TextWrapper.EffectiveWidth | Sources/TreeFormatter/TextWrapper.swift:20-24 | The room behind the prefix is the width minus the prefix's width, but never below one. |
| TextWrapper.LastSpace | Sources/TreeFormatter/TextWrapper.swift:34 | Finds the index of the last space, or reports that there is none. |
| TextWrapper.Slices | Sources/TreeFormatter/TextWrapper.swift:26-44 | Text gives no slices exactly when it is empty. There are never more slices than characters. Rejoining the slices with the dropped spaces gives the text back. |
| TextWrapper.Wrap | Sources/TreeFormatter/TextWrapper.swift:13-47 | Empty text gives no lines. Text that fits is one line behind the prefix. Every line starts with the prefix. In plain mode with a prefix narrower than the width, no line is wider than the width. |
| TextWrapper.WrapRoundTrip | Sources/TreeFormatter/TextWrapper.swift:26-44 | The lines are the prefix followed by each slice. The slices rejoin to the input text. |
| TextWrapper.SlicesFit | Sources/TreeFormatter/TextWrapper.swift:27-43 | Every slice fits the effective width. |
| TextWrapper.BreakRule | Sources/TreeFormatter/TextWrapper.swift:32-43 | Text too wide is broken at the last space inside the width, which is dropped. Without a space it is cut at exactly the width. The rest is wrapped the same way. |
| TextWrapper.HardCutsAreFull | Sources/TreeFormatter/TextWrapper.swift:38-43 | The last slice never ends at a dropped space. Every other hard-cut slice is exactly the width long. |
| TextWrapper.WrapPrefixAsWideAsLine | Sources/TreeFormatter/TextWrapper.swift:23-24 | With a prefix as wide as the line, space-free text comes out one character per line behind the full prefix. |
| TextWrapper.WrapHiAtWidthOne | Tests/TreeFormatterTests/TextWrapperTests.swift:236-244 | "Hi" at width 1 wraps to "H" and "i". |
| TextWrapper.WrapHelloWorldExtra | Tests/TreeFormatterTests/TextWrapperTests.swift:415-424 | "Hello World Extra" at width 12 wraps to "Hello World" and "Extra". |
| TreePrinter.FormatAttribute | Sources/TreeFormatter/TreePrinter.swift:149-156 | An attribute prints nothing exactly when its value is missing or empty. |
| TreePrinter.AttributeOverflow | Sources/TreeFormatter/TreePrinter.swift:171-185 | An overflowing value takes at least two lines. The value lines rejoin to the value. |
| TreePrinter.AttributeFits | Sources/TreeFormatter/TreePrinter.swift:164-170 | In plain mode a value that fits is printed on the attribute line itself. |
| TreePrinter.AttributeFitsColored | Sources/TreeFormatter/TreePrinter.swift:158-167 | In colour mode a fitting value is wrapped in its colour and a reset. |
| TreePrinter.ColoredAttributeLine | Sources/TreeFormatter/TreePrinter.swift:158-170 | A fitting coloured attribute line strips to the plain one and has its visible length. |
| TreePrinter.AttributeWithinWidth | Sources/TreeFormatter/TreePrinter.swift:164-185 | In plain mode, with room for the name, every attribute line fits the width. |
| TreePrinter.AttributeUnderPrefix | Sources/TreeFormatter/TreePrinter.swift:159-183 | In plain mode every attribute line starts with the attribute prefix. |
| TreePrinter.EmptyLabelHidesTitle | Sources/TreeFormatter/TreePrinter.swift:85 | An empty label is printed like no label and no title: the title does not replace it. |
| TreePrinter.TitleStandsInForLabel | Sources/TreeFormatter/TreePrinter.swift:85 | Without a label, the title is printed under the name `label`. |
| TreePrinter.EmptyTraitsHidden | Sources/TreeFormatter/TreePrinter.swift:88-91 | An empty trait list is printed like no trait list. |
| TreePrinter.ColoredRoleLine | Sources/TreeFormatter/TreePrinter.swift:71-78 | The coloured role line strips to the plain one and has its visible length. |
| TreePrinter.Lines | Sources/TreeFormatter/TreePrinter.swift:64-80 | The first line of an element's block is its role line. |
| TreePrinter.ChildrenInOrder | Sources/TreeFormatter/TreePrinter.swift:64-100 | An element's block is its role line, then its attribute lines, then every child's block in list order. Each child sits under the prefix plus the continuation, and only the final child is drawn as the last one. |
| TreePrinter.ChildLinesFrom | Sources/TreeFormatter/TreePrinter.swift:96-99 | The children's lines from any index on are their blocks one after the other, each child drawn as last exactly when it is the final child. |
| TreePrinter.FormatIsJoinedLines | Sources/TreeFormatter/TreePrinter.swift:57-103 | `format` is the flattened block of lines joined with newlines. |
| TreePrinter.LinesUnderPrefix | Sources/TreeFormatter/TreePrinter.swift:64-100 | In plain mode every line of an element's block starts with the prefix it was given. |
| TreePrinter.FormatRoots | Sources/TreeFormatter/TreePrinter.swift:130-137 | No roots format to the empty string. |
| TreePrinter.FormatRootsIsJoinedLines | Sources/TreeFormatter/TreePrinter.swift:130-137 | `formatRoots` is the roots' blocks, the last one closed, joined with newlines. |
| TreePrinter.NameGroupLines | Tests/TreeFormatterTests/TreePrinterTests.swift:55-78 | A group with two labelled static texts prints as its exact eight lines at width 80 in plain mode. |
| JsonFormatter.Insert | Sources/TreeFormatter/JSONFormatter.swift:88 | Inserting into a sorted member list keeps it sorted and adds exactly that member. |
| JsonFormatter.SortMembers | Sources/TreeFormatter/JSONFormatter.swift:88 | Sorting permutes the members. |
| JsonFormatter.LexLeTotal | Sources/TreeFormatter/JSONFormatter.swift:88 | Key order is total. |
| JsonFormatter.LexLeTrans | Sources/TreeFormatter/JSONFormatter.swift:88 | Key order is transitive. |
| JsonFormatter.LexLeAntisym | Sources/TreeFormatter/JSONFormatter.swift:88 | Key order is antisymmetric. |
| JsonFormatter.FrameEncoding | Sources/TreeFormatter/JSONFormatter.swift:65-77 | A frame encodes to its four numbers exactly when all are finite. Otherwise the error names the first non-finite one in x, y, width, height order, with that field's key as its coding path. |
| JsonFormatter.ErrorPathLeadsToNumber | Sources/TreeFormatter/JSONFormatter.swift:38-59 | A failed encoding reports a non-finite number together with its coding path: `frame` and a field name, below `children` and a position for each level down. Following the path through the tree reaches exactly that number. |
| JsonFormatter.ChildErrorPath | Sources/TreeFormatter/JSONFormatter.swift:56-58 | A failure among the children is reported under the failing child's position, and the rest of its path leads into that child. |
| JsonFormatter.EncodeSucceedsIff | Sources/TreeFormatter/JSONFormatter.swift:38-59 | A node encodes exactly when every frame in its subtree is finite. |
| JsonFormatter.FormatFailsIff | Sources/TreeFormatter/JSONFormatter.swift:86-99 | `format` returns the error message exactly when some frame in the tree is not finite. |
| JsonFormatter.Format | Sources/TreeFormatter/JSONFormatter.swift:96-97 | Every message starts with "Error encoding JSON: ". |
| JsonFormatter.IfPresentMembers | Sources/TreeFormatter/JSONFormatter.swift:41-46 | `encodeIfPresent` writes its key, with the string, exactly when the string is present, even an empty one. |
| JsonFormatter.ScalarMembersByKey | Sources/TreeFormatter/JSONFormatter.swift:41-51 | The six optional strings and the non-empty traits are the scalar members, each under its own key. |
| JsonFormatter.EncodedMembers | Sources/TreeFormatter/JSONFormatter.swift:38-63 | An encoded node holds a member exactly when the key-by-key reference says so. The frame is present when given. The children are present when there are any. No other key appears. |
| JsonFormatter.EncodedChildren | Sources/TreeFormatter/JSONFormatter.swift:56-58 | The children array holds each child's encoding, in order. |
| JsonFormatter.LayoutWellSorted | Sources/TreeFormatter/JSONFormatter.swift:88 | After the sorted-keys layout every object at every depth is in ascending key order. |
| JsonFormatter.LayoutKeepsMembers | Sources/TreeFormatter/JSONFormatter.swift:88 | The layout adds, drops and renames no member. It only reorders them and lays out their values. |
| JsonFormatter.SortKeepsKeys | Sources/TreeFormatter/JSONFormatter.swift:88 | Sorting keeps the multiset of keys. |
| JsonFormatter.AscendingUnique | Sources/TreeFormatter/JSONFormatter.swift:88 | Two ascending key lists with the same keys are equal. |
| JsonFormatter.LaidOutKeys | Sources/TreeFormatter/JSONFormatter.swift:88 | An object's laid-out key order is the unique ascending arrangement of its keys. |
| JsonFormatter.FrameKeyOrder | Sources/TreeFormatter/JSONFormatter.swift:65-77 | A frame is written with keys height, width, x, y. |
| JsonFormatter.RoleOnlyNode | Tests/TreeFormatterTests/TestModels.swift:633-647 | A node with only a role and an empty trait list is written as the single member `role`. |
| JsonFormatter.WrittenNode | Sources/TreeFormatter/JSONFormatter.swift:38-99 | For a finite tree, `format` yields a well-sorted document. Its members are exactly the expected keys, each with its laid-out value. |
| TraitDecoder.Positions | Tests/AXWrapperTests/TraitDecoderTests.swift:137-142 | The set bits are listed in strictly increasing order, each exactly once. |
| TraitDecoder.DecodeMembers | Tests/AXWrapperTests/TraitDecoderTests.swift:9-133 | A name is decoded exactly when one of its bits is set. |
| TraitDecoder.DecodeCount | Tests/AXWrapperTests/TraitDecoderTests.swift:261-312 | The output holds one name per named bit the mask sets, so its length is the number of set bits among bits 0 to 17. |
| TraitDecoder.IncreasingUnique | Tests/AXWrapperTests/TraitDecoderTests.swift:137-142 | An increasing list is determined by its members, so the bit order fixes the output order. |
| TraitDecoder.SingleBit | Tests/AXWrapperTests/TraitDecoderTests.swift:9-133 | Bit k alone, for each k in 0..17, decodes to exactly the k-th name. |
| TraitDecoder.Zero | Tests/AXWrapperTests/TraitDecoderTests.swift:204-215 | The zero mask decodes to no traits. |
| TraitDecoder.HighBitsIgnored | Tests/AXWrapperTests/TraitDecoderTests.swift:219-259 | Bits 18 to 63 never change the result. |
| TraitDecoder.OnlyHighBits | Tests/AXWrapperTests/TraitDecoderTests.swift:219-259 | A mask with only bits above 17 decodes to no traits. |
| TraitDecoder.AllNamedBits | Tests/AXWrapperTests/TraitDecoderTests.swift:186-200 | All eighteen named bits give all eighteen names in table order. |
| TraitDecoder.MaxMask | Tests/AXWrapperTests/TraitDecoderTests.swift:261-269 | `UInt64.max` decodes to the eighteen names. |
| TraitDecoder.ButtonSelected | Tests/AXWrapperTests/TraitDecoderTests.swift:137-142 | Bits 0 and 3, whatever the high bits, decode to button and selected. |
| TraitDecoder.FirstAndLast | Tests/AXWrapperTests/TraitDecoderTests.swift:282-287 | Bits 0 and 17 decode to button and toggle. |
| ArgumentParser.ParseInt | Sources/xctree/xctree.swift:76 | `Int(String)` only succeeds with a value in the 64-bit range. |
| ArgumentParser.ParseShow | Sources/xctree/xctree.swift:76 | Every 64-bit integer reads back from its decimal spelling. |
| ArgumentParser.Run | Sources/xctree/xctree.swift:50-84 | A successful scan keeps a valid configuration valid. It can turn colours off but never on. |
| ArgumentParser.Parse | Sources/xctree/xctree.swift:44-87 | A successful parse has a positive width that fits in 64 bits. |
| ArgumentParser.Describe | Sources/xctree/xctree.swift:28-41 | Every error message starts with the error marker. |
| ArgumentParser.DescribeInjective | Sources/xctree/xctree.swift:21-41 | Different errors give different messages. |
| ArgumentParser.DescribeShape | Sources/xctree/xctree.swift:28-41 | The invalid format, the invalid width and the unknown argument are each quoted in full, at a fixed position inside a message of fixed length around it. |
| ArgumentParser.EmptyArgs | Sources/xctree/xctree.swift:16 | No arguments give tree output, colours on, width 80. |
| ArgumentParser.RunAppend | Sources/xctree/xctree.swift:50-84 | A prefix that parses completely hands its settings on to the rest: the scan is a left fold. |
| ArgumentParser.RunStops | Sources/xctree/xctree.swift:52-82 | `--help`, an invalid format, an invalid width or an unknown token ends the parse, whatever follows. |
| ArgumentParser.PrefixParses | Sources/xctree/xctree.swift:50-84 | When the whole list parses, every prefix ending just before an option parses on its own. |
| ArgumentParser.MissingValue | Sources/xctree/xctree.swift:57-75 | `--format`/`-f` or `--width`/`-w` as the last token, after tokens that parse, gives the matching missing-value error. |
| ArgumentParser.ValueConsumed | Sources/xctree/xctree.swift:57-79 | The token after a value-taking option is always read as its value, and the pair's reading does not depend on what follows. |
| ArgumentParser.OptionIsNoValue | Sources/xctree/xctree.swift:60-77 | No option token is accepted as a format name or a width. |
| ArgumentParser.UnknownStops | Sources/xctree/xctree.swift:81-82 | An unrecognised token gives `unknownArgument` with that token. |
| ArgumentParser.NoColorIff | Sources/xctree/xctree.swift:69-70 | On success, colours are off exactly when `--no-color` was given. |
| ArgumentParser.LastWidthWins | Sources/xctree/xctree.swift:72-79 | On success, the last width option sets the width. |
| ArgumentParser.LastFormatWins | Sources/xctree/xctree.swift:56-67 | On success, the last format option sets the format. |
| ArgumentParser.ParseRender | Sources/xctree/xctree.swift:44-87 | Every configuration a parse can yield is yielded by its own rendering as arguments. |
| ArgumentParser.FormatCaseExamples | Sources/xctree/xctree.swift:60-64 | "JSON" and "Tree" select their formats: letter case is ignored. |
| ArgumentParser.BadFormatExamples | Sources/xctree/xctree.swift:65-66 | "--help" and "xml" as format values give `invalidFormat` with the value. |
| ArgumentParser.WidthExamples | Sources/xctree/xctree.swift:76-79 | "120" is accepted. "0", "-5", "abc" and "--no-color" give `invalidWidth` with the value. |

## Left out

- I/O. Printing to stdout, `printUsage`, `exit`, `main`, `TextWrapper.print`, `TreePrinter.print` and `printRoots` are side effects. `--help` is the `Help` outcome.
- The accessibility wrappers (`AccessibilityElement`, `SimulatorFinder`, `PermissionChecker`) and `toPrintableElement`/`toTreeNode`. They call macOS APIs and convert `CGFloat`.
- The implementation of `TraitDecoder.decode` is not part of this model. Its behaviour is modelled from `Tests/AXWrapperTests/TraitDecoderTests.swift`. Its one caller is `Sources/AXWrapper/AccessibilityElement.swift:135`.
- Byte-level JSON output. Pretty-printing whitespace, string escaping and the decimal rendering of doubles belong to Foundation. The document is an abstract `Json` value. A frame number is an opaque 64-bit pattern; only whether it is finite matters.
- The wording of a Foundation encoding error is a parameter (`describe`) of `Format`. The error it describes carries both the offending number and its coding path, so errors at different places stay distinct.
- The branch "Error: Could not convert JSON data to string" (`Sources/TreeFormatter/JSONFormatter.swift:92-95`) is not modelled. UTF-8 encoder output always converts back to a string.
- Grapheme-cluster segmentation and Unicode string comparison. Strings are taken as already-segmented characters.
- `ArgumentParser.FormatNamed` lowercases ASCII letters only. Swift's `lowercased()` is full Unicode lowercasing. Outside ASCII only the Kelvin sign lowercases to an ASCII letter, `k`, and `k` occurs in neither "tree" nor "json". The dotted capital I lowercases to `i` followed by a combining dot, one character that is not ASCII, so it cannot match either.
- TextWrapper.Wrap: colour mode measures width by visible length but cuts at raw character indices, as the source does. The width bound is proved for plain mode only.
- TreePrinter.LinesUnderPrefix: proved for plain mode only. In colour mode a wrapped attribute line starts with its colour code, not the prefix (`Sources/TreeFormatter/TreePrinter.swift:179`).
- JsonFormatter.WrittenNode: states key membership and ascending order for a whole node. It does not spell out the concrete key list of a node with every attribute. That list follows from LaidOutKeys and AscendingUnique.

## Notes

- Stripping colours is not idempotent, although it is natural to expect it. Removing a later code in the list can bring an earlier code together out of its pieces, so a second pass removes more (ColorSupport.StripNotIdempotent).
- Keys are ordered character by character (`JsonFormatter.LexLe`). Foundation's `.sortedKeys` compares with numeric and case-insensitive options. The two orders agree on the fixed lowercase ASCII keys that `TreeNode` and `FrameInfo` write, but not on keys in general.
- `depth` in `TreePrinter.format` is passed down but never read. The model carries it through unchanged.
