/** Box-drawing rendering of an element tree (TreePrinter.swift). */
module TreePrinter {
  import opened Wrappers
  import opened Strings
  import opened ColorSupport
  import TextWrapper

  /** `TreePrinterConfig`; the source's defaults are 80 and colours on. */
  datatype Config = Config(maxWidth: int, useColors: bool)

  /** `PrintableElement`: a node of the tree with its optional attributes
      and its ordered children. */
  datatype Element = Element(
    role: Option<string>,
    labelText: Option<string>,
    title: Option<string>,
    value: Option<string>,
    identifier: Option<string>,
    hint: Option<string>,
    traits: Option<seq<string>>,
    children: seq<Element>)

  /** The role shown for an element that has none. */
  const Placeholder: string := "AXElement"

  function Connector(isLast: bool): string {
    if isLast then "└──" else "├──"
  }

  /** What a node's attributes and children are indented by, after the
      node's own prefix. */
  function Continuation(isLast: bool): string {
    if isLast then "    " else "│   "
  }

  /** `text` between `color` and the reset code; unchanged when `color` is
      empty. */
  function Paint(color: string, text: string): (r: string)
    ensures |color| == 0 ==> r == text
  {
    if |color| == 0 then text else color + text + Reset
  }

  /** The first line of a node: connector, then the role, in magenta when
      colours are on. */
  function RoleLine(e: Element, isLast: bool, prefix: string, config: Config): string {
    var role := e.role.GetOr(Placeholder);
    prefix + Connector(isLast) + " " + (if config.useColors then Magenta + role + Reset else role)
  }

  /** `formatAttribute`: nothing for a missing or empty value; one line
      `name: value` when it fits the width; otherwise a `name:` line
      followed by the value wrapped two columns further in, without colour
      mode, each wrapped line painted as a whole. */
  function FormatAttribute(name: string, value: Option<string>, prefix: string, config: Config, color: string): (lines: seq<string>)
    ensures |lines| == 0 <==> value.None? || |value.value| == 0
  {
    if value.None? || |value.value| == 0 then []
    else
      var v := value.value;
      var testLine := prefix + name + ": " + v;
      if TextWrapper.Width(testLine, config.useColors) <= config.maxWidth then
        [prefix + name + ": " + Paint(color, v)]
      else
        var wrapped := TextWrapper.Wrap(v, prefix + "  ", config.maxWidth, false);
        [prefix + name + ":"] + PaintLines(color, wrapped)
  }

  /** Each line painted as a whole. */
  function PaintLines(color: string, ws: seq<string>): (r: seq<string>)
    ensures |r| == |ws|
    ensures forall k :: 0 <= k < |ws| ==> r[k] == Paint(color, ws[k])
  {
    if |ws| == 0 then []
    else
      var rest := PaintLines(color, ws[1..]);
      assert forall k :: 1 <= k < |ws| ==> ([Paint(color, ws[0])] + rest)[k] == rest[k - 1];
      [Paint(color, ws[0])] + rest
  }

  /** The colour of an attribute when colours are on, "" otherwise. */
  function AttributeColor(config: Config, color: string): string {
    if config.useColors then color else ""
  }

  /** The traits value as shown: "[a, b, c]", or nothing when the list is
      missing or empty. */
  function TraitsText(traits: Option<seq<string>>): Option<string> {
    if traits.Some? && |traits.value| > 0 then Some("[" + Join(traits.value, ", ") + "]") else None
  }

  /** The label shown: the label when present (even empty), else the
      title. */
  function ShownLabel(e: Element): Option<string> {
    if e.labelText.Some? then e.labelText else e.title
  }

  /** The attribute lines under a node, in the fixed order label, value,
      traits, id, hint. */
  function AttributeLines(e: Element, prefix: string, config: Config): seq<string> {
    FormatAttribute("label", ShownLabel(e), prefix, config, AttributeColor(config, Bold))
    + FormatAttribute("value", e.value, prefix, config, "")
    + FormatAttribute("traits", TraitsText(e.traits), prefix, config, AttributeColor(config, Gray))
    + FormatAttribute("id", e.identifier, prefix, config, AttributeColor(config, Cyan))
    + FormatAttribute("hint", e.hint, prefix, config, "")
  }

  /** The output of `format` as a list of lines: the role line, the
      attribute lines, then every child's lines. */
  function Lines(e: Element, isLast: bool, prefix: string, config: Config): (r: seq<string>)
    ensures |r| >= 1 && r[0] == RoleLine(e, isLast, prefix, config)
    decreases e, 1, 0
  {
    var inner := prefix + Continuation(isLast);
    [RoleLine(e, isLast, prefix, config)] + AttributeLines(e, inner, config) + ChildLines(e, 0, inner, config)
  }

  /** The lines of the children of `e` from the `i`-th on; only the last
      child is rendered as last. */
  function ChildLines(e: Element, i: nat, prefix: string, config: Config): seq<string>
    decreases e, 0, |e.children| - i
  {
    if i >= |e.children| then []
    else Lines(e.children[i], i == |e.children| - 1, prefix, config) + ChildLines(e, i + 1, prefix, config)
  }

  /** `TreePrinter.format(element, depth:, isLast:, prefix:, config:)` as
      written: the role and attribute lines and one already-joined block
      per child, joined by newlines. */
  function Format(e: Element, depth: int, isLast: bool, prefix: string, config: Config): string
    decreases e, 1, 0
  {
    var inner := prefix + Continuation(isLast);
    Join([RoleLine(e, isLast, prefix, config)] + AttributeLines(e, inner, config)
         + ChildBlocks(e, 0, depth, inner, config), "\n")
  }

  /** The formatted blocks of the children of `e` from the `i`-th on. */
  function ChildBlocks(e: Element, i: nat, depth: int, prefix: string, config: Config): seq<string>
    decreases e, 0, |e.children| - i
  {
    if i >= |e.children| then []
    else [Format(e.children[i], depth + 1, i == |e.children| - 1, prefix, config)]
         + ChildBlocks(e, i + 1, depth, prefix, config)
  }

  /** `TreePrinter.formatRoots`: the roots as siblings at the top level,
      only the final one last, joined by newlines. */
  function FormatRoots(roots: seq<Element>, config: Config): (r: string)
    ensures |roots| == 0 ==> r == ""
  {
    Join(RootBlocks(roots, 0, config), "\n")
  }

  function RootBlocks(roots: seq<Element>, i: nat, config: Config): (r: seq<string>)
    ensures |r| == 0 <==> i >= |roots|
    decreases |roots| - i
  {
    if i >= |roots| then []
    else [Format(roots[i], 0, i == |roots| - 1, "", config)] + RootBlocks(roots, i + 1, config)
  }

  // ---------------------------------------------------------------------
  // Attributes

  /** A value too wide for one line becomes a `name:` header followed by
      the value's wrapped pieces, two columns further in, each painted in
      the attribute's colour; the pieces rejoin to the value. */
  lemma AttributeOverflow(name: string, v: string, prefix: string, config: Config, color: string)
    requires |v| > 0
    requires TextWrapper.Width(prefix + name + ": " + v, config.useColors) > config.maxWidth
    ensures var lines := FormatAttribute(name, Some(v), prefix, config, color);
            var ss := TextWrapper.Slices(v, TextWrapper.EffectiveWidth(prefix + "  ", config.maxWidth, false), false);
            && TextWrapper.Rejoin(ss) == v
            && |lines| == |ss| + 1 >= 2
            && lines[0] == prefix + name + ":"
            && forall k :: 0 <= k < |ss| ==> lines[k + 1] == Paint(color, prefix + "  " + ss[k].text)
  {
    var wrapped := TextWrapper.Wrap(v, prefix + "  ", config.maxWidth, false);
    var ss := TextWrapper.Slices(v, TextWrapper.EffectiveWidth(prefix + "  ", config.maxWidth, false), false);
    var lines := FormatAttribute(name, Some(v), prefix, config, color);
    TextWrapper.WrapRoundTrip(v, prefix + "  ", config.maxWidth, false);
    assert lines == [prefix + name + ":"] + PaintLines(color, wrapped);
    forall k | 0 <= k < |ss|
      ensures lines[k + 1] == Paint(color, prefix + "  " + ss[k].text)
    {
      assert lines[k + 1] == PaintLines(color, wrapped)[k];
    }
  }

  /** In plain mode a value whose `name: value` line fits is shown on
      that one line. */
  lemma AttributeFits(name: string, v: string, prefix: string, config: Config)
    requires |v| > 0 && !config.useColors
    requires |prefix| + |name| + 2 + |v| <= config.maxWidth
    ensures FormatAttribute(name, Some(v), prefix, config, "") == [prefix + name + ": " + v]
  {
    assert |prefix + name + ": " + v| == |prefix| + |name| + 2 + |v|;
  }

  /** The two non-empty shapes of an attribute, spelled out. */
  lemma AttributeShape(name: string, v: string, prefix: string, config: Config, color: string)
    requires |v| > 0
    ensures var lines := FormatAttribute(name, Some(v), prefix, config, color);
            if TextWrapper.Width(prefix + name + ": " + v, config.useColors) <= config.maxWidth
            then lines == [prefix + name + ": " + Paint(color, v)]
            else lines == [prefix + name + ":"] + PaintLines(color, TextWrapper.Wrap(v, prefix + "  ", config.maxWidth, false))
  {
  }

  /** Painting with no colour changes nothing. */
  lemma PaintNothing(ws: seq<string>)
    ensures PaintLines("", ws) == ws
  {
  }

  /** Without a colour every attribute line starts with the prefix. */
  lemma AttributeUnderPrefix(name: string, value: Option<string>, prefix: string, config: Config)
    ensures AllUnder(prefix, FormatAttribute(name, value, prefix, config, ""))
  {
    if value.Some? && |value.value| > 0 {
      var v := value.value;
      AttributeShape(name, v, prefix, config, "");
      if TextWrapper.Width(prefix + name + ": " + v, config.useColors) > config.maxWidth {
        var wrapped := TextWrapper.Wrap(v, prefix + "  ", config.maxWidth, false);
        PaintNothing(wrapped);
        assert AllUnder(prefix + "  ", wrapped);
        AllUnderShorter(prefix, "  ", wrapped);
        assert AllUnder(prefix, [prefix + name + ":"]);
        AllUnderAppend(prefix, [prefix + name + ":"], wrapped);
      } else {
        assert prefix <= prefix + name + ": " + v;
      }
    }
  }

  /** Every line of `lines` is at most `width` characters long. */
  predicate AllWithin(width: int, lines: seq<string>) {
    forall k :: 0 <= k < |lines| ==> |lines[k]| <= width
  }

  /** In plain mode an attribute whose header fits keeps every line within
      the width: the single line passed the width test, and the wrapped
      lines are bounded by the wrapper. */
  lemma AttributeWithinWidth(name: string, value: Option<string>, prefix: string, config: Config)
    requires !config.useColors
    requires |prefix| + |name| + 1 <= config.maxWidth && |prefix| + 2 < config.maxWidth
    ensures AllWithin(config.maxWidth, FormatAttribute(name, value, prefix, config, ""))
  {
    if value.Some? && |value.value| > 0 {
      var v := value.value;
      AttributeShape(name, v, prefix, config, "");
      if TextWrapper.Width(prefix + name + ": " + v, false) > config.maxWidth {
        var wrapped := TextWrapper.Wrap(v, prefix + "  ", config.maxWidth, false);
        PaintNothing(wrapped);
        assert AllWithin(config.maxWidth, wrapped) by {
          assert |prefix + "  "| < config.maxWidth;
        }
        AllWithinAppend(config.maxWidth, [prefix + name + ":"], wrapped);
      }
    }
  }

  lemma AllWithinAppend(width: int, a: seq<string>, b: seq<string>)
    requires AllWithin(width, a) && AllWithin(width, b)
    ensures AllWithin(width, a + b)
  {
    forall k | 0 <= k < |a + b|
      ensures |(a + b)[k]| <= width
    {
      if k >= |a| {
        assert (a + b)[k] == b[k - |a|];
      }
    }
  }

  /** A label that is present but empty hides the title as well: the
      label line is omitted entirely. */
  lemma EmptyLabelHidesTitle(e: Element, prefix: string, config: Config)
    requires e.labelText == Some("")
    ensures AttributeLines(e, prefix, config) == AttributeLines(e.(labelText := None, title := None), prefix, config)
  {
    assert FormatAttribute("label", ShownLabel(e), prefix, config, AttributeColor(config, Bold)) == [];
  }

  /** A missing label falls back to the title, shown under the name
      "label". */
  lemma TitleStandsInForLabel(e: Element, prefix: string, config: Config)
    requires e.labelText.None?
    ensures AttributeLines(e, prefix, config) == AttributeLines(e.(labelText := e.title, title := None), prefix, config)
  {
  }

  /** An empty trait list is shown like a missing one: no traits line. */
  lemma EmptyTraitsHidden(e: Element, prefix: string, config: Config)
    requires e.traits == Some([])
    ensures AttributeLines(e, prefix, config) == AttributeLines(e.(traits := None), prefix, config)
  {
  }

  /** With colours on, a role line strips to the plain role line, and its
      visible length is the plain line's length. */
  lemma ColoredRoleLine(e: Element, isLast: bool, prefix: string, maxWidth: int)
    requires NoEsc(prefix) && NoEsc(e.role.GetOr(Placeholder))
    ensures StripColors(RoleLine(e, isLast, prefix, Config(maxWidth, true))) == RoleLine(e, isLast, prefix, Config(maxWidth, false))
    ensures VisibleLength(RoleLine(e, isLast, prefix, Config(maxWidth, true))) == |RoleLine(e, isLast, prefix, Config(maxWidth, false))|
  {
    var head := prefix + Connector(isLast) + " ";
    NoEscHead(prefix, Connector(isLast) + " ");
    RoleLineParts(e, isLast, prefix, maxWidth);
    StripPainted(head, Magenta, e.role.GetOr(Placeholder));
  }

  lemma RoleLineParts(e: Element, isLast: bool, prefix: string, maxWidth: int)
    ensures var head := prefix + Connector(isLast) + " ";
            && RoleLine(e, isLast, prefix, Config(maxWidth, true)) == head + Magenta + e.role.GetOr(Placeholder) + Reset
            && RoleLine(e, isLast, prefix, Config(maxWidth, false)) == head + e.role.GetOr(Placeholder)
  {
    var head := prefix + Connector(isLast) + " ";
    var role := e.role.GetOr(Placeholder);
    assert head + (Magenta + role + Reset) == head + Magenta + role + Reset;
  }

  lemma NoEscHead(a: string, b: string)
    requires NoEsc(a) && (b == Connector(true) + " " || b == Connector(false) + " " || b == ": " || NoEsc(b))
    ensures NoEsc(a + b)
  {
    assert NoEsc(b);
    assert forall i :: 0 <= i < |a + b| ==> (a + b)[i] == if i < |a| then a[i] else b[i - |a|];
  }

  /** With colours on, an attribute that fits on one line is painted in its
      colour, and stripping gives back exactly the plain-mode line. */
  lemma ColoredAttributeLine(name: string, v: string, prefix: string, maxWidth: int, color: string)
    requires |v| > 0 && color in ColorCodes
    requires NoEsc(prefix + name) && NoEsc(v)
    requires |prefix + name + ": " + v| <= maxWidth
    ensures var colored := FormatAttribute(name, Some(v), prefix, Config(maxWidth, true), color);
            var plain := FormatAttribute(name, Some(v), prefix, Config(maxWidth, false), "");
            && |colored| == 1 && |plain| == 1
            && StripColors(colored[0]) == plain[0]
            && VisibleLength(colored[0]) == |plain[0]|
  {
    var head := prefix + name + ": ";
    NoEscHead(prefix + name, ": ");
    CodeNonEmpty(color);
    AttributeFitsColored(name, v, prefix, maxWidth, color);
    AttributeFits(name, v, prefix, Config(maxWidth, false));
    StripPainted(head, color, v);
  }

  lemma AttributeFitsColored(name: string, v: string, prefix: string, maxWidth: int, color: string)
    requires |v| > 0 && |color| > 0
    requires NoEsc(prefix + name + ": ") && NoEsc(v)
    requires |prefix + name + ": " + v| <= maxWidth
    ensures FormatAttribute(name, Some(v), prefix, Config(maxWidth, true), color) == [prefix + name + ": " + color + v + Reset]
  {
    var head := prefix + name + ": ";
    assert TextWrapper.Width(head + v, true) <= maxWidth by {
      NoEscHead(head, v);
      StripPlainText(head + v);
    }
    assert head + Paint(color, v) == prefix + name + ": " + color + v + Reset;
  }


  // ---------------------------------------------------------------------
  // Whole trees

  /** The nested rendering (each child formatted and joined on its own,
      then joined into its parent) is the flat list of lines joined once;
      in particular `depth` does not affect the output. */
  lemma {:induction false} FormatIsJoinedLines(e: Element, depth: int, isLast: bool, prefix: string, config: Config)
    ensures Format(e, depth, isLast, prefix, config) == Join(Lines(e, isLast, prefix, config), "\n")
    decreases e, 1, 0
  {
    var inner := prefix + Continuation(isLast);
    var head := [RoleLine(e, isLast, prefix, config)] + AttributeLines(e, inner, config);
    ChildBlocksAreLines(e, 0, depth, inner, config, head);
    assert Lines(e, isLast, prefix, config) == head + ChildLines(e, 0, inner, config);
  }

  lemma {:induction false} ChildBlocksAreLines(e: Element, i: nat, depth: int, prefix: string, config: Config, head: seq<string>)
    requires |head| > 0
    ensures Join(head + ChildBlocks(e, i, depth, prefix, config), "\n") == Join(head + ChildLines(e, i, prefix, config), "\n")
    decreases e, 0, |e.children| - i
  {
    if i < |e.children| {
      var c := e.children[i];
      var last := i == |e.children| - 1;
      var block := Lines(c, last, prefix, config);
      var blocks := ChildBlocks(e, i + 1, depth, prefix, config);
      var lines := ChildLines(e, i + 1, prefix, config);
      ChildStep(e, i, depth, prefix, config);
      FormatIsJoinedLines(c, depth + 1, last, prefix, config);
      ChildBlocksAreLines(e, i + 1, depth, prefix, config, head + block);
      SpliceStep(head, ChildBlocks(e, i, depth, prefix, config), ChildLines(e, i, prefix, config),
                 Format(c, depth + 1, last, prefix, config), block, blocks, lines);
    }
  }

  /** The splice of one child block, with every list abstracted. */
  lemma SpliceStep(head: seq<string>, blocksHere: seq<string>, linesHere: seq<string>,
                   joined: string, block: seq<string>, blocks: seq<string>, lines: seq<string>)
    requires |head| > 0 && |block| > 0
    requires blocksHere == [joined] + blocks && linesHere == block + lines && joined == Join(block, "\n")
    requires Join(head + block + blocks, "\n") == Join(head + block + lines, "\n")
    ensures Join(head + blocksHere, "\n") == Join(head + linesHere, "\n")
  {
    assert head + blocksHere == head + [joined] + blocks;
    JoinSplice(head, block, blocks, "\n");
    assert head + linesHere == head + block + lines;
  }

  /** One step of the two child recursions. */
  lemma ChildStep(e: Element, i: nat, depth: int, prefix: string, config: Config)
    requires i < |e.children|
    ensures ChildBlocks(e, i, depth, prefix, config)
         == [Format(e.children[i], depth + 1, i == |e.children| - 1, prefix, config)] + ChildBlocks(e, i + 1, depth, prefix, config)
    ensures ChildLines(e, i, prefix, config)
         == Lines(e.children[i], i == |e.children| - 1, prefix, config) + ChildLines(e, i + 1, prefix, config)
  {
  }

  /** The blocks of the children from the `i`-th on, each child's block
      rendered as last exactly when it is the final child. */
  function ChildBlockList(e: Element, i: nat, prefix: string, config: Config): (r: seq<seq<string>>)
    requires i <= |e.children|
    ensures |r| == |e.children| - i
  {
    seq(|e.children| - i, k requires 0 <= k < |e.children| - i =>
      Lines(e.children[i + k], i + k == |e.children| - 1, prefix, config))
  }

  /** The children's lines from the `i`-th on are their blocks, in list
      order, one after the other. */
  lemma {:induction false} ChildLinesFrom(e: Element, i: nat, prefix: string, config: Config)
    requires i <= |e.children|
    ensures ChildLines(e, i, prefix, config) == Concat(ChildBlockList(e, i, prefix, config))
    decreases |e.children| - i
  {
    var blocks := ChildBlockList(e, i, prefix, config);
    if i < |e.children| {
      var rest := ChildBlockList(e, i + 1, prefix, config);
      forall k | 0 <= k < |rest|
        ensures blocks[1..][k] == rest[k]
      {
        assert blocks[1..][k] == blocks[k + 1];
      }
      assert blocks[1..] == rest;
      ChildLinesFrom(e, i + 1, prefix, config);
      ChildStep(e, i, 0, prefix, config);
    }
  }

  /** Under a node, the children are written in list order, each under
      the node's prefix and continuation, and only the final child is
      drawn as the last one. */
  lemma ChildrenInOrder(e: Element, isLast: bool, prefix: string, config: Config)
    ensures var inner := prefix + Continuation(isLast);
            Lines(e, isLast, prefix, config)
            == [RoleLine(e, isLast, prefix, config)] + AttributeLines(e, inner, config)
               + Concat(seq(|e.children|, k requires 0 <= k < |e.children| =>
                            Lines(e.children[k], k == |e.children| - 1, inner, config)))
  {
    var inner := prefix + Continuation(isLast);
    ChildLinesFrom(e, 0, inner, config);
    assert ChildBlockList(e, 0, inner, config)
        == seq(|e.children|, k requires 0 <= k < |e.children| =>
               Lines(e.children[k], k == |e.children| - 1, inner, config));
  }

  /** Every line of `lines` starts with `p`. */
  predicate AllUnder(p: string, lines: seq<string>) {
    forall k :: 0 <= k < |lines| ==> p <= lines[k]
  }

  lemma AllUnderAppend(p: string, a: seq<string>, b: seq<string>)
    requires AllUnder(p, a) && AllUnder(p, b)
    ensures AllUnder(p, a + b)
  {
    forall k | 0 <= k < |a + b|
      ensures p <= (a + b)[k]
    {
      if k >= |a| {
        assert (a + b)[k] == b[k - |a|];
      }
    }
  }

  lemma AllUnderShorter(p: string, q: string, lines: seq<string>)
    requires AllUnder(p + q, lines)
    ensures AllUnder(p, lines)
  {
    forall k | 0 <= k < |lines|
      ensures p <= lines[k]
    {
      assert p + q <= lines[k];
      assert lines[k][..|p|] == (p + q)[..|p|];
    }
  }

  /** Without colours every line of a subtree starts with the prefix it
      was given (coloured wrapped attribute lines start with their colour
      code instead). */
  lemma {:induction false} LinesUnderPrefix(e: Element, isLast: bool, prefix: string, config: Config)
    requires !config.useColors
    ensures AllUnder(prefix, Lines(e, isLast, prefix, config))
    decreases e, 1, 0
  {
    var inner := prefix + Continuation(isLast);
    AttributeLinesUnderPrefix(e, inner, config);
    ChildLinesUnderPrefix(e, 0, inner, config);
    LinesParts(e, isLast, prefix, config);
    UnderParts(prefix, Continuation(isLast), RoleLine(e, isLast, prefix, config),
               AttributeLines(e, inner, config), ChildLines(e, 0, inner, config), Lines(e, isLast, prefix, config));
  }

  /** `Lines` unfolded once. */
  lemma LinesParts(e: Element, isLast: bool, prefix: string, config: Config)
    ensures Lines(e, isLast, prefix, config)
         == [RoleLine(e, isLast, prefix, config)]
            + (AttributeLines(e, prefix + Continuation(isLast), config) + ChildLines(e, 0, prefix + Continuation(isLast), config))
  {
  }

  lemma UnderParts(prefix: string, cont: string, role: string, a: seq<string>, c: seq<string>, lines: seq<string>)
    requires prefix <= role && AllUnder(prefix + cont, a) && AllUnder(prefix + cont, c)
    requires lines == [role] + (a + c)
    ensures AllUnder(prefix, lines)
  {
    AllUnderAppend(prefix + cont, a, c);
    AllUnderShorter(prefix, cont, a + c);
    assert AllUnder(prefix, [role]);
    AllUnderAppend(prefix, [role], a + c);
  }

  lemma {:induction false} ChildLinesUnderPrefix(e: Element, i: nat, prefix: string, config: Config)
    requires !config.useColors
    ensures AllUnder(prefix, ChildLines(e, i, prefix, config))
    decreases e, 0, |e.children| - i
  {
    if i < |e.children| {
      ChildStep(e, i, 0, prefix, config);
      LinesUnderPrefix(e.children[i], i == |e.children| - 1, prefix, config);
      ChildLinesUnderPrefix(e, i + 1, prefix, config);
      AllUnderAppend(prefix, Lines(e.children[i], i == |e.children| - 1, prefix, config), ChildLines(e, i + 1, prefix, config));
    }
  }

  lemma AttributeLinesUnderPrefix(e: Element, prefix: string, config: Config)
    requires !config.useColors
    ensures AllUnder(prefix, AttributeLines(e, prefix, config))
  {
    var a1 := FormatAttribute("label", ShownLabel(e), prefix, config, "");
    var a2 := FormatAttribute("value", e.value, prefix, config, "");
    var a3 := FormatAttribute("traits", TraitsText(e.traits), prefix, config, "");
    var a4 := FormatAttribute("id", e.identifier, prefix, config, "");
    var a5 := FormatAttribute("hint", e.hint, prefix, config, "");
    AttributeUnderPrefix("label", ShownLabel(e), prefix, config);
    AttributeUnderPrefix("value", e.value, prefix, config);
    AttributeUnderPrefix("traits", TraitsText(e.traits), prefix, config);
    AttributeUnderPrefix("id", e.identifier, prefix, config);
    AttributeUnderPrefix("hint", e.hint, prefix, config);
    AllUnderAppend(prefix, a1, a2);
    AllUnderAppend(prefix, a1 + a2, a3);
    AllUnderAppend(prefix, a1 + a2 + a3, a4);
    AllUnderAppend(prefix, a1 + a2 + a3 + a4, a5);
    assert AttributeLines(e, prefix, config) == a1 + a2 + a3 + a4 + a5;
  }

  /** The lines of the roots from the `i`-th on, each rendered at the top
      level with only the final root last. */
  function RootLines(roots: seq<Element>, i: nat, config: Config): (r: seq<string>)
    ensures |r| == 0 <==> i >= |roots|
    decreases |roots| - i
  {
    if i >= |roots| then []
    else Lines(roots[i], i == |roots| - 1, "", config) + RootLines(roots, i + 1, config)
  }

  /** Formatting several roots is joining all their lines: the roots are
      siblings under an empty prefix, and only the final one is drawn with
      the closing connector. */
  lemma {:induction false} FormatRootsIsJoinedLines(roots: seq<Element>, config: Config)
    ensures FormatRoots(roots, config) == Join(RootLines(roots, 0, config), "\n")
  {
    RootBlocksAreLines(roots, 0, config);
  }

  lemma {:induction false} RootBlocksAreLines(roots: seq<Element>, i: nat, config: Config)
    ensures Join(RootBlocks(roots, i, config), "\n") == Join(RootLines(roots, i, config), "\n")
    decreases |roots| - i
  {
    if i < |roots| {
      var last := i == |roots| - 1;
      var block := Lines(roots[i], last, "", config);
      var blocks := RootBlocks(roots, i + 1, config);
      var lines := RootLines(roots, i + 1, config);
      FormatIsJoinedLines(roots[i], 0, last, "", config);
      RootBlocksAreLines(roots, i + 1, config);
      RootStep(Join(block, "\n"), block, blocks, lines, RootBlocks(roots, i, config), RootLines(roots, i, config));
    }
  }

  /** One root's step, with every list abstracted. */
  lemma RootStep(joined: string, block: seq<string>, blocks: seq<string>, lines: seq<string>,
                 blocksHere: seq<string>, linesHere: seq<string>)
    requires |block| > 0 && joined == Join(block, "\n")
    requires |blocks| == 0 <==> |lines| == 0
    requires Join(blocks, "\n") == Join(lines, "\n")
    requires blocksHere == [joined] + blocks && linesHere == block + lines
    ensures Join(blocksHere, "\n") == Join(linesHere, "\n")
  {
    if |blocks| == 0 {
      assert blocksHere == [joined];
      assert linesHere == block;
    } else {
      JoinAppend([joined], blocks, "\n");
      JoinAppend(block, lines, "\n");
    }
  }

  // ---------------------------------------------------------------------
  // A worked example: a group of two labelled texts, in plain mode.

  function FirstName(): Element {
    Element(Some("AXStaticText"), Some("First Name"), None, None, None, None, Some(["staticText"]), [])
  }

  function LastName(): Element {
    Element(Some("AXStaticText"), Some("Last Name"), None, None, None, None, Some(["staticText"]), [])
  }

  function NameGroup(): Element {
    Element(Some("AXGroup"), Some("Name Group"), None, None, None, None, None, [FirstName(), LastName()])
  }

  lemma LeafLines(e: Element, isLast: bool, prefix: string, config: Config)
    requires e.children == []
    ensures Lines(e, isLast, prefix, config)
         == [RoleLine(e, isLast, prefix, config)] + AttributeLines(e, prefix + Continuation(isLast), config)
  {
    assert ChildLines(e, 0, prefix + Continuation(isLast), config) == [];
  }

  lemma LeafAttributes(e: Element, text: string, prefix: string)
    requires e.labelText == Some(text) && |text| > 0 && e.value.None? && e.identifier.None? && e.hint.None?
    requires e.traits == Some(["staticText"])
    requires |prefix| + 19 + |text| <= 80
    ensures AttributeLines(e, prefix, Config(80, false))
         == [prefix + "label: " + text, prefix + "traits: [staticText]"]
  {
    var config := Config(80, false);
    assert TraitsText(e.traits) == Some("[staticText]") by {
      assert Join(["staticText"], ", ") == "staticText";
      assert "[" + "staticText" + "]" == "[staticText]";
    }
    AttributeFits("label", text, prefix, config);
    AttributeFits("traits", "[staticText]", prefix, config);
    assert prefix + "label" + ": " + text == prefix + "label: " + text;
    assert prefix + "traits" + ": " + "[staticText]" == prefix + "traits: [staticText]";
  }

  /** `Lines` from already-known parts. */
  lemma LinesFromParts(e: Element, isLast: bool, prefix: string, config: Config,
                       inner: string, role: string, attrs: seq<string>, kids: seq<string>)
    requires inner == prefix + Continuation(isLast)
    requires RoleLine(e, isLast, prefix, config) == role
    requires AttributeLines(e, inner, config) == attrs
    requires ChildLines(e, 0, inner, config) == kids
    ensures Lines(e, isLast, prefix, config) == [role] + attrs + kids
  {
    LinesParts(e, isLast, prefix, config);
  }

  lemma FirstNameAttributes()
    ensures AttributeLines(FirstName(), "    │   ", Config(80, false))
         == ["    │   label: First Name", "    │   traits: [staticText]"]
  {
    LeafAttributes(FirstName(), "First Name", "    │   ");
    assert "    │   " + "label: " + "First Name" == "    │   label: First Name";
    assert "    │   " + "traits: [staticText]" == "    │   traits: [staticText]";
  }

  lemma FirstNameLines()
    ensures Lines(FirstName(), false, "    ", Config(80, false))
         == ["    ├── AXStaticText", "    │   label: First Name", "    │   traits: [staticText]"]
  {
    var config := Config(80, false);
    var inner := "    │   ";
    assert "    " + Continuation(false) == inner;
    FirstNameAttributes();
    assert RoleLine(FirstName(), false, "    ", config) == "    ├── AXStaticText";
    assert ChildLines(FirstName(), 0, inner, config) == [];
    LinesFromParts(FirstName(), false, "    ", config, inner, "    ├── AXStaticText",
                   ["    │   label: First Name", "    │   traits: [staticText]"], []);
  }

  lemma LastNameAttributes()
    ensures AttributeLines(LastName(), "        ", Config(80, false))
         == ["        label: Last Name", "        traits: [staticText]"]
  {
    LeafAttributes(LastName(), "Last Name", "        ");
    assert "        " + "label: " + "Last Name" == "        label: Last Name";
    assert "        " + "traits: [staticText]" == "        traits: [staticText]";
  }

  lemma LastNameLines()
    ensures Lines(LastName(), true, "    ", Config(80, false))
         == ["    └── AXStaticText", "        label: Last Name", "        traits: [staticText]"]
  {
    var config := Config(80, false);
    var inner := "        ";
    assert "    " + Continuation(true) == inner;
    LastNameAttributes();
    assert RoleLine(LastName(), true, "    ", config) == "    └── AXStaticText";
    assert ChildLines(LastName(), 0, inner, config) == [];
    LinesFromParts(LastName(), true, "    ", config, inner, "    └── AXStaticText",
                   ["        label: Last Name", "        traits: [staticText]"], []);
  }

  lemma NameGroupChildLines()
    ensures ChildLines(NameGroup(), 0, "    ", Config(80, false))
         == ["    ├── AXStaticText", "    │   label: First Name", "    │   traits: [staticText]",
             "    └── AXStaticText", "        label: Last Name", "        traits: [staticText]"]
  {
    var config := Config(80, false);
    FirstNameLines();
    LastNameLines();
    ChildStep(NameGroup(), 0, 0, "    ", config);
    ChildStep(NameGroup(), 1, 0, "    ", config);
  }

  lemma NameGroupAttributes()
    ensures AttributeLines(NameGroup(), "    ", Config(80, false)) == ["    label: Name Group"]
  {
    AttributeFits("label", "Name Group", "    ", Config(80, false));
    assert "    " + "label" + ": " + "Name Group" == "    label: Name Group";
  }

  /** The "element with children" fixture, as lines: the inner connector
      marks the first text as a middle sibling and the second as the last,
      and the continuation column is kept only under the middle one. */
  lemma NameGroupLines()
    ensures Lines(NameGroup(), true, "", Config(80, false))
         == ["└── AXGroup", "    label: Name Group",
             "    ├── AXStaticText", "    │   label: First Name", "    │   traits: [staticText]",
             "    └── AXStaticText", "        label: Last Name", "        traits: [staticText]"]
  {
    var config := Config(80, false);
    var inner := "    ";
    assert "" + Continuation(true) == inner;
    NameGroupChildLines();
    NameGroupAttributes();
    assert RoleLine(NameGroup(), true, "", config) == "└── AXGroup";
    LinesFromParts(NameGroup(), true, "", config, inner, "└── AXGroup", ["    label: Name Group"],
                   ["    ├── AXStaticText", "    │   label: First Name", "    │   traits: [staticText]",
                    "    └── AXStaticText", "        label: Last Name", "        traits: [staticText]"]);
  }
}
