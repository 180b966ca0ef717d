/** The command-line parser of `xctree` (xctree.swift): a left-to-right
    scan of the argument list into an output format, a colour switch and a
    column width, with a closed set of errors. */
module ArgumentParser {
  import opened Wrappers

  datatype OutputFormat = Tree | Json

  datatype Config = Config(format: OutputFormat, useColors: bool, maxWidth: int)

  /** Tree output, colours on, 80 columns. */
  const Default: Config := Config(Tree, true, 80)

  datatype ParseError =
    | InvalidFormat(value: string)
    | MissingFormatValue
    | MissingWidthValue
    | InvalidWidth(value: string)
    | UnknownArgument(arg: string)

  /** What a parse ends in. `--help` prints the usage text and exits with
      status 0 as soon as it is reached; here it is its own outcome. */
  datatype Outcome = Parsed(config: Config) | Help | Failed(error: ParseError)

  // ---------------------------------------------------------------------
  // Swift's `Int(String)` on a 64-bit platform

  const IntMin: int := -0x8000_0000_0000_0000
  const IntMax: int := 0x7FFF_FFFF_FFFF_FFFF

  predicate IsDigit(c: char) {
    '0' <= c <= '9'
  }

  predicate AllDigits(s: string) {
    forall i :: 0 <= i < |s| ==> IsDigit(s[i])
  }

  /** The value of a run of decimal digits, most significant first. */
  function DigitsValue(s: string): nat
    requires AllDigits(s)
  {
    if |s| == 0 then 0
    else DigitsValue(s[..|s| - 1]) * 10 + (s[|s| - 1] as int - '0' as int)
  }

  /** `Int(s)`: an optional `+` or `-`, then one or more ASCII digits,
      and a value that fits in 64 bits; anything else is `nil`. */
  function ParseInt(s: string): (r: Option<int>)
    ensures r.Some? ==> IntMin <= r.value <= IntMax
  {
    if |s| == 0 then None
    else
      var digits := if s[0] == '-' || s[0] == '+' then s[1..] else s;
      if |digits| == 0 || !AllDigits(digits) then None
      else
        var v: int := if s[0] == '-' then -(DigitsValue(digits) as int) else DigitsValue(digits);
        if IntMin <= v <= IntMax then Some(v) else None
  }

  function DigitChar(d: nat): (c: char)
    requires d < 10
    ensures IsDigit(c)
  {
    ('0' as int + d) as char
  }

  /** The shortest decimal spelling of a natural number. */
  function DigitsOf(n: nat): (r: string)
    ensures 0 < |r| && AllDigits(r)
  {
    if n < 10 then [DigitChar(n)] else DigitsOf(n / 10) + [DigitChar(n % 10)]
  }

  /** `String(n)`: a minus sign for negative numbers, then the digits. */
  function Show(n: int): string {
    if n < 0 then "-" + DigitsOf(-n) else DigitsOf(n)
  }

  lemma {:induction false} DigitsRoundTrip(n: nat)
    ensures DigitsValue(DigitsOf(n)) == n
  {
    if n >= 10 {
      var s := DigitsOf(n);
      assert s[..|s| - 1] == DigitsOf(n / 10);
      DigitsRoundTrip(n / 10);
    }
  }

  /** Every 64-bit integer reads back from its own decimal spelling. */
  lemma ParseShow(n: int)
    requires IntMin <= n <= IntMax
    ensures ParseInt(Show(n)) == Some(n)
  {
    if n < 0 {
      DigitsRoundTrip(-n);
      assert Show(n)[1..] == DigitsOf(-n);
    } else {
      DigitsRoundTrip(n);
    }
  }

  // ---------------------------------------------------------------------
  // `lowercased()` and the format names

  function LowerChar(c: char): char {
    if 'A' <= c <= 'Z' then (c as int + 32) as char else c
  }

  /** `lowercased()` on ASCII letters; every other character is kept. */
  function Lower(s: string): (r: string)
    ensures |r| == |s|
    ensures forall i :: 0 <= i < |s| ==> r[i] == LowerChar(s[i])
  {
    if |s| == 0 then [] else [LowerChar(s[0])] + Lower(s[1..])
  }

  /** The format a `--format` value selects, compared in lower case. */
  function FormatNamed(v: string): Option<OutputFormat> {
    var l := Lower(v);
    if l == "tree" then Some(Tree) else if l == "json" then Some(Json) else None
  }

  function FormatName(f: OutputFormat): string {
    match f
    case Tree => "tree"
    case Json => "json"
  }

  // ---------------------------------------------------------------------
  // The parser

  /** Whether a token is one of the options the parser knows. */
  predicate IsOption(t: string) {
    t in ["--help", "-h", "--format", "-f", "--no-color", "--width", "-w"]
  }

  /** A configuration some successful parse can end in. */
  predicate Valid(c: Config) {
    0 < c.maxWidth <= IntMax
  }

  /** The parse loop over the tokens not yet read, from the settings made
      so far. A value-taking option consumes the next token whatever it
      looks like; the first error or `--help` ends the scan. */
  function Run(args: seq<string>, cfg: Config): (o: Outcome)
    ensures Valid(cfg) && o.Parsed? ==> Valid(o.config)
    ensures o.Parsed? ==> (o.config.useColors ==> cfg.useColors)
    decreases |args|
  {
    if |args| == 0 then Parsed(cfg)
    else
      var arg := args[0];
      if arg == "--help" || arg == "-h" then Help
      else if arg == "--format" || arg == "-f" then
        if |args| == 1 then Failed(MissingFormatValue)
        else
          match FormatNamed(args[1])
          case Some(f) => Run(args[2..], cfg.(format := f))
          case None => Failed(InvalidFormat(args[1]))
      else if arg == "--no-color" then Run(args[1..], cfg.(useColors := false))
      else if arg == "--width" || arg == "-w" then
        if |args| == 1 then Failed(MissingWidthValue)
        else
          match ParseInt(args[1])
          case Some(w) =>
            if w > 0 then Run(args[2..], cfg.(maxWidth := w)) else Failed(InvalidWidth(args[1]))
          case None => Failed(InvalidWidth(args[1]))
      else Failed(UnknownArgument(arg))
  }

  /** `ArgumentParser.parse`. */
  function Parse(args: seq<string>): (o: Outcome)
    ensures o.Parsed? ==> Valid(o.config)
  {
    Run(args, Default)
  }

  const ErrorPrefix: string := "❌ Error: "

  /** `ParseError.description`. */
  function Describe(e: ParseError): (r: string)
    ensures ErrorPrefix <= r
  {
    match e
    case InvalidFormat(v) => ErrorPrefix + "Invalid format '" + v + "'. Use 'tree' or 'json'."
    case MissingFormatValue => ErrorPrefix + "--format requires an argument (tree or json)"
    case MissingWidthValue => ErrorPrefix + "--width requires a number argument"
    case InvalidWidth(v) => ErrorPrefix + "Invalid width '" + v + "'. Must be a positive number."
    case UnknownArgument(a) => ErrorPrefix + "Unknown argument '" + a + "'"
  }

  /** Where a value-carrying message puts the value, and how long the
      message is around it. */
  lemma DescribeShape(e: ParseError)
    ensures e.InvalidFormat? ==> |Describe(e)| == 49 + |e.value| && Describe(e)[25..25 + |e.value|] == e.value
    ensures e.InvalidWidth? ==> |Describe(e)| == 53 + |e.value| && Describe(e)[24..24 + |e.value|] == e.value
    ensures e.UnknownArgument? ==> |Describe(e)| == 28 + |e.arg| && Describe(e)[27..27 + |e.arg|] == e.arg
  {
    match e
    case InvalidFormat(v) =>
      assert Describe(e) == ErrorPrefix + "Invalid format '" + v + "'. Use 'tree' or 'json'.";
    case InvalidWidth(v) =>
      assert Describe(e) == ErrorPrefix + "Invalid width '" + v + "'. Must be a positive number.";
    case UnknownArgument(a) =>
      assert Describe(e) == ErrorPrefix + "Unknown argument '" + a + "'";
    case _ =>
  }

  /** The characters after the prefix that tell the messages apart. */
  lemma DescribeMarks(e: ParseError)
    ensures Describe(e)[9] == (if e.InvalidFormat? || e.InvalidWidth? then 'I' else if e.UnknownArgument? then 'U' else '-')
    ensures e.MissingFormatValue? || e.MissingWidthValue? ==> Describe(e)[11] == (if e.MissingFormatValue? then 'f' else 'w')
    ensures e.InvalidFormat? || e.InvalidWidth? ==> Describe(e)[17] == (if e.InvalidFormat? then 'f' else 'w')
  {
    match e
    case InvalidFormat(v) =>
      assert Describe(e)[..18] == ErrorPrefix + "Invalid f";
    case InvalidWidth(v) =>
      assert Describe(e)[..18] == ErrorPrefix + "Invalid w";
    case UnknownArgument(a) =>
      assert Describe(e)[..10] == ErrorPrefix + "U";
    case MissingFormatValue =>
      var tail := "--format requires an argument (tree or json)";
      assert Describe(e) == ErrorPrefix + tail;
      assert tail[0] == '-';
      assert tail[2] == 'f';
    case MissingWidthValue =>
      var tail := "--width requires a number argument";
      assert Describe(e) == ErrorPrefix + tail;
      assert tail[0] == '-';
      assert tail[2] == 'w';
  }

  /** Different errors are reported with different messages. */
  lemma DescribeInjective(e1: ParseError, e2: ParseError)
    requires Describe(e1) == Describe(e2)
    ensures e1 == e2
  {
    DescribeMarks(e1);
    DescribeMarks(e2);
    DescribeShape(e1);
    DescribeShape(e2);
  }

  // ---------------------------------------------------------------------
  // Properties

  /** No arguments: the defaults. */
  lemma EmptyArgs()
    ensures Parse([]) == Parsed(Config(Tree, true, 80))
  {
  }

  /** A prefix that parses completely hands its settings on to the rest:
      the scan is a left fold over the options. */
  lemma {:induction false} RunAppend(a: seq<string>, b: seq<string>, cfg: Config)
    requires Run(a, cfg).Parsed?
    ensures Run(a + b, cfg) == Run(b, Run(a, cfg).config)
    decreases |a|
  {
    if |a| == 0 {
      assert a + b == b;
    } else {
      var arg := a[0];
      assert (a + b)[0] == arg;
      if arg == "--no-color" {
        assert (a + b)[1..] == a[1..] + b;
        RunAppend(a[1..], b, cfg.(useColors := false));
      } else if arg == "--format" || arg == "-f" {
        assert (a + b)[1] == a[1];
        assert (a + b)[2..] == a[2..] + b;
        RunAppend(a[2..], b, cfg.(format := FormatNamed(a[1]).value));
      } else if arg == "--width" || arg == "-w" {
        assert (a + b)[1] == a[1];
        assert (a + b)[2..] == a[2..] + b;
        RunAppend(a[2..], b, cfg.(maxWidth := ParseInt(a[1]).value));
      }
    }
  }

  /** `--help` and every error other than a missing value end the parse
      for good: nothing after them is looked at. */
  lemma {:induction false} RunStops(a: seq<string>, b: seq<string>, cfg: Config)
    requires Run(a, cfg).Help? || (Run(a, cfg).Failed? && Run(a, cfg).error != MissingFormatValue && Run(a, cfg).error != MissingWidthValue)
    ensures Run(a + b, cfg) == Run(a, cfg)
    decreases |a|
  {
    var arg := a[0];
    assert (a + b)[0] == arg;
    if arg == "--no-color" {
      assert (a + b)[1..] == a[1..] + b;
      RunStops(a[1..], b, cfg.(useColors := false));
    } else if arg == "--format" || arg == "-f" {
      assert (a + b)[1] == a[1];
      if FormatNamed(a[1]).Some? {
        assert (a + b)[2..] == a[2..] + b;
        RunStops(a[2..], b, cfg.(format := FormatNamed(a[1]).value));
      }
    } else if arg == "--width" || arg == "-w" {
      assert (a + b)[1] == a[1];
      if ParseInt(a[1]).Some? && ParseInt(a[1]).value > 0 {
        assert (a + b)[2..] == a[2..] + b;
        RunStops(a[2..], b, cfg.(maxWidth := ParseInt(a[1]).value));
      }
    }
  }

  /** A value-taking option as the last token reports its missing value,
      whatever came before, as long as that parsed. */
  lemma MissingValue(a: seq<string>, flag: string)
    requires Parse(a).Parsed?
    ensures flag == "--format" || flag == "-f" ==> Parse(a + [flag]) == Failed(MissingFormatValue)
    ensures flag == "--width" || flag == "-w" ==> Parse(a + [flag]) == Failed(MissingWidthValue)
  {
    RunAppend(a, [flag], Default);
  }

  /** A value-taking option and its value are read as one unit: the value
      is never re-read as an option, and what follows does not change how
      the pair is read. */
  lemma ValueConsumed(flag: string, v: string, rest: seq<string>, cfg: Config)
    requires flag in ["--format", "-f", "--width", "-w"]
    ensures var pair := Run([flag, v], cfg);
      Run([flag, v] + rest, cfg) == if pair.Parsed? then Run(rest, pair.config) else pair
  {
    var args := [flag, v] + rest;
    assert args[0] == flag && args[1] == v && args[2..] == rest;
    assert [flag, v][2..] == [];
  }

  /** A token the parser does not know is reported, whatever follows. */
  lemma UnknownStops(t: string, rest: seq<string>, cfg: Config)
    requires !IsOption(t)
    ensures Run([t] + rest, cfg) == Failed(UnknownArgument(t))
  {
    assert ([t] + rest)[0] == t;
  }

  /** A dash followed by anything but a digit is neither a format name nor
      an integer. */
  lemma DashIsNoValue(t: string)
    requires |t| >= 2 && t[0] == '-' && !IsDigit(t[1])
    ensures FormatNamed(t).None? && ParseInt(t).None?
  {
    assert Lower(t)[0] == '-';
    assert t[1..][0] == t[1];
  }

  /** No option token is a format name or an integer, so an option given
      where a value belongs is refused. */
  lemma OptionIsNoValue(t: string)
    requires IsOption(t)
    ensures FormatNamed(t).None? && ParseInt(t).None?
  {
    DashIsNoValue(t);
  }

  /** If the whole list parses and an option follows a prefix, the prefix
      parses on its own: the option cannot have been some earlier option's
      value. */
  lemma {:induction false} PrefixParses(a: seq<string>, b: seq<string>, cfg: Config)
    requires |b| > 0 && IsOption(b[0])
    ensures Run(a + b, cfg).Parsed? ==> Run(a, cfg).Parsed?
    decreases |a|
  {
    if |a| > 0 {
      var arg := a[0];
      assert (a + b)[0] == arg;
      if arg == "--no-color" {
        assert (a + b)[1..] == a[1..] + b;
        PrefixParses(a[1..], b, cfg.(useColors := false));
      } else if (arg == "--format" || arg == "-f" || arg == "--width" || arg == "-w") && |a| == 1 {
        assert (a + b)[1] == b[0];
        OptionIsNoValue(b[0]);
      } else if arg == "--format" || arg == "-f" {
        assert (a + b)[1] == a[1];
        assert (a + b)[2..] == a[2..] + b;
        if FormatNamed(a[1]).Some? {
          PrefixParses(a[2..], b, cfg.(format := FormatNamed(a[1]).value));
        }
      } else if arg == "--width" || arg == "-w" {
        assert (a + b)[1] == a[1];
        assert (a + b)[2..] == a[2..] + b;
        if ParseInt(a[1]).Some? && ParseInt(a[1]).value > 0 {
          PrefixParses(a[2..], b, cfg.(maxWidth := ParseInt(a[1]).value));
        }
      }
    }
  }

  /** On success, colours are off exactly when `--no-color` was given. */
  lemma {:induction false} NoColorIff(args: seq<string>, cfg: Config)
    requires Run(args, cfg).Parsed?
    ensures Run(args, cfg).config.useColors <==> cfg.useColors && "--no-color" !in args
    decreases |args|
  {
    if |args| > 0 {
      var arg := args[0];
      if arg == "--no-color" {
        NoColorIff(args[1..], cfg.(useColors := false));
      } else {
        assert arg != "--help" && arg != "-h";
        var next := if arg == "--format" || arg == "-f" then cfg.(format := FormatNamed(args[1]).value)
                    else cfg.(maxWidth := ParseInt(args[1]).value);
        assert args[1] != "--no-color" by {
          OptionIsNoValue("--no-color");
        }
        assert args == [arg, args[1]] + args[2..];
        NoColorIff(args[2..], next);
      }
    }
  }

  /** Without a later `--width`, the width stays what it was. */
  lemma {:induction false} WidthKept(args: seq<string>, cfg: Config)
    requires Run(args, cfg).Parsed?
    requires "--width" !in args && "-w" !in args
    ensures Run(args, cfg).config.maxWidth == cfg.maxWidth
    decreases |args|
  {
    if |args| > 0 {
      var arg := args[0];
      if arg == "--no-color" {
        WidthKept(args[1..], cfg.(useColors := false));
      } else {
        assert forall x :: x in args[2..] ==> x in args;
        WidthKept(args[2..], cfg.(format := FormatNamed(args[1]).value));
      }
    }
  }

  /** Without a later `--format`, the format stays what it was. */
  lemma {:induction false} FormatKept(args: seq<string>, cfg: Config)
    requires Run(args, cfg).Parsed?
    requires "--format" !in args && "-f" !in args
    ensures Run(args, cfg).config.format == cfg.format
    decreases |args|
  {
    if |args| > 0 {
      var arg := args[0];
      if arg == "--no-color" {
        FormatKept(args[1..], cfg.(useColors := false));
      } else {
        assert forall x :: x in args[2..] ==> x in args;
        FormatKept(args[2..], cfg.(maxWidth := ParseInt(args[1]).value));
      }
    }
  }

  /** The last `--width` wins. */
  lemma LastWidthWins(a: seq<string>, flag: string, v: string, b: seq<string>)
    requires flag == "--width" || flag == "-w"
    requires Parse(a + [flag, v] + b).Parsed?
    requires "--width" !in b && "-w" !in b
    ensures ParseInt(v).Some? && Parse(a + [flag, v] + b).config.maxWidth == ParseInt(v).value
  {
    var tail := [flag, v] + b;
    assert a + [flag, v] + b == a + tail;
    PrefixParses(a, tail, Default);
    RunAppend(a, tail, Default);
    var c := Parse(a).config;
    assert tail[0] == flag && tail[1] == v && tail[2..] == b;
    WidthKept(b, c.(maxWidth := ParseInt(v).value));
  }

  /** The last `--format` wins, its value read in any letter case. */
  lemma LastFormatWins(a: seq<string>, flag: string, v: string, b: seq<string>)
    requires flag == "--format" || flag == "-f"
    requires Parse(a + [flag, v] + b).Parsed?
    requires "--format" !in b && "-f" !in b
    ensures FormatNamed(v).Some? && Parse(a + [flag, v] + b).config.format == FormatNamed(v).value
  {
    var tail := [flag, v] + b;
    assert a + [flag, v] + b == a + tail;
    PrefixParses(a, tail, Default);
    RunAppend(a, tail, Default);
    var c := Parse(a).config;
    assert tail[0] == flag && tail[1] == v && tail[2..] == b;
    FormatKept(b, c.(format := FormatNamed(v).value));
  }

  /** The arguments that ask for a configuration. */
  function Render(c: Config): seq<string> {
    ["--format", FormatName(c.format)] + (if c.useColors then [] else ["--no-color"]) + ["--width", Show(c.maxWidth)]
  }

  /** Every configuration a parse can produce is produced by its own
      rendering. */
  lemma ParseRender(c: Config)
    requires Valid(c)
    ensures Parse(Render(c)) == Parsed(c)
  {
    ParseShow(c.maxWidth);
    var first := ["--format", FormatName(c.format)];
    var colors: seq<string> := if c.useColors then [] else ["--no-color"];
    var last := ["--width", Show(c.maxWidth)];
    assert Lower("tree") == "tree" && Lower("json") == "json";
    var c1 := Default.(format := c.format);
    assert Run(first, Default) == Parsed(c1) by {
      assert first[2..] == [];
    }
    var c2 := c1.(useColors := c.useColors);
    assert Run(colors, c1) == Parsed(c2) by {
      if !c.useColors {
        assert colors[1..] == [];
      }
    }
    assert Run(last, c2) == Parsed(c) by {
      assert last[2..] == [];
    }
    RunAppend(first, colors, Default);
    RunAppend(first + colors, last, Default);
  }

  /** The format value ignores letter case. */
  lemma FormatCaseExamples()
    ensures Parse(["--format", "JSON"]) == Parsed(Config(Json, true, 80))
    ensures Parse(["-f", "Tree", "--no-color"]) == Parsed(Config(Tree, false, 80))
  {
    assert Lower("JSON") == "json";
    assert Lower("Tree") == "tree";
  }

  /** Anything but a format name is refused, a flag-like value included. */
  lemma BadFormatExamples()
    ensures Parse(["--format", "--help"]) == Failed(InvalidFormat("--help"))
    ensures Parse(["--format", "xml"]) == Failed(InvalidFormat("xml"))
  {
    OptionIsNoValue("--help");
    assert Lower("xml") == "xml";
  }

  /** Widths must be positive integers. */
  lemma WidthExamples()
    ensures Parse(["-w", "120"]) == Parsed(Config(Tree, true, 120))
    ensures Parse(["--width", "0"]) == Failed(InvalidWidth("0"))
    ensures Parse(["--width", "-5"]) == Failed(InvalidWidth("-5"))
    ensures Parse(["--width", "abc"]) == Failed(InvalidWidth("abc"))
    ensures Parse(["--width", "--no-color"]) == Failed(InvalidWidth("--no-color"))
  {
    assert DigitsValue("120") == 120 by {
      assert "120"[..2] == "12" && "12"[..1] == "1" && "1"[..0] == "";
    }
    assert DigitsValue("5") == 5 by {
      assert "5"[..0] == "";
    }
    assert "-5"[1..] == "5";
  }
}
