/** The strict argument parser of packages/cli/src/cli/parser.ts. */
module ArgvParser {
  import opened Collections
  import opened Text

  datatype OptionKind = Boolean | String

  datatype OptionSpec = OptionSpec(
    name: string, short: Option<string>, kind: OptionKind, choices: Option<seq<string>>, conflicts: seq<string>)

  datatype CommandSpec = CommandSpec(
    name: string, options: seq<OptionSpec>, minPositionals: nat, maxPositionals: Option<nat>,
    positionalChoices: Option<seq<string>>)

  /** `true` or a string. */
  datatype Value = Flag | Text(text: string)

  datatype Parsed = Parsed(options: map<string, Value>, positionals: seq<string>, help: bool)

  datatype UsageError =
    | UnknownOption(flag: string)
    | TakesNoValue(name: string)
    | RequiresValue(name: string)
    | InvalidChoice(name: string, value: string)
    | TooFewPositionals
    | TooManyPositionals
    | InvalidPositional(value: string)
    | Conflict(name: string, other: string)

  datatype Result = Ok(parsed: Parsed) | Fail(error: UsageError)

  const NOTHING := Parsed(map[], [], false)

  predicate IsHelp(arg: string) {
    arg == "--help" || arg == "-h"
  }

  /** `arg.indexOf("=")` */
  function IndexOfEquals(arg: string): (i: int)
    ensures i == -1 <==> '=' !in arg
    ensures i != -1 ==> 0 <= i < |arg| && arg[i] == '=' && '=' !in arg[..i]
  {
    if arg == "" then -1
    else if arg[0] == '=' then 0
    else
      var i := IndexOfEquals(arg[1..]);
      if i == -1 then -1 else
        assert arg[..i + 1] == [arg[0]] + arg[1..][..i];
        i + 1
  }

  function SplitInlineValue(arg: string): (string, Option<string>) {
    if !StartsWith(arg, "--") then (arg, None)
    else
      var index := IndexOfEquals(arg);
      if index == -1 then (arg, None) else (arg[..index], Some(arg[index + 1..]))
  }

  predicate Answers(option: OptionSpec, flag: string) {
    || (StartsWith(flag, "--") && option.name == flag[2..])
    || (|flag| == 2 && flag[0] == '-' && flag[1] != '-' && option.short == Some(flag[1..]))
  }

  /** An option answers to its name behind two dashes and to its short form, one character that is no dash, behind one.
      */
  lemma AnswersExactly(option: OptionSpec, flag: string)
    ensures Answers(option, flag) <==>
            flag == "--" + option.name || exists c :: c != '-' && option.short == Some([c]) && flag == ['-', c]
  {
    if StartsWith(flag, "--") {
      assert flag == "--" + flag[2..];
    }
    if flag == "--" + option.name {
      assert flag[..2] == "--" && flag[2..] == option.name;
    }
    if |flag| == 2 {
      assert flag[1..] == [flag[1]] && flag == [flag[0], flag[1]];
    }
  }

  /** `options.find` */
  function FindOption(options: seq<OptionSpec>, flag: string): Option<OptionSpec> {
    if options == [] then None
    else if Answers(options[0], flag) then Some(options[0])
    else FindOption(options[1..], flag)
  }

  /** The first option that answers to the flag, if any does. */
  lemma {:induction false} FindsTheFirst(options: seq<OptionSpec>, flag: string) returns (k: nat)
    ensures k <= |options| && forall i :: 0 <= i < k ==> !Answers(options[i], flag)
    ensures k < |options| ==> Answers(options[k], flag) && FindOption(options, flag) == Some(options[k])
    ensures k == |options| ==> FindOption(options, flag) == None
  {
    k := 0;
    if options != [] && !Answers(options[0], flag) {
      var rest := FindsTheFirst(options[1..], flag);
      k := rest + 1;
    }
  }

  // ---------------------------------------------------------------- the language of command lines

  /** One reading of one or two arguments. */
  datatype Item =
    | Help(arg: string)
    | Word(arg: string)
    | Rest(args: seq<string>)
    | Switch(flag: string, option: OptionSpec)
    | Inline(flag: string, option: OptionSpec, value: string)
    | Separate(flag: string, option: OptionSpec, value: string)

  /** The arguments an item is written as. */
  function Spelling(item: Item): (s: seq<string>)
    ensures s != []
  {
    match item
    case Help(arg) => [arg]
    case Word(arg) => [arg]
    case Rest(args) => ["--"] + args
    case Switch(flag, _) => [flag]
    case Inline(flag, _, value) => [flag + "=" + value]
    case Separate(flag, _, value) => [flag, value]
  }

  function Spelled(items: seq<Item>): (s: seq<string>)
    ensures |s| >= |items|
  {
    if items == [] then [] else Spelling(items[0]) + Spelled(items[1..])
  }

  /** A value a string option takes. */
  predicate Acceptable(option: OptionSpec, value: string) {
    && value != "" && !StartsWith(value, "--")
    && (option.choices.Some? ==> value in option.choices.value)
  }

  /** Arguments that are looked up among the options as they stand. */
  predicate Plain(flag: string) {
    StartsWith(flag, "-") && flag != "--" && !IsHelp(flag) && (StartsWith(flag, "--") ==> '=' !in flag)
  }

  predicate Legal(command: CommandSpec, item: Item) {
    match item
    case Help(arg) => IsHelp(arg)
    case Word(arg) => !StartsWith(arg, "-")
    case Rest(_) => true
    case Switch(flag, option) =>
      Plain(flag) && FindOption(command.options, flag) == Some(option) && option.kind.Boolean?
    case Inline(flag, option, value) =>
      && StartsWith(flag, "--") && '=' !in flag
      && FindOption(command.options, flag) == Some(option) && option.kind.String? && Acceptable(option, value)
    case Separate(flag, option, value) =>
      && Plain(flag)
      && FindOption(command.options, flag) == Some(option) && option.kind.String? && Acceptable(option, value)
  }

  /** A command line: legal items, where `--` and all that follows it comes last. */
  predicate CommandLine(command: CommandSpec, items: seq<Item>) {
    && (forall k :: 0 <= k < |items| ==> Legal(command, items[k]))
    && (forall k :: 0 <= k < |items| - 1 ==> !items[k].Rest?)
  }

  /** What an item says. */
  function Add(p: Parsed, item: Item): Parsed {
    match item
    case Help(_) => p.(help := true)
    case Word(arg) => p.(positionals := p.positionals + [arg])
    case Rest(args) => p.(positionals := p.positionals + args)
    case Switch(_, option) => p.(options := p.options[option.name := Flag])
    case Inline(_, option, value) => p.(options := p.options[option.name := Text(value)])
    case Separate(_, option, value) => p.(options := p.options[option.name := Text(value)])
  }

  function Meaning(items: seq<Item>, p: Parsed): Parsed {
    if items == [] then p else Meaning(items[1..], Add(p, items[0]))
  }

  // ---------------------------------------------------------------- the parser as a function

  datatype Next = Took(item: Item) | Bad(error: UsageError)

  /** The item is legal and spelled by the first arguments, all of them if it ends the line. */
  predicate IsNext(command: CommandSpec, argv: seq<string>, item: Item) {
    && Legal(command, item)
    && Spelling(item) <= argv
    && (item.Rest? ==> Spelling(item) == argv)
  }

  lemma SplitRejoins(arg: string)
    ensures var (flag, inline) := SplitInlineValue(arg);
            && (inline.None? ==> flag == arg && (StartsWith(arg, "--") ==> '=' !in arg))
            && (inline.Some? ==> StartsWith(flag, "--") && '=' !in flag && arg == flag + "=" + inline.value)
  {
    var index := IndexOfEquals(arg);
    if StartsWith(arg, "--") && index != -1 {
      assert arg[0] == '-' && arg[1] == '-';
      assert arg[..index][..2] == arg[..2];
    }
  }

  function Checked(option: OptionSpec, value: Option<string>): (r: Option<UsageError>)
    ensures r.None? <==> value.Some? && Acceptable(option, value.value)
  {
    if value.None? || value.value == "" || StartsWith(value.value, "--") then Some(RequiresValue(option.name))
    else if option.choices.Some? && value.value !in option.choices.value then
      Some(InvalidChoice(option.name, value.value))
    else None
  }

  /** The item begun by the option `found` when it is written as `flag`, with the value `inline` if any. */
  function OptionItem(flag: string, inline: Option<string>, found: OptionSpec, following: Option<string>): (n: Next)
    ensures n.Took? ==> !n.item.Rest?
    ensures n.Took? && found.kind.Boolean? ==> inline.None? && n.item == Switch(flag, found)
    ensures n.Took? && found.kind.String? && inline.Some? ==>
              n.item == Inline(flag, found, inline.value) && Acceptable(found, inline.value)
    ensures n.Took? && found.kind.String? && inline.None? ==>
              following.Some? && n.item == Separate(flag, found, following.value) && Acceptable(found, following.value)
  {
    if found.kind.Boolean? then
      if inline.Some? then Bad(TakesNoValue(found.name)) else Took(Switch(flag, found))
    else
      var value := if inline.Some? then inline else following;
      var error := Checked(found, value);
      if error.Some? then Bad(error.value)
      else if inline.Some? then Took(Inline(flag, found, value.value))
      else Took(Separate(flag, found, value.value))
  }

  function NextOption(command: CommandSpec, argv: seq<string>): Next
    requires argv != []
  {
    var (flag, inline) := SplitInlineValue(argv[0]);
    OptionPass(flag, inline, FindOption(command.options, flag), if |argv| > 1 then Some(argv[1]) else None)
  }

  function OptionPass(flag: string, inline: Option<string>, found: Option<OptionSpec>, following: Option<string>): Next
  {
    if found.None? then Bad(UnknownOption(flag)) else OptionItem(flag, inline, found.value, following)
  }

  lemma OptionItemIsNext(command: CommandSpec, argv: seq<string>,
                         flag: string, inline: Option<string>, found: OptionSpec, next: Next)
    requires argv != [] && FindOption(command.options, flag) == Some(found)
    requires inline.None? ==> flag == argv[0] && Plain(flag)
    requires inline.Some? ==> StartsWith(flag, "--") && '=' !in flag && argv[0] == flag + "=" + inline.value
    requires next == OptionItem(flag, inline, found, if |argv| > 1 then Some(argv[1]) else None)
    ensures next.Took? ==> IsNext(command, argv, next.item)
  {
    if next.Took? {
      if found.kind.Boolean? {
        assert next.item == Switch(flag, found);
      } else if inline.Some? {
        assert next.item == Inline(flag, found, inline.value);
      } else {
        assert next.item == Separate(flag, found, argv[1]);
      }
    }
  }

  lemma NextOptionIsNext(command: CommandSpec, argv: seq<string>)
    requires argv != [] && StartsWith(argv[0], "-") && argv[0] != "--" && !IsHelp(argv[0])
    ensures NextOption(command, argv).Took? ==> IsNext(command, argv, NextOption(command, argv).item)
  {
    SplitRejoins(argv[0]);
    var (flag, inline) := SplitInlineValue(argv[0]);
    var found := FindOption(command.options, flag);
    if found.Some? {
      OptionItemIsNext(command, argv, flag, inline, found.value, NextOption(command, argv));
    }
  }

  function NextItem(command: CommandSpec, argv: seq<string>): (n: Next)
    requires argv != []
    ensures n.Took? ==> IsNext(command, argv, n.item)
  {
    if argv[0] == "--" then Took(Rest(argv[1..]))
    else if IsHelp(argv[0]) then Took(Help(argv[0]))
    else if !StartsWith(argv[0], "-") then Took(Word(argv[0]))
    else
      NextOptionIsNext(command, argv);
      NextOption(command, argv)
  }

  datatype Reading = Items(items: seq<Item>) | Wrong(error: UsageError)

  /** Items from left to right up to the first complaint. */
  function Read(command: CommandSpec, argv: seq<string>): Reading
    decreases |argv|, 2
  {
    if argv == [] then Items([]) else ReadNext(command, argv)
  }

  function ReadNext(command: CommandSpec, argv: seq<string>): Reading
    requires argv != []
    decreases |argv|, 1
  {
    match NextItem(command, argv)
    case Bad(error) => Wrong(error)
    case Took(item) => ReadAfter(command, argv, item)
  }

  function ReadAfter(command: CommandSpec, argv: seq<string>, item: Item): Reading
    requires Spelling(item) <= argv
    decreases |argv|, 0
  {
    match Read(command, argv[|Spelling(item)|..])
    case Wrong(error) => Wrong(error)
    case Items(items) => Items([item] + items)
  }

  /** One step of the reading. */
  lemma ReadStep(command: CommandSpec, argv: seq<string>, next: Next)
    requires argv != [] && next == NextItem(command, argv)
    ensures next.Bad? ==> Read(command, argv) == Wrong(next.error)
    ensures next.Took? ==>
              var rest := Read(command, argv[|Spelling(next.item)|..]);
              Read(command, argv) == if rest.Wrong? then rest else Items([next.item] + rest.items)
  {
    assert Read(command, argv) == ReadNext(command, argv);
    if next.Took? {
      assert ReadNext(command, argv) == ReadAfter(command, argv, next.item);
    }
  }

  // ---------------------------------------------------------------- parser and language agree

  lemma SplitAtFirstEquals(flag: string, value: string)
    requires StartsWith(flag, "--") && '=' !in flag
    ensures SplitInlineValue(flag + "=" + value) == (flag, Some(value))
  {
    var arg := flag + "=" + value;
    assert arg[..2] == flag[..2];
    var index := IndexOfEquals(arg);
    assert arg[|flag|] == '=';
    assert arg[..|flag|] == flag && arg[|flag| + 1..] == value;
  }

  lemma LegalOptionIsTaken(command: CommandSpec, item: Item, argv: seq<string>)
    requires Legal(command, item) && Spelling(item) <= argv
    requires item.Switch? || item.Inline? || item.Separate?
    ensures NextOption(command, argv) == Took(item)
  {
    match item {
      case Inline(flag, _, value) => SplitAtFirstEquals(flag, value);
      case Separate(_, _, value) => assert argv[1] == value;
      case Switch(_, _) =>
    }
  }

  lemma InlineIsAnOption(flag: string, value: string)
    requires StartsWith(flag, "--") && '=' !in flag
    ensures var arg := flag + "=" + value;
            StartsWith(arg, "-") && arg != "--" && !IsHelp(arg)
  {
    var arg := flag + "=" + value;
    assert arg[..1] == flag[..2][..1];
    assert arg[|flag|] == '=' && '=' !in "--help" && '=' !in "-h";
  }

  lemma LegalItemIsTaken(command: CommandSpec, item: Item, argv: seq<string>)
    requires Legal(command, item) && Spelling(item) <= argv && (item.Rest? ==> Spelling(item) == argv)
    ensures NextItem(command, argv) == Took(item)
  {
    assert argv[0] == Spelling(item)[0];
    match item {
      case Rest(args) => assert argv[1..] == args;
      case Help(_) =>
      case Word(_) =>
      case Inline(flag, option, value) =>
        InlineIsAnOption(flag, value);
        LegalOptionIsTaken(command, item, argv);
      case _ =>
        LegalOptionIsTaken(command, item, argv);
    }
  }

  lemma OneMoreItem(command: CommandSpec, argv: seq<string>, item: Item, items: seq<Item>)
    requires IsNext(command, argv, item)
    requires CommandLine(command, items) && Spelled(items) == argv[|Spelling(item)|..]
    ensures CommandLine(command, [item] + items) && Spelled([item] + items) == argv
  {
    assert ([item] + items)[1..] == items;
    assert argv == Spelling(item) + argv[|Spelling(item)|..];
    if item.Rest? {
      assert Spelled(items) == [];
    }
  }

  /** Every argument of an accepted command line is part of exactly one item, in order. */
  lemma {:induction false} EachArgumentIsReadOnce(command: CommandSpec, argv: seq<string>, items: seq<Item>)
    requires Read(command, argv) == Items(items)
    ensures CommandLine(command, items)
    ensures Spelled(items) == argv
    decreases |argv|
  {
    if argv != [] {
      ReadStep(command, argv, NextItem(command, argv));
      var item := NextItem(command, argv).item;
      EachArgumentIsReadOnce(command, argv[|Spelling(item)|..], items[1..]);
      OneMoreItem(command, argv, item, items[1..]);
    }
  }

  lemma {:induction false} CommandLinesAreRead(command: CommandSpec, items: seq<Item>)
    requires CommandLine(command, items)
    ensures Read(command, Spelled(items)) == Items(items)
  {
    if items != [] {
      var item, rest := items[0], Spelled(items[1..]);
      assert Legal(command, item);
      assert items == [item] + items[1..];
      assert item.Rest? ==> items[1..] == [];
      assert item.Rest? ==> Spelling(item) + rest == Spelling(item);
      LegalItemIsTaken(command, item, Spelling(item) + rest);
      CommandLinesAreRead(command, items[1..]);
      ReadStep(command, Spelling(item) + rest, Took(item));
      assert (Spelling(item) + rest)[|Spelling(item)|..] == rest;
    }
  }

  /** The parser accepts exactly the spellings of command lines and reads each in the only possible way. */
  lemma ReadsExactlyTheCommandLines(command: CommandSpec, argv: seq<string>, items: seq<Item>)
    ensures Read(command, argv) == Items(items) <==> CommandLine(command, items) && Spelled(items) == argv
  {
    if Read(command, argv) == Items(items) {
      EachArgumentIsReadOnce(command, argv, items);
    }
    if CommandLine(command, items) && Spelled(items) == argv {
      CommandLinesAreRead(command, items);
    }
  }

  // ---------------------------------------------------------------- validation

  /** The first declared option that is present together with one it declares a conflict with. */
  function FirstConflict(specs: seq<OptionSpec>, options: map<string, Value>): Option<UsageError> {
    if specs == [] then None
    else
      var other := FirstPresent(specs[0].conflicts, options);
      if specs[0].name in options && other.Some? then Some(Conflict(specs[0].name, other.value))
      else FirstConflict(specs[1..], options)
  }

  function FirstPresent(names: seq<string>, options: map<string, Value>): Option<string> {
    if names == [] then None
    else if names[0] in options then Some(names[0])
    else FirstPresent(names[1..], options)
  }

  /** `validateCommand`: the first complaint, if any. */
  function Complaint(command: CommandSpec, p: Parsed): Option<UsageError> {
    if |p.positionals| < command.minPositionals then Some(TooFewPositionals)
    else if command.maxPositionals.Some? && |p.positionals| > command.maxPositionals.value then Some(TooManyPositionals)
    else if command.positionalChoices.Some? && p.positionals != [] && p.positionals[0] != ""
            && p.positionals[0] !in command.positionalChoices.value then Some(InvalidPositional(p.positionals[0]))
    else FirstConflict(command.options, p.options)
  }

  function Validated(command: CommandSpec, p: Parsed): Result {
    var complaint := Complaint(command, p);
    if p.help || complaint.None? then Ok(p) else Fail(complaint.value)
  }

  function Resume(reading: Reading, p: Parsed): Result {
    match reading
    case Wrong(error) => Fail(error)
    case Items(items) => Ok(Meaning(items, p))
  }

  /** The whole parser: read the items, then validate what they mean unless help was asked for. */
  function Parse(command: CommandSpec, argv: seq<string>): Result {
    match Read(command, argv)
    case Wrong(error) => Fail(error)
    case Items(items) => Validated(command, Meaning(items, NOTHING))
  }

  // ---------------------------------------------------------------- what is accepted

  /** One of the two options declares a conflict with the other. */
  predicate Conflicting(command: CommandSpec, a: string, b: string) {
    exists o :: o in command.options && ((o.name == a && b in o.conflicts) || (o.name == b && a in o.conflicts))
  }

  predicate Compatible(command: CommandSpec, options: map<string, Value>) {
    forall a, b :: a in options && b in options ==> !Conflicting(command, a, b)
  }

  predicate LegalPositionals(command: CommandSpec, positionals: seq<string>) {
    && command.minPositionals <= |positionals|
    && (command.maxPositionals.Some? ==> |positionals| <= command.maxPositionals.value)
    && (command.positionalChoices.Some? && positionals != [] && positionals[0] != "" ==>
          positionals[0] in command.positionalChoices.value)
  }

  /** The value fits the kind and the choices of a declared option of that name. */
  predicate Fits(option: OptionSpec, value: Value) {
    match value
    case Flag => option.kind.Boolean?
    case Text(text) => option.kind.String? && Acceptable(option, text)
  }

  predicate Declared(command: CommandSpec, name: string, value: Value) {
    exists o :: o in command.options && o.name == name && Fits(o, value)
  }

  predicate WellTyped(command: CommandSpec, options: map<string, Value>) {
    forall name :: name in options ==> Declared(command, name, options[name])
  }

  lemma {:induction false} FirstPresentIsNone(names: seq<string>, options: map<string, Value>)
    ensures FirstPresent(names, options).None? <==> forall n :: n in names ==> n !in options
  {
    if names != [] {
      FirstPresentIsNone(names[1..], options);
      assert forall n :: n in names <==> n == names[0] || n in names[1..];
    }
  }

  ghost predicate Clash(o: OptionSpec, options: map<string, Value>) {
    o.name in options && exists c :: c in o.conflicts && c in options
  }

  lemma {:induction false} FirstConflictIsNone(specs: seq<OptionSpec>, options: map<string, Value>)
    ensures FirstConflict(specs, options).None? <==> forall o :: o in specs ==> !Clash(o, options)
  {
    if specs != [] {
      FirstPresentIsNone(specs[0].conflicts, options);
      FirstConflictIsNone(specs[1..], options);
      assert Clash(specs[0], options) <==> specs[0].name in options && FirstPresent(specs[0].conflicts, options).Some?;
      assert forall o :: o in specs <==> o == specs[0] || o in specs[1..];
    }
  }

  lemma NoClashIsCompatible(command: CommandSpec, options: map<string, Value>)
    ensures Compatible(command, options) <==> forall o :: o in command.options ==> !Clash(o, options)
  {
    if Compatible(command, options) {
      forall o | o in command.options
        ensures !Clash(o, options)
      {
        if Clash(o, options) {
          var c :| c in o.conflicts && c in options;
          assert Conflicting(command, o.name, c);
        }
      }
    }
  }

  /** Validation passes exactly when no two options conflict, whichever of them says so, and the positionals are
      legal. */
  lemma ComplaintIsExact(command: CommandSpec, p: Parsed)
    ensures Complaint(command, p).None? <==> Compatible(command, p.options) && LegalPositionals(command, p.positionals)
  {
    FirstConflictIsNone(command.options, p.options);
    NoClashIsCompatible(command, p.options);
  }

  lemma AddKeepsWellTyped(command: CommandSpec, p: Parsed, item: Item)
    requires WellTyped(command, p.options) && Legal(command, item)
    ensures WellTyped(command, Add(p, item).options)
  {
    if item.Switch? || item.Inline? || item.Separate? {
      var k := FindsTheFirst(command.options, item.flag);
      assert item.option in command.options;
      assert Declared(command, item.option.name, Add(p, item).options[item.option.name]);
      forall name | name in Add(p, item).options
        ensures Declared(command, name, Add(p, item).options[name])
      {
      }
    }
  }

  lemma {:induction false} MeaningIsWellTyped(command: CommandSpec, items: seq<Item>, p: Parsed)
    requires WellTyped(command, p.options) && forall k :: 0 <= k < |items| ==> Legal(command, items[k])
    ensures WellTyped(command, Meaning(items, p).options)
    decreases |items|
  {
    if items != [] {
      AddKeepsWellTyped(command, p, items[0]);
      MeaningIsWellTyped(command, items[1..], Add(p, items[0]));
    }
  }

  /** An accepted command line without a request for help is legal in every respect. */
  lemma AcceptedIsLegal(command: CommandSpec, argv: seq<string>, p: Parsed)
    requires Parse(command, argv) == Ok(p)
    ensures WellTyped(command, p.options)
    ensures !p.help ==> Compatible(command, p.options) && LegalPositionals(command, p.positionals)
  {
    var items := Read(command, argv).items;
    EachArgumentIsReadOnce(command, argv, items);
    MeaningIsWellTyped(command, items, NOTHING);
    ComplaintIsExact(command, p);
  }

  // ---------------------------------------------------------------- printing

  /** How an option is written: `--name=value`, `--name value` or `-s value`; without a value, `--name` or `-s`. */
  datatype Form = Inlined | Spaced | Short

  /** Every option can be written, and no two have the same name. */
  predicate Printable(command: CommandSpec) {
    && (forall o :: o in command.options ==> o.name != "" && '=' !in o.name && o.name != "help")
    && (forall i, j :: 0 <= i < j < |command.options| ==> command.options[i].name != command.options[j].name)
  }

  /** The option has a short form of its own; `-h` always asks for help. */
  predicate HasShort(command: CommandSpec, option: OptionSpec) {
    && option.short.Some? && |option.short.value| == 1 && option.short.value != "-" && option.short.value != "h"
    && forall o :: o in command.options && o.short == option.short ==> o == option
  }

  /** The forms can be used: short ones only for options that have one. */
  predicate Writable(command: CommandSpec, form: string -> Form) {
    && Printable(command)
    && forall o :: o in command.options && form(o.name).Short? ==> HasShort(command, o)
  }

  function Dashed(name: string): string {
    "--" + name
  }

  function FlagOf(option: OptionSpec, form: Form): string {
    if form.Short? && option.short.Some? then "-" + option.short.value else Dashed(option.name)
  }

  function PrintOption(option: OptionSpec, value: Value, form: Form): Item {
    match value
    case Flag => Switch(FlagOf(option, form), option)
    case Text(text) =>
      if form.Inlined? then Inline(FlagOf(option, form), option, text) else Separate(FlagOf(option, form), option, text)
  }

  /** The options that have a value, in declared order. */
  function PrintOptions(specs: seq<OptionSpec>, options: map<string, Value>, form: string -> Form): seq<Item> {
    if specs == [] then []
    else
      var name, rest := specs[0].name, PrintOptions(specs[1..], options, form);
      if name in options then [PrintOption(specs[0], options[name], form(name))] + rest else rest
  }

  function Words(words: seq<string>): seq<Item> {
    seq(|words|, i requires 0 <= i < |words| => Word(words[i]))
  }

  /** The options in the given forms, then words as they are, then `--` and more positionals. */
  function Print(command: CommandSpec, options: map<string, Value>, form: string -> Form,
                 words: seq<string>, rest: seq<string>): seq<string> {
    Spelled(PrintOptions(command.options, options, form) + (Words(words) + [Rest(rest)]))
  }

  lemma DashedIsPlain(name: string)
    requires name != "" && '=' !in name && name != "help"
    ensures var flag := Dashed(name);
            StartsWith(flag, "--") && flag[2..] == name && '=' !in flag && Plain(flag)
  {
    var flag := Dashed(name);
    assert flag[..2] == "--" && flag[2..] == name;
    assert flag[..1] == "-";
    assert |flag| > 2;
    assert "--help"[2..] == "help";
  }

  lemma ShortIsPlain(c: char)
    requires c != '-' && c != 'h'
    ensures var flag := "-" + [c];
            Plain(flag) && !StartsWith(flag, "--")
  {
    var flag := "-" + [c];
    assert flag == ['-', c] && flag[..1] == "-" && flag[..2] == flag;
    assert flag[1] == c && "--"[1] == '-' && "-h"[1] == 'h';
  }

  lemma FindsByName(command: CommandSpec, option: OptionSpec)
    requires Printable(command) && option in command.options
    ensures FindOption(command.options, Dashed(option.name)) == Some(option)
  {
    DashedIsPlain(option.name);
    var k := FindsTheFirst(command.options, Dashed(option.name));
    assert Answers(option, Dashed(option.name));
  }

  lemma FindsByShort(command: CommandSpec, option: OptionSpec)
    requires HasShort(command, option) && option in command.options
    ensures FindOption(command.options, "-" + option.short.value) == Some(option)
  {
    var c := option.short.value[0];
    var flag := "-" + option.short.value;
    assert option.short.value == [c] && flag == ['-', c];
    forall o | o in command.options
      ensures Answers(o, flag) <==> o == option
    {
      AnswersExactly(o, flag);
      assert flag[1] == c && ("--" + o.name)[1] == '-';
    }
    var k := FindsTheFirst(command.options, flag);
  }

  lemma PrintedOptionIsLegal(command: CommandSpec, option: OptionSpec, value: Value, form: Form)
    requires Printable(command) && option in command.options && Fits(option, value)
    requires form.Short? ==> HasShort(command, option)
    ensures Legal(command, PrintOption(option, value, form)) && !PrintOption(option, value, form).Rest?
  {
    if form.Short? {
      ShortIsPlain(option.short.value[0]);
      assert "-" + option.short.value == "-" + [option.short.value[0]];
      FindsByShort(command, option);
    } else {
      DashedIsPlain(option.name);
      FindsByName(command, option);
    }
  }

  lemma FitsItsOption(command: CommandSpec, option: OptionSpec, value: Value)
    requires Printable(command) && option in command.options && Declared(command, option.name, value)
    ensures Fits(option, value)
  {
  }

  predicate Names(specs: seq<OptionSpec>, name: string) {
    exists o :: o in specs && o.name == name
  }

  /** The entries of a map whose names are among the options. */
  function Named(specs: seq<OptionSpec>, options: map<string, Value>): map<string, Value> {
    map name | name in options && Names(specs, name) :: options[name]
  }

  lemma NamesOneMore(specs: seq<OptionSpec>, name: string)
    requires specs != []
    ensures Names(specs, name) <==> name == specs[0].name || Names(specs[1..], name)
  {
    assert forall o :: o in specs <==> o == specs[0] || o in specs[1..];
  }

  lemma NamedOneMore(specs: seq<OptionSpec>, options: map<string, Value>, base: map<string, Value>)
    requires specs != []
    ensures specs[0].name in options ==>
              base[specs[0].name := options[specs[0].name]] + Named(specs[1..], options) == base + Named(specs, options)
    ensures specs[0].name !in options ==> Named(specs[1..], options) == Named(specs, options)
  {
    forall name
      ensures Names(specs, name) <==> name == specs[0].name || Names(specs[1..], name)
    {
      NamesOneMore(specs, name);
    }
  }

  lemma {:induction false} MeaningAppend(items: seq<Item>, more: seq<Item>, p: Parsed)
    ensures Meaning(items + more, p) == Meaning(more, Meaning(items, p))
    decreases |items|
  {
    if items == [] {
      assert items + more == more;
    } else {
      assert (items + more)[1..] == items[1..] + more;
      MeaningAppend(items[1..], more, Add(p, items[0]));
    }
  }

  /** Words and what follows `--` are the positionals, in order. */
  lemma {:induction false} MeaningOfPositionals(words: seq<string>, rest: seq<string>, p: Parsed)
    ensures Meaning(Words(words) + [Rest(rest)], p) == p.(positionals := p.positionals + words + rest)
    decreases |words|
  {
    var items := Words(words) + [Rest(rest)];
    if words == [] {
      assert items == [Rest(rest)] && items[1..] == [];
      assert p.positionals + words == p.positionals;
    } else {
      assert items[0] == Word(words[0]) && items[1..] == Words(words[1..]) + [Rest(rest)];
      MeaningOfPositionals(words[1..], rest, Add(p, items[0]));
      assert p.positionals + [words[0]] + words[1..] == p.positionals + words;
    }
  }

  lemma PrintOneMore(specs: seq<OptionSpec>, options: map<string, Value>, form: string -> Form, p: Parsed, item: Item)
    requires specs != [] && specs[0].name in options
    requires item == PrintOption(specs[0], options[specs[0].name], form(specs[0].name))
    ensures PrintOptions(specs, options, form) == [item] + PrintOptions(specs[1..], options, form)
    ensures PrintOptions(specs, options, form)[1..] == PrintOptions(specs[1..], options, form)
    ensures Add(p, item) == Parsed(p.options[specs[0].name := options[specs[0].name]], p.positionals, p.help)
  {
  }

  lemma {:induction false} MeaningOfOptions(
      specs: seq<OptionSpec>, options: map<string, Value>, form: string -> Form, p: Parsed, printed: seq<Item>)
    requires printed == PrintOptions(specs, options, form)
    ensures Meaning(printed, p) == Parsed(p.options + Named(specs, options), p.positionals, p.help)
    decreases |specs|
  {
    if specs == [] {
      assert p.options + Named(specs, options) == p.options;
    } else {
      NamedOneMore(specs, options, p.options);
      if specs[0].name in options {
        PrintOneMore(specs, options, form, p, printed[0]);
        MeaningOfOptions(specs[1..], options, form, Add(p, printed[0]), printed[1..]);
      } else {
        MeaningOfOptions(specs[1..], options, form, p, printed);
      }
    }
  }

  lemma {:induction false} PrintedIsLegal(
      command: CommandSpec, specs: seq<OptionSpec>, options: map<string, Value>, form: string -> Form)
    requires Writable(command, form) && WellTyped(command, options) && forall o :: o in specs ==> o in command.options
    ensures AllLegal(command, PrintOptions(specs, options, form))
  {
    if specs != [] {
      PrintedIsLegal(command, specs[1..], options, form);
      if specs[0].name in options {
        var value := options[specs[0].name];
        var item := PrintOption(specs[0], value, form(specs[0].name));
        assert Declared(command, specs[0].name, value);
        FitsItsOption(command, specs[0], value);
        PrintedOptionIsLegal(command, specs[0], value, form(specs[0].name));
        assert AllLegal(command, [item] + PrintOptions(specs[1..], options, form));
      }
    }
  }

  /** Legal items, none of which ends the line. */
  predicate AllLegal(command: CommandSpec, items: seq<Item>) {
    forall k :: 0 <= k < |items| ==> Legal(command, items[k]) && !items[k].Rest?
  }

  lemma LegalThenRest(command: CommandSpec, items: seq<Item>, words: seq<string>, rest: seq<string>)
    requires AllLegal(command, items) && forall k :: 0 <= k < |words| ==> !StartsWith(words[k], "-")
    ensures CommandLine(command, items + (Words(words) + [Rest(rest)]))
  {
    var line := items + (Words(words) + [Rest(rest)]);
    forall k | 0 <= k < |line|
      ensures Legal(command, line[k]) && (k < |line| - 1 ==> !line[k].Rest?)
    {
      if |items| <= k < |line| - 1 {
        assert line[k] == Word(words[k - |items|]);
      }
    }
  }

  lemma AllNamed(command: CommandSpec, options: map<string, Value>)
    requires WellTyped(command, options)
    ensures Named(command.options, options) == options
  {
    forall name | name in options
      ensures name in Named(command.options, options)
    {
      assert Declared(command, name, options[name]);
    }
  }

  lemma PrintedIsRead(command: CommandSpec, options: map<string, Value>, form: string -> Form,
                      words: seq<string>, rest: seq<string>)
    requires Writable(command, form) && WellTyped(command, options)
    requires forall k :: 0 <= k < |words| ==> !StartsWith(words[k], "-")
    ensures Read(command, Print(command, options, form, words, rest))
            == Items(PrintOptions(command.options, options, form) + (Words(words) + [Rest(rest)]))
  {
    PrintedIsLegal(command, command.options, options, form);
    LegalThenRest(command, PrintOptions(command.options, options, form), words, rest);
    CommandLinesAreRead(command, PrintOptions(command.options, options, form) + (Words(words) + [Rest(rest)]));
  }

  lemma PrintedMeansItself(command: CommandSpec, options: map<string, Value>, form: string -> Form,
                           words: seq<string>, rest: seq<string>, printed: seq<Item>)
    requires WellTyped(command, options) && printed == PrintOptions(command.options, options, form)
    ensures Meaning(printed + (Words(words) + [Rest(rest)]), NOTHING) == Parsed(options, words + rest, false)
  {
    MeaningAppend(printed, Words(words) + [Rest(rest)], NOTHING);
    MeaningOfOptions(command.options, options, form, NOTHING, printed);
    AllNamed(command, options);
    assert map[] + options == options;
    MeaningOfPositionals(words, rest, Parsed(options, [], false));
    assert [] + words == words;
  }

  /** Well-typed options, each in any form it can be written in, and any positionals come back from their printed form,
      exactly when they pass validation. */
  lemma PrintedLineParsesBack(command: CommandSpec, options: map<string, Value>, form: string -> Form,
                              words: seq<string>, rest: seq<string>)
    requires Writable(command, form) && WellTyped(command, options)
    requires forall k :: 0 <= k < |words| ==> !StartsWith(words[k], "-")
    ensures Parse(command, Print(command, options, form, words, rest)) == Ok(Parsed(options, words + rest, false))
            <==> Compatible(command, options) && LegalPositionals(command, words + rest)
  {
    PrintedIsRead(command, options, form, words, rest);
    PrintedMeansItself(command, options, form, words, rest, PrintOptions(command.options, options, form));
    ComplaintIsExact(command, Parsed(options, words + rest, false));
  }

  // ---------------------------------------------------------------- help and complaints

  lemma {:induction false} MeaningKeepsHelp(items: seq<Item>, p: Parsed)
    ensures Meaning(items, p.(help := true)) == Meaning(items, p).(help := true)
    decreases |items|
  {
    if items != [] {
      assert Add(p.(help := true), items[0]) == Add(p, items[0]).(help := true);
      MeaningKeepsHelp(items[1..], Add(p, items[0]));
    }
  }

  /** Asking for help in front of any line that can be read lifts the validation and changes nothing else. */
  lemma HelpLiftsValidation(command: CommandSpec, argv: seq<string>, help: string)
    requires help == "-h" || help == "--help"
    ensures Read(command, argv).Items? ==>
              Parse(command, [help] + argv) == Ok(Meaning(Read(command, argv).items, NOTHING).(help := true))
    ensures Read(command, argv).Wrong? ==> Parse(command, [help] + argv) == Fail(Read(command, argv).error)
  {
    var line := [help] + argv;
    assert NextItem(command, line) == Took(Help(help));
    ReadStep(command, line, Took(Help(help)));
    assert line[1..] == argv;
    if Read(command, argv).Items? {
      var items := Read(command, argv).items;
      assert ([Help(help)] + items)[1..] == items;
      MeaningKeepsHelp(items, NOTHING);
    }
  }

  /** What each complaint about an argument says of it. */
  predicate Justified(command: CommandSpec, argv: seq<string>, error: UsageError)
    requires argv != []
  {
    var (flag, inline) := SplitInlineValue(argv[0]);
    match error
    case UnknownOption(f) => f == flag && forall o :: o in command.options ==> !Answers(o, flag)
    case TakesNoValue(name) => inline.Some? && exists o :: o in command.options && Answers(o, flag)
                                                           && o.name == name && o.kind.Boolean?
    case RequiresValue(name) =>
      exists o :: o in command.options && Answers(o, flag) && o.name == name && o.kind.String?
                  && (if inline.Some? then inline.value == "" || StartsWith(inline.value, "--")
                      else |argv| == 1 || argv[1] == "" || StartsWith(argv[1], "--"))
    case InvalidChoice(name, value) =>
      exists o :: o in command.options && Answers(o, flag) && o.name == name && o.kind.String?
                  && (if inline.Some? then value == inline.value else |argv| > 1 && value == argv[1])
                  && o.choices.Some? && value !in o.choices.value
    case _ => false
  }

  lemma ComplaintIsJustified(command: CommandSpec, argv: seq<string>)
    requires argv != [] && NextItem(command, argv).Bad?
    ensures Justified(command, argv, NextItem(command, argv).error)
  {
    var (flag, inline) := SplitInlineValue(argv[0]);
    var k := FindsTheFirst(command.options, flag);
    if k < |command.options| {
      assert command.options[k] in command.options && Answers(command.options[k], flag);
    }
  }

  /** When the parser stops at an argument, everything before it was read as a command line, and the complaint fits the
      argument it stops at. */
  lemma {:induction false} StopsWithReason(command: CommandSpec, argv: seq<string>) returns (items: seq<Item>)
    requires Read(command, argv).Wrong?
    ensures CommandLine(command, items) && Spelled(items) < argv
    ensures Justified(command, argv[|Spelled(items)|..], Read(command, argv).error)
    decreases |argv|
  {
    ReadStep(command, argv, NextItem(command, argv));
    if NextItem(command, argv).Bad? {
      items := [];
      ComplaintIsJustified(command, argv);
      assert argv[0..] == argv;
    } else {
      var item := NextItem(command, argv).item;
      var later := argv[|Spelling(item)|..];
      var rest := StopsWithReason(command, later);
      items := [item] + rest;
      assert items[1..] == rest;
      assert argv == Spelling(item) + later;
      assert argv[|Spelled(items)|..] == later[|Spelled(rest)|..];
    }
  }

  /** The complaint of the validation says what is wrong. */
  lemma ValidationSaysWhy(command: CommandSpec, p: Parsed)
    ensures Complaint(command, p) == Some(TooFewPositionals) <==> |p.positionals| < command.minPositionals
    ensures Complaint(command, p) == Some(TooManyPositionals) <==>
            command.minPositionals <= |p.positionals|
            && command.maxPositionals.Some? && |p.positionals| > command.maxPositionals.value
    ensures match Complaint(command, p)
            case Some(InvalidPositional(value)) =>
              p.positionals != [] && p.positionals[0] == value && !LegalPositionals(command, p.positionals)
            case Some(Conflict(name, other)) =>
              name in p.options && other in p.options && Conflicting(command, name, other)
            case _ => true
  {
    ConflictIsReal(command.options, p.options);
    var conflict := FirstConflict(command.options, p.options);
    if conflict.Some? {
      assert Conflicting(command, conflict.value.name, conflict.value.other);
    }
  }

  lemma {:induction false} ConflictIsReal(specs: seq<OptionSpec>, options: map<string, Value>)
    ensures var conflict := FirstConflict(specs, options);
            conflict.Some? ==>
              && conflict.value.Conflict? && conflict.value.name in options && conflict.value.other in options
              && exists o :: o in specs && o.name == conflict.value.name && conflict.value.other in o.conflicts
  {
    if specs != [] {
      ConflictIsReal(specs[1..], options);
      PresentIsIn(specs[0].conflicts, options);
      assert forall o :: o in specs <==> o == specs[0] || o in specs[1..];
    }
  }

  lemma {:induction false} PresentIsIn(names: seq<string>, options: map<string, Value>)
    ensures var other := FirstPresent(names, options);
            other.Some? ==> other.value in names && other.value in options
  {
    if names != [] {
      PresentIsIn(names[1..], options);
    }
  }

  // ---------------------------------------------------------------- the program

  /** The outcome of reading from `index` on when `p` is what was read before. */
  function Remaining(command: CommandSpec, argv: seq<string>, index: nat, p: Parsed): Result
    requires index <= |argv|
  {
    Resume(Read(command, argv[index..]), p)
  }

  lemma TakeItem(command: CommandSpec, argv: seq<string>, index: nat, p: Parsed, item: Item)
    requires index < |argv| && NextItem(command, argv[index..]) == Took(item)
    ensures index + |Spelling(item)| <= |argv|
    ensures Remaining(command, argv, index, p) == Remaining(command, argv, index + |Spelling(item)|, Add(p, item))
  {
    var rest := argv[index..];
    ReadStep(command, rest, Took(item));
    assert rest[|Spelling(item)|..] == argv[index + |Spelling(item)|..];
    var reading := Read(command, rest[|Spelling(item)|..]);
    if reading.Items? {
      assert ([item] + reading.items)[1..] == reading.items;
    }
  }

  lemma TakeRest(command: CommandSpec, argv: seq<string>, index: nat, p: Parsed)
    requires index < |argv| && argv[index] == "--"
    ensures Remaining(command, argv, index, p)
            == Remaining(command, argv, |argv|, p.(positionals := p.positionals + argv[index + 1..]))
  {
    var rest := argv[index..];
    assert rest[1..] == argv[index + 1..];
    TakeItem(command, argv, index, p, Rest(rest[1..]));
  }

  lemma TakeHelp(command: CommandSpec, argv: seq<string>, index: nat, p: Parsed)
    requires index < |argv| && IsHelp(argv[index])
    ensures Remaining(command, argv, index, p) == Remaining(command, argv, index + 1, p.(help := true))
  {
    TakeItem(command, argv, index, p, Help(argv[index]));
  }

  lemma TakeWord(command: CommandSpec, argv: seq<string>, index: nat, p: Parsed)
    requires index < |argv| && !IsHelp(argv[index]) && !StartsWith(argv[index], "-")
    ensures Remaining(command, argv, index, p)
            == Remaining(command, argv, index + 1, p.(positionals := p.positionals + [argv[index]]))
  {
    TakeItem(command, argv, index, p, Word(argv[index]));
  }

  /** How an option goes on when it is written as `flag` at `index`. */
  lemma TakeOption(command: CommandSpec, argv: seq<string>, index: nat, p: Parsed,
                   flag: string, inline: Option<string>, found: Option<OptionSpec>)
    requires index < |argv| && argv[index] != "--" && !IsHelp(argv[index]) && StartsWith(argv[index], "-")
    requires SplitInlineValue(argv[index]) == (flag, inline) && FindOption(command.options, flag) == found
    ensures found.None? ==> Remaining(command, argv, index, p) == Fail(UnknownOption(flag))
    ensures found.Some? ==>
              var following := if index + 1 < |argv| then Some(argv[index + 1]) else None;
              var next := OptionItem(flag, inline, found.value, following);
              && (next.Bad? ==> Remaining(command, argv, index, p) == Fail(next.error))
              && (next.Took? ==>
                    && index + |Spelling(next.item)| <= |argv|
                    && Remaining(command, argv, index, p)
                       == Remaining(command, argv, index + |Spelling(next.item)|, Add(p, next.item)))
  {
    var rest := argv[index..];
    assert rest[0] == argv[index];
    ReadStep(command, rest, NextItem(command, rest));
    if found.Some? {
      var next := OptionItem(flag, inline, found.value, if index + 1 < |argv| then Some(argv[index + 1]) else None);
      assert NextItem(command, rest) == next;
      if next.Took? {
        TakeItem(command, argv, index, p, next.item);
      }
    }
  }

  lemma TakeSwitch(command: CommandSpec, argv: seq<string>, index: nat, p: Parsed, arg: string, found: OptionSpec)
    requires index < |argv| && argv[index] == arg && arg != "--" && !IsHelp(arg) && StartsWith(arg, "-")
    requires SplitInlineValue(arg).1.None? && FindOption(command.options, SplitInlineValue(arg).0) == Some(found)
    requires found.kind.Boolean?
    ensures Remaining(command, argv, index, p)
            == Remaining(command, argv, index + 1, p.(options := p.options[found.name := Flag]))
  {
    TakeOption(command, argv, index, p, SplitInlineValue(arg).0, None, Some(found));
  }

  lemma TakeValue(command: CommandSpec, argv: seq<string>, index: nat, p: Parsed, arg: string, found: OptionSpec,
                  value: string, next: nat)
    requires index < |argv| && argv[index] == arg && arg != "--" && !IsHelp(arg) && StartsWith(arg, "-")
    requires FindOption(command.options, SplitInlineValue(arg).0) == Some(found)
    requires found.kind.String? && Acceptable(found, value)
    requires SplitInlineValue(arg).1.Some? ==> value == SplitInlineValue(arg).1.value && next == index + 1
    requires SplitInlineValue(arg).1.None? ==> next == index + 2 <= |argv| && value == argv[index + 1]
    ensures Remaining(command, argv, index, p)
            == Remaining(command, argv, next, p.(options := p.options[found.name := Text(value)]))
  {
    TakeOption(command, argv, index, p, SplitInlineValue(arg).0, SplitInlineValue(arg).1, Some(found));
  }

  lemma TakeBad(command: CommandSpec, argv: seq<string>, index: nat, p: Parsed, arg: string, error: UsageError)
    requires index < |argv| && argv[index] == arg && arg != "--" && !IsHelp(arg) && StartsWith(arg, "-")
    requires OptionPass(SplitInlineValue(arg).0, SplitInlineValue(arg).1,
                        FindOption(command.options, SplitInlineValue(arg).0),
                        if index + 1 < |argv| then Some(argv[index + 1]) else None) == Bad(error)
    ensures Remaining(command, argv, index, p) == Fail(error)
  {
    TakeOption(command, argv, index, p, SplitInlineValue(arg).0, SplitInlineValue(arg).1,
               FindOption(command.options, SplitInlineValue(arg).0));
  }

  /** The loop of `parseCommand`. */
  method ReadArguments(command: CommandSpec, argv: seq<string>) returns (r: Result)
    ensures r == Remaining(command, argv, 0, NOTHING)
  {
    var options: map<string, Value>, positionals: seq<string>, helpRequested := map[], [], false;
    var index := 0;
    ghost var outcome := Remaining(command, argv, 0, NOTHING);
    while index < |argv|
      invariant index <= |argv|
      invariant Remaining(command, argv, index, Parsed(options, positionals, helpRequested)) == outcome
    {
      var arg := argv[index];
      ghost var p := Parsed(options, positionals, helpRequested);
      if arg == "--" {
        TakeRest(command, argv, index, p);
        positionals := positionals + argv[index + 1..];
        index := |argv|;
        break;
      }
      if IsHelp(arg) {
        TakeHelp(command, argv, index, p);
        helpRequested := true;
        index := index + 1;
        continue;
      }
      if !StartsWith(arg, "-") {
        TakeWord(command, argv, index, p);
        positionals := positionals + [arg];
        index := index + 1;
        continue;
      }
      var (flag, inlineValue) := SplitInlineValue(arg);
      var option := FindOption(command.options, flag);
      ghost var start := index;
      if option.None? {
        TakeBad(command, argv, start, p, arg, UnknownOption(flag));
        return Fail(UnknownOption(flag));
      }
      var spec := option.value;
      if spec.kind.Boolean? {
        if inlineValue.Some? {
          TakeBad(command, argv, start, p, arg, TakesNoValue(spec.name));
          return Fail(TakesNoValue(spec.name));
        }
        TakeSwitch(command, argv, start, p, arg, spec);
        options := options[spec.name := Flag];
        index := index + 1;
        continue;
      }
      var value := inlineValue;
      if inlineValue.None? {
        index := index + 1;
        value := if index < |argv| then Some(argv[index]) else None;
      }
      if value.None? || value.value == "" || StartsWith(value.value, "--") {
        TakeBad(command, argv, start, p, arg, RequiresValue(spec.name));
        return Fail(RequiresValue(spec.name));
      }
      if spec.choices.Some? && value.value !in spec.choices.value {
        TakeBad(command, argv, start, p, arg, InvalidChoice(spec.name, value.value));
        return Fail(InvalidChoice(spec.name, value.value));
      }
      TakeValue(command, argv, start, p, arg, spec, value.value, index + 1);
      options := options[spec.name := Text(value.value)];
      index := index + 1;
    }
    return Ok(Parsed(options, positionals, helpRequested));
  }

  /** `parseCommand` */
  method ParseCommand(command: CommandSpec, argv: seq<string>) returns (r: Result)
    ensures r == Parse(command, argv)
  {
    assert argv[0..] == argv;
    r := ReadArguments(command, argv);
    if r.Ok? && !r.parsed.help {
      var complaint := Complaint(command, r.parsed);
      if complaint.Some? {
        return Fail(complaint.value);
      }
    }
  }
}
