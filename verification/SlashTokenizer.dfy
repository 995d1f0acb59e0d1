/** `tokenizeSlashCommand` of packages/cli/src/commands/command-input.ts, against a grammar of shell-like words. */
module SlashTokenizer {
  import opened Text

  datatype Quote = NoQuote | In(mark: char)

  datatype Result =
    | Tokens(tokens: seq<string>)
    | EndsWithEscape
    | UnclosedQuote(mark: char)

  predicate IsMark(c: char) {
    c == '"' || c == '\''
  }

  // ---------------------------------------------------------------- the scanner as a function

  datatype Scan = Scan(tokens: seq<string>, token: string, quote: Quote, escaping: bool, started: bool)

  const START := Scan([], "", NoQuote, false, false)

  function Step(s: Scan, c: char): Scan {
    if s.escaping then s.(token := s.token + [c], escaping := false, started := true)
    else if c == '\\' then s.(escaping := true, started := true)
    else if s.quote.In? then
      if c == s.quote.mark then s.(quote := NoQuote, started := true)
      else s.(token := s.token + [c], started := true)
    else if IsMark(c) then s.(quote := In(c), started := true)
    else if IsSpace(c) then
      if s.started then s.(tokens := s.tokens + [s.token], token := "", started := false) else s
    else s.(token := s.token + [c], started := true)
  }

  function ScanFrom(s: Scan, body: string): Scan
    decreases |body|, 2
  {
    if body == "" then s else ScanSplit(s, body)
  }

  function ScanSplit(s: Scan, body: string): Scan
    requires body != ""
    decreases |body|, 1
  {
    ScanCons(s, body[0], body[1..])
  }

  function ScanCons(s: Scan, c: char, rest: string): Scan
    decreases |rest| + 1, 0
  {
    ScanFrom(Step(s, c), rest)
  }

  lemma ScanUnfold(s: Scan, body: string)
    requires body != ""
    ensures ScanFrom(s, body) == ScanFrom(Step(s, body[0]), body[1..])
  {
    assert ScanSplit(s, body) == ScanCons(s, body[0], body[1..]);
    assert ScanCons(s, body[0], body[1..]) == ScanFrom(Step(s, body[0]), body[1..]);
  }

  function Finish(s: Scan): Result {
    if s.escaping then EndsWithEscape
    else if s.quote.In? then UnclosedQuote(s.quote.mark)
    else if s.started then Tokens(s.tokens + [s.token])
    else Tokens(s.tokens)
  }

  function Tokenized(body: string): Result {
    Finish(ScanFrom(START, body))
  }

  method TokenizeSlashCommand(body: string) returns (r: Result)
    ensures r == Tokenized(body)
  {
    var tokens, token, quote, escaping, started := [], "", NoQuote, false, false;
    var i := 0;
    while i < |body|
      invariant 0 <= i <= |body|
      invariant ScanFrom(Scan(tokens, token, quote, escaping, started), body[i..]) == ScanFrom(START, body)
    {
      var character := body[i];
      ScanUnfold(Scan(tokens, token, quote, escaping, started), body[i..]);
      assert body[i..][1..] == body[i + 1..];
      i := i + 1;
      if escaping {
        token := token + [character];
        escaping := false;
        started := true;
      } else if character == '\\' {
        escaping := true;
        started := true;
      } else if quote.In? {
        if character == quote.mark {
          quote := NoQuote;
        } else {
          token := token + [character];
        }
        started := true;
      } else if IsMark(character) {
        quote := In(character);
        started := true;
      } else if IsSpace(character) {
        if started {
          tokens := tokens + [token];
          token := "";
          started := false;
        }
      } else {
        token := token + [character];
        started := true;
      }
    }
    assert body[i..] == "";
    if escaping {
      return EndsWithEscape;
    }
    if quote.In? {
      return UnclosedQuote(quote.mark);
    }
    if started {
      tokens := tokens + [token];
    }
    return Tokens(tokens);
  }

  // ---------------------------------------------------------------- the grammar

  /** A character inside quotes, as itself or behind a backslash. */
  datatype Inner = Plain(c: char) | Escape(c: char)

  /** Part of a word: a character as itself, a character behind a backslash, or a quoted stretch. */
  datatype Piece = Bare(c: char) | Escaped(c: char) | Quoted(mark: char, inner: seq<Inner>)

  /** A word and the white space after it. */
  datatype Item = Item(word: seq<Piece>, gap: string)

  datatype Line = Line(lead: string, items: seq<Item>)

  predicate GoodInner(mark: char, i: Inner) {
    i.Plain? ==> i.c != mark && i.c != '\\'
  }

  predicate GoodQuote(mark: char, inner: seq<Inner>) {
    IsMark(mark) && forall i :: i in inner ==> GoodInner(mark, i)
  }

  predicate GoodPiece(p: Piece) {
    match p
    case Bare(c) => c != '\\' && !IsMark(c) && !IsSpace(c)
    case Escaped(_) => true
    case Quoted(mark, inner) => GoodQuote(mark, inner)
  }

  predicate IsGap(s: string) {
    forall c :: c in s ==> IsSpace(c)
  }

  predicate GoodItem(i: Item) {
    i.word != [] && (forall p :: p in i.word ==> GoodPiece(p)) && IsGap(i.gap)
  }

  /** Words are not empty and are separated by white space; it may be missing only after the last one. */
  predicate GoodLine(l: Line) {
    && IsGap(l.lead)
    && (forall i :: i in l.items ==> GoodItem(i))
    && (forall k :: 0 <= k < |l.items| - 1 ==> l.items[k].gap != "")
  }

  function InnerText(inner: seq<Inner>): string {
    if inner == [] then ""
    else
      var last := inner[|inner| - 1];
      InnerText(inner[..|inner| - 1]) + (if last.Plain? then [last.c] else ['\\', last.c])
  }

  function InnerMeaning(inner: seq<Inner>): string {
    seq(|inner|, k requires 0 <= k < |inner| => inner[k].c)
  }

  function PieceText(p: Piece): string {
    match p
    case Bare(c) => [c]
    case Escaped(c) => ['\\', c]
    case Quoted(mark, inner) => [mark] + InnerText(inner) + [mark]
  }

  function PieceMeaning(p: Piece): string {
    match p
    case Bare(c) => [c]
    case Escaped(c) => [c]
    case Quoted(_, inner) => InnerMeaning(inner)
  }

  function WordText(word: seq<Piece>): string {
    if word == [] then "" else WordText(word[..|word| - 1]) + PieceText(word[|word| - 1])
  }

  /** The token a word stands for. */
  function WordMeaning(word: seq<Piece>): string {
    if word == [] then "" else WordMeaning(word[..|word| - 1]) + PieceMeaning(word[|word| - 1])
  }

  function ItemsText(items: seq<Item>): string {
    if items == [] then ""
    else ItemsText(items[..|items| - 1]) + WordText(items[|items| - 1].word) + items[|items| - 1].gap
  }

  function LineText(l: Line): string {
    l.lead + ItemsText(l.items)
  }

  function LineMeaning(l: Line): seq<string> {
    seq(|l.items|, k requires 0 <= k < |l.items| => WordMeaning(l.items[k].word))
  }

  // ---------------------------------------------------------------- every rendering scans to its meaning

  lemma {:induction false} ScanAppend(s: Scan, a: string, b: string)
    ensures ScanFrom(s, a + b) == ScanFrom(ScanFrom(s, a), b)
    decreases |a|
  {
    if a == "" {
      assert a + b == b;
    } else {
      assert (a + b)[1..] == a[1..] + b;
      ScanUnfold(s, a);
      ScanUnfold(s, a + b);
      ScanAppend(Step(s, a[0]), a[1..], b);
    }
  }

  lemma ScanOne(s: Scan, c: char)
    ensures ScanFrom(s, [c]) == Step(s, c)
  {
    ScanUnfold(s, [c]);
  }

  lemma ScanTwo(s: Scan, c: char, d: char)
    ensures ScanFrom(s, [c, d]) == Step(Step(s, c), d)
  {
    assert [c, d] == [c] + [d];
    ScanAppend(s, [c], [d]);
    ScanOne(s, c);
    ScanOne(Step(s, c), d);
  }

  lemma {:induction false} ScanInner(s: Scan, mark: char, inner: seq<Inner>)
    requires s.quote == In(mark) && IsMark(mark) && !s.escaping && s.started
    requires forall i :: i in inner ==> GoodInner(mark, i)
    ensures ScanFrom(s, InnerText(inner)) == s.(token := s.token + InnerMeaning(inner))
  {
    if inner == [] {
      assert s.token + InnerMeaning(inner) == s.token;
    } else {
      var rest, last := inner[..|inner| - 1], inner[|inner| - 1];
      assert last in inner;
      ScanInner(s, mark, rest);
      var t := s.(token := s.token + InnerMeaning(rest));
      ScanAppend(s, InnerText(rest), if last.Plain? then [last.c] else ['\\', last.c]);
      ScanOne(t, last.c);
      ScanTwo(t, '\\', last.c);
      assert s.token + InnerMeaning(inner) == s.token + InnerMeaning(rest) + [last.c];
    }
  }

  predicate Outside(s: Scan) {
    s.quote == NoQuote && !s.escaping
  }

  lemma ScanPiece(s: Scan, p: Piece)
    requires Outside(s) && GoodPiece(p)
    ensures ScanFrom(s, PieceText(p)) == s.(token := s.token + PieceMeaning(p), started := true)
  {
    match p {
      case Bare(c) => ScanOne(s, c);
      case Escaped(c) => ScanTwo(s, '\\', c);
      case Quoted(mark, inner) =>
        ScanAppend(s, [mark] + InnerText(inner), [mark]);
        ScanAppend(s, [mark], InnerText(inner));
        ScanOne(s, mark);
        var inside := s.(quote := In(mark), started := true);
        ScanInner(inside, mark, inner);
        ScanOne(inside.(token := s.token + InnerMeaning(inner)), mark);
    }
  }

  lemma ScanOneMorePiece(s: Scan, text: string, meaning: string, started: bool, last: Piece)
    requires Outside(s) && GoodPiece(last)
    requires ScanFrom(s, text) == s.(token := s.token + meaning, started := started)
    ensures ScanFrom(s, text + PieceText(last))
            == s.(token := s.token + (meaning + PieceMeaning(last)), started := true)
  {
    Associative(s.token, meaning, PieceMeaning(last));
    ScanPiece(s.(token := s.token + meaning, started := started), last);
    ScanAppend(s, text, PieceText(last));
  }

  lemma Associative(a: string, b: string, c: string)
    ensures a + (b + c) == (a + b) + c
  {
  }

  lemma {:induction false} ScanWord(s: Scan, word: seq<Piece>)
    requires Outside(s) && forall k :: 0 <= k < |word| ==> GoodPiece(word[k])
    ensures ScanFrom(s, WordText(word)) == s.(token := s.token + WordMeaning(word), started := s.started || word != [])
    decreases |word|
  {
    if word == [] {
      assert s.token + "" == s.token;
    } else {
      var rest := word[..|word| - 1];
      ScanWord(s, rest);
      ScanOneMorePiece(s, WordText(rest), WordMeaning(rest), s.started || rest != [], word[|word| - 1]);
    }
  }

  lemma {:induction false} ScanGap(s: Scan, gap: string)
    requires Outside(s) && IsGap(gap) && !s.started
    ensures ScanFrom(s, gap) == s
  {
    if gap != "" {
      NotSpecial(gap[0]);
      ScanUnfold(s, gap);
      ScanGap(s, gap[1..]);
    }
  }

  lemma NotSpecial(c: char)
    requires IsSpace(c)
    ensures c != '\\' && !IsMark(c)
  {
  }

  lemma ScanGapAfterWord(s: Scan, gap: string)
    requires Outside(s) && IsGap(gap) && s.started && gap != ""
    ensures ScanFrom(s, gap) == s.(tokens := s.tokens + [s.token], token := "", started := false)
  {
    NotSpecial(gap[0]);
    ScanUnfold(s, gap);
    ScanGap(Step(s, gap[0]), gap[1..]);
  }

  /** The state after whole items: every token pushed, or the last one still being built when nothing follows it. */
  function After(items: seq<Item>): Scan {
    if items == [] then START
    else
      var meanings := LineMeaning(Line("", items));
      if items[|items| - 1].gap == "" then
        Scan(meanings[..|items| - 1], meanings[|items| - 1], NoQuote, false, true)
      else Scan(meanings, "", NoQuote, false, false)
  }

  lemma MeaningSnoc(items: seq<Item>)
    requires items != []
    ensures LineMeaning(Line("", items))
         == LineMeaning(Line("", items[..|items| - 1])) + [WordMeaning(items[|items| - 1].word)]
  {
  }

  lemma ScanItem(s: Scan, item: Item)
    requires Outside(s) && !s.started && s.token == "" && GoodItem(item)
    ensures ScanFrom(s, WordText(item.word) + item.gap)
         == if item.gap == "" then s.(token := WordMeaning(item.word), started := true)
            else s.(tokens := s.tokens + [WordMeaning(item.word)])
  {
    ScanAppend(s, WordText(item.word), item.gap);
    ScanWord(s, item.word);
    assert "" + WordMeaning(item.word) == WordMeaning(item.word);
    if item.gap != "" {
      ScanGapAfterWord(s.(token := WordMeaning(item.word), started := true), item.gap);
    }
  }

  lemma {:induction false} ScanItems(items: seq<Item>)
    requires GoodLine(Line("", items))
    ensures ScanFrom(START, ItemsText(items)) == After(items)
    decreases |items|
  {
    if items != [] {
      var rest := items[..|items| - 1];
      ScanItems(rest) by { GoodRest(items); }
      ScanOneMoreItem(items);
    }
  }

  lemma GoodRest(items: seq<Item>)
    requires GoodLine(Line("", items)) && items != []
    ensures GoodLine(Line("", items[..|items| - 1])) && GoodItem(items[|items| - 1])
    ensures |items| > 1 ==> items[|items| - 2].gap != ""
  {
  }

  lemma ScanOneMoreItem(items: seq<Item>)
    requires GoodLine(Line("", items)) && items != []
    requires ScanFrom(START, ItemsText(items[..|items| - 1])) == After(items[..|items| - 1])
    ensures ScanFrom(START, ItemsText(items)) == After(items)
  {
    var rest, last := items[..|items| - 1], items[|items| - 1];
    GoodRest(items);
    Associative(ItemsText(rest), WordText(last.word), last.gap);
    ScanAppend(START, ItemsText(rest), WordText(last.word) + last.gap);
    MeaningSnoc(items);
    AfterRest(rest);
    ScanItem(After(rest), last);
  }

  lemma AfterRest(items: seq<Item>)
    requires items == [] || items[|items| - 1].gap != ""
    ensures After(items) == Scan(LineMeaning(Line("", items)), "", NoQuote, false, false)
  {
    assert items == [] ==> LineMeaning(Line("", items)) == [];
  }

  /** Whatever mix of bare, escaped and quoted characters writes the words down, tokenizing gives the words back. */
  lemma RenderingTokenizesToMeaning(l: Line)
    requires GoodLine(l)
    ensures Tokenized(LineText(l)) == Tokens(LineMeaning(l))
  {
    ScanLine(l);
    FinishItems(l.items);
    assert LineMeaning(l) == LineMeaning(Line("", l.items));
  }

  lemma ScanLine(l: Line)
    requires GoodLine(l)
    ensures ScanFrom(START, LineText(l)) == After(l.items)
  {
    ScanGap(START, l.lead);
    ScanAppend(START, l.lead, ItemsText(l.items));
    assert GoodLine(Line("", l.items));
    ScanItems(l.items);
  }

  lemma FinishItems(items: seq<Item>)
    ensures Finish(After(items)) == Tokens(LineMeaning(Line("", items)))
  {
    var m := LineMeaning(Line("", items));
    if items != [] {
      assert m[..|m| - 1] + [m[|m| - 1]] == m;
    }
  }

  // ---------------------------------------------------------------- everything that scans is a rendering

  /** What is still open at the end of a scanned text. */
  datatype Open =
    | Closed
    | AfterBackslash
    | InQuote(mark: char, inner: seq<Inner>)
    | AfterBackslashInQuote(mark: char, inner: seq<Inner>)

  /** A scanned text read back: whole items, each followed by white space, then the word being written. */
  datatype Partial = Partial(line: Line, word: seq<Piece>, open: Open)

  function OpenText(o: Open): string {
    match o
    case Closed => ""
    case AfterBackslash => "\\"
    case InQuote(mark, inner) => [mark] + InnerText(inner)
    case AfterBackslashInQuote(mark, inner) => [mark] + InnerText(inner) + "\\"
  }

  function OpenMeaning(o: Open): string {
    match o
    case InQuote(_, inner) => InnerMeaning(inner)
    case AfterBackslashInQuote(_, inner) => InnerMeaning(inner)
    case _ => ""
  }

  function TailText(word: seq<Piece>, open: Open): string {
    WordText(word) + OpenText(open)
  }

  function TailMeaning(word: seq<Piece>, open: Open): string {
    WordMeaning(word) + OpenMeaning(open)
  }

  function PartialText(p: Partial): string {
    LineText(p.line) + TailText(p.word, p.open)
  }

  function StateOf(p: Partial): Scan {
    Scan(LineMeaning(p.line), TailMeaning(p.word, p.open),
         if p.open.InQuote? || p.open.AfterBackslashInQuote? then In(p.open.mark) else NoQuote,
         p.open.AfterBackslash? || p.open.AfterBackslashInQuote?,
         p.word != [] || !p.open.Closed?)
  }

  predicate GoodPartial(p: Partial) {
    && GoodLine(p.line)
    && (p.line.items != [] ==> p.line.items[|p.line.items| - 1].gap != "")
    && (forall k :: 0 <= k < |p.word| ==> GoodPiece(p.word[k]))
    && (p.open.InQuote? || p.open.AfterBackslashInQuote? ==> GoodQuote(p.open.mark, p.open.inner))
  }

  function AddSpace(p: Partial, c: char): Partial {
    var items := p.line.items;
    if p.word != [] then p.(line := p.line.(items := items + [Item(p.word, [c])]), word := [])
    else if items == [] then p.(line := p.line.(lead := p.line.lead + [c]))
    else
      var last := items[|items| - 1];
      p.(line := p.line.(items := items[..|items| - 1] + [last.(gap := last.gap + [c])]))
  }

  function Extend(p: Partial, c: char): Partial {
    match p.open
    case AfterBackslash => p.(word := p.word + [Escaped(c)], open := Closed)
    case AfterBackslashInQuote(mark, inner) => p.(open := InQuote(mark, inner + [Escape(c)]))
    case InQuote(mark, inner) =>
      if c == '\\' then p.(open := AfterBackslashInQuote(mark, inner))
      else if c == mark then p.(word := p.word + [Quoted(mark, inner)], open := Closed)
      else p.(open := InQuote(mark, inner + [Plain(c)]))
    case Closed =>
      if c == '\\' then p.(open := AfterBackslash)
      else if IsMark(c) then p.(open := InQuote(c, []))
      else if IsSpace(c) then AddSpace(p, c)
      else p.(word := p.word + [Bare(c)])
  }

  function ReadBack(p: Partial, body: string): Partial
    decreases |body|
  {
    if body == "" then p else ReadBack(Extend(p, body[0]), body[1..])
  }

  lemma WordSnoc(word: seq<Piece>, p: Piece)
    ensures WordText(word + [p]) == WordText(word) + PieceText(p)
    ensures WordMeaning(word + [p]) == WordMeaning(word) + PieceMeaning(p)
  {
    assert (word + [p])[..|word|] == word;
  }

  lemma InnerSnoc(inner: seq<Inner>, i: Inner)
    ensures InnerText(inner + [i]) == InnerText(inner) + if i.Plain? then [i.c] else ['\\', i.c]
    ensures InnerMeaning(inner + [i]) == InnerMeaning(inner) + [i.c]
  {
    assert (inner + [i])[..|inner|] == inner;
  }

  lemma EmptyRight(a: string)
    ensures a + "" == a
  {
  }

  lemma ItemsSnoc(items: seq<Item>, i: Item)
    ensures ItemsText(items + [i]) == ItemsText(items) + (WordText(i.word) + i.gap)
    ensures LineMeaning(Line("", items + [i])) == LineMeaning(Line("", items)) + [WordMeaning(i.word)]
  {
    assert (items + [i])[..|items|] == items;
    Associative(ItemsText(items), WordText(i.word), i.gap);
  }

  lemma BackslashText(word: seq<Piece>, c: char)
    ensures TailText(word + [Escaped(c)], Closed) == TailText(word, AfterBackslash) + [c]
  {
    WordSnoc(word, Escaped(c));
    EmptyRight(WordText(word + [Escaped(c)]));
    Associative(WordText(word), "\\", [c]);
  }

  lemma BackslashInQuoteText(word: seq<Piece>, mark: char, inner: seq<Inner>, c: char)
    ensures TailText(word, InQuote(mark, inner + [Escape(c)]))
            == TailText(word, AfterBackslashInQuote(mark, inner)) + [c]
  {
    InnerSnoc(inner, Escape(c));
    Associative([mark], InnerText(inner), ['\\', c]);
    Associative([mark] + InnerText(inner), "\\", [c]);
    Associative(WordText(word), [mark] + InnerText(inner) + "\\", [c]);
  }

  lemma InQuoteText(word: seq<Piece>, mark: char, inner: seq<Inner>, c: char)
    ensures TailText(word, AfterBackslashInQuote(mark, inner)) == TailText(word, InQuote(mark, inner)) + "\\"
    ensures TailText(word + [Quoted(mark, inner)], Closed) == TailText(word, InQuote(mark, inner)) + [mark]
    ensures TailText(word, InQuote(mark, inner + [Plain(c)])) == TailText(word, InQuote(mark, inner)) + [c]
  {
    var text := [mark] + InnerText(inner);
    Associative(WordText(word), text, "\\");
    WordSnoc(word, Quoted(mark, inner));
    EmptyRight(WordText(word + [Quoted(mark, inner)]));
    Associative(WordText(word), text, [mark]);
    InnerSnoc(inner, Plain(c));
    Associative([mark], InnerText(inner), [c]);
    Associative(WordText(word), text, [c]);
  }

  lemma ClosedText(word: seq<Piece>, c: char)
    ensures TailText(word, AfterBackslash) == TailText(word, Closed) + "\\"
    ensures TailText(word, InQuote(c, [])) == TailText(word, Closed) + [c]
    ensures TailText(word + [Bare(c)], Closed) == TailText(word, Closed) + [c]
  {
    EmptyRight(WordText(word));
    EmptyRight([c]);
    WordSnoc(word, Bare(c));
    EmptyRight(WordText(word + [Bare(c)]));
  }

  lemma SpaceAfterWord(l: Line, word: seq<Piece>, c: char)
    ensures LineText(l.(items := l.items + [Item(word, [c])])) == LineText(l) + (WordText(word) + [c])
  {
    ItemsSnoc(l.items, Item(word, [c]));
    Associative(l.lead, ItemsText(l.items), WordText(word) + [c]);
  }

  lemma SpaceAfterSpace(l: Line, c: char)
    requires l.items != []
    ensures var rest, last := l.items[..|l.items| - 1], l.items[|l.items| - 1];
            LineText(l.(items := rest + [last.(gap := last.gap + [c])])) == LineText(l) + [c]
  {
    var rest, last := l.items[..|l.items| - 1], l.items[|l.items| - 1];
    assert l.items == rest + [last];
    ItemsSnoc(rest, last);
    ItemsSnoc(rest, last.(gap := last.gap + [c]));
    Associative(WordText(last.word), last.gap, [c]);
    Associative(ItemsText(rest), WordText(last.word) + last.gap, [c]);
    Associative(l.lead, ItemsText(l.items), [c]);
  }

  lemma AddSpaceText(p: Partial, c: char)
    requires p.open.Closed?
    ensures PartialText(AddSpace(p, c)) == PartialText(p) + [c]
  {
    EmptyRight(WordText(p.word));
    if p.word != [] {
      SpaceAfterWord(p.line, p.word, c);
      Associative(LineText(p.line), WordText(p.word), [c]);
    } else if p.line.items == [] {
      EmptyRight(p.line.lead);
      EmptyRight(p.line.lead + [c]);
    } else {
      SpaceAfterSpace(p.line, c);
      EmptyRight(LineText(p.line));
    }
    EmptyRight(LineText(AddSpace(p, c).line));
  }

  lemma ExtendText(p: Partial, c: char)
    ensures PartialText(Extend(p, c)) == PartialText(p) + [c]
  {
    Associative(LineText(p.line), TailText(p.word, p.open), [c]);
    match p.open {
      case AfterBackslash => BackslashText(p.word, c);
      case AfterBackslashInQuote(mark, inner) => BackslashInQuoteText(p.word, mark, inner, c);
      case InQuote(mark, inner) => InQuoteText(p.word, mark, inner, c);
      case Closed =>
        ClosedText(p.word, c);
        if c != '\\' && !IsMark(c) && IsSpace(c) { AddSpaceText(p, c); }
    }
  }

  lemma AddSpaceMeaning(p: Partial, c: char)
    ensures LineMeaning(AddSpace(p, c).line)
         == if p.word != [] then LineMeaning(p.line) + [WordMeaning(p.word)] else LineMeaning(p.line)
  {
  }

  lemma AddSpaceScans(p: Partial, c: char)
    requires p.open.Closed? && IsSpace(c)
    ensures StateOf(AddSpace(p, c)) == Step(StateOf(p), c)
  {
    NotSpecial(c);
    EmptyRight(WordMeaning(p.word));
    AddSpaceMeaning(p, c);
  }

  lemma LeadHasNoMeaning(l: Line)
    ensures LineMeaning(l) == LineMeaning(Line("", l.items))
  {
  }

  lemma BackslashMeaning(word: seq<Piece>, c: char)
    ensures TailMeaning(word + [Escaped(c)], Closed) == TailMeaning(word, AfterBackslash) + [c]
  {
    WordSnoc(word, Escaped(c));
    EmptyRight(WordMeaning(word));
    EmptyRight(WordMeaning(word + [Escaped(c)]));
  }

  lemma QuoteMeaning(word: seq<Piece>, mark: char, inner: seq<Inner>, i: Inner)
    ensures TailMeaning(word, InQuote(mark, inner + [i])) == TailMeaning(word, InQuote(mark, inner)) + [i.c]
    ensures TailMeaning(word + [Quoted(mark, inner)], Closed) == TailMeaning(word, InQuote(mark, inner))
  {
    InnerSnoc(inner, i);
    Associative(WordMeaning(word), InnerMeaning(inner), [i.c]);
    WordSnoc(word, Quoted(mark, inner));
    EmptyRight(WordMeaning(word + [Quoted(mark, inner)]));
  }

  lemma ClosedMeaning(word: seq<Piece>, c: char)
    ensures TailMeaning(word, Closed) == TailMeaning(word, AfterBackslash) == TailMeaning(word, InQuote(c, []))
    ensures TailMeaning(word + [Bare(c)], Closed) == TailMeaning(word, Closed) + [c]
  {
    WordSnoc(word, Bare(c));
    EmptyRight(WordMeaning(word));
    EmptyRight(WordMeaning(word + [Bare(c)]));
  }

  lemma ExtendScans(p: Partial, c: char)
    ensures StateOf(Extend(p, c)) == Step(StateOf(p), c)
  {
    if p.open.Closed? && c != '\\' && !IsMark(c) && IsSpace(c) {
      AddSpaceScans(p, c);
    } else {
      match p.open {
        case AfterBackslash => BackslashMeaning(p.word, c);
        case AfterBackslashInQuote(mark, inner) => QuoteMeaning(p.word, mark, inner, Escape(c));
        case InQuote(mark, inner) => QuoteMeaning(p.word, mark, inner, Plain(c));
        case Closed => ClosedMeaning(p.word, c);
      }
    }
  }

  lemma AddSpaceIsGood(p: Partial, c: char)
    requires GoodPartial(p) && IsSpace(c)
    ensures GoodPartial(AddSpace(p, c))
  {
    var q, items := AddSpace(p, c), p.line.items;
    if p.word != [] {
      assert GoodItem(Item(p.word, [c]));
    } else if items != [] {
      var last := items[|items| - 1];
      assert last in items && GoodItem(last);
      assert GoodItem(last.(gap := last.gap + [c]));
    }
    forall i | i in q.line.items
      ensures GoodItem(i)
    {
      assert i in items || i == q.line.items[|q.line.items| - 1];
    }
  }

  lemma ExtendIsGood(p: Partial, c: char)
    requires GoodPartial(p)
    ensures GoodPartial(Extend(p, c))
  {
    match p.open {
      case AfterBackslash =>
      case AfterBackslashInQuote(mark, inner) => assert GoodQuote(mark, inner + [Escape(c)]);
      case InQuote(mark, inner) =>
        assert GoodQuote(mark, inner);
        if c != mark && c != '\\' { assert GoodQuote(mark, inner + [Plain(c)]); }
      case Closed =>
        if c != '\\' && !IsMark(c) && IsSpace(c) { AddSpaceIsGood(p, c); }
    }
  }

  lemma {:induction false} ReadBackIsFaithful(p: Partial, body: string)
    requires GoodPartial(p)
    ensures GoodPartial(ReadBack(p, body))
    ensures PartialText(ReadBack(p, body)) == PartialText(p) + body
    ensures StateOf(ReadBack(p, body)) == ScanFrom(StateOf(p), body)
    decreases |body|
  {
    if body == "" {
      EmptyRight(PartialText(p));
    } else {
      ExtendIsFaithful(p, body[0], body[1..]);
      ScanUnfold(StateOf(p), body);
      ReadBackIsFaithful(Extend(p, body[0]), body[1..]);
      assert body == [body[0]] + body[1..];
    }
  }

  lemma ExtendIsFaithful(p: Partial, c: char, rest: string)
    requires GoodPartial(p)
    ensures GoodPartial(Extend(p, c)) && StateOf(Extend(p, c)) == Step(StateOf(p), c)
    ensures PartialText(Extend(p, c)) + rest == PartialText(p) + ([c] + rest)
  {
    ExtendIsGood(p, c);
    ExtendText(p, c);
    ExtendScans(p, c);
    Associative(PartialText(p), [c], rest);
  }

  /** The tokenizer accepts exactly the texts of the grammar, and returns the words they were written from. */
  lemma TokenizesExactlyTheRenderings(body: string, tokens: seq<string>)
    ensures Tokenized(body) == Tokens(tokens) <==>
            exists l :: GoodLine(l) && LineText(l) == body && LineMeaning(l) == tokens
  {
    if Tokenized(body) == Tokens(tokens) {
      var l := WrittenLine(body, tokens);
      assert GoodLine(l) && LineText(l) == body && LineMeaning(l) == tokens;
    }
    forall l | GoodLine(l) && LineText(l) == body && LineMeaning(l) == tokens
      ensures Tokenized(body) == Tokens(tokens)
    {
      RenderingTokenizesToMeaning(l);
    }
  }

  lemma WrittenLine(body: string, tokens: seq<string>) returns (l: Line)
    requires Tokenized(body) == Tokens(tokens)
    ensures GoodLine(l) && LineText(l) == body && LineMeaning(l) == tokens
  {
    var q := Reading(body);
    l := if q.word == [] then q.line else q.line.(items := q.line.items + [Item(q.word, "")]);
    CompletedLine(q, l);
  }

  lemma CompletedLine(p: Partial, l: Line)
    requires GoodPartial(p) && p.open.Closed?
    requires l == if p.word == [] then p.line else p.line.(items := p.line.items + [Item(p.word, "")])
    ensures GoodLine(l) && LineText(l) == PartialText(p) && Finish(StateOf(p)) == Tokens(LineMeaning(l))
  {
    CompletedIsGood(p, l);
    CompletedReadsAlike(p, l);
    CompletedMeansAlike(p, l);
  }

  lemma CompletedReadsAlike(p: Partial, l: Line)
    requires p.open.Closed?
    requires l == if p.word == [] then p.line else p.line.(items := p.line.items + [Item(p.word, "")])
    ensures LineText(l) == PartialText(p)
  {
    EmptyRight(WordText(p.word));
    if p.word != [] {
      CompletedText(p.line, p.word);
    } else {
      EmptyRight(LineText(p.line));
    }
  }

  lemma CompletedMeansAlike(p: Partial, l: Line)
    requires p.open.Closed?
    requires l == if p.word == [] then p.line else p.line.(items := p.line.items + [Item(p.word, "")])
    ensures Finish(StateOf(p)) == Tokens(LineMeaning(l))
  {
    EmptyRight(WordMeaning(p.word));
    if p.word != [] {
      CompletedText(p.line, p.word);
    }
  }

  lemma CompletedIsGood(p: Partial, l: Line)
    requires GoodPartial(p) && p.open.Closed?
    requires l == if p.word == [] then p.line else p.line.(items := p.line.items + [Item(p.word, "")])
    ensures GoodLine(l)
  {
  }

  lemma CompletedText(l: Line, word: seq<Piece>)
    ensures LineText(l.(items := l.items + [Item(word, "")])) == LineText(l) + WordText(word)
    ensures LineMeaning(l.(items := l.items + [Item(word, "")])) == LineMeaning(l) + [WordMeaning(word)]
  {
    ItemsSnoc(l.items, Item(word, ""));
    EmptyRight(WordText(word));
    Associative(l.lead, ItemsText(l.items), WordText(word));
    LeadHasNoMeaning(l);
    LeadHasNoMeaning(l.(items := l.items + [Item(word, "")]));
  }

  // ---------------------------------------------------------------- what fails

  lemma ScanOpen(s: Scan, open: Open)
    requires Outside(s) && (open.InQuote? || open.AfterBackslashInQuote? ==> GoodQuote(open.mark, open.inner))
    ensures ScanFrom(s, OpenText(open))
            == Scan(s.tokens, s.token + OpenMeaning(open),
                    if open.InQuote? || open.AfterBackslashInQuote? then In(open.mark) else NoQuote,
                    open.AfterBackslash? || open.AfterBackslashInQuote?, s.started || !open.Closed?)
  {
    match open {
      case Closed => EmptyRight(s.token);
      case AfterBackslash =>
        ScanOne(s, '\\');
        EmptyRight(s.token);
      case InQuote(mark, inner) => ScanOpenQuote(s, mark, inner);
      case AfterBackslashInQuote(mark, inner) =>
        ScanOpenQuote(s, mark, inner);
        ScanAppend(s, [mark] + InnerText(inner), "\\");
        ScanOne(ScanFrom(s, [mark] + InnerText(inner)), '\\');
    }
  }

  lemma ScanOpenQuote(s: Scan, mark: char, inner: seq<Inner>)
    requires Outside(s) && GoodQuote(mark, inner)
    ensures ScanFrom(s, [mark] + InnerText(inner))
            == s.(token := s.token + InnerMeaning(inner), quote := In(mark), started := true)
  {
    ScanAppend(s, [mark], InnerText(inner));
    ScanOne(s, mark);
    ScanInner(s.(quote := In(mark), started := true), mark, inner);
  }

  /** Whatever whole items, word and open quote or backslash a text consists of, scanning it ends in their state. */
  lemma PartialScans(p: Partial)
    requires GoodPartial(p)
    ensures ScanFrom(START, PartialText(p)) == StateOf(p)
  {
    var s := ScanFrom(START, LineText(p.line));
    ScanLine(p.line);
    AfterRest(p.line.items);
    LeadHasNoMeaning(p.line);
    assert s == Scan(LineMeaning(p.line), "", NoQuote, false, false);
    ScanAppend(START, LineText(p.line), TailText(p.word, p.open));
    ScanAppend(s, WordText(p.word), OpenText(p.open));
    ScanWord(s, p.word);
    EmptyLeft(WordMeaning(p.word));
    ScanOpen(s.(token := WordMeaning(p.word), started := p.word != []), p.open);
  }

  lemma EmptyLeft(a: string)
    ensures "" + a == a
  {
  }

  predicate EndsInQuote(p: Partial, body: string, mark: char) {
    GoodPartial(p) && PartialText(p) == body && p.open.InQuote? && p.open.mark == mark
  }

  predicate EndsInEscape(p: Partial, body: string) {
    GoodPartial(p) && PartialText(p) == body && (p.open.AfterBackslash? || p.open.AfterBackslashInQuote?)
  }

  /** The tokenizer fails exactly on the texts that end inside a quote, reporting its mark, or behind a backslash that
      escapes nothing, be it in a quote or not. */
  lemma FailsExactlyInside(body: string, mark: char)
    ensures Tokenized(body) == UnclosedQuote(mark) <==> exists p :: EndsInQuote(p, body, mark)
    ensures Tokenized(body) == EndsWithEscape <==> exists p :: EndsInEscape(p, body)
  {
    var q := Reading(body);
    PartialScans(q);
    if Tokenized(body) == UnclosedQuote(mark) {
      assert EndsInQuote(q, body, mark);
    }
    if Tokenized(body) == EndsWithEscape {
      assert EndsInEscape(q, body);
    }
    forall p | EndsInQuote(p, body, mark)
      ensures Tokenized(body) == UnclosedQuote(mark)
    {
      PartialScans(p);
    }
    forall p | EndsInEscape(p, body)
      ensures Tokenized(body) == EndsWithEscape
    {
      PartialScans(p);
    }
  }

  /** Every text is such a partial line, read to the state the scanner ends in. */
  lemma Reading(body: string) returns (p: Partial)
    ensures GoodPartial(p) && PartialText(p) == body && StateOf(p) == ScanFrom(START, body)
  {
    var nothing := Partial(Line("", []), [], Closed);
    ReadBackIsFaithful(nothing, body);
    p := ReadBack(nothing, body);
    assert StateOf(nothing) == START && PartialText(nothing) == "";
    EmptyLeft(body);
  }

  // ---------------------------------------------------------------- a printer

  function QuotedInner(token: string): seq<Inner> {
    seq(|token|, k requires 0 <= k < |token| =>
      if token[k] == '"' || token[k] == '\\' then Escape(token[k]) else Plain(token[k]))
  }

  /** A token in double quotes, or with a backslash before every character. */
  function Written(token: string, quoted: bool): seq<Piece> {
    if quoted then [Quoted('"', QuotedInner(token))]
    else seq(|token|, k requires 0 <= k < |token| => Escaped(token[k]))
  }

  function Printed(tokens: seq<string>, quoted: seq<bool>): Line
    requires |quoted| == |tokens|
  {
    Line("", seq(|tokens|, k requires 0 <= k < |tokens| => Item(Written(tokens[k], quoted[k]), " ")))
  }

  lemma {:induction false} EscapedMeaning(token: string)
    ensures WordMeaning(Written(token, false)) == token
  {
    if token != "" {
      var rest := token[..|token| - 1];
      EscapedMeaning(rest);
      WordSnoc(Written(rest, false), Escaped(token[|token| - 1]));
      assert Written(token, false) == Written(rest, false) + [Escaped(token[|token| - 1])];
      assert token == rest + [token[|token| - 1]];
    }
  }

  lemma QuotedMeaning(token: string)
    ensures WordMeaning(Written(token, true)) == token
  {
    WordSnoc([], Quoted('"', QuotedInner(token)));
    assert [] + Written(token, true) == Written(token, true);
    assert InnerMeaning(QuotedInner(token)) == token;
  }

  /** Printing any tokens, each quoted or escaped, and tokenizing again gives the same tokens; only an empty token
      has to be quoted. */
  lemma PrintedTokensComeBack(tokens: seq<string>, quoted: seq<bool>)
    requires |quoted| == |tokens| && forall k :: 0 <= k < |tokens| ==> tokens[k] != "" || quoted[k]
    ensures Tokenized(LineText(Printed(tokens, quoted))) == Tokens(tokens)
  {
    var l := Printed(tokens, quoted);
    forall k | 0 <= k < |tokens|
      ensures GoodItem(l.items[k]) && WordMeaning(l.items[k].word) == tokens[k]
    {
      EscapedMeaning(tokens[k]);
      QuotedMeaning(tokens[k]);
    }
    assert LineMeaning(l) == tokens;
    RenderingTokenizesToMeaning(l);
  }

  lemma {:induction false} ScanQuotedText(s: Scan, mark: char, text: string)
    requires s.quote == In(mark) && !s.escaping && s.started
    requires forall i :: 0 <= i < |text| ==> text[i] != mark && text[i] != '\\'
    ensures ScanFrom(s, text) == s.(token := s.token + text)
    decreases |text|
  {
    if text == "" {
      EmptyRight(s.token);
    } else {
      ScanUnfold(s, text);
      ScanQuotedText(s.(token := s.token + [text[0]]), mark, text[1..]);
      assert s.token + [text[0]] + text[1..] == s.token + text;
    }
  }

  lemma {:induction false} ScanBareText(s: Scan, text: string)
    requires Outside(s) && forall i :: 0 <= i < |text| ==> IsBare(text[i])
    ensures ScanFrom(s, text) == s.(token := s.token + text, started := s.started || text != "")
    decreases |text|
  {
    if text == "" {
      EmptyRight(s.token);
    } else {
      ScanUnfold(s, text);
      ScanBareText(s.(token := s.token + [text[0]], started := true), text[1..]);
      assert s.token + [text[0]] + text[1..] == s.token + text;
    }
  }

  predicate IsBare(c: char) {
    c != '\\' && c != '"' && c != '\'' && !IsSpace(c)
  }

  /** Either kind of quotes keeps what is in it together, even nothing at all; a blank, a tab or a newline ends a token.
      */
  lemma QuotesGroupAndSpacesSplit(mark: char, text: string, gap: char, word: string)
    requires mark in {'"', '\''} && gap in {' ', '\t', '\n'}
    requires forall i :: 0 <= i < |text| ==> text[i] != mark && text[i] != '\\'
    requires word != "" && forall i :: 0 <= i < |word| ==> IsBare(word[i])
    ensures Tokenized([mark] + text + [mark] + [gap] + word) == Tokens([text, word])
  {
    var open := START.(quote := In(mark), started := true);
    var closed := START.(token := text, started := true);
    ScanOne(START, mark);
    ScanQuotedText(open, mark, text);
    ScanOne(open.(token := text), mark);
    ScanOne(closed, gap);
    ScanAppend(START, [mark], text);
    ScanAppend(START, [mark] + text, [mark]);
    ScanAppend(START, [mark] + text + [mark], [gap]);
    EmptyLeft(text);
    var next := Scan([text], "", NoQuote, false, false);
    ScanBareText(next, word);
    EmptyLeft(word);
    ScanAppend(START, [mark] + text + [mark] + [gap], word);
    assert [] + [text] == [text] && [text] + [word] == [text, word];
  }
}
