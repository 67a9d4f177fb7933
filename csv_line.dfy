/**
 * The line tokenizer of the loader: a single pass over the characters with
 * two flags (inside quotes, inside an entry), a growing word and the list of
 * entries found so far. Plain and curly double quotes toggle the quote flag
 * and are never kept; a comma outside quotes closes the current word, which
 * is stored as it is; whitespace is kept only inside quotes or inside an
 * entry; after the scan a non-empty word is trimmed and stored. A doubled
 * quote is two toggles, not an escaped quote character.
 */
module CsvLine {

  predicate IsQuote(c: char) {
    c == '"' || c == '\U{201C}' || c == '\U{201D}'
  }

  /** The ASCII part of Character.isWhitespace: space, tab to carriage return, and the four separators U+001C..U+001F. */
  predicate IsWhitespace(c: char) {
    c == ' ' || '\t' <= c <= '\r' || '\U{1C}' <= c <= '\U{1F}'
  }

  predicate NoQuotes(s: string) {
    forall i :: 0 <= i < |s| ==> !IsQuote(s[i])
  }

  predicate AllWhitespace(s: string) {
    forall i :: 0 <= i < |s| ==> IsWhitespace(s[i])
  }

  /** The tokenizer's variables between two characters. */
  datatype Scanner = Scanner(insideQuotes: bool, insideEntry: bool, nextWord: string, entries: seq<string>)

  const Start := Scanner(false, false, "", [])

  /** The body of the loop for one character. */
  function Step(s: Scanner, c: char): Scanner {
    if IsQuote(c) then
      if s.insideQuotes then s.(insideQuotes := false, insideEntry := false)
      else s.(insideQuotes := true, insideEntry := true)
    else if IsWhitespace(c) then
      if s.insideQuotes || s.insideEntry then s.(nextWord := s.nextWord + [c]) else s
    else if c == ',' then
      if s.insideQuotes then s.(nextWord := s.nextWord + [c])
      else s.(insideEntry := false, entries := s.entries + [s.nextWord], nextWord := "")
    else s.(nextWord := s.nextWord + [c], insideEntry := true)
  }

  /** The loop run over text, character by character, from state s. */
  function Run(s: Scanner, text: string): Scanner
    decreases |text|
  {
    if text == [] then s else Step(Run(s, text[..|text| - 1]), text[|text| - 1])
  }

  /** Every character is a control character or a space: what String.trim removes. */
  predicate Blank(s: string) {
    forall k :: 0 <= k < |s| ==> s[k] <= ' '
  }

  /** The leading part of String.trim: characters up to ' ' are dropped from the front. */
  function TrimLeading(s: string): (r: string)
    ensures |r| <= |s|
    ensures r != [] ==> r[0] > ' '
    decreases |s|
  {
    if s != [] && s[0] <= ' ' then TrimLeading(s[1..]) else s
  }

  /** The trailing part of String.trim: characters up to ' ' are dropped from the back. */
  function TrimTrailing(s: string): (r: string)
    ensures |r| <= |s|
    ensures r != [] ==> r[|r| - 1] > ' '
    decreases |s|
  {
    if s != [] && s[|s| - 1] <= ' ' then TrimTrailing(s[..|s| - 1]) else s
  }

  /** Trimming the front removes exactly a prefix made of characters up to ' '. */
  lemma {:induction false} TrimLeadingDropsBlankPrefix(s: string)
    ensures var r := TrimLeading(s); r == s[|s| - |r|..] && Blank(s[..|s| - |r|])
    decreases |s|
  {
    if s != [] && s[0] <= ' ' {
      TrimLeadingDropsBlankPrefix(s[1..]);
      var r := TrimLeading(s);
      assert s[1..][|s| - 1 - |r|..] == s[|s| - |r|..];
      assert s[..|s| - |r|] == [s[0]] + s[1..][..|s| - 1 - |r|];
    }
  }

  /** Trimming the back removes exactly a suffix made of characters up to ' '. */
  lemma {:induction false} TrimTrailingDropsBlankSuffix(s: string)
    ensures var r := TrimTrailing(s); r == s[..|r|] && Blank(s[|r|..])
    decreases |s|
  {
    if s != [] && s[|s| - 1] <= ' ' {
      var n := |s| - 1;
      TrimTrailingDropsBlankSuffix(s[..n]);
      var r := TrimTrailing(s);
      assert s[..n][..|r|] == s[..|r|];
      assert s[|r|..] == s[..n][|r|..] + [s[n]];
    }
  }

  /** String.trim. */
  function Trim(s: string): string {
    TrimTrailing(TrimLeading(s))
  }

  /** What splitCSVLine returns for line. */
  function Split(line: string): seq<string> {
    var s := Run(Start, line);
    if s.nextWord == "" then s.entries else s.entries + [Trim(s.nextWord)]
  }

  /** splitCSVLine. */
  method SplitCSVLine(textLine: string) returns (entries: seq<string>)
    ensures entries == Split(textLine)
  {
    entries := [];
    var lineLength := |textLine|;
    var nextWord := "";
    var insideQuotes := false;
    var insideEntry := false;
    for i := 0 to lineLength
      invariant Run(Start, textLine[..i]) == Scanner(insideQuotes, insideEntry, nextWord, entries)
    {
      assert textLine[..i + 1][..i] == textLine[..i];
      var nextChar := textLine[i];
      if IsQuote(nextChar) {
        if insideQuotes {
          insideQuotes := false;
          insideEntry := false;
        } else {
          insideQuotes := true;
          insideEntry := true;
        }
      } else if IsWhitespace(nextChar) {
        if insideQuotes || insideEntry {
          nextWord := nextWord + [nextChar];
        } else {
          continue;
        }
      } else if nextChar == ',' {
        if insideQuotes {
          nextWord := nextWord + [nextChar];
        } else {
          insideEntry := false;
          entries := entries + [nextWord];
          nextWord := "";
        }
      } else {
        nextWord := nextWord + [nextChar];
        insideEntry := true;
      }
    }
    assert textLine[..lineLength] == textLine;
    if nextWord != "" {
      entries := entries + [Trim(nextWord)];
    }
  }

  // ---------------------------------------------------------------------
  // Reference counts over the characters of a line.
  // ---------------------------------------------------------------------

  /** The number of quote characters in p. */
  function QuoteCount(p: string): nat {
    if p == [] then 0
    else QuoteCount(p[..|p| - 1]) + (if IsQuote(p[|p| - 1]) then 1 else 0)
  }

  /** The commas of p that follow an even number of quote characters: those read outside quotes. */
  function SeparatorCommas(p: string): nat {
    if p == [] then 0
    else
      var q := p[..|p| - 1];
      SeparatorCommas(q) + (if p[|p| - 1] == ',' && QuoteCount(q) % 2 == 0 then 1 else 0)
  }

  /** The commas of p that follow an odd number of quote characters: those read inside quotes. */
  function QuotedCommas(p: string): nat {
    if p == [] then 0
    else
      var q := p[..|p| - 1];
      QuotedCommas(q) + (if p[|p| - 1] == ',' && QuoteCount(q) % 2 == 1 then 1 else 0)
  }

  /** The tokens written one after the other. */
  function Concat(ss: seq<string>): string {
    if ss == [] then "" else Concat(ss[..|ss| - 1]) + ss[|ss| - 1]
  }

  /** a can be obtained from b by deleting characters. */
  ghost predicate IsSubsequence(a: string, b: string)
    decreases |b|
  {
    if b == [] then a == []
    else
      || IsSubsequence(a, b[..|b| - 1])
      || (a != [] && a[|a| - 1] == b[|b| - 1] && IsSubsequence(a[..|a| - 1], b[..|b| - 1]))
  }

  // ---------------------------------------------------------------------
  // Properties of the scan.
  // ---------------------------------------------------------------------

  lemma RunAppend(s: Scanner, p: string, c: char)
    ensures Run(s, p + [c]) == Step(Run(s, p), c)
  {
    assert (p + [c])[..|p|] == p;
  }

  /** Scanning a + b is scanning a, then b from where a left off. */
  lemma {:induction false} RunConcat(s: Scanner, a: string, b: string)
    ensures Run(s, a + b) == Run(Run(s, a), b)
    decreases |b|
  {
    if b == [] {
      assert a + b == a;
    } else {
      var n := |b| - 1;
      RunConcat(s, a, b[..n]);
      assert (a + b)[..|a| + n] == a + b[..n];
    }
  }

  /** The quote flag is set exactly after an odd number of quote characters, and implies the entry flag. */
  lemma {:induction false} InsideQuotesParity(p: string)
    ensures Run(Start, p).insideQuotes <==> QuoteCount(p) % 2 == 1
    ensures Run(Start, p).insideQuotes ==> Run(Start, p).insideEntry
  {
    if p != [] {
      InsideQuotesParity(p[..|p| - 1]);
    }
  }

  /** Every comma read outside quotes closes exactly one entry. */
  lemma {:induction false} EntryCount(p: string)
    ensures |Run(Start, p).entries| == SeparatorCommas(p)
  {
    if p != [] {
      EntryCount(p[..|p| - 1]);
      InsideQuotesParity(p[..|p| - 1]);
    }
  }

  /**
   * The number of tokens is the number of commas read outside quotes, plus
   * one when the word left at the end of the scan is not empty.
   */
  lemma TokenCount(line: string)
    ensures |Split(line)| == SeparatorCommas(line) + (if Run(Start, line).nextWord != "" then 1 else 0)
  {
    EntryCount(line);
  }

  /** Every comma of the line is read either outside or inside quotes. */
  lemma {:induction false} CommasPartition(p: string)
    ensures multiset(p)[','] == SeparatorCommas(p) + QuotedCommas(p)
  {
    if p != [] {
      var q := p[..|p| - 1];
      CommasPartition(q);
      assert p == q + [p[|p| - 1]];
    }
  }

  /** Whitespace met outside quotes and outside an entry leaves the scanner as it was. */
  lemma {:induction false} WhitespaceSkipped(s: Scanner, ws: string)
    requires !s.insideQuotes && !s.insideEntry && AllWhitespace(ws)
    ensures Run(s, ws) == s
    decreases |ws|
  {
    if ws != [] {
      WhitespaceSkipped(s, ws[..|ws| - 1]);
    }
  }

  /** An empty line, or one made only of whitespace, has no tokens. */
  lemma BlankLine(line: string)
    requires AllWhitespace(line)
    ensures Split(line) == []
  {
    WhitespaceSkipped(Start, line);
  }

  /** Whitespace before the first entry is dropped. */
  lemma LeadingWhitespaceDropped(ws: string, line: string)
    requires AllWhitespace(ws)
    ensures Split(ws + line) == Split(line)
  {
    RunConcat(Start, ws, line);
    WhitespaceSkipped(Start, ws);
  }

  /** An unquoted comma leaves both flags cleared. */
  lemma CommaClearsFlags(p: string)
    requires QuoteCount(p) % 2 == 0
    ensures !Run(Start, p + [',']).insideQuotes && !Run(Start, p + [',']).insideEntry
  {
    InsideQuotesParity(p);
    RunAppend(Start, p, ',');
  }

  /** After an unquoted comma, whitespace before the next entry is dropped. */
  lemma WhitespaceAfterCommaDropped(p: string, ws: string, rest: string)
    requires QuoteCount(p) % 2 == 0 && AllWhitespace(ws)
    ensures Split(p + [','] + ws + rest) == Split(p + [','] + rest)
  {
    var q := p + [','];
    CommaClearsFlags(p);
    var s := Run(Start, q);
    assert Run(Start, q + (ws + rest)) == Run(Start, q + rest) by {
      RunConcat(Start, q, ws + rest);
      RunConcat(s, ws, rest);
      WhitespaceSkipped(s, ws);
      RunConcat(Start, q, rest);
    }
    assert q + ws + rest == q + (ws + rest);
  }

  /** A step, and so a scan, only ever appends to the entries found so far. */
  lemma {:induction false} EntriesGrow(s: Scanner, text: string)
    ensures s.entries <= Run(s, text).entries
    decreases |text|
  {
    if text != [] {
      EntriesGrow(s, text[..|text| - 1]);
    }
  }

  /** The entries closed while scanning p are the first tokens of every line that starts with p. */
  lemma {:induction false} SplitKeepsEntries(p: string, rest: string)
    ensures Run(Start, p).entries <= Split(p + rest)
  {
    RunConcat(Start, p, rest);
    EntriesGrow(Run(Start, p), rest);
  }

  /** Reading an unquoted comma closes the word as the next entry and clears both flags. */
  lemma {:induction false} ScanThroughComma(p: string)
    requires QuoteCount(p) % 2 == 0
    ensures var s := Run(Start, p);
      Run(Start, p + [',']) == Scanner(false, false, "", s.entries + [s.nextWord])
  {
    InsideQuotesParity(p);
    RunAppend(Start, p, ',');
  }

  /**
   * A comma read outside quotes stores the current word untrimmed as the next
   * token, whatever follows it; at the end of a line it adds no empty token.
   */
  lemma {:induction false} CommaClosesEntry(p: string, rest: string)
    requires QuoteCount(p) % 2 == 0
    ensures var e := Run(Start, p).entries;
      |e| < |Split(p + [','] + rest)| && Split(p + [','] + rest)[|e|] == Run(Start, p).nextWord
    ensures Split(p + [',']) == Run(Start, p).entries + [Run(Start, p).nextWord]
  {
    var e, w := Run(Start, p).entries, Run(Start, p).nextWord;
    ScanThroughComma(p);
    SplitKeepsEntries(p + [','], rest);
    assert (e + [w])[|e|] == w;
  }

  /** A second unquoted comma closes an empty word. */
  lemma {:induction false} ScanThroughTwoCommas(p: string)
    requires QuoteCount(p) % 2 == 0
    ensures var s := Run(Start, p);
      Run(Start, p + [',', ',']) == Scanner(false, false, "", s.entries + [s.nextWord, ""])
  {
    var s := Run(Start, p);
    ScanThroughComma(p);
    RunAppend(Start, p + [','], ',');
    assert p + [','] + [','] == p + [',', ','];
    assert s.entries + [s.nextWord] + [""] == s.entries + [s.nextWord, ""];
  }

  /** Two consecutive commas outside quotes produce an empty token between them, whatever follows. */
  lemma {:induction false} ConsecutiveCommas(p: string, rest: string)
    requires QuoteCount(p) % 2 == 0
    ensures var e := Run(Start, p).entries;
      && |e| + 1 < |Split(p + [',', ','] + rest)|
      && Split(p + [',', ','] + rest)[|e|] == Run(Start, p).nextWord
      && Split(p + [',', ','] + rest)[|e| + 1] == ""
    ensures Split(p + [',', ',']) == Run(Start, p).entries + [Run(Start, p).nextWord, ""]
  {
    var e, w := Run(Start, p).entries, Run(Start, p).nextWord;
    ScanThroughTwoCommas(p);
    SplitKeepsEntries(p + [',', ','], rest);
    assert (e + [w, ""])[|e|] == w && (e + [w, ""])[|e| + 1] == "";
  }

  /** The scan of a,, has closed the entries a and the empty one. */
  lemma ScanOfTwoCommas()
    ensures Run(Start, "a,,") == Scanner(false, false, "", ["a", ""])
  {
    RunAppend(Start, [], 'a');
    assert [] + ['a'] == "a";
    assert Run(Start, "a") == Scanner(false, true, "a", []);
    RunAppend(Start, "a", ',');
    assert "a" + [','] == "a,";
    assert Run(Start, "a,") == Scanner(false, false, "", ["a"]);
    RunAppend(Start, "a,", ',');
    assert "a," + [','] == "a,,";
  }

  /** For instance, a,,b has three tokens, the middle one empty. */
  lemma EmptyMiddleToken()
    ensures Split("a,,b") == ["a", "", "b"]
  {
    ScanOfTwoCommas();
    RunAppend(Start, "a,,", 'b');
    assert "a,," + ['b'] == "a,,b";
    assert Run(Start, "a,,b") == Scanner(false, true, "b", ["a", ""]);
    TrimOfLetter('b');
  }

  /** A one-letter word is left alone by String.trim. */
  lemma TrimOfLetter(c: char)
    requires c > ' '
    ensures Trim([c]) == [c]
  {
    assert TrimLeading([c]) == [c];
  }

  /** Inside quotes every character that is not a quote is appended to the word, commas and whitespace included. */
  lemma {:induction false} QuotedTextCollected(s: Scanner, f: string)
    requires s.insideQuotes && s.insideEntry && NoQuotes(f)
    ensures Run(s, f) == s.(nextWord := s.nextWord + f)
    decreases |f|
  {
    if f != [] {
      var n := |f| - 1;
      QuotedTextCollected(s, f[..n]);
      assert s.nextWord + f[..n] + [f[n]] == s.nextWord + f;
    }
  }

  /** A quoted section is added verbatim to the word; the quotes themselves are not kept. */
  lemma QuotedSectionVerbatim(s: Scanner, f: string)
    requires !s.insideQuotes && NoQuotes(f)
    ensures Run(s, ['"'] + f + ['"']) == Scanner(false, false, s.nextWord + f, s.entries)
  {
    var open := Step(s, '"');
    assert Run(s, ['"']) == open;
    RunConcat(s, ['"'], f);
    QuotedTextCollected(open, f);
    RunAppend(s, ['"'] + f, '"');
  }

  /** A line made of one quoted field with no quote inside yields that field, trimmed, or nothing when it is empty. */
  lemma QuotedLine(f: string)
    requires NoQuotes(f)
    ensures Split(['"'] + f + ['"']) == if f == "" then [] else [Trim(f)]
  {
    QuotedSectionVerbatim(Start, f);
    assert Start.nextWord + f == f;
    var s := Run(Start, ['"'] + f + ['"']);
    assert s.nextWord == f && s.entries == [];
  }

  /** String.trim leaves neither leading nor trailing characters up to ' '. */
  lemma TrimmedEnds(w: string)
    ensures var t := Trim(w); t != [] ==> t[0] > ' ' && t[|t| - 1] > ' '
  {
    var l := TrimLeading(w);
    var t := TrimTrailing(l);
    if t != [] {
      TrimTrailingDropsBlankSuffix(l);
      assert t[0] == l[0];
    }
  }

  /** Only the token left at the end of the line is trimmed. */
  lemma LastTokenTrimmed(line: string)
    requires Run(Start, line).nextWord != ""
    ensures var ts := Split(line); ts == Run(Start, line).entries + [Trim(Run(Start, line).nextWord)]
    ensures var t := Split(line)[|Split(line)| - 1]; t != [] ==> t[0] > ' ' && t[|t| - 1] > ' '
  {
    TrimmedEnds(Run(Start, line).nextWord);
  }

  /** No token holds a quote character: quotes only toggle the flags. */
  lemma {:induction false} ScannedTextHasNoQuotes(p: string)
    ensures forall k :: 0 <= k < |Run(Start, p).entries| ==> NoQuotes(Run(Start, p).entries[k])
    ensures NoQuotes(Run(Start, p).nextWord)
  {
    if p != [] {
      ScannedTextHasNoQuotes(p[..|p| - 1]);
    }
  }

  /** String.trim returns a slice of its argument; what it removes lies up to ' '. */
  lemma TrimIsSlice(w: string) returns (lo: nat, hi: nat)
    ensures lo <= hi <= |w| && Trim(w) == w[lo..hi]
    ensures Blank(w[..lo]) && Blank(w[hi..])
  {
    var l := TrimLeading(w);
    var t := TrimTrailing(l);
    TrimLeadingDropsBlankPrefix(w);
    TrimTrailingDropsBlankSuffix(l);
    lo := |w| - |l|;
    hi := lo + |t|;
    assert l == w[lo..];
    assert t == w[lo..hi] by {
      forall k | 0 <= k < |t|
        ensures t[k] == w[lo..hi][k]
      {
        assert t[k] == l[k] == w[lo + k];
      }
    }
    assert w[hi..] == l[|t|..] by {
      forall k | 0 <= k < |w| - hi
        ensures w[hi..][k] == l[|t|..][k]
      {
        assert w[hi..][k] == w[hi + k] == l[|t| + k];
      }
    }
  }

  lemma NoQuotesInTokens(line: string)
    ensures forall k :: 0 <= k < |Split(line)| ==> NoQuotes(Split(line)[k])
  {
    ScannedTextHasNoQuotes(line);
    var w := Run(Start, line).nextWord;
    var lo, hi := TrimIsSlice(w);
  }

  lemma ConcatAppend(ss: seq<string>, w: string)
    ensures Concat(ss + [w]) == Concat(ss) + w
  {
    assert (ss + [w])[..|ss|] == ss;
  }

  lemma CommasOfCons(s: string)
    requires s != []
    ensures multiset(s)[','] == (if s[0] == ',' then 1 else 0) + multiset(s[1..])[',']
  {
    assert s == [s[0]] + s[1..];
  }

  lemma {:induction false} TrimLeadingKeepsCommas(s: string)
    ensures multiset(TrimLeading(s))[','] == multiset(s)[',']
    decreases |s|
  {
    if s != [] && s[0] <= ' ' {
      TrimLeadingKeepsCommas(s[1..]);
      CommasOfCons(s);
    }
  }

  lemma {:induction false} TrimTrailingKeepsCommas(s: string)
    ensures multiset(TrimTrailing(s))[','] == multiset(s)[',']
    decreases |s|
  {
    if s != [] && s[|s| - 1] <= ' ' {
      TrimTrailingKeepsCommas(s[..|s| - 1]);
      assert s == s[..|s| - 1] + [s[|s| - 1]];
    }
  }

  /** Trimming removes only characters up to ' ', so no comma. */
  lemma TrimKeepsCommas(w: string)
    ensures multiset(Trim(w))[','] == multiset(w)[',']
  {
    TrimLeadingKeepsCommas(w);
    TrimTrailingKeepsCommas(TrimLeading(w));
  }

  /** All the text the scanner has kept: the closed entries and the current word. */
  function ScannedText(s: Scanner): string {
    Concat(s.entries) + s.nextWord
  }

  /** Whether one step keeps the character it reads. */
  predicate Keeps(s: Scanner, c: char) {
    && !IsQuote(c)
    && (IsWhitespace(c) ==> s.insideQuotes || s.insideEntry)
    && (c == ',' ==> s.insideQuotes)
  }

  /** A step appends its character to the scanned text when it keeps it, and leaves the text alone otherwise. */
  lemma StepText(s: Scanner, c: char)
    ensures ScannedText(Step(s, c)) == if Keeps(s, c) then ScannedText(s) + [c] else ScannedText(s)
  {
    if c == ',' && !s.insideQuotes {
      ConcatAppend(s.entries, s.nextWord);
    }
  }

  /** The commas held by the scanned text are exactly those read inside quotes. */
  lemma {:induction false} ScannedCommas(p: string)
    ensures multiset(ScannedText(Run(Start, p)))[','] == QuotedCommas(p)
  {
    if p != [] {
      var q := p[..|p| - 1];
      ScannedCommas(q);
      InsideQuotesParity(q);
      StepText(Run(Start, q), p[|p| - 1]);
    }
  }

  /** The tokens hold exactly as many commas as the line holds commas read inside quotes. */
  lemma CommasInTokens(line: string)
    ensures multiset(Concat(Split(line)))[','] == QuotedCommas(line)
  {
    ScannedCommas(line);
    var s := Run(Start, line);
    if s.nextWord != "" {
      ConcatAppend(s.entries, Trim(s.nextWord));
      TrimKeepsCommas(s.nextWord);
    }
  }

  lemma {:induction false} SubsequenceTransitive(a: string, b: string, c: string)
    requires IsSubsequence(a, b) && IsSubsequence(b, c)
    ensures IsSubsequence(a, c)
    decreases |c|
  {
    if c != [] {
      var c' := c[..|c| - 1];
      if IsSubsequence(b, c') {
        SubsequenceTransitive(a, b, c');
      } else {
        var b' := b[..|b| - 1];
        if IsSubsequence(a, b') {
          SubsequenceTransitive(a, b', c');
        } else {
          SubsequenceTransitive(a[..|a| - 1], b', c');
        }
      }
    }
  }

  lemma {:induction false} SubsequenceReflexive(a: string)
    ensures IsSubsequence(a, a)
    decreases |a|
  {
    if a != [] {
      SubsequenceReflexive(a[..|a| - 1]);
    }
  }

  lemma {:induction false} SubsequenceLength(a: string, b: string)
    requires IsSubsequence(a, b)
    ensures |a| <= |b|
    decreases |b|
  {
    if b != [] {
      if IsSubsequence(a, b[..|b| - 1]) {
        SubsequenceLength(a, b[..|b| - 1]);
      } else {
        SubsequenceLength(a[..|a| - 1], b[..|b| - 1]);
      }
    }
  }

  /** Adding characters in front of the longer string keeps the relation. */
  lemma {:induction false} SubsequencePrependRight(z: string, a: string, b: string)
    requires IsSubsequence(a, b)
    ensures IsSubsequence(a, z + b)
    decreases |b|
  {
    if b == [] {
      SubsequenceOfEmpty(z);
      assert z + b == z;
    } else {
      var n := |b| - 1;
      assert (z + b)[..|z| + n] == z + b[..n];
      if IsSubsequence(a, b[..n]) {
        SubsequencePrependRight(z, a, b[..n]);
      } else {
        SubsequencePrependRight(z, a[..|a| - 1], b[..n]);
      }
    }
  }

  lemma {:induction false} SubsequenceOfEmpty(z: string)
    ensures IsSubsequence([], z)
    decreases |z|
  {
    if z != [] {
      SubsequenceOfEmpty(z[..|z| - 1]);
    }
  }

  /** Adding characters at the end of the longer string keeps the relation. */
  lemma {:induction false} SubsequenceAppendRight(a: string, b: string, z: string)
    requires IsSubsequence(a, b)
    ensures IsSubsequence(a, b + z)
    decreases |z|
  {
    if z != [] {
      var n := |z| - 1;
      SubsequenceAppendRight(a, b, z[..n]);
      assert (b + z)[..|b| + n] == b + z[..n];
    } else {
      assert b + z == b;
    }
  }

  /** A common prefix can be added to both strings. */
  lemma {:induction false} SubsequencePrependBoth(z: string, a: string, b: string)
    requires IsSubsequence(a, b)
    ensures IsSubsequence(z + a, z + b)
    decreases |b|
  {
    if b == [] {
      SubsequenceReflexive(z);
      assert z + a == z && z + b == z;
    } else {
      var n := |b| - 1;
      assert (z + b)[..|z| + n] == z + b[..n];
      if IsSubsequence(a, b[..n]) {
        SubsequencePrependBoth(z, a, b[..n]);
      } else {
        SubsequencePrependBoth(z, a[..|a| - 1], b[..n]);
        assert (z + a)[..|z| + |a| - 1] == z + a[..|a| - 1];
      }
    }
  }

  lemma {:induction false} TrimLeadingIsSubsequence(s: string)
    ensures IsSubsequence(TrimLeading(s), s)
    decreases |s|
  {
    if s != [] && s[0] <= ' ' {
      TrimLeadingIsSubsequence(s[1..]);
      SubsequencePrependRight([s[0]], TrimLeading(s[1..]), s[1..]);
      assert [s[0]] + s[1..] == s;
    } else {
      SubsequenceReflexive(s);
    }
  }

  lemma {:induction false} TrimTrailingIsSubsequence(s: string)
    ensures IsSubsequence(TrimTrailing(s), s)
    decreases |s|
  {
    if s != [] && s[|s| - 1] <= ' ' {
      TrimTrailingIsSubsequence(s[..|s| - 1]);
    } else {
      SubsequenceReflexive(s);
    }
  }

  lemma TrimIsSubsequence(w: string)
    ensures IsSubsequence(Trim(w), w)
  {
    TrimLeadingIsSubsequence(w);
    TrimTrailingIsSubsequence(TrimLeading(w));
    SubsequenceTransitive(Trim(w), TrimLeading(w), w);
  }

  /** The scanned text is the line with some characters (quotes, skipped whitespace) deleted. */
  lemma {:induction false} ScannedTextIsSubsequence(p: string)
    ensures IsSubsequence(ScannedText(Run(Start, p)), p)
  {
    if p != [] {
      var q := p[..|p| - 1];
      var c := p[|p| - 1];
      ScannedTextIsSubsequence(q);
      var x := ScannedText(Run(Start, q));
      StepText(Run(Start, q), c);
      if Keeps(Run(Start, q), c) {
        assert (x + [c])[..|x|] == x;
      }
    }
  }

  /** The characters of the tokens appear, in order, in the line; so they are no longer than the line. */
  lemma TokensAreSubsequence(line: string)
    ensures IsSubsequence(Concat(Split(line)), line)
    ensures |Concat(Split(line))| <= |line|
  {
    ScannedTextIsSubsequence(line);
    var s := Run(Start, line);
    var c := Concat(s.entries);
    if s.nextWord != "" {
      ConcatAppend(s.entries, Trim(s.nextWord));
      TrimIsSubsequence(s.nextWord);
      SubsequencePrependBoth(c, Trim(s.nextWord), s.nextWord);
      SubsequenceTransitive(c + Trim(s.nextWord), c + s.nextWord, line);
    } else {
      assert c + s.nextWord == c;
    }
    SubsequenceLength(Concat(Split(line)), line);
  }
}
