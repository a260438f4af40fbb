/** The card parser of `parseCSVContent` (app.js:154-175): text is cut into
    lines, each non-blank line is matched once against the two-field pattern
    `("(?:[^"]|"")*"|[^,]*),("(?:[^"]|"")*"|[^,]*)`, and each field is
    unquoted, un-escaped and trimmed. A line yields a card only when both
    fields are non-empty afterwards. */
module Csv {
  import opened Wrappers
  import opened Text

  /** The `{ question, answer }` record the parser pushes for one line. */
  datatype Row = Row(question: string, answer: string)

  /** What every emitted row satisfies: both sides non-empty and trimmed. */
  predicate WellFormed(r: Row) {
    r.question != [] && r.answer != [] && Trimmed(r.question) && Trimmed(r.answer)
  }

  /** The first position of `c` in `s`. */
  function IndexOf(s: string, c: char): (k: nat)
    requires c in s
    ensures k < |s| && s[k] == c && c !in s[..k]
  {
    if s[0] == c then 0
    else
      var k := 1 + IndexOf(s[1..], c);
      assert s[..k] == [s[0]] + s[1..][..k - 1];
      k
  }

  // ---------------------------------------------------------------------
  // Lines: `content.split(/\r?\n/)`
  // ---------------------------------------------------------------------

  /** A line ended by "\r\n" loses the carriage return with the separator. */
  function DropCR(s: string): string {
    if |s| > 0 && s[|s| - 1] == '\r' then s[..|s| - 1] else s
  }

  /** The pieces between the line breaks, in order. */
  function Lines(s: string): (ls: seq<string>)
    ensures |ls| >= 1
    ensures '\n' !in s ==> ls == [s]
    ensures forall i :: 0 <= i < |ls| ==> '\n' !in ls[i]
    decreases |s|
  {
    if '\n' !in s then [s]
    else
      var k := IndexOf(s, '\n');
      assert '\n' !in DropCR(s[..k]);
      [DropCR(s[..k])] + Lines(s[k + 1..])
  }

  /** An input with k line feeds gives k + 1 pieces (a trailing break gives
      a final empty piece). */
  lemma {:induction false} LinesCount(s: string)
    ensures |Lines(s)| == multiset(s)['\n'] + 1
    decreases |s|
  {
    if '\n' in s {
      var k := IndexOf(s, '\n');
      assert s == s[..k] + [s[k]] + s[k + 1..];
      assert multiset(s) == multiset(s[..k]) + multiset([s[k]]) + multiset(s[k + 1..]);
      LinesCount(s[k + 1..]);
    }
  }

  // ---------------------------------------------------------------------
  // Quoted runs: `"(?:[^"]|"")*"`
  // ---------------------------------------------------------------------

  /** The body of a quoted run: a concatenation of non-quote characters and
      doubled quotes `""` (read here from its last token). */
  predicate Escaped(t: string)
    decreases |t|
  {
    t == []
    || (t[|t| - 1] != '"' && Escaped(t[..|t| - 1]))
    || (|t| >= 2 && t[|t| - 2] == '"' && t[|t| - 1] == '"' && Escaped(t[..|t| - 2]))
  }

  /** `f` is a whole quoted run: an opening quote, an escaped body, a closing quote. */
  predicate IsQuoted(f: string) {
    |f| >= 2 && f[0] == '"' && f[|f| - 1] == '"' && Escaped(f[1..|f| - 1])
  }

  /** In `t`, the text after an opening quote, a closing quote may stand at `p`. */
  predicate ClosesAt(t: string, p: nat) {
    p < |t| && t[p] == '"' && Escaped(t[..p])
  }

  /** The number of quotes at the end of `t`. */
  function TrailingQuotes(t: string): nat
    decreases |t|
  {
    if |t| > 0 && t[|t| - 1] == '"' then 1 + TrailingQuotes(t[..|t| - 1]) else 0
  }

  /** Quotes in an escaped body come in pairs, so it ends in an even number of them. */
  lemma {:induction false} EscapedTrailingEven(t: string)
    requires Escaped(t)
    ensures TrailingQuotes(t) % 2 == 0
    decreases |t|
  {
    if t == [] {
    } else if t[|t| - 1] != '"' {
    } else {
      var u := t[..|t| - 2];
      assert t[..|t| - 1][..|t| - 2] == u;
      EscapedTrailingEven(u);
    }
  }

  /** Cutting an escaped body just before a non-quote character leaves an escaped body. */
  lemma {:induction false} EscapedCut(t: string, i: nat)
    requires Escaped(t) && i < |t| && t[i] != '"'
    ensures Escaped(t[..i])
    decreases |t|
  {
    if i == |t| - 1 {
    } else if t[|t| - 1] != '"' {
      assert t[..|t| - 1][..i] == t[..i];
      EscapedCut(t[..|t| - 1], i);
    } else {
      assert t[..|t| - 2][..i] == t[..i];
      EscapedCut(t[..|t| - 2], i);
    }
  }

  /** A quote that a closing quote could take, followed by anything but a
      second quote, ends every escaped prefix: none reaches past it. */
  lemma {:induction false} NoEscapedPast(t: string, j: nat, q: nat)
    requires ClosesAt(t, j) && j < q <= |t|
    requires q > j + 1 ==> t[j + 1] != '"'
    ensures !Escaped(t[..q])
  {
    var u := t[..j + 1];
    assert u[..j] == t[..j];
    EscapedTrailingEven(t[..j]);
    assert TrailingQuotes(u) == 1 + TrailingQuotes(t[..j]);
    if Escaped(u) {
      EscapedTrailingEven(u);
    }
    if q > j + 1 && Escaped(t[..q]) {
      assert t[..q][..j + 1] == u;
      EscapedCut(t[..q], j + 1);
    }
  }

  /** The greedy scan of a quoted body from position `k`, as a backtracking
      matcher runs it. `last` is the closest earlier position where a closing
      quote could stand (the start of a doubled quote). A lone quote ends the
      scan; the end of the text falls back on `last`. */
  function Scan(t: string, k: nat, last: Option<nat>): (r: Option<nat>)
    requires k <= |t|
    decreases |t| - k
  {
    if k == |t| then last
    else if t[k] != '"' then Scan(t, k + 1, last)
    else if k + 1 < |t| && t[k + 1] == '"' then Scan(t, k + 2, Some(k))
    else Some(k)
  }

  /** The closing quote of the longest quoted run whose body starts `t`. */
  function Closing(t: string): Option<nat> {
    Scan(t, 0, None)
  }

  lemma {:induction false} ScanCorrect(t: string, k: nat, last: Option<nat>)
    requires k <= |t| && Escaped(t[..k])
    requires last.Some? ==> last.value < k && ClosesAt(t, last.value)
    requires forall p :: (if last.Some? then last.value < p else 0 <= p) && p < k ==> !ClosesAt(t, p)
    ensures var r := Scan(t, k, last);
      && (r.Some? ==> ClosesAt(t, r.value) && forall p :: r.value < p ==> !ClosesAt(t, p))
      && (r.None? ==> forall p :: !ClosesAt(t, p))
    decreases |t| - k
  {
    if k == |t| {
    } else if t[k] != '"' {
      assert t[..k + 1][..k] == t[..k];
      ScanCorrect(t, k + 1, last);
    } else if k + 1 < |t| && t[k + 1] == '"' {
      assert t[..k + 2][..k] == t[..k];
      forall p | k < p < k + 2 ensures !ClosesAt(t, p) {
        NoEscapedPast(t, k, p);
      }
      ScanCorrect(t, k + 2, Some(k));
    } else {
      forall p | k < p ensures !ClosesAt(t, p) {
        if p < |t| { NoEscapedPast(t, k, p); }
      }
    }
  }

  /** `Closing` finds the greatest closing position, and finds one whenever
      some exists. */
  lemma {:induction false} ClosingCorrect(t: string)
    ensures Closing(t).Some? ==> ClosesAt(t, Closing(t).value)
    ensures Closing(t).Some? ==> forall p :: Closing(t).value < p ==> !ClosesAt(t, p)
    ensures Closing(t).None? ==> forall p :: !ClosesAt(t, p)
  {
    ScanCorrect(t, 0, None);
  }

  /** A quoted run `line[s..e]` is the same as a closing quote at `e - s - 2`
      in the text after the opening quote. */
  lemma {:induction false} QuotedRunAt(line: string, s: nat, e: nat)
    requires s < e <= |line| && line[s] == '"'
    ensures IsQuoted(line[s..e]) <==> e >= s + 2 && ClosesAt(line[s + 1..], e - s - 2)
  {
    if e >= s + 2 {
      var f, g := line[s..e][1..e - s - 1], line[s + 1..][..e - s - 2];
      assert |f| == |g|;
      assert forall i :: 0 <= i < |f| ==> f[i] == line[s + 1 + i] == g[i];
      assert f == g;
      assert line[s..e][e - s - 1] == line[e - 1] == line[s + 1..][e - s - 2];
    }
  }

  // ---------------------------------------------------------------------
  // The two fields of a line
  // ---------------------------------------------------------------------

  /** The first alternative of the first group succeeds with `line[..e]`:
      a quoted run immediately followed by the separating comma. */
  predicate QuotedBeforeComma(line: string, e: nat) {
    e < |line| && IsQuoted(line[..e]) && line[e] == ','
  }

  /** Where the first field ends (the index of its separating comma): after
      a quoted run when one is followed by a comma, else at the first comma. */
  function FirstFieldEnd(line: string): (e: nat)
    requires ',' in line
    ensures e < |line| && line[e] == ','
    ensures QuotedBeforeComma(line, e) || e == IndexOf(line, ',')
  {
    var c := Closing(line[1..]);
    if line[0] == '"' && c.Some? && c.value + 2 < |line| && line[c.value + 2] == ',' then
      ClosingCorrect(line[1..]);
      QuotedRunAt(line, 0, c.value + 2);
      c.value + 2
    else
      IndexOf(line, ',')
  }

  /** Where the second field, starting at `s`, ends: after the longest
      quoted run starting there, else at the next comma or the end. */
  function SecondFieldEnd(line: string, s: nat): (e: nat)
    requires s <= |line|
    ensures s <= e <= |line|
  {
    if s < |line| && line[s] == '"' && Closing(line[s + 1..]).Some? then
      ClosingCorrect(line[s + 1..]);
      s + Closing(line[s + 1..]).value + 2
    else if ',' in line[s..] then s + IndexOf(line[s..], ',')
    else |line|
  }

  /** The two captured groups of the match, or None when the pattern does
      not match. The pattern needs a comma and, when the line has one, already
      matches from position 0, so an unanchored search starts there. */
  function Fields(line: string): (r: Option<(string, string)>)
    ensures r.Some? <==> ',' in line
  {
    if ',' !in line then None
    else
      var e := FirstFieldEnd(line);
      var e2 := SecondFieldEnd(line, e + 1);
      Some((line[..e], line[e + 1..e2]))
  }

  /** The regex's first group: when a quoted run is followed by a comma, the
      first field is that run (there is never more than one). */
  lemma {:induction false} FirstFieldQuoted(line: string, e: nat)
    requires QuotedBeforeComma(line, e)
    ensures FirstFieldEnd(line) == e
  {
    var t := line[1..];
    assert line[..e][0] == '"';
    QuotedRunAt(line, 0, e);
    ClosingCorrect(t);
    var c := Closing(t).value;
    if c > e - 2 {
      assert t[e - 1] == ',';
      NoEscapedPast(t, e - 2, c);
      assert false;
    }
  }

  /** ... and when no quoted run is followed by a comma, the first field is
      the text before the first comma. */
  lemma {:induction false} FirstFieldUnquoted(line: string)
    requires ',' in line
    requires forall e :: !QuotedBeforeComma(line, e)
    ensures FirstFieldEnd(line) == IndexOf(line, ',')
  {
  }

  /** The regex's second group: when a quoted run starts at `s`, the field
      is the longest one there. */
  lemma {:induction false} SecondFieldQuoted(line: string, s: nat, e: nat)
    requires s < e <= |line| && IsQuoted(line[s..e])
    ensures IsQuoted(line[s..SecondFieldEnd(line, s)])
    ensures forall e' :: SecondFieldEnd(line, s) < e' <= |line| ==> !IsQuoted(line[s..e'])
  {
    var t := line[s + 1..];
    assert line[s..e][0] == '"';
    QuotedRunAt(line, s, e);
    ClosingCorrect(t);
    var f := SecondFieldEnd(line, s);
    QuotedRunAt(line, s, f);
    forall e' | f < e' <= |line| ensures !IsQuoted(line[s..e']) {
      QuotedRunAt(line, s, e');
    }
  }

  /** ... and when none does, it runs to the next comma or the end of the line. */
  lemma {:induction false} SecondFieldUnquoted(line: string, s: nat)
    requires s <= |line|
    requires forall e :: s < e <= |line| ==> !IsQuoted(line[s..e])
    ensures var f := SecondFieldEnd(line, s);
      ',' !in line[s..f] && (f == |line| || line[f] == ',')
  {
    if s < |line| && line[s] == '"' && Closing(line[s + 1..]).Some? {
      ClosingCorrect(line[s + 1..]);
      var e := s + Closing(line[s + 1..]).value + 2;
      QuotedRunAt(line, s, e);
      assert false;
    } else if ',' in line[s..] {
      var k := IndexOf(line[s..], ',');
      assert line[s..s + k] == line[s..][..k];
    } else {
      assert line[s..|line|] == line[s..];
    }
  }

  // ---------------------------------------------------------------------
  // Cleaning a field and parsing
  // ---------------------------------------------------------------------

  /** `replace(/^"|"$/g, '')`: one leading and one trailing quote, each on its own. */
  function StripQuotes(f: string): (r: string)
    ensures var a := if |f| > 0 && f[0] == '"' then 1 else 0;
            var b := if |f| > a && f[|f| - 1] == '"' then 1 else 0;
            r == f[a..|f| - b]
  {
    var t := if |f| > 0 && f[0] == '"' then f[1..] else f;
    if |t| > 0 && t[|t| - 1] == '"' then t[..|t| - 1] else t
  }

  /** `replace(/""/g, '"')`: doubled quotes, left to right, become one.
      Only quotes are dropped: every other character is kept as often as
      it occurs. */
  function Unescape(s: string): (r: string)
    ensures |r| <= |s|
    ensures forall c :: c != '"' ==> multiset(r)[c] == multiset(s)[c]
    decreases |s|
  {
    assert |s| >= 2 ==> s == [s[0]] + ([s[1]] + s[2..]);
    assert s != [] ==> s == [s[0]] + s[1..];
    if |s| >= 2 && s[0] == '"' && s[1] == '"' then ['"'] + Unescape(s[2..])
    else if s == [] then []
    else [s[0]] + Unescape(s[1..])
  }

  /** The three cleaning steps of app.js:165-166. */
  function Clean(f: string): (r: string)
    ensures Trimmed(r)
  {
    Trim(Unescape(StripQuotes(f)))
  }

  /** One line: blank lines and lines the pattern does not match give
      nothing; otherwise a row when both cleaned fields are non-empty. */
  function ParseLine(line: string): (r: Option<Row>)
    ensures r.Some? ==> WellFormed(r.value)
    ensures r.Some? ==> ',' in line && !AllSpace(line)
  {
    if Trim(line) == [] then None
    else match Fields(line)
      case None => None
      case Some((f1, f2)) =>
        var q := Clean(f1);
        var a := Clean(f2);
        if q != [] && a != [] then Some(Row(q, a)) else None
  }

  /** Every row has a non-empty, trimmed question and answer. */
  predicate AllWellFormed(rows: seq<Row>) {
    forall i :: 0 <= i < |rows| ==> WellFormed(rows[i])
  }

  lemma {:induction false} ConsWellFormed(r: Row, rest: seq<Row>)
    requires WellFormed(r) && AllWellFormed(rest)
    ensures AllWellFormed([r] + rest)
  {
    assert forall i :: 1 <= i <= |rest| ==> ([r] + rest)[i] == rest[i - 1];
  }

  /** The rows of the lines, in order. */
  function ParseLines(ls: seq<string>): (rows: seq<Row>)
    ensures |rows| <= |ls|
    ensures AllWellFormed(rows)
  {
    if ls == [] then []
    else
      var rest := ParseLines(ls[1..]);
      match ParseLine(ls[0])
      case Some(r) =>
        ConsWellFormed(r, rest);
        [r] + rest
      case None => rest
  }

  /** `parseCSVContent`: total, it never fails, and every card it returns
      has a non-empty, trimmed question and answer. */
  function Parse(content: string): (rows: seq<Row>)
    ensures AllWellFormed(rows)
  {
    ParseLines(Lines(content))
  }

  /** At most one card per line: no more cards than line feeds plus one. */
  lemma CardsAtMostLines(content: string)
    ensures |Parse(content)| <= multiset(content)['\n'] + 1
  {
    LinesCount(content);
  }

  // ---------------------------------------------------------------------
  // Properties of the parser
  // ---------------------------------------------------------------------

  /** A line with no comma and a blank or white-space-only line give no card. */
  lemma {:induction false} NoCommaNoCard(line: string)
    requires ',' !in line || AllSpace(line)
    ensures ParseLine(line) == None
  {
  }

  /** Stripping and un-escaping leave a quote-free field as it is. */
  lemma {:induction false} CleanQuoteFree(f: string)
    requires '"' !in f
    ensures Clean(f) == Trim(f)
  {
    assert StripQuotes(f) == f by {
      if f != [] { assert f[0] != '"' && f[|f| - 1] != '"'; }
    }
    UnescapeQuoteFree(f);
  }

  /** A lone quote at either end of a field is dropped on its own, even
      when the field is not a quoted run. */
  lemma CleanLoneQuote(x: string)
    requires '"' !in x
    ensures Clean(['"'] + x) == Trim(x)
    ensures Clean(x + ['"']) == Trim(x)
  {
    StripLoneQuote(x);
    UnescapeQuoteFree(x);
  }

  lemma StripLoneQuote(x: string)
    requires '"' !in x
    ensures StripQuotes(['"'] + x) == x
    ensures StripQuotes(x + ['"']) == x
  {
    assert x != [] ==> (['"'] + x)[|x|] == x[|x| - 1];
    assert (['"'] + x)[1..] == x;
    assert x != [] ==> (x + ['"'])[0] == x[0];
    assert (x + ['"'])[..|x|] == x;
  }

  /** A quote that does not start a doubled pair is kept as it is. */
  lemma {:induction false} UnescapeLoneQuote(x: string, y: string)
    requires '"' !in x && (y == [] || y[0] != '"')
    ensures Unescape(x + "\"" + y) == x + "\"" + Unescape(y)
    decreases |x|
  {
    var s := x + "\"" + y;
    if x == [] {
      assert s == "\"" + y;
      assert s[1..] == y;
      assert !(|s| >= 2 && s[1] == '"');
      assert Unescape(s) == ['"'] + Unescape(y);
    } else {
      assert s[0] == x[0] && s[0] != '"';
      assert s[1..] == x[1..] + "\"" + y;
      assert Unescape(s) == [x[0]] + Unescape(s[1..]);
      UnescapeLoneQuote(x[1..], y);
      assert x == [x[0]] + x[1..];
    }
  }

  /** A doubled quote becomes one quote. */
  lemma {:induction false} UnescapeDoubled(x: string, y: string)
    requires '"' !in x
    ensures Unescape(x + "\"\"" + y) == x + "\"" + Unescape(y)
    decreases |x|
  {
    var s := x + "\"\"" + y;
    if x == [] {
      assert s == "\"\"" + y;
      assert s[2..] == y;
    } else {
      assert s[0] == x[0];
      assert s[1..] == x[1..] + "\"\"" + y;
      UnescapeDoubled(x[1..], y);
      assert x == [x[0]] + x[1..];
    }
  }

  lemma {:induction false} UnescapeQuoteFree(f: string)
    requires '"' !in f
    ensures Unescape(f) == f
    decreases |f|
  {
    if f != [] {
      assert '"' !in f[1..];
      UnescapeQuoteFree(f[1..]);
    }
  }

  /** The text between the first comma and the next one (or the end). */
  function SecondColumn(line: string): string
    requires ',' in line
  {
    var rest := line[IndexOf(line, ',') + 1..];
    if ',' in rest then rest[..IndexOf(rest, ',')] else rest
  }

  /** On a line without quotes the pattern captures the text before the
      first comma and the text up to the second comma (or the end). */
  lemma {:induction false} QuoteFreeFields(line: string)
    requires '"' !in line && ',' in line
    ensures Fields(line) == Some((line[..IndexOf(line, ',')], SecondColumn(line)))
  {
    QuoteFreeFirstEnd(line);
    QuoteFreeSecondEnd(line, IndexOf(line, ',') + 1);
  }

  lemma {:induction false} QuoteFreeFirstEnd(line: string)
    requires '"' !in line && ',' in line
    ensures FirstFieldEnd(line) == IndexOf(line, ',')
  {
    assert line[0] != '"';
  }

  lemma {:induction false} QuoteFreeSecondEnd(line: string, s: nat)
    requires '"' !in line && s <= |line|
    ensures line[s..SecondFieldEnd(line, s)]
            == (var rest := line[s..]; if ',' in rest then rest[..IndexOf(rest, ',')] else rest)
  {
    var rest := line[s..];
    if s < |line| {
      assert line[s] != '"';
    }
    if ',' in rest {
      var k := IndexOf(rest, ',');
      assert line[s..s + k] == rest[..k];
    } else {
      assert line[s..|line|] == rest;
    }
  }

  lemma {:induction false} QuoteFreeSlice(s: string, i: nat, j: nat)
    requires '"' !in s && i <= j <= |s|
    ensures '"' !in s[i..j]
  {
    assert forall k :: 0 <= k < j - i ==> s[i..j][k] == s[i + k];
  }

  /** A line with a comma is not blank. */
  lemma {:induction false} CommaNotBlank(line: string)
    requires ',' in line
    ensures Trim(line) != []
  {
    assert line[IndexOf(line, ',')] == ',' && !IsSpace(',');
  }

  /** Cleaning leaves only the trimming to do on the columns of a quote-free line. */
  lemma {:induction false} QuoteFreeColumns(line: string)
    requires '"' !in line && ',' in line
    ensures Clean(line[..IndexOf(line, ',')]) == Trim(line[..IndexOf(line, ',')])
    ensures Clean(SecondColumn(line)) == Trim(SecondColumn(line))
  {
    var c := IndexOf(line, ',');
    QuoteFreeSlice(line, 0, c);
    assert line[0..c] == line[..c];
    SecondColumnQuoteFree(line);
    CleanQuoteFree(line[..c]);
    CleanQuoteFree(SecondColumn(line));
  }

  lemma {:induction false} SecondColumnQuoteFree(line: string)
    requires '"' !in line && ',' in line
    ensures '"' !in SecondColumn(line)
  {
    var c := IndexOf(line, ',');
    var rest := line[c + 1..];
    QuoteFreeSlice(line, c + 1, |line|);
    assert line[c + 1..|line|] == rest;
    if ',' in rest {
      QuoteFreeSlice(rest, 0, IndexOf(rest, ','));
      assert rest[0..IndexOf(rest, ',')] == rest[..IndexOf(rest, ',')];
    }
  }

  /** Only two fields are read: a quote-free line gives the trimmed first
      and second columns, when neither is blank, and columns after the
      second are dropped (`a,b,c` gives the answer `b`). */
  lemma {:induction false} QuoteFreeLine(line: string)
    requires '"' !in line && ',' in line
    ensures var first, second := line[..IndexOf(line, ',')], SecondColumn(line);
      ParseLine(line) == (if Trim(first) != [] && Trim(second) != []
                          then Some(Row(Trim(first), Trim(second))) else None)
  {
    var first, second := line[..IndexOf(line, ',')], SecondColumn(line);
    QuoteFreeFields(line);
    QuoteFreeColumns(line);
    CommaNotBlank(line);
    ParseLineOfFields(line, first, second);
  }

  /** `ParseLine` on a non-blank line whose fields are known. */
  lemma {:induction false} ParseLineOfFields(line: string, f1: string, f2: string)
    requires Trim(line) != [] && Fields(line) == Some((f1, f2))
    ensures ParseLine(line) == (if Clean(f1) != [] && Clean(f2) != []
                                then Some(Row(Clean(f1), Clean(f2))) else None)
  {
  }

  // ---------------------------------------------------------------------
  // Writing rows out and reading them back (section 2 of RFC 4180)
  // ---------------------------------------------------------------------

  /** Doubling every quote, the escape that `Unescape` undoes. */
  function Escape(s: string): string
    decreases |s|
  {
    if s == [] then []
    else (if s[0] == '"' then "\"\"" else [s[0]]) + Escape(s[1..])
  }

  /** A quoted field. */
  function Quote(s: string): string {
    "\"" + Escape(s) + "\""
  }

  /** A row as one line of two quoted fields. */
  function Render(r: Row): string {
    Quote(r.question) + "," + Quote(r.answer)
  }

  /** Rows as a file, one line each. */
  function Serialize(rows: seq<Row>): string {
    if rows == [] then []
    else if |rows| == 1 then Render(rows[0])
    else Render(rows[0]) + "\n" + Serialize(rows[1..])
  }

  lemma {:induction false} EscapedConcat(u: string, v: string)
    requires Escaped(u) && Escaped(v)
    ensures Escaped(u + v)
    decreases |v|
  {
    if v == [] {
      assert u + v == u;
    } else if v[|v| - 1] != '"' {
      EscapedConcat(u, v[..|v| - 1]);
      assert (u + v)[..|u + v| - 1] == u + v[..|v| - 1];
    } else {
      EscapedConcat(u, v[..|v| - 2]);
      assert (u + v)[..|u + v| - 2] == u + v[..|v| - 2];
    }
  }

  lemma {:induction false} EscapeEscaped(s: string)
    ensures Escaped(Escape(s))
    decreases |s|
  {
    if s != [] {
      var head := if s[0] == '"' then "\"\"" else [s[0]];
      assert Escaped(head) by {
        assert head[..|head| - |head|] == [];
      }
      EscapeEscaped(s[1..]);
      EscapedConcat(head, Escape(s[1..]));
    }
  }

  /** Text without quotes is a valid body. */
  lemma {:induction false} EscapedQuoteFree(t: string)
    requires '"' !in t
    ensures Escaped(t)
    decreases |t|
  {
    if t != [] {
      assert t[|t| - 1] != '"';
      QuoteFreeSlice(t, 0, |t| - 1);
      EscapedQuoteFree(t[..|t| - 1]);
    }
  }

  /** Escaping leaves text without quotes as it is. */
  lemma {:induction false} EscapeQuoteFree(s: string)
    requires '"' !in s
    ensures Escape(s) == s
    decreases |s|
  {
    if s != [] {
      assert '"' !in s[1..];
      EscapeQuoteFree(s[1..]);
    }
  }

  /** Un-escaping undoes escaping. */
  lemma {:induction false} UnescapeEscape(s: string)
    ensures Unescape(Escape(s)) == s
    decreases |s|
  {
    if s != [] {
      UnescapeEscape(s[1..]);
      var e := Escape(s);
      if s[0] == '"' {
        assert e[2..] == Escape(s[1..]);
      } else {
        assert e[1..] == Escape(s[1..]);
      }
      assert s == [s[0]] + s[1..];
    }
  }

  lemma {:induction false} EscapeNoNewline(s: string)
    requires '\n' !in s
    ensures '\n' !in Escape(s)
    decreases |s|
  {
    if s != [] {
      assert '\n' !in s[1..];
      EscapeNoNewline(s[1..]);
    }
  }

  /** The cleaning steps recover a trimmed text from its quoted field. */
  lemma {:induction false} CleanQuote(s: string)
    requires Trimmed(s)
    ensures Clean(Quote(s)) == s
  {
    var q := Quote(s);
    assert StripQuotes(q) == Escape(s) by {
      assert q[1..] == Escape(s) + "\"";
      assert (Escape(s) + "\"")[..|Escape(s)|] == Escape(s);
    }
    UnescapeEscape(s);
    TrimTrimmed(s);
  }

  lemma {:induction false} QuoteIsQuoted(s: string)
    ensures IsQuoted(Quote(s))
  {
    var q := Quote(s);
    assert q[1..|q| - 1] == Escape(s);
    EscapeEscaped(s);
  }

  /** Two quoted runs joined by a comma: the first group takes the first run. */
  lemma {:induction false} FirstOfQuotedPair(x: string, y: string)
    requires IsQuoted(x)
    ensures FirstFieldEnd(x + "," + y) == |x|
  {
    var line := x + "," + y;
    assert line[..|x|] == x;
    assert line[|x|] == ',';
    assert QuotedBeforeComma(line, |x|);
    FirstFieldQuoted(line, |x|);
  }

  /** ... and the second group takes the second run, to the end of the line. */
  lemma {:induction false} SecondOfQuotedPair(x: string, y: string)
    requires IsQuoted(y)
    ensures SecondFieldEnd(x + "," + y, |x| + 1) == |x + "," + y|
  {
    var line := x + "," + y;
    assert line[|x| + 1..|line|] == y;
    SecondFieldQuoted(line, |x| + 1, |line|);
  }

  /** The pattern captures exactly the two quoted fields of a line made of
      two quoted runs, whatever commas and doubled quotes they hold. */
  lemma {:induction false} FieldsOfQuotedPair(x: string, y: string)
    requires IsQuoted(x) && IsQuoted(y)
    ensures Fields(x + "," + y) == Some((x, y))
  {
    FirstOfQuotedPair(x, y);
    SecondOfQuotedPair(x, y);
    FieldsOfPair(x, y);
  }

  /** Fields split at the comma after `x` and ending with the line. */
  lemma {:induction false} FieldsOfPair(x: string, y: string)
    requires FirstFieldEnd(x + "," + y) == |x|
    requires SecondFieldEnd(x + "," + y, |x| + 1) == |x + "," + y|
    ensures Fields(x + "," + y) == Some((x, y))
  {
    var line := x + "," + y;
    assert line[|x|] == ',';
    assert line[..|x|] == x;
    assert line[|x| + 1..|line|] == y;
  }

  /** Each well-formed row survives being written as a line and parsed. */
  lemma {:induction false} ParseLineRender(r: Row)
    requires WellFormed(r)
    ensures ParseLine(Render(r)) == Some(r)
  {
    QuoteIsQuoted(r.question);
    QuoteIsQuoted(r.answer);
    FieldsOfQuotedPair(Quote(r.question), Quote(r.answer));
    CleanQuote(r.question);
    CleanQuote(r.answer);
    var line := Render(r);
    assert line[|Quote(r.question)|] == ',';
    CommaNotBlank(line);
    ParseLineOfFields(line, Quote(r.question), Quote(r.answer));
  }

  lemma {:induction false} RenderNoNewline(r: Row)
    requires '\n' !in r.question && '\n' !in r.answer
    ensures '\n' !in Render(r)
  {
    EscapeNoNewline(r.question);
    EscapeNoNewline(r.answer);
  }

  /** A line feed after a line that does not end in a carriage return
      separates that line from the rest. */
  lemma {:induction false} LinesCons(x: string, rest: string)
    requires '\n' !in x && (x == [] || x[|x| - 1] != '\r')
    ensures Lines(x + "\n" + rest) == [x] + Lines(rest)
  {
    var s := x + "\n" + rest;
    assert s[|x|] == '\n';
    assert s[..|x|] == x;
    assert IndexOf(s, '\n') == |x|;
    assert s[|x| + 1..] == rest;
  }

  /** Parsing the lines one by one. */
  lemma {:induction false} ParseLinesCons(l: string, ls: seq<string>)
    ensures ParseLines([l] + ls) == (match ParseLine(l) case Some(r) => [r] + ParseLines(ls) case None => ParseLines(ls))
  {
    assert ([l] + ls)[1..] == ls;
  }

  /** The file is parsed line by line: a line that does not end in a
      carriage return, then a line feed, then the rest. */
  lemma {:induction false} ParseCons(x: string, rest: string)
    requires '\n' !in x && (x == [] || x[|x| - 1] != '\r')
    ensures Parse(x + "\n" + rest)
            == (match ParseLine(x) case Some(r) => [r] + Parse(rest) case None => Parse(rest))
  {
    LinesCons(x, rest);
    ParseLinesCons(x, Lines(rest));
  }

  /** A carriage return before a line feed belongs to the break: the line
      before a `\r\n` is cut without it. */
  lemma {:induction false} LinesConsCRLF(x: string, rest: string)
    requires '\n' !in x
    ensures Lines(x + "\r\n" + rest) == [x] + Lines(rest)
  {
    var s := x + "\r\n" + rest;
    assert s[|x|] == '\r' && s[|x| + 1] == '\n';
    assert s[..|x| + 1] == x + "\r";
    assert '\n' !in s[..|x| + 1];
    assert IndexOf(s, '\n') == |x| + 1;
    assert (x + "\r")[..|x|] == x;
    assert s[|x| + 2..] == rest;
  }

  /** A file whose first line ends in `\r\n` parses as that line, without
      its carriage return, followed by the rest. */
  lemma {:induction false} ParseConsCRLF(x: string, rest: string)
    requires '\n' !in x
    ensures Parse(x + "\r\n" + rest)
            == (match ParseLine(x) case Some(r) => [r] + Parse(rest) case None => Parse(rest))
  {
    LinesConsCRLF(x, rest);
    ParseLinesCons(x, Lines(rest));
  }

  /** A file of one line. */
  lemma {:induction false} ParseSingle(x: string)
    requires '\n' !in x
    ensures Parse(x) == (match ParseLine(x) case Some(r) => [r] case None => [])
  {
    assert Lines(x) == [x];
    ParseLinesCons(x, []);
  }

  /** A rendered row followed by a line feed contributes exactly its row. */
  lemma {:induction false} ParseRenderedLine(r: Row, rest: string)
    requires WellFormed(r) && '\n' !in r.question && '\n' !in r.answer
    ensures Parse(Render(r) + "\n" + rest) == [r] + Parse(rest)
  {
    var line := Render(r);
    ParseLineRender(r);
    RenderNoNewline(r);
    assert line[|line| - 1] == '"';
    LinesCons(line, rest);
    ParseLinesCons(line, Lines(rest));
  }

  /** A rendered row alone contributes exactly its row. */
  lemma {:induction false} ParseRenderedRow(r: Row)
    requires WellFormed(r) && '\n' !in r.question && '\n' !in r.answer
    ensures Parse(Render(r)) == [r]
  {
    ParseLineRender(r);
    RenderNoNewline(r);
    assert Lines(Render(r)) == [Render(r)];
    ParseLinesCons(Render(r), []);
  }

  /** An empty file gives no cards. */
  lemma {:induction false} ParseEmpty()
    ensures Parse([]) == []
  {
    assert Lines([]) == [[]];
    ParseLinesCons([], []);
  }

  /** No field of the rows holds a line feed. */
  predicate SingleLines(rows: seq<Row>) {
    forall i :: 0 <= i < |rows| ==> '\n' !in rows[i].question && '\n' !in rows[i].answer
  }

  lemma {:induction false} TailWritable(rows: seq<Row>)
    requires |rows| >= 1 && AllWellFormed(rows) && SingleLines(rows)
    ensures AllWellFormed(rows[1..]) && SingleLines(rows[1..])
    ensures WellFormed(rows[0]) && '\n' !in rows[0].question && '\n' !in rows[0].answer
  {
    assert forall i :: 0 <= i < |rows| - 1 ==> rows[1..][i] == rows[i + 1];
  }

  /** Round trip: a file written from well-formed rows without line breaks
      parses back to exactly those rows, in order. */
  lemma {:induction false} ParseSerialize(rows: seq<Row>)
    requires AllWellFormed(rows) && SingleLines(rows)
    ensures Parse(Serialize(rows)) == rows
    decreases |rows|
  {
    if rows == [] {
      ParseEmpty();
    } else {
      TailWritable(rows);
      if |rows| == 1 {
        ParseRenderedRow(rows[0]);
      } else {
        ParseSerialize(rows[1..]);
        ParseSerializeStep(rows);
      }
    }
  }

  lemma {:induction false} ParseSerializeStep(rows: seq<Row>)
    requires |rows| >= 2 && Parse(Serialize(rows[1..])) == rows[1..]
    requires WellFormed(rows[0]) && '\n' !in rows[0].question && '\n' !in rows[0].answer
    ensures Parse(Serialize(rows)) == rows
  {
    SerializeCons(rows);
    ParseRenderedPrefix(rows, Serialize(rows[1..]));
  }

  /** A rendered first row, a line feed, then a text that parses to the
      other rows. */
  lemma {:induction false} ParseRenderedPrefix(rows: seq<Row>, t: string)
    requires |rows| >= 1 && Parse(t) == rows[1..]
    requires WellFormed(rows[0]) && '\n' !in rows[0].question && '\n' !in rows[0].answer
    ensures Parse(Render(rows[0]) + "\n" + t) == rows
  {
    ParseRenderedLine(rows[0], t);
    HeadTail(rows);
  }

  lemma HeadTail<T>(s: seq<T>)
    requires |s| >= 1
    ensures s == [s[0]] + s[1..]
  {
  }

  lemma {:induction false} SerializeCons(rows: seq<Row>)
    requires |rows| >= 2
    ensures Serialize(rows) == Render(rows[0]) + "\n" + Serialize(rows[1..])
  {
  }
}
