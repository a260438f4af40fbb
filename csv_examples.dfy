/** What the parser gives on sample lines. Each example is
    taken apart into small facts so that no literal is evaluated whole. */
module CsvExamples {
  import opened Wrappers
  import opened Text
  import opened Csv

  lemma {:induction false} QuoteSayHi()
    ensures Quote("Say \"hi\"") == "\"Say \"\"hi\"\"\""
  {
    assert Escape("Say \"hi\"") == "Say \"\"hi\"\"";
  }

  lemma {:induction false} QuoteHello()
    ensures Quote("hello") == "\"hello\""
  {
    assert Escape("hello") == "hello";
  }

  /** `"Say ""hi""","hello"` gives the question `Say "hi"`. */
  lemma {:induction false} EscapedQuoteExample()
    ensures ParseLine("\"Say \"\"hi\"\"\",\"hello\"") == Some(Row("Say \"hi\"", "hello"))
  {
    var r := Row("Say \"hi\"", "hello");
    SayHiWellFormed(r);
    SayHiRender(r);
    ParseLineRender(r);
  }

  lemma {:induction false} SayHiWellFormed(r: Row)
    requires r == Row("Say \"hi\"", "hello")
    ensures WellFormed(r)
  {
    assert !IsSpace(r.question[0]) && !IsSpace(r.question[|r.question| - 1]);
    assert !IsSpace(r.answer[0]) && !IsSpace(r.answer[|r.answer| - 1]);
  }

  lemma {:induction false} SayHiRender(r: Row)
    requires r == Row("Say \"hi\"", "hello")
    ensures Render(r) == "\"Say \"\"hi\"\"\",\"hello\""
  {
    QuoteSayHi();
    QuoteHello();
  }

  /** `"What is 2+2?","4"` gives one card: any two quoted fields without
      inner quotes, trimmed and non-empty, give exactly their texts. */
  lemma {:induction false} QuotedPairExample(q: string, a: string)
    requires '"' !in q && '"' !in a
    requires WellFormed(Row(q, a))
    ensures ParseLine("\"" + q + "\",\"" + a + "\"") == Some(Row(q, a))
  {
    EscapeQuoteFree(q);
    EscapeQuoteFree(a);
    assert Render(Row(q, a)) == "\"" + q + "\",\"" + a + "\"";
    ParseLineRender(Row(q, a));
  }

  /** The columns of a line `x,y` or `x,y,z` made of single letters. */
  lemma {:induction false} LetterColumns(line: string, x: char, y: char)
    requires x != ',' && x != '"' && y != ',' && y != '"'
    requires line == [x, ',', y] || line == [x, ',', y, ',', 'c']
    ensures '"' !in line && ',' in line
    ensures line[..IndexOf(line, ',')] == [x] && SecondColumn(line) == [y]
  {
    assert line[1] == ',' && line[0] != ',';
    assert IndexOf(line, ',') == 1;
    var rest := line[2..];
    if |line| == 3 {
      assert rest == [y];
    } else {
      assert rest[1] == ',' && rest[0] != ',';
      assert IndexOf(rest, ',') == 1;
      assert SecondColumn(line) == rest[..1];
    }
  }

  /** Only two columns are read: `a,b,c` gives the answer `b`. */
  lemma {:induction false} ThreeColumnsExample()
    ensures ParseLine("a,b,c") == Some(Row("a", "b"))
  {
    LetterColumns("a,b,c", 'a', 'b');
    TrimTrimmed("a");
    TrimTrimmed("b");
    QuoteFreeLine("a,b,c");
  }

  lemma {:induction false} QuestionColumns(line: string)
    requires line == "question,"
    ensures '"' !in line && ',' in line && SecondColumn(line) == []
  {
    assert line[8] == ',' && ',' !in line[..8];
    assert IndexOf(line, ',') == 8;
  }

  /** `question,` gives nothing: its answer part is empty. */
  lemma {:induction false} MissingAnswerExample()
    ensures ParseLine("question,") == None
  {
    QuestionColumns("question,");
    QuoteFreeLine("question,");
  }

  /** `question` gives nothing: it has no comma. */
  lemma {:induction false} NoCommaExample()
    ensures ParseLine("question") == None
  {
    NoCommaNoCard("question");
  }

  lemma {:induction false} QuotedCommaFields(line: string)
    requires line == "\"a,b\",c"
    ensures Fields(line) == Some(("\"a,b\"", "c"))
  {
    var x, y := "\"a,b\"", "c";
    assert line == x + "," + y;
    assert IsQuoted(x) by {
      assert x[1..|x| - 1] == "a,b";
      EscapedQuoteFree("a,b");
    }
    FirstOfQuotedPair(x, y);
    assert line[6] == 'c' && line[6..] == "c";
    assert SecondFieldEnd(line, 6) == 7;
    assert line[..5] == x && line[6..7] == y;
  }

  lemma {:induction false} QuotedCommaCleans(x: string, y: string)
    requires x == "\"a,b\"" && y == "c"
    ensures Clean(x) == "a,b" && Clean(y) == "c"
  {
    QuotedABCleans(x);
    LetterCleans(y, 'c');
  }

  /** A one-letter field is already clean. */
  lemma {:induction false} LetterCleans(y: string, c: char)
    requires 'a' <= c <= 'z' && y == [c]
    ensures Clean(y) == y
  {
    assert StripQuotes(y) == y;
    assert Unescape(y) == [c] + Unescape([]);
    assert Trimmed(y);
    TrimTrimmed(y);
  }

  lemma {:induction false} QuotedABCleans(x: string)
    requires x == "\"a,b\""
    ensures Clean(x) == "a,b"
  {
    var ab := "a,b";
    assert StripQuotes(x) == ab;
    UnescapeQuoteFree(ab);
    TrimTrimmed(ab);
  }

  /** A comma inside a quoted first field stays in the question. */
  lemma {:induction false} QuotedCommaExample()
    ensures ParseLine("\"a,b\",c") == Some(Row("a,b", "c"))
  {
    QuotedCommaFields("\"a,b\",c");
    QuotedCommaCleans("\"a,b\"", "c");
    CommaNotBlank("\"a,b\",c");
    ParseLineOfFields("\"a,b\",c", "\"a,b\"", "c");
  }

  lemma {:induction false} LettersLine(line: string, x: char, y: char)
    requires 'a' <= x <= 'z' && 'a' <= y <= 'z' && line == [x, ',', y]
    ensures ParseLine(line) == Some(Row([x], [y]))
    ensures '\n' !in line && line[|line| - 1] != '\r'
  {
    assert forall i :: 0 <= i < |line| ==> line[i] != '\n';
    LetterColumns(line, x, y);
    TrimTrimmed([x]);
    TrimTrimmed([y]);
    QuoteFreeLine(line);
  }

  /** A line of white space yields no card and leaves the rest of the file
      as it parses, whichever line break ends it. */
  lemma {:induction false} SpacesLineSkipped(sp: string, rest: string)
    requires AllSpace(sp) && '\n' !in sp
    ensures Parse(sp + "\n" + rest) == Parse(rest)
  {
    if sp != [] && sp[|sp| - 1] == '\r' {
      var x := sp[..|sp| - 1];
      assert sp == x + "\r";
      assert sp + "\n" + rest == x + "\r\n" + rest;
      assert AllSpace(x) && '\n' !in x;
      NoCommaNoCard(x);
      ParseConsCRLF(x, rest);
    } else {
      NoCommaNoCard(sp);
      ParseCons(sp, rest);
    }
  }

  /** An empty line yields no card either. */
  lemma {:induction false} EmptyLineSkipped(rest: string)
    ensures Parse([] + "\n" + rest) == Parse(rest)
  {
    NoCommaNoCard([]);
    ParseCons([], rest);
  }

  /** A one-line file of two letters separated by a comma gives one card. */
  lemma {:induction false} SingleLetterRow(line: string, x: char, y: char)
    requires 'a' <= x <= 'z' && 'a' <= y <= 'z' && line == [x, ',', y]
    ensures Parse(line) == [Row([x], [y])]
  {
    LettersLine(line, x, y);
    ParseSingle(line);
  }
}
