/** The quiz-mode answer checker: `calculateSimilarity`, a token-overlap
    score between the learner's answer and the expected one, and the three
    colour tiers `checkQuizAnswer` picks from that score. */
module Grading {
  import opened Text

  /** A word: a token that `split(/\s+/)` can produce. */
  predicate NoSpace(w: string) {
    forall i :: 0 <= i < |w| ==> !IsSpace(w[i])
  }

  /** `s.split(/\s+/)` continued from a partly read token `cur`: every run of
      white space ends the current token, so a leading or trailing run
      yields an empty first or last token, and an empty string yields one
      empty token. Interior tokens are never empty. */
  function Tokens(s: string, cur: string): (ws: seq<string>)
    requires NoSpace(cur)
    ensures |ws| >= 1
    ensures forall i :: 0 <= i < |ws| ==> NoSpace(ws[i])
    decreases |s|
  {
    if s == [] then [cur]
    else if IsSpace(s[0]) then [cur] + Tokens(TrimStart(s), [])
    else Tokens(s[1..], cur + [s[0]])
  }

  /** `s.split(/\s+/)`. */
  function Words(s: string): (ws: seq<string>)
    ensures |ws| >= 1
    ensures forall i :: 0 <= i < |ws| ==> NoSpace(ws[i])
  {
    Tokens(s, [])
  }

  /** The characters of `s` that are not white space, in order. */
  function NonSpace(s: string): (r: string)
    ensures NoSpace(r)
  {
    if s == [] then [] else (if IsSpace(s[0]) then [] else [s[0]]) + NonSpace(s[1..])
  }

  function Concat(ws: seq<string>): string {
    if ws == [] then [] else ws[0] + Concat(ws[1..])
  }

  lemma {:induction false} NonSpaceAppend(a: string, b: string)
    ensures NonSpace(a + b) == NonSpace(a) + NonSpace(b)
  {
    if a != [] {
      var h := if IsSpace(a[0]) then [] else [a[0]];
      assert (a + b)[0] == a[0];
      assert (a + b)[1..] == a[1..] + b;
      NonSpaceAppend(a[1..], b);
      calc {
        NonSpace(a + b);
        h + NonSpace(a[1..] + b);
        h + (NonSpace(a[1..]) + NonSpace(b));
        (h + NonSpace(a[1..])) + NonSpace(b);
      }
    } else {
      assert a + b == b;
    }
  }

  lemma {:induction false} NonSpaceOfSpaces(a: string)
    requires AllSpace(a)
    ensures NonSpace(a) == []
  {
    if a != [] { NonSpaceOfSpaces(a[1..]); }
  }

  lemma {:induction false} TokensContent(s: string, cur: string)
    requires NoSpace(cur)
    ensures Concat(Tokens(s, cur)) == cur + NonSpace(s)
    decreases |s|
  {
    if s == [] {
    } else if IsSpace(s[0]) {
      var t := TrimStart(s);
      var k := |s| - |t|;
      assert s == s[..k] + t;
      NonSpaceAppend(s[..k], t);
      NonSpaceOfSpaces(s[..k]);
      TokensContent(t, []);
      assert Tokens(s, cur) == [cur] + Tokens(t, []);
    } else {
      assert s == [s[0]] + s[1..];
      TokensContent(s[1..], cur + [s[0]]);
      NonSpaceAppend([s[0]], s[1..]);
    }
  }

  /** Splitting on white space loses exactly the white space: the words,
      put back together, are the non-space characters of the input. */
  lemma WordsContent(s: string)
    ensures Concat(Words(s)) == NonSpace(s)
  {
    TokensContent(s, []);
  }

  lemma NoSpaceSnoc(cur: string, x: char)
    requires NoSpace(cur) && !IsSpace(x)
    ensures NoSpace(cur + [x])
  {
    var c := cur + [x];
    forall i | 0 <= i < |c| ensures !IsSpace(c[i]) {
      if i < |cur| { assert c[i] == cur[i]; }
    }
  }

  /** Tokens strictly between the first and the last are never empty. */
  lemma {:induction false} TokensInterior(s: string, cur: string)
    requires NoSpace(cur)
    ensures var ws := Tokens(s, cur); forall i :: 0 < i < |ws| - 1 ==> ws[i] != []
    decreases |s|
  {
    if s == [] {
    } else if IsSpace(s[0]) {
      var t := TrimStart(s);
      TokensInterior(t, []);
      TokensFirst(t, []);
      var ws := Tokens(t, []);
      assert Tokens(s, cur) == [cur] + ws;
      assert forall i :: 1 < i < |ws| ==> ([cur] + ws)[i] == ws[i - 1];
    } else {
      NoSpaceSnoc(cur, s[0]);
      assert Tokens(s, cur) == Tokens(s[1..], cur + [s[0]]);
      TokensInterior(s[1..], cur + [s[0]]);
    }
  }

  /** The first token is not empty when one is under way or `s` starts
      with a word. */
  lemma {:induction false} TokensFirst(s: string, cur: string)
    requires NoSpace(cur)
    ensures cur != [] || (s != [] && !IsSpace(s[0])) ==> Tokens(s, cur)[0] != []
    decreases |s|
  {
    if s != [] && !IsSpace(s[0]) {
      NoSpaceSnoc(cur, s[0]);
      TokensFirst(s[1..], cur + [s[0]]);
    }
  }

  /** The last token is not empty when `s` ends with a word. */
  lemma {:induction false} TokensLast(s: string, cur: string)
    requires NoSpace(cur)
    ensures var ws := Tokens(s, cur);
            (s == [] && cur != []) || (s != [] && !IsSpace(s[|s| - 1])) ==> ws[|ws| - 1] != []
    decreases |s|
  {
    if s == [] {
    } else if IsSpace(s[0]) {
      var t := TrimStart(s);
      assert t != [] ==> t[|t| - 1] == s[|s| - 1];
      assert !IsSpace(s[|s| - 1]) ==> t != [];
      TokensLast(t, []);
    } else {
      NoSpaceSnoc(cur, s[0]);
      assert s[1..] != [] ==> s[1..][|s[1..]| - 1] == s[|s| - 1];
      TokensLast(s[1..], cur + [s[0]]);
    }
  }

  /** A string `trim` leaves unchanged (no white space at either end)
      splits into non-empty words only. */
  lemma WordsOfTrimmed(s: string)
    requires s != [] && Trimmed(s)
    ensures forall i :: 0 <= i < |Words(s)| ==> Words(s)[i] != []
  {
    TokensInterior(s, []);
    TokensFirst(s, []);
    TokensLast(s, []);
  }

  lemma {:induction false} TokensNoSpace(s: string, cur: string)
    requires NoSpace(cur) && NoSpace(s)
    ensures Tokens(s, cur) == [cur + s]
    decreases |s|
  {
    if s != [] {
      assert !IsSpace(s[0]);
      assert (cur + [s[0]]) + s[1..] == cur + s;
      assert NoSpace(s[1..]) by {
        forall i | 0 <= i < |s[1..]| ensures !IsSpace(s[1..][i]) { assert s[1..][i] == s[i + 1]; }
      }
      NoSpaceSnoc(cur, s[0]);
      TokensNoSpace(s[1..], cur + [s[0]]);
    } else {
      assert cur + s == cur;
    }
  }

  /** A string splits into itself alone exactly when it has no white space. */
  lemma {:induction false} SingleWord(s: string)
    ensures Words(s) == [s] <==> NoSpace(s)
  {
    if NoSpace(s) {
      TokensNoSpace(s, []);
      assert [] + s == s;
    }
    if Words(s) == [s] {
      assert Words(s)[0] == s;
    }
  }

  /** A word at the front of the unread text joins the token under way. */
  lemma {:induction false} TokensWord(a: string, t: string, cur: string)
    requires NoSpace(cur) && NoSpace(a)
    ensures Tokens(a + t, cur) == Tokens(t, cur + a)
    decreases |a|
  {
    if a == [] {
      assert a + t == t;
      assert cur + a == cur;
    } else {
      assert (a + t)[0] == a[0];
      assert (a + t)[1..] == a[1..] + t;
      assert NoSpace(a[1..]) by {
        forall i | 0 <= i < |a[1..]| ensures !IsSpace(a[1..][i]) { assert a[1..][i] == a[i + 1]; }
      }
      NoSpaceSnoc(cur, a[0]);
      TokensWord(a[1..], t, cur + [a[0]]);
      assert (cur + [a[0]]) + a[1..] == cur + a;
    }
  }

  /** `trimStart` drops a run of white space up to the first non-space
      character, and nothing more. */
  lemma {:induction false} TrimStartSpaces(sp: string, b: string)
    requires AllSpace(sp) && (b == [] || !IsSpace(b[0]))
    ensures TrimStart(sp + b) == b
    decreases |sp|
  {
    if sp == [] {
      assert sp + b == b;
    } else {
      assert (sp + b)[0] == sp[0];
      assert (sp + b)[1..] == sp[1..] + b;
      TrimStartSpaces(sp[1..], b);
    }
  }

  /** Where `split(/\s+/)` cuts: a word, then a run of white space, ends
      that word, and splitting goes on after the run. */
  lemma WordsSplit(a: string, sp: string, b: string)
    requires NoSpace(a) && sp != [] && AllSpace(sp) && (b == [] || !IsSpace(b[0]))
    ensures Words(a + sp + b) == [a] + Words(b)
  {
    assert a + sp + b == a + (sp + b);
    TokensWord(a, sp + b, []);
    assert [] + a == a;
    assert (sp + b)[0] == sp[0];
    TrimStartSpaces(sp, b);
  }

  /** The first word is empty exactly when the text is empty or starts
      with white space. */
  lemma WordsFirstEmpty(s: string)
    ensures Words(s)[0] == [] <==> s == [] || IsSpace(s[0])
  {
    TokensFirst(s, []);
  }

  /** A text ending in white space ends its last token. */
  lemma {:induction false} TokensTrailing(s: string, cur: string)
    requires NoSpace(cur) && s != [] && IsSpace(s[|s| - 1])
    ensures var ws := Tokens(s, cur); ws[|ws| - 1] == []
    decreases |s|
  {
    if IsSpace(s[0]) {
      var t := TrimStart(s);
      if t != [] {
        assert t[|t| - 1] == s[|s| - 1];
        TokensTrailing(t, []);
      }
    } else {
      assert s[1..][|s[1..]| - 1] == s[|s| - 1];
      NoSpaceSnoc(cur, s[0]);
      TokensTrailing(s[1..], cur + [s[0]]);
    }
  }

  /** The last word is empty exactly when the text is empty or ends with
      white space. */
  lemma WordsLastEmpty(s: string)
    ensures var ws := Words(s); ws[|ws| - 1] == [] <==> s == [] || IsSpace(s[|s| - 1])
  {
    TokensLast(s, []);
    if s != [] && IsSpace(s[|s| - 1]) { TokensTrailing(s, []); }
  }

  /** An empty word appears exactly when the text is empty or has white
      space at one of its ends. */
  lemma EmptyWordIff(s: string)
    ensures [] in Words(s) <==> s == [] || IsSpace(s[0]) || IsSpace(s[|s| - 1])
  {
    var ws := Words(s);
    assert ws == Tokens(s, []);
    TokensInterior(s, []);
    WordsFirstEmpty(s);
    WordsLastEmpty(s);
    if [] in ws {
      var i :| 0 <= i < |ws| && ws[i] == [];
      assert i == 0 || i == |ws| - 1;
    }
    assert ws[0] in ws && ws[|ws| - 1] in ws;
  }

  /** `a.includes(b)`: `b` occurs in `a` as a contiguous block. */
  predicate Includes(a: string, b: string)
    decreases |a|
  {
    b <= a || (a != [] && Includes(a[1..], b))
  }

  /** `b` occurs in `a` starting at index `i`. */
  predicate OccursAt(a: string, b: string, i: int) {
    0 <= i <= |a| - |b| && a[i..i + |b|] == b
  }

  /** `includes` agrees with its definition as "some slice of `a` is `b`". */
  lemma {:induction false} IncludesAt(a: string, b: string)
    ensures Includes(a, b) <==> exists i :: OccursAt(a, b, i)
    decreases |a|
  {
    if b <= a {
      assert OccursAt(a, b, 0);
    } else if a == [] {
    } else {
      IncludesAt(a[1..], b);
      if exists i :: OccursAt(a, b, i) {
        var i :| OccursAt(a, b, i);
        assert i != 0;
        assert a[1..][i - 1..i - 1 + |b|] == a[i..i + |b|];
        assert OccursAt(a[1..], b, i - 1);
      }
      if exists i :: OccursAt(a[1..], b, i) {
        var i :| OccursAt(a[1..], b, i);
        assert a[i + 1..i + 1 + |b|] == a[1..][i..i + |b|];
        assert OccursAt(a, b, i + 1);
      }
    }
  }

  /** The test `calculateSimilarity` applies to a word of the first answer
      and a word of the second: either contains the other. */
  predicate Related(word: string, w: string) {
    Includes(w, word) || Includes(word, w)
  }

  /** `words2.some(w => w.includes(word) || word.includes(w))`. */
  predicate Matched(word: string, ws: seq<string>) {
    exists w :: w in ws && Related(word, w)
  }

  /** The `matches` counter: how many words of `w1` are matched in `w2`. */
  function MatchCount(w1: seq<string>, w2: seq<string>): (m: nat)
    ensures m <= |w1|
    ensures m == |w1| <==> forall i :: 0 <= i < |w1| ==> Matched(w1[i], w2)
    ensures m == 0 <==> forall i :: 0 <= i < |w1| ==> !Matched(w1[i], w2)
  {
    if w1 == [] then 0
    else
      var rest := MatchCount(w1[1..], w2);
      assert forall i :: 1 <= i < |w1| ==> w1[i] == w1[1..][i - 1];
      (if Matched(w1[0], w2) then 1 else 0) + rest
  }

  /** The counter adds up over the words of the first answer: the words
      of `a` and of `b` are counted independently. */
  lemma {:induction false} MatchCountAppend(a: seq<string>, b: seq<string>, w2: seq<string>)
    ensures MatchCount(a + b, w2) == MatchCount(a, w2) + MatchCount(b, w2)
    decreases |a|
  {
    if a == [] {
      assert a + b == b;
    } else {
      assert (a + b)[0] == a[0];
      assert (a + b)[1..] == a[1..] + b;
      MatchCountAppend(a[1..], b, w2);
    }
  }

  function Max(a: int, b: int): int {
    if a < b then b else a
  }

  /** `calculateSimilarity(str1, str2)`: 0 when either answer is empty,
      otherwise matched words of `str1` over the larger word count. */
  function Similarity(s1: string, s2: string): (r: real)
    ensures 0.0 <= r <= 1.0
    ensures s1 == [] || s2 == [] ==> r == 0.0
  {
    if s1 == [] || s2 == [] then 0.0
    else
      var w1, w2 := Words(s1), Words(s2);
      Ratio(MatchCount(w1, w2), Max(|w1|, |w2|))
  }

  /** `m / d` as an exact fraction of at most one. */
  function Ratio(m: nat, d: nat): (r: real)
    requires m <= d && d > 0
    ensures 0.0 <= r <= 1.0
    ensures r * (d as real) == m as real
  {
    (m as real) / (d as real)
  }

  /** The colour `checkQuizAnswer` gives the answer text. */
  datatype Tier = Good | Partial | Poor

  /** Green above 0.7, yellow above 0.4, red otherwise; both bounds strict. */
  function TierOf(score: real): (t: Tier)
    ensures t == Good <==> score > 0.7
    ensures t == Partial <==> 0.4 < score <= 0.7
    ensures t == Poor <==> score <= 0.4
  {
    if score > 0.7 then Good else if score > 0.4 then Partial else Poor
  }

  lemma ScaleCompare(x: real, y: real, z: real)
    requires z > 0.0
    ensures x > y <==> x * z > y * z
  {
    if x > y { assert (x - y) * z > 0.0; } else { assert (y - x) * z >= 0.0; }
  }

  /** The fraction `m / d` exceeds `n / k` exactly when `k m > n d`. */
  lemma RatioAbove(m: nat, d: nat, n: nat, k: nat)
    requires m <= d && 0 < d && 0 < k
    ensures Ratio(m, d) > (n as real) / (k as real) <==> k * m > n * d
  {
    var r, c, z := Ratio(m, d), (n as real) / (k as real), (d * k) as real;
    ScaleCompare(r, c, z);
    assert r * z == (r * (d as real)) * (k as real);
    assert c * z == (c * (k as real)) * (d as real);
  }

  /** The fraction `m / d` is one exactly when `m == d`. */
  lemma RatioOne(m: nat, d: nat)
    requires m <= d && 0 < d
    ensures Ratio(m, d) == 1.0 <==> m == d
  {
    ScaleCompare(1.0, Ratio(m, d), d as real);
    ScaleCompare(Ratio(m, d), 1.0, d as real);
  }

  /** The tier on integers: with `m` matches out of `d` words, the strict
      comparisons against 0.7 and 0.4 are `10m > 7d` and `10m > 4d`. */
  lemma TierCrossMultiplied(s1: string, s2: string)
    requires s1 != [] && s2 != []
    ensures var w1, w2 := Words(s1), Words(s2);
            var m, d := MatchCount(w1, w2), Max(|w1|, |w2|);
            && (TierOf(Similarity(s1, s2)) == Good <==> 10 * m > 7 * d)
            && (TierOf(Similarity(s1, s2)) == Partial <==> 4 * d < 10 * m <= 7 * d)
            && (TierOf(Similarity(s1, s2)) == Poor <==> 10 * m <= 4 * d)
  {
    var w1, w2 := Words(s1), Words(s2);
    var m, d := MatchCount(w1, w2), Max(|w1|, |w2|);
    assert 0.7 == (7 as real) / (10 as real);
    assert 0.4 == (4 as real) / (10 as real);
    RatioAbove(m, d, 7, 10);
    RatioAbove(m, d, 4, 10);
  }

  /** A perfect score: every word of the first answer is matched (the count
      of `MatchCount` is the number of words) and the first answer has at
      least as many words as the second. */
  lemma FullScore(s1: string, s2: string)
    requires s1 != [] && s2 != []
    ensures Similarity(s1, s2) == 1.0
            <==> MatchCount(Words(s1), Words(s2)) == |Words(s1)| && |Words(s1)| >= |Words(s2)|
  {
    var w1, w2 := Words(s1), Words(s2);
    RatioOne(MatchCount(w1, w2), Max(|w1|, |w2|));
  }

  /** An answer compared with itself scores 1. */
  lemma SelfSimilarity(s: string)
    requires s != []
    ensures Similarity(s, s) == 1.0
  {
    var ws := Words(s);
    forall i | 0 <= i < |ws| ensures Matched(ws[i], ws) {
      assert ws[i] <= ws[i];
      assert Related(ws[i], ws[i]);
    }
    FullScore(s, s);
  }

  /** A second answer with leading or trailing white space (or none at all)
      splits with an empty word, which every word contains: all words of the
      first match. */
  lemma EmptyWordMatchesAll(s1: string, s2: string)
    requires s2 == [] || IsSpace(s2[0]) || IsSpace(s2[|s2| - 1])
    ensures MatchCount(Words(s1), Words(s2)) == |Words(s1)|
  {
    EmptyWordIff(s2);
    var w1 := Words(s1);
    forall i | 0 <= i < |w1| ensures Matched(w1[i], Words(s2)) {
      assert Related(w1[i], []);
    }
  }

  /** The grade of a typed answer: the input is trimmed and lower-cased, the
      expected answer lower-cased, and the score placed in a tier. */
  function Grade(input: string, answer: string): (t: Tier)
    ensures Trim(input) == [] || answer == [] ==> t == Poor
  {
    TierOf(Similarity(ToLower(Trim(input)), ToLower(answer)))
  }

  /** Typing the expected answer (up to surrounding white space) is graded
      green, whenever the expected answer is not empty. */
  lemma ExactAnswerIsGood(input: string, answer: string)
    requires answer != [] && Trim(input) == answer
    ensures Grade(input, answer) == Good
  {
    SelfSimilarity(ToLower(answer));
    assert 1.0 > 0.7;
  }
}
