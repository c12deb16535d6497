/**
 * Splitting one text node into chunk texts, and jQuery.trim's blank test.
 *
 * The source builds a string of spans: the global replace puts a span
 * boundary after every delimiter (the captured delimiter stays before the
 * boundary), and a second, non-global replace removes the first empty span.
 * `SpanTexts` is the list of span contents after the first replace,
 * `RemoveFirstEmpty` the second replace, `Split` the two together.
 */
module TextChunks {
  import opened Settings

  /** The characters jQuery.trim removes: ECMAScript WhiteSpace and LineTerminator. */
  predicate IsWhitespace(c: char)
  {
    || c == ' ' || c == '\t' || c == '\n' || c == '\r'
    || c == '\U{B}' || c == '\U{C}' || c == '\U{A0}' || c == '\U{FEFF}' || c == '\U{1680}'
    || ('\U{2000}' <= c <= '\U{200A}')
    || c == '\U{2028}' || c == '\U{2029}' || c == '\U{202F}' || c == '\U{205F}' || c == '\U{3000}'
  }

  function TrimStart(s: string): (r: string)
    ensures |r| <= |s| && r == s[|s| - |r|..]
    ensures r != [] ==> !IsWhitespace(r[0])
  {
    if s != [] && IsWhitespace(s[0]) then TrimStart(s[1..]) else s
  }

  function TrimEnd(s: string): (r: string)
    ensures |r| <= |s| && r == s[..|r|]
    ensures r != [] ==> !IsWhitespace(r[|r| - 1])
  {
    if s != [] && IsWhitespace(s[|s| - 1]) then TrimEnd(s[..|s| - 1]) else s
  }

  /** `$.trim`: a piece of s that neither starts nor ends with whitespace. */
  function Trim(s: string): (r: string)
    ensures |r| <= |s|
    ensures r != [] ==> !IsWhitespace(r[0]) && !IsWhitespace(r[|r| - 1])
  {
    TrimEnd(TrimStart(s))
  }

  /** Every character of s is whitespace. */
  predicate IsBlank(s: string)
  {
    forall k :: 0 <= k < |s| ==> IsWhitespace(s[k])
  }

  lemma {:induction false} TrimStartEmptyIffBlank(s: string)
    ensures TrimStart(s) == [] <==> IsBlank(s)
    ensures TrimStart(s) != [] ==> !IsWhitespace(TrimStart(s)[0])
  {
    if s != [] && IsWhitespace(s[0]) {
      TrimStartEmptyIffBlank(s[1..]);
      assert IsBlank(s[1..]) ==> IsBlank(s) by {
        if IsBlank(s[1..]) {
          forall k | 0 <= k < |s| ensures IsWhitespace(s[k]) {
            if k > 0 { assert s[k] == s[1..][k - 1]; }
          }
        }
      }
      assert IsBlank(s) ==> IsBlank(s[1..]) by {
        if IsBlank(s) {
          forall k | 0 <= k < |s[1..]| ensures IsWhitespace(s[1..][k]) {
            assert s[1..][k] == s[k + 1];
          }
        }
      }
    } else if s != [] {
      assert !IsWhitespace(s[0]);
    }
  }

  lemma {:induction false} TrimEndKeepsNonBlankHead(s: string)
    requires s != [] && !IsWhitespace(s[0])
    ensures TrimEnd(s) != []
  {
    if IsWhitespace(s[|s| - 1]) {
      assert |s| >= 2;
      TrimEndKeepsNonBlankHead(s[..|s| - 1]);
    }
  }

  /** The blank test of the marking pass: trimming leaves nothing exactly when s is all whitespace. */
  lemma TrimEmptyIffBlank(s: string)
    ensures Trim(s) == [] <==> IsBlank(s)
  {
    TrimStartEmptyIffBlank(s);
    if TrimStart(s) != [] {
      TrimEndKeepsNonBlankHead(TrimStart(s));
    }
  }

  /** The span contents after the global replace: s cut after every delimiter. */
  function SpanTexts(s: string, delims: set<char>): (r: seq<string>)
    ensures |r| > 0
  {
    if s == [] then [[]]
    else
      var rest := SpanTexts(s[1..], delims);
      if s[0] in delims then [[s[0]]] + rest
      else [[s[0]] + rest[0]] + rest[1..]
  }

  /** The non-global replace of the empty span markup: drops the first empty span, if any. */
  function RemoveFirstEmpty(ps: seq<string>): (r: seq<string>)
    ensures (exists i :: 0 <= i < |ps| && ps[i] == []) ==> |r| == |ps| - 1
    ensures (forall i :: 0 <= i < |ps| ==> ps[i] != []) ==> r == ps
    ensures forall p :: p in r ==> p in ps
  {
    if ps == [] then []
    else if ps[0] == [] then ps[1..]
    else [ps[0]] + RemoveFirstEmpty(ps[1..])
  }

  /** The chunk texts that replace a text node. */
  function Split(s: string, delims: set<char>): (r: seq<string>)
    ensures forall p :: p in r ==> p in SpanTexts(s, delims)
  {
    RemoveFirstEmpty(SpanTexts(s, delims))
  }

  function Concat(ps: seq<string>): string
  {
    if ps == [] then [] else ps[0] + Concat(ps[1..])
  }

  function CountDelimiters(s: string, delims: set<char>): nat
  {
    if s == [] then 0 else (if s[0] in delims then 1 else 0) + CountDelimiters(s[1..], delims)
  }

  predicate NoDelimiter(p: string, delims: set<char>)
  {
    forall k :: 0 <= k < |p| ==> p[k] !in delims
  }

  /** A chunk closed by a delimiter: non-empty, ends with a delimiter and holds no other. */
  predicate IsClosedChunk(p: string, delims: set<char>)
  {
    p != [] && p[|p| - 1] in delims && NoDelimiter(p[..|p| - 1], delims)
  }

  /** A chunk of a split: non-empty and holding a delimiter at most as its last character. */
  predicate IsChunk(p: string, delims: set<char>)
  {
    p != [] && NoDelimiter(p[..|p| - 1], delims)
  }

  lemma {:induction false} ConcatAppend(a: seq<string>, b: seq<string>)
    ensures Concat(a + b) == Concat(a) + Concat(b)
  {
    if a != [] {
      assert (a + b)[1..] == a[1..] + b;
      ConcatAppend(a[1..], b);
    } else {
      assert a + b == b;
    }
  }

  lemma {:induction false} SpanTextsConcat(s: string, delims: set<char>)
    ensures Concat(SpanTexts(s, delims)) == s
  {
    if s != [] {
      var rest := SpanTexts(s[1..], delims);
      SpanTextsConcat(s[1..], delims);
      assert s == [s[0]] + s[1..];
      if s[0] in delims {
        assert ([[s[0]]] + rest)[1..] == rest;
      } else {
        assert ([[s[0]] + rest[0]] + rest[1..])[1..] == rest[1..];
      }
    }
  }

  lemma {:induction false} SpanTextsCount(s: string, delims: set<char>)
    ensures |SpanTexts(s, delims)| == CountDelimiters(s, delims) + 1
  {
    if s != [] {
      SpanTextsCount(s[1..], delims);
    }
  }

  /** Every span but the last is a closed chunk, and the last holds no delimiter. */
  predicate SpanShape(r: seq<string>, delims: set<char>)
  {
    && |r| > 0
    && (forall i :: 0 <= i < |r| - 1 ==> IsClosedChunk(r[i], delims))
    && NoDelimiter(r[|r| - 1], delims)
  }

  lemma {:induction false} SpanTextsClosed(s: string, delims: set<char>)
    ensures SpanShape(SpanTexts(s, delims), delims)
  {
    if s != [] {
      var c, rest := s[0], SpanTexts(s[1..], delims);
      SpanTextsClosed(s[1..], delims);
      if c in delims {
        ConsDelimiterShape(c, rest, delims);
      } else {
        ConsOtherShape(c, rest, delims);
      }
    }
  }

  /** A delimiter in front of the text becomes a span of its own, closed by itself. */
  lemma ConsDelimiterShape(c: char, rest: seq<string>, delims: set<char>)
    requires c in delims && SpanShape(rest, delims)
    ensures SpanShape([[c]] + rest, delims)
  {
    var r := [[c]] + rest;
    assert IsClosedChunk([c], delims);
    forall i | 0 <= i < |r| - 1 ensures IsClosedChunk(r[i], delims) {
      if i > 0 { assert r[i] == rest[i - 1]; }
    }
  }

  /** Any other character in front of the text joins the first span. */
  lemma ConsOtherShape(c: char, rest: seq<string>, delims: set<char>)
    requires c !in delims && SpanShape(rest, delims)
    ensures SpanShape([[c] + rest[0]] + rest[1..], delims)
  {
    var first := [c] + rest[0];
    var r := [first] + rest[1..];
    if |rest| > 1 {
      assert first[..|first| - 1] == [c] + rest[0][..|rest[0]| - 1];
      assert IsClosedChunk(first, delims);
      forall i | 0 <= i < |r| - 1 ensures IsClosedChunk(r[i], delims) {
        if i > 0 { assert r[i] == rest[i]; }
      }
    } else {
      forall k | 0 <= k < |first| ensures first[k] !in delims {
        if k > 0 { assert first[k] == rest[0][k - 1]; }
      }
    }
  }

  /** The last span is empty exactly when the text is empty or ends with a delimiter. */
  lemma {:induction false} SpanTextsLastEmpty(s: string, delims: set<char>)
    ensures var r := SpanTexts(s, delims);
      r[|r| - 1] == [] <==> s == [] || s[|s| - 1] in delims
  {
    if s != [] {
      var c, t, rest := s[0], s[1..], SpanTexts(s[1..], delims);
      SpanTextsLastEmpty(t, delims);
      if t == [] {
        assert rest == [[]];
        assert s == [c];
      } else {
        assert s[|s| - 1] == t[|t| - 1];
        if c !in delims && |rest| == 1 {
          SpanTextsConcat(t, delims);
          assert Concat(rest) == rest[0] + Concat([]);
        }
      }
    }
  }

  /** The shape of the span contents after the global replace. */
  lemma SpanTextsShape(s: string, delims: set<char>)
    ensures var r := SpanTexts(s, delims);
      && |r| == CountDelimiters(s, delims) + 1
      && Concat(r) == s
      && (forall i :: 0 <= i < |r| - 1 ==> IsClosedChunk(r[i], delims))
      && NoDelimiter(r[|r| - 1], delims)
      && (r[|r| - 1] == [] <==> s == [] || s[|s| - 1] in delims)
  {
    SpanTextsConcat(s, delims);
    SpanTextsCount(s, delims);
    SpanTextsClosed(s, delims);
    SpanTextsLastEmpty(s, delims);
  }

  lemma {:induction false} RemoveFirstEmptyDropsTrailing(ps: seq<string>)
    requires ps != []
    requires forall i :: 0 <= i < |ps| - 1 ==> ps[i] != []
    ensures RemoveFirstEmpty(ps) == if ps[|ps| - 1] == [] then ps[..|ps| - 1] else ps
  {
    if |ps| > 1 {
      RemoveFirstEmptyDropsTrailing(ps[1..]);
      assert ps[1..][..|ps| - 2] == ps[1..|ps| - 1];
      assert ps[..|ps| - 1] == [ps[0]] + ps[1..|ps| - 1];
    }
  }

  /** The second replace removes exactly the trailing empty span, when the text ends with a delimiter. */
  lemma SplitDropsOnlyTrailing(s: string, delims: set<char>)
    ensures var r := SpanTexts(s, delims);
      Split(s, delims) == if s == [] || s[|s| - 1] in delims then r[..|r| - 1] else r
  {
    SpanTextsShape(s, delims);
    RemoveFirstEmptyDropsTrailing(SpanTexts(s, delims));
  }

  /** Splitting is lossless: the chunk texts, in order, give back the whole untrimmed text. */
  lemma SplitLossless(s: string, delims: set<char>)
    ensures Concat(Split(s, delims)) == s
  {
    var r := SpanTexts(s, delims);
    SplitDropsOnlyTrailing(s, delims);
    SpanTextsShape(s, delims);
    if s == [] || s[|s| - 1] in delims {
      assert r == r[..|r| - 1] + [r[|r| - 1]];
      ConcatAppend(r[..|r| - 1], [r[|r| - 1]]);
    }
  }

  /**
   * The shape of the chunks: none is empty, a delimiter can only be a chunk's
   * last character, and every chunk but the last ends with one.
   */
  lemma SplitShape(s: string, delims: set<char>)
    ensures var cs := Split(s, delims);
      && (forall i :: 0 <= i < |cs| ==> IsChunk(cs[i], delims))
      && (forall i :: 0 <= i < |cs| - 1 ==> IsClosedChunk(cs[i], delims))
  {
    var r := SpanTexts(s, delims);
    SplitDropsOnlyTrailing(s, delims);
    SpanTextsClosed(s, delims);
    SpanTextsLastEmpty(s, delims);
    if s == [] || s[|s| - 1] in delims {
      ClosedPrefixIsChunkList(r, delims);
    } else {
      OpenLastIsChunkList(r, delims);
    }
  }

  /** Dropping the last span of a list whose other spans are closed leaves a list of closed chunks. */
  lemma ClosedPrefixIsChunkList(r: seq<string>, delims: set<char>)
    requires |r| > 0 && forall i :: 0 <= i < |r| - 1 ==> IsClosedChunk(r[i], delims)
    ensures var cs := r[..|r| - 1];
      && (forall i :: 0 <= i < |cs| ==> IsChunk(cs[i], delims))
      && (forall i :: 0 <= i < |cs| - 1 ==> IsClosedChunk(cs[i], delims))
  {
    var cs := r[..|r| - 1];
    forall i | 0 <= i < |cs| ensures IsClosedChunk(cs[i], delims) {
      assert cs[i] == r[i];
    }
  }

  /** A non-empty last span without delimiters completes a list of chunks. */
  lemma OpenLastIsChunkList(r: seq<string>, delims: set<char>)
    requires |r| > 0 && forall i :: 0 <= i < |r| - 1 ==> IsClosedChunk(r[i], delims)
    requires r[|r| - 1] != [] && NoDelimiter(r[|r| - 1], delims)
    ensures forall i :: 0 <= i < |r| ==> IsChunk(r[i], delims)
  {
    var last := r[|r| - 1];
    var prefix := last[..|last| - 1];
    forall k | 0 <= k < |prefix| ensures prefix[k] !in delims {
      assert prefix[k] == last[k];
    }
  }

  /** One chunk per delimiter, plus one for text after the last delimiter. */
  lemma SplitCount(s: string, delims: set<char>)
    ensures |Split(s, delims)| ==
      CountDelimiters(s, delims) + (if s == [] || s[|s| - 1] in delims then 0 else 1)
  {
    SplitDropsOnlyTrailing(s, delims);
    SpanTextsShape(s, delims);
  }

  lemma {:induction false} NoDelimiterCount(s: string, delims: set<char>)
    requires NoDelimiter(s, delims)
    ensures CountDelimiters(s, delims) == 0
  {
    if s != [] {
      assert NoDelimiter(s[1..], delims) by {
        forall k | 0 <= k < |s[1..]| ensures s[1..][k] !in delims { assert s[1..][k] == s[k + 1]; }
      }
      NoDelimiterCount(s[1..], delims);
    }
  }

  /** A non-empty text without a delimiter becomes exactly one chunk, the text itself. */
  lemma SplitWithoutDelimiter(s: string, delims: set<char>)
    requires s != [] && NoDelimiter(s, delims)
    ensures Split(s, delims) == [s]
  {
    NoDelimiterCount(s, delims);
    assert s[|s| - 1] !in delims;
    SplitCount(s, delims);
    SplitLossless(s, delims);
    var cs := Split(s, delims);
    assert |cs| == 1;
    assert cs[1..] == [];
    assert Concat(cs) == cs[0] + Concat(cs[1..]);
    assert cs[0] == s;
    assert cs == [cs[0]];
  }

  /** A text that is not empty is replaced by at least one chunk. */
  lemma SplitNonEmpty(s: string, delims: set<char>)
    requires s != []
    ensures |Split(s, delims)| > 0
  {
    SplitLossless(s, delims);
  }

  /** One step of the global replace, for the examples below. */
  lemma SpanTextsStep(c: char, t: string, delims: set<char>, rest: seq<string>)
    requires SpanTexts(t, delims) == rest
    ensures SpanTexts([c] + t, delims) == if c in delims then [[c]] + rest else [[c] + rest[0]] + rest[1..]
  {
    assert ([c] + t)[1..] == t;
  }

  /** The default pattern cuts "A.B,C-D" after each of its three delimiters. */
  lemma SplitExample()
    ensures Split("A.B,C-D", DefaultDelimiters) == ["A.", "B,", "C-", "D"]
  {
    SpanTextsExample(DefaultDelimiters);
    SplitDropsOnlyTrailing("A.B,C-D", DefaultDelimiters);
  }

  lemma SpanTextsExample(d: set<char>)
    requires '.' in d && ',' in d && '-' in d
    requires 'A' !in d && 'B' !in d && 'C' !in d && 'D' !in d
    ensures SpanTexts("A.B,C-D", d) == ["A.", "B,", "C-", "D"]
  {
    SpanTextsExampleMiddle(d);
    assert SpanTexts(".B,C-D", d) == [".", "B,", "C-", "D"] by {
      SpanTextsStep('.', "B,C-D", d, ["B,", "C-", "D"]);
      assert ['.'] + "B,C-D" == ".B,C-D";
    }
    assert SpanTexts("A.B,C-D", d) == ["A.", "B,", "C-", "D"] by {
      SpanTextsStep('A', ".B,C-D", d, [".", "B,", "C-", "D"]);
      assert ['A'] + ".B,C-D" == "A.B,C-D";
      assert ['A'] + "." == "A.";
    }
  }

  lemma SpanTextsExampleMiddle(d: set<char>)
    requires ',' in d && '-' in d && 'B' !in d && 'C' !in d && 'D' !in d
    ensures SpanTexts("B,C-D", d) == ["B,", "C-", "D"]
  {
    SpanTextsExampleTail(d);
    assert SpanTexts(",C-D", d) == [",", "C-", "D"] by {
      SpanTextsStep(',', "C-D", d, ["C-", "D"]);
      assert [','] + "C-D" == ",C-D";
    }
    assert SpanTexts("B,C-D", d) == ["B,", "C-", "D"] by {
      SpanTextsStep('B', ",C-D", d, [",", "C-", "D"]);
      assert ['B'] + ",C-D" == "B,C-D";
      assert ['B'] + "," == "B,";
    }
  }

  lemma SpanTextsExampleTail(d: set<char>)
    requires '-' in d && 'C' !in d && 'D' !in d
    ensures SpanTexts("C-D", d) == ["C-", "D"]
  {
    assert SpanTexts("D", d) == ["D"] by {
      SpanTextsStep('D', "", d, [""]);
      assert ['D'] + "" == "D";
    }
    assert SpanTexts("-D", d) == ["-", "D"] by {
      SpanTextsStep('-', "D", d, ["D"]);
      assert ['-'] + "D" == "-D";
    }
    assert SpanTexts("C-D", d) == ["C-", "D"] by {
      SpanTextsStep('C', "-D", d, ["-", "D"]);
      assert ['C'] + "-D" == "C-D";
      assert ['C'] + "-" == "C-";
    }
  }

  /** Text after a final delimiter survives as a whitespace-only chunk. */
  lemma SplitKeepsTrailingWhitespace()
    ensures Split("Done. ", DefaultDelimiters) == ["Done.", " "]
  {
    SpanTextsTrailingWhitespace(DefaultDelimiters);
    SplitDropsOnlyTrailing("Done. ", DefaultDelimiters);
  }

  lemma SpanTextsTrailingWhitespace(d: set<char>)
    requires '.' in d
    requires 'D' !in d && 'o' !in d && 'n' !in d && 'e' !in d && ' ' !in d
    ensures SpanTexts("Done. ", d) == ["Done.", " "]
  {
    SpanTextsTrailingWhitespaceTail(d);
    assert SpanTexts("ne. ", d) == ["ne.", " "] by {
      SpanTextsStep('n', "e. ", d, ["e.", " "]);
      assert ['n'] + "e. " == "ne. ";
      assert ['n'] + "e." == "ne.";
    }
    assert SpanTexts("one. ", d) == ["one.", " "] by {
      SpanTextsStep('o', "ne. ", d, ["ne.", " "]);
      assert ['o'] + "ne. " == "one. ";
      assert ['o'] + "ne." == "one.";
    }
    assert SpanTexts("Done. ", d) == ["Done.", " "] by {
      SpanTextsStep('D', "one. ", d, ["one.", " "]);
      assert ['D'] + "one. " == "Done. ";
      assert ['D'] + "one." == "Done.";
    }
  }

  lemma SpanTextsTrailingWhitespaceTail(d: set<char>)
    requires '.' in d && 'e' !in d && ' ' !in d
    ensures SpanTexts("e. ", d) == ["e.", " "]
  {
    assert SpanTexts(" ", d) == [" "] by {
      SpanTextsStep(' ', "", d, [""]);
      assert [' '] + "" == " ";
    }
    assert SpanTexts(". ", d) == [".", " "] by {
      SpanTextsStep('.', " ", d, [" "]);
      assert ['.'] + " " == ". ";
    }
    assert SpanTexts("e. ", d) == ["e.", " "] by {
      SpanTextsStep('e', ". ", d, [".", " "]);
      assert ['e'] + ". " == "e. ";
      assert ['e'] + "." == "e.";
    }
  }
}
