/**
 * The string helpers of the pipeline tool: the shell-word lexer
 * `ParseCommandLine`, `GetFirstWord`, `RemoveSpecialCharacters` (which derives
 * the display name of a shell item) and `DiffTimeString` (an elapsed time as
 * "1d 2h 3m 4s").
 *
 * Each imperative routine is a method proved equal to a specification
 * function; the promised properties are lemmas about those functions.
 */
module StringUtils {
  import opened Wrappers

  /** Space, tab, CR and LF: the characters that separate words. */
  predicate IsBlank(c: char) {
    c == ' ' || c == '\t' || c == '\r' || c == '\n'
  }

  /** `isxdigit` in the C locale. */
  predicate IsHexDigit(c: char) {
    ('0' <= c <= '9') || ('a' <= c <= 'f') || ('A' <= c <= 'F')
  }

  predicate IsOctalDigit(c: char) {
    '0' <= c <= '7'
  }

  /** A string in which no character is blank. */
  predicate NoBlank(s: string) {
    forall k :: 0 <= k < |s| ==> !IsBlank(s[k])
  }

  // ---------------------------------------------------------------------------
  // ParseCommandLine: specification
  // ---------------------------------------------------------------------------

  /** Where a quoted span ended (the index of its closing quote) and the word built so far. */
  datatype Span = Span(close: nat, word: string)

  /**
   * The scan of a single-quoted span: `i` is just after the opening quote.
   * Every character up to and including the closing quote goes into the word.
   */
  function SingleQuoted(s: string, i: nat, word: string): (r: Option<Span>)
    decreases |s| - i
    ensures r.Some? ==> i <= r.value.close < |s| && s[r.value.close] == '\''
    ensures r.Some? ==> |r.value.word| > |word|
  {
    if i >= |s| then None
    else if s[i] == '\'' then Some(Span(i, word + [s[i]]))
    else SingleQuoted(s, i + 1, word + [s[i]])
  }

  /**
   * The scan of a double-quoted span as the source writes it: `i` is just
   * after the opening quote. A backslash is appended when it is read, and the
   * escape is appended once more (`\\x` or `\\0` with its two digits, or a
   * backslash and the letter); for `\x` and `\0` the scan resumes at the first
   * digit, so the digits go into the word a second time.
   */
  function DoubleQuoted(s: string, i: nat, word: string): (r: Option<Span>)
    decreases |s| - i
    ensures r.Some? ==> i <= r.value.close < |s| && s[r.value.close] == '"'
    ensures r.Some? ==> |r.value.word| > |word|
  {
    if i >= |s| then None
    else
      var w := word + [s[i]];
      if s[i] == '\\' then
        if i + 1 >= |s| then None
        else if s[i + 1] == 'x' then
          if i + 3 >= |s| || !IsHexDigit(s[i + 2]) || !IsHexDigit(s[i + 3]) then None
          else DoubleQuoted(s, i + 2, w + "\\x" + [s[i + 2], s[i + 3]])
        else if s[i + 1] == '0' then
          if i + 3 >= |s| || !IsOctalDigit(s[i + 2]) || !IsOctalDigit(s[i + 3]) then None
          else DoubleQuoted(s, i + 2, w + "\\0" + [s[i + 2], s[i + 3]])
        else if s[i + 1] in "trnb" then DoubleQuoted(s, i + 2, w + ['\\', s[i + 1]])
        else None
      else if s[i] == '"' then Some(Span(i, w))
      else DoubleQuoted(s, i + 1, w)
  }

  /** The word list after a separator: a non-empty pending word is pushed. */
  function Flush(word: string, words: seq<string>): (r: seq<string>)
    ensures word == "" ==> r == words
    ensures word != "" ==> r == words + [word]
  {
    if word != "" then words + [word] else words
  }

  /** The end of the input: no words at all is a rejection. */
  function Finish(word: string, words: seq<string>): (r: Option<seq<string>>)
    ensures r.Some? <==> Flush(word, words) != []
    ensures r.Some? ==> r.value == Flush(word, words)
  {
    var all := Flush(word, words);
    if all == [] then None else Some(all)
  }

  /**
   * The lexer from index `i`, with the pending `word` and the finished
   * `words`: the outer loop of ParseCommandLine. Double-quoted spans are
   * scanned as intended (`DoubleQuotedVerbatim`), not as written.
   */
  function LexFrom(s: string, i: nat, word: string, words: seq<string>): Option<seq<string>>
    decreases |s| - i
  {
    if i >= |s| then Finish(word, words)
    else if IsBlank(s[i]) then LexFrom(s, i + 1, "", Flush(word, words))
    else if s[i] == '\'' then
      match SingleQuoted(s, i + 1, word + [s[i]])
      case None => None
      case Some(sp) => LexFrom(s, sp.close + 1, sp.word, words)
    else if s[i] == '"' then
      match DoubleQuotedVerbatim(s, i + 1, word + [s[i]])
      case None => None
      case Some(sp) => LexFrom(s, sp.close + 1, sp.word, words)
    else if s[i] == '\\' then
      if i + 1 >= |s| then None
      else LexFrom(s, i + 2, word + [s[i], s[i + 1]], words)
    else LexFrom(s, i + 1, word + [s[i]], words)
  }

  /** All words of a command line (head first), or None when it is rejected. */
  function Lex(s: string): Option<seq<string>> {
    LexFrom(s, 0, "", [])
  }

  // ---------------------------------------------------------------------------
  // ParseCommandLine: the method
  // ---------------------------------------------------------------------------

  /**
   * Splits `s` into a command word and its arguments. On rejection the
   * outputs are empty (the source leaves the caller's variables untouched).
   * An escape inside double quotes is copied once, as intended.
   */
  method ParseCommandLine(s: string) returns (ok: bool, cmd: string, arguments: seq<string>)
    ensures ok <==> Lex(s).Some?
    ensures ok ==> Lex(s) == Some([cmd] + arguments)
    ensures !ok ==> cmd == "" && arguments == []
    ensures ok <==> LexAsWritten(s).Some?
    ensures ok ==> |LexAsWritten(s).value| == 1 + |arguments|
  {
    LexSameAcceptance(s);
    ok, cmd, arguments := false, "", [];
    var args: seq<string> := [];
    var word := "";
    var i := 0;
    while i < |s|
      invariant 0 <= i <= |s|
      invariant LexFrom(s, i, word, args) == Lex(s)
    {
      if IsBlank(s[i]) {
        if word != "" {
          args := args + [word];
          word := "";
        }
      } else if s[i] == '\'' || s[i] == '"' {
        var span;
        if s[i] == '\'' {
          span := ScanSingleQuoted(s, i + 1, word + [s[i]]);
        } else {
          span := ScanDoubleQuoted(s, i + 1, word + [s[i]]);
        }
        if span.None? {
          return;
        }
        i, word := span.value.close, span.value.word;
      } else if s[i] == '\\' {
        ghost var old_word := word;
        word := word + [s[i]];
        if i + 1 >= |s| {
          return;
        }
        i := i + 1;
        assert word + [s[i]] == old_word + [s[i - 1], s[i]];
        word := word + [s[i]];
      } else {
        word := word + [s[i]];
      }
      i := i + 1;
    }
    if word != "" {
      args := args + [word];
    }
    if args == [] {
      return;
    }
    assert [args[0]] + args[1..] == args;
    ok, cmd, arguments := true, args[0], args[1..];
  }

  /** The inner loop over a single-quoted span; `i` is just after the opening quote. */
  method ScanSingleQuoted(s: string, i: nat, word: string) returns (r: Option<Span>)
    ensures r == SingleQuoted(s, i, word)
  {
    var j, w := i, word;
    while j < |s|
      invariant i <= j
      invariant SingleQuoted(s, j, w) == SingleQuoted(s, i, word)
      decreases |s| - j
    {
      w := w + [s[j]];
      if s[j] == '\'' {
        return Some(Span(j, w));
      }
      j := j + 1;
    }
    return None;
  }

  /**
   * The length of the escape at `j` inside double quotes: `\x` or `\0` with
   * two digits, or a backslash and one of t, r, n, b; 0 when it is malformed.
   */
  function EscapeLength(s: string, j: nat): (n: nat)
    requires j < |s| && s[j] == '\\'
    ensures n == 0 || n == 2 || n == 4
    ensures j + n <= |s|
  {
    if j + 1 >= |s| then 0
    else if s[j + 1] == 'x' then
      if j + 3 >= |s| || !IsHexDigit(s[j + 2]) || !IsHexDigit(s[j + 3]) then 0 else 4
    else if s[j + 1] == '0' then
      if j + 3 >= |s| || !IsOctalDigit(s[j + 2]) || !IsOctalDigit(s[j + 3]) then 0 else 4
    else if s[j + 1] in "trnb" then 2
    else 0
  }

  /** The intended scan steps over a whole escape at once, or rejects a malformed one. */
  lemma VerbatimEscape(s: string, j: nat, w: string)
    requires j < |s| && s[j] == '\\'
    ensures var n := EscapeLength(s, j);
      DoubleQuotedVerbatim(s, j, w) == if n == 0 then None else DoubleQuotedVerbatim(s, j + n, w + s[j..j + n])
  {
  }

  /** The inner loop over a double-quoted span, copying each escape once; `i` is just after the opening quote. */
  method ScanDoubleQuoted(s: string, i: nat, word: string) returns (r: Option<Span>)
    ensures r == DoubleQuotedVerbatim(s, i, word)
  {
    var j, w := i, word;
    while j < |s|
      invariant i <= j
      invariant DoubleQuotedVerbatim(s, j, w) == DoubleQuotedVerbatim(s, i, word)
      decreases |s| - j
    {
      if s[j] == '\\' {
        var n := EscapeLength(s, j);
        VerbatimEscape(s, j, w);
        if n == 0 {
          return None;
        }
        w, j := w + s[j..j + n], j + n;
      } else if s[j] == '"' {
        return Some(Span(j, w + [s[j]]));
      } else {
        w, j := w + [s[j]], j + 1;
      }
    }
    return None;
  }



  // ---------------------------------------------------------------------------
  // ParseCommandLine: properties
  // ---------------------------------------------------------------------------

  /** Every word the lexer produces is non-empty. */
  lemma {:induction false} LexFromNoEmptyWord(s: string, i: nat, word: string, words: seq<string>)
    requires forall k :: 0 <= k < |words| ==> words[k] != ""
    ensures LexFrom(s, i, word, words).Some? ==>
      forall k :: 0 <= k < |LexFrom(s, i, word, words).value| ==> LexFrom(s, i, word, words).value[k] != ""
    decreases |s| - i
  {
    if i >= |s| {
    } else if IsBlank(s[i]) {
      LexFromNoEmptyWord(s, i + 1, "", Flush(word, words));
    } else if s[i] == '\'' {
      match SingleQuoted(s, i + 1, word + [s[i]])
      case None =>
      case Some(sp) => LexFromNoEmptyWord(s, sp.close + 1, sp.word, words);
    } else if s[i] == '"' {
      match DoubleQuotedVerbatim(s, i + 1, word + [s[i]])
      case None =>
      case Some(sp) => LexFromNoEmptyWord(s, sp.close + 1, sp.word, words);
    } else if s[i] == '\\' {
      if i + 1 < |s| {
        LexFromNoEmptyWord(s, i + 2, word + [s[i], s[i + 1]], words);
      }
    } else {
      LexFromNoEmptyWord(s, i + 1, word + [s[i]], words);
    }
  }

  /** Accepted input yields at least one word, none of them empty. */
  lemma LexWords(s: string)
    ensures Lex(s).Some? ==> |Lex(s).value| >= 1
    ensures Lex(s).Some? ==> forall k :: 0 <= k < |Lex(s).value| ==> Lex(s).value[k] != ""
  {
    LexFromNoEmptyWord(s, 0, "", []);
    LexFromFinishesNonEmpty(s, 0, "", []);
  }

  lemma {:induction false} LexFromFinishesNonEmpty(s: string, i: nat, word: string, words: seq<string>)
    ensures LexFrom(s, i, word, words).Some? ==> |LexFrom(s, i, word, words).value| >= 1
    decreases |s| - i
  {
    if i >= |s| {
    } else if IsBlank(s[i]) {
      LexFromFinishesNonEmpty(s, i + 1, "", Flush(word, words));
    } else if s[i] == '\'' {
      match SingleQuoted(s, i + 1, word + [s[i]])
      case None =>
      case Some(sp) => LexFromFinishesNonEmpty(s, sp.close + 1, sp.word, words);
    } else if s[i] == '"' {
      match DoubleQuotedVerbatim(s, i + 1, word + [s[i]])
      case None =>
      case Some(sp) => LexFromFinishesNonEmpty(s, sp.close + 1, sp.word, words);
    } else if s[i] == '\\' {
      if i + 1 < |s| {
        LexFromFinishesNonEmpty(s, i + 2, word + [s[i], s[i + 1]], words);
      }
    } else {
      LexFromFinishesNonEmpty(s, i + 1, word + [s[i]], words);
    }
  }

  /** A line of blanks only has no words and is rejected. */
  lemma {:induction false} LexAllBlank(s: string, i: nat)
    requires i <= |s|
    requires forall k :: i <= k < |s| ==> IsBlank(s[k])
    ensures LexFrom(s, i, "", []) == None
    decreases |s| - i
  {
    if i < |s| {
      LexAllBlank(s, i + 1);
    }
  }

  /** No quote character and no backslash: only blanks and ordinary characters. */
  predicate Plain(s: string) {
    forall k :: 0 <= k < |s| ==> s[k] != '\'' && s[k] != '"' && s[k] != '\\'
  }

  /** The end of the run of non-blank characters starting at `i`. */
  function WordEnd(s: string, i: nat): (j: nat)
    requires i <= |s|
    ensures i <= j <= |s| && (j == |s| || IsBlank(s[j]))
    ensures forall k :: i <= k < j ==> !IsBlank(s[k])
    decreases |s| - i
  {
    if i == |s| || IsBlank(s[i]) then i else WordEnd(s, i + 1)
  }

  /**
   * Reference splitting of a plain string from position `i`: skip blanks,
   * take the maximal run of non-blank characters, repeat.
   */
  function WordsFrom(s: string, i: nat): seq<string>
    requires i <= |s|
    decreases |s| - i
  {
    if i == |s| then []
    else if IsBlank(s[i]) then WordsFrom(s, i + 1)
    else
      var j := WordEnd(s, i);
      [s[i..j]] + WordsFrom(s, j)
  }

  function Words(s: string): seq<string> {
    WordsFrom(s, 0)
  }

  /** The lexer restricted to blanks and ordinary characters. */
  function PlainLex(s: string, i: nat, word: string, words: seq<string>): Option<seq<string>>
    decreases |s| - i
  {
    if i >= |s| then Finish(word, words)
    else if IsBlank(s[i]) then PlainLex(s, i + 1, "", Flush(word, words))
    else PlainLex(s, i + 1, word + [s[i]], words)
  }

  /** On a plain string the lexer takes only its blank and ordinary-character branches. */
  lemma {:induction false} LexFromIsPlainLex(s: string, i: nat, word: string, words: seq<string>)
    requires Plain(s)
    ensures LexFrom(s, i, word, words) == PlainLex(s, i, word, words)
    decreases |s| - i
  {
    if i < |s| {
      if IsBlank(s[i]) {
        LexFromIsPlainLex(s, i + 1, "", Flush(word, words));
      } else {
        assert s[i] != '\'' && s[i] != '"' && s[i] != '\\';
        LexFromIsPlainLex(s, i + 1, word + [s[i]], words);
      }
    }
  }

  /** Inside a word, the plain lexer copies the whole run of non-blank characters. */
  lemma {:induction false} PlainLexRun(s: string, i: nat, word: string, words: seq<string>)
    requires i <= |s|
    ensures PlainLex(s, i, word, words) == PlainLex(s, WordEnd(s, i), word + s[i..WordEnd(s, i)], words)
    decreases |s| - i
  {
    var j := WordEnd(s, i);
    if j == i {
      assert word + s[i..j] == word;
    } else {
      PlainLexRun(s, i + 1, word + [s[i]], words);
      assert WordEnd(s, i + 1) == j;
      assert word + [s[i]] + s[i + 1..j] == word + s[i..j];
    }
  }

  /** From a word boundary, the plain lexer yields exactly the reference words. */
  lemma {:induction false} PlainLexWords(s: string, i: nat, words: seq<string>)
    requires i <= |s|
    ensures PlainLex(s, i, "", words) == Finish("", words + WordsFrom(s, i))
    decreases |s| - i, 1
  {
    if i == |s| {
      assert words + [] == words;
    } else if IsBlank(s[i]) {
      PlainLexWords(s, i + 1, words);
    } else {
      PlainLexWord(s, i, words);
    }
  }

  /** `PlainLexWords` at the first character of a word. */
  lemma {:induction false} PlainLexWord(s: string, i: nat, words: seq<string>)
    requires i < |s| && !IsBlank(s[i])
    ensures PlainLex(s, i, "", words) == Finish("", words + WordsFrom(s, i))
    decreases |s| - i, 0
  {
    var j := WordEnd(s, i);
    var w := s[i..j];
    PlainLexRun(s, i, "", words);
    assert "" + w == w;
    assert WordsFrom(s, i) == [w] + WordsFrom(s, j);
    if j == |s| {
      assert PlainLex(s, j, w, words) == Finish("", words + [w]);
      assert words + WordsFrom(s, i) == words + [w] by { assert WordsFrom(s, j) == []; }
    } else {
      assert PlainLex(s, j, w, words) == PlainLex(s, j + 1, "", words + [w]);
      PlainLexWords(s, j + 1, words + [w]);
      assert WordsFrom(s, j) == WordsFrom(s, j + 1);
      assert words + WordsFrom(s, i) == words + [w] + WordsFrom(s, j + 1);
    }
  }

  /**
   * On a plain string, whitespace only separates: the lexer accepts exactly
   * when there is a word, and the words are the maximal blank-free runs.
   */
  lemma LexPlain(s: string)
    requires Plain(s)
    ensures Lex(s) == if Words(s) == [] then None else Some(Words(s))
  {
    LexFromIsPlainLex(s, 0, "", []);
    PlainLexWords(s, 0, []);
    assert [] + Words(s) == Words(s);
  }

  /** A single-quoted span is copied verbatim up to and including its closing quote. */
  lemma {:induction false} SingleQuotedVerbatim(s: string, i: nat, word: string)
    requires i <= |s|
    ensures SingleQuoted(s, i, word).Some? ==>
      var sp := SingleQuoted(s, i, word).value;
      sp.word == word + s[i..sp.close + 1] &&
      forall k :: i <= k < sp.close ==> s[k] != '\''
    decreases |s| - i
  {
    if i < |s| && s[i] != '\'' {
      SingleQuotedVerbatim(s, i + 1, word + [s[i]]);
      if SingleQuoted(s, i, word).Some? {
        var sp := SingleQuoted(s, i, word).value;
        assert word + [s[i]] + s[i + 1..sp.close + 1] == word + s[i..sp.close + 1];
      }
    }
  }

  /** An opening single quote without a closing one rejects the line. */
  lemma LexUnclosedSingleQuote(s: string, i: nat, word: string, words: seq<string>)
    requires i < |s| && s[i] == '\''
    requires forall k :: i < k < |s| ==> s[k] != '\''
    ensures LexFrom(s, i, word, words) == None
  {
  }

  /** An opening double quote without a closing one rejects the line. */
  lemma LexUnclosedDoubleQuote(s: string, i: nat, word: string, words: seq<string>)
    requires i < |s| && s[i] == '"'
    requires forall k :: i < k < |s| ==> s[k] != '"'
    ensures LexFrom(s, i, word, words) == None
    ensures LexFromAsWritten(s, i, word, words) == None
  {
  }

  /**
   * Inside double quotes, a backslash followed by anything but x, 0, t, r, n
   * or b (a quote included), or by nothing, rejects the line.
   */
  lemma DoubleQuotedBadEscape(s: string, i: nat, word: string)
    requires i < |s| && s[i] == '\\'
    requires i + 1 >= |s| || s[i + 1] !in "x0trnb"
    ensures DoubleQuotedVerbatim(s, i, word) == None
    ensures DoubleQuoted(s, i, word) == None
  {
  }

  /** `\x` needs two hex digits after it, and `\0` two octal digits. */
  lemma DoubleQuotedBadNumericEscape(s: string, i: nat, word: string)
    requires i + 1 < |s| && s[i] == '\\'
    requires (s[i + 1] == 'x' && (i + 3 >= |s| || !IsHexDigit(s[i + 2]) || !IsHexDigit(s[i + 3])))
          || (s[i + 1] == '0' && (i + 3 >= |s| || !IsOctalDigit(s[i + 2]) || !IsOctalDigit(s[i + 3])))
    ensures DoubleQuotedVerbatim(s, i, word) == None
    ensures DoubleQuoted(s, i, word) == None
  {
  }

  /** Outside quotes, a backslash takes the next character into the word with it. */
  lemma LexBareBackslash(s: string, i: nat, word: string, words: seq<string>)
    requires i + 1 < |s| && s[i] == '\\'
    ensures LexFrom(s, i, word, words) == LexFrom(s, i + 2, word + s[i..i + 2], words)
  {
    assert s[i..i + 2] == [s[i], s[i + 1]];
  }

  /** A backslash as the last character rejects the line. */
  lemma LexTrailingBackslash(s: string, word: string, words: seq<string>)
    requires |s| >= 1 && s[|s| - 1] == '\\'
    ensures LexFrom(s, |s| - 1, word, words) == None
  {
  }

  // ---------------------------------------------------------------------------
  // Double-quoted escapes: the evidently intended scan
  // ---------------------------------------------------------------------------

  /**
   * The double-quoted scan as evidently intended: each escape is copied once,
   * and the two digits of `\x` and `\0` are stepped over.
   */
  function DoubleQuotedVerbatim(s: string, i: nat, word: string): (r: Option<Span>)
    decreases |s| - i
    ensures r.Some? ==> i <= r.value.close < |s| && s[r.value.close] == '"'
  {
    if i >= |s| then None
    else if s[i] == '\\' then
      if i + 1 >= |s| then None
      else if s[i + 1] == 'x' then
        if i + 3 >= |s| || !IsHexDigit(s[i + 2]) || !IsHexDigit(s[i + 3]) then None
        else DoubleQuotedVerbatim(s, i + 4, word + s[i..i + 4])
      else if s[i + 1] == '0' then
        if i + 3 >= |s| || !IsOctalDigit(s[i + 2]) || !IsOctalDigit(s[i + 3]) then None
        else DoubleQuotedVerbatim(s, i + 4, word + s[i..i + 4])
      else if s[i + 1] in "trnb" then DoubleQuotedVerbatim(s, i + 2, word + s[i..i + 2])
      else None
    else if s[i] == '"' then Some(Span(i, word + [s[i]]))
    else DoubleQuotedVerbatim(s, i + 1, word + [s[i]])
  }

  lemma Assoc<T>(a: seq<T>, b: seq<T>, c: seq<T>)
    ensures (a + b) + c == a + (b + c)
  {
  }

  /** The intended scan copies the double-quoted span verbatim, closing quote included. */
  lemma {:induction false} DoubleQuotedVerbatimCopies(s: string, i: nat, word: string)
    requires i <= |s|
    ensures DoubleQuotedVerbatim(s, i, word).Some? ==>
      var sp := DoubleQuotedVerbatim(s, i, word).value;
      sp.word == word + s[i..sp.close + 1]
    decreases |s| - i
  {
    if i < |s| && DoubleQuotedVerbatim(s, i, word).Some? {
      var sp := DoubleQuotedVerbatim(s, i, word).value;
      var c := sp.close;
      if s[i] != '"' {
        var n := if s[i] != '\\' then 1 else if s[i + 1] == 'x' || s[i + 1] == '0' then 4 else 2;
        var w := word + s[i..i + n];
        assert DoubleQuotedVerbatim(s, i, word) == DoubleQuotedVerbatim(s, i + n, w) by {
          if s[i] != '\\' {
            assert w == word + [s[i]];
          }
        }
        DoubleQuotedVerbatimCopies(s, i + n, w);
        assert sp.word == w + s[i + n..c + 1];
        assert s[i..c + 1] == s[i..i + n] + s[i + n..c + 1];
        Assoc(word, s[i..i + n], s[i + n..c + 1]);
      } else {
        assert s[i..c + 1] == [s[i]];
      }
    }
  }

  /**
   * The intended scan accepts and rejects exactly the spans the source's scan
   * does, and closes at the same quote: only the word differs.
   */
  lemma {:induction false} DoubleQuotedSameAcceptance(s: string, i: nat, w1: string, w2: string)
    ensures DoubleQuotedVerbatim(s, i, w1).Some? <==> DoubleQuoted(s, i, w2).Some?
    ensures DoubleQuoted(s, i, w2).Some? ==>
      DoubleQuotedVerbatim(s, i, w1).value.close == DoubleQuoted(s, i, w2).value.close
    decreases |s| - i
  {
    if i < |s| {
      var w := w2 + [s[i]];
      if s[i] == '\\' {
        if i + 1 < |s| {
          if (s[i + 1] == 'x' || s[i + 1] == '0') && i + 3 < |s| {
            var ok := if s[i + 1] == 'x' then IsHexDigit(s[i + 2]) && IsHexDigit(s[i + 3])
                      else IsOctalDigit(s[i + 2]) && IsOctalDigit(s[i + 3]);
            if ok {
              var w' := w + [s[i], s[i + 1]] + [s[i + 2], s[i + 3]];
              assert DoubleQuoted(s, i, w2) == DoubleQuoted(s, i + 2, w');
              assert DoubleQuoted(s, i + 2, w') == DoubleQuoted(s, i + 3, w' + [s[i + 2]]);
              assert DoubleQuoted(s, i + 3, w' + [s[i + 2]])
                  == DoubleQuoted(s, i + 4, w' + [s[i + 2]] + [s[i + 3]]);
              DoubleQuotedSameAcceptance(s, i + 4, w1 + s[i..i + 4], w' + [s[i + 2]] + [s[i + 3]]);
            }
          } else if s[i + 1] in "trnb" {
            DoubleQuotedSameAcceptance(s, i + 2, w1 + s[i..i + 2], w + ['\\', s[i + 1]]);
          }
        }
      } else if s[i] != '"' {
        DoubleQuotedSameAcceptance(s, i + 1, w1 + [s[i]], w);
      }
    }
  }

  /**
   * As written, the span `"\t"` becomes the word `"\\t"` (the backslash is
   * doubled) and `"\x41"` becomes `"\\x4141"`; the intended scan keeps both
   * spans as they are.
   */
  lemma EscapesAsWritten()
    ensures DoubleQuoted("\"\\t\"", 1, "\"") == Some(Span(3, "\"\\\\t\""))
    ensures DoubleQuotedVerbatim("\"\\t\"", 1, "\"") == Some(Span(3, "\"\\t\""))
    ensures DoubleQuoted("\"\\x41\"", 1, "\"") == Some(Span(5, "\"\\\\x4141\""))
    ensures DoubleQuotedVerbatim("\"\\x41\"", 1, "\"") == Some(Span(5, "\"\\x41\""))
  {
    var t := "\"\\t\"";
    assert "\"" + [t[1]] + ['\\', t[2]] == "\"\\\\t";
    assert "\"" + t[1..3] == "\"\\t";
    assert t[1] == '\\' && t[2] == 't' && t[2] in "trnb" && t[3] == '"';
    assert DoubleQuoted(t, 1, "\"") == DoubleQuoted(t, 3, "\"\\\\t");
    assert DoubleQuotedVerbatim(t, 1, "\"") == DoubleQuotedVerbatim(t, 3, "\"\\t");
    assert "\"\\\\t" + [t[3]] == "\"\\\\t\"";
    assert "\"\\t" + [t[3]] == "\"\\t\"";
    var x := "\"\\x41\"";
    assert x[1] == '\\' && x[2] == 'x' && x[3] == '4' && x[4] == '1' && x[5] == '"';
    assert IsHexDigit(x[3]) && IsHexDigit(x[4]);
    assert "\"" + [x[1]] + "\\x" + [x[3], x[4]] == "\"\\\\x41";
    assert "\"\\\\x41" + [x[3]] == "\"\\\\x414";
    assert "\"\\\\x414" + [x[4]] == "\"\\\\x4141";
    assert "\"" + x[1..5] == "\"\\x41";
    assert DoubleQuoted(x, 1, "\"") == DoubleQuoted(x, 3, "\"\\\\x41");
    assert DoubleQuoted(x, 3, "\"\\\\x41") == DoubleQuoted(x, 4, "\"\\\\x414");
    assert DoubleQuoted(x, 4, "\"\\\\x414") == DoubleQuoted(x, 5, "\"\\\\x4141");
    assert DoubleQuotedVerbatim(x, 1, "\"") == DoubleQuotedVerbatim(x, 5, "\"\\x41");
    assert "\"\\\\x4141" + [x[5]] == "\"\\\\x4141\"";
    assert "\"\\x41" + [x[5]] == "\"\\x41\"";
  }

  /** On the whole line `"\t"`, the source's lexer yields the word with a doubled backslash. */
  lemma LineEscapeAsWritten()
    ensures Lex("\"\\t\"") == Some(["\"\\t\""])
    ensures LexAsWritten("\"\\t\"") == Some(["\"\\\\t\""])
  {
    var t := "\"\\t\"";
    EscapesAsWritten();
    assert t[0] == '"' && "" + [t[0]] == "\"";
    assert |t| == 4 && ([] + ["\"\\t\""]) == ["\"\\t\""] && ([] + ["\"\\\\t\""]) == ["\"\\\\t\""];
    assert Lex(t) == LexFrom(t, 4, "\"\\t\"", []) == Finish("\"\\t\"", []);
    assert LexAsWritten(t) == LexFromAsWritten(t, 4, "\"\\\\t\"", []) == Finish("\"\\\\t\"", []);
  }

  /** Where a single-quoted span closes does not depend on the word built before it. */
  lemma {:induction false} SingleQuotedSameClose(s: string, i: nat, w1: string, w2: string)
    ensures SingleQuoted(s, i, w1).Some? <==> SingleQuoted(s, i, w2).Some?
    ensures SingleQuoted(s, i, w1).Some? ==> SingleQuoted(s, i, w1).value.close == SingleQuoted(s, i, w2).value.close
    decreases |s| - i
  {
    if i < |s| && s[i] != '\'' {
      SingleQuotedSameClose(s, i + 1, w1 + [s[i]], w2 + [s[i]]);
    }
  }

  /**
   * The lexer as the source writes it: `LexFrom` with the written scan of
   * double-quoted spans, `DoubleQuoted`.
   */
  function LexFromAsWritten(s: string, i: nat, word: string, words: seq<string>): Option<seq<string>>
    decreases |s| - i
  {
    if i >= |s| then Finish(word, words)
    else if IsBlank(s[i]) then LexFromAsWritten(s, i + 1, "", Flush(word, words))
    else if s[i] == '\'' then
      match SingleQuoted(s, i + 1, word + [s[i]])
      case None => None
      case Some(sp) => LexFromAsWritten(s, sp.close + 1, sp.word, words)
    else if s[i] == '"' then
      match DoubleQuoted(s, i + 1, word + [s[i]])
      case None => None
      case Some(sp) => LexFromAsWritten(s, sp.close + 1, sp.word, words)
    else if s[i] == '\\' then
      if i + 1 >= |s| then None
      else LexFromAsWritten(s, i + 2, word + [s[i], s[i + 1]], words)
    else LexFromAsWritten(s, i + 1, word + [s[i]], words)
  }

  /** `ParseCommandLine` as written: all words of a line, or None when it is rejected. */
  function LexAsWritten(s: string): Option<seq<string>> {
    LexFromAsWritten(s, 0, "", [])
  }

  /**
   * From the same position, with a pending word in both or in neither and as
   * many finished words, the intended and the written lexer accept the same
   * lines and find as many words.
   */
  lemma {:induction false} LexFromSameAcceptance(s: string, i: nat, w1: string, ws1: seq<string>, w2: string, ws2: seq<string>)
    requires (w1 == "" <==> w2 == "") && |ws1| == |ws2|
    ensures LexFrom(s, i, w1, ws1).Some? <==> LexFromAsWritten(s, i, w2, ws2).Some?
    ensures LexFrom(s, i, w1, ws1).Some? ==> |LexFrom(s, i, w1, ws1).value| == |LexFromAsWritten(s, i, w2, ws2).value|
    decreases |s| - i
  {
    if i >= |s| {
    } else if IsBlank(s[i]) {
      LexFromSameAcceptance(s, i + 1, "", Flush(w1, ws1), "", Flush(w2, ws2));
    } else if s[i] == '\'' {
      SingleQuotedSameClose(s, i + 1, w1 + [s[i]], w2 + [s[i]]);
      var r1 := SingleQuoted(s, i + 1, w1 + [s[i]]);
      var r2 := SingleQuoted(s, i + 1, w2 + [s[i]]);
      if r1.Some? {
        LexFromSameAcceptance(s, r1.value.close + 1, r1.value.word, ws1, r2.value.word, ws2);
      }
    } else if s[i] == '"' {
      DoubleQuotedSameAcceptance(s, i + 1, w1 + [s[i]], w2 + [s[i]]);
      DoubleQuotedVerbatimCopies(s, i + 1, w1 + [s[i]]);
      var r1 := DoubleQuotedVerbatim(s, i + 1, w1 + [s[i]]);
      var r2 := DoubleQuoted(s, i + 1, w2 + [s[i]]);
      if r1.Some? {
        LexFromSameAcceptance(s, r1.value.close + 1, r1.value.word, ws1, r2.value.word, ws2);
      }
    } else if s[i] == '\\' {
      if i + 1 < |s| {
        LexFromSameAcceptance(s, i + 2, w1 + [s[i], s[i + 1]], ws1, w2 + [s[i], s[i + 1]], ws2);
      }
    } else {
      LexFromSameAcceptance(s, i + 1, w1 + [s[i]], ws1, w2 + [s[i]], ws2);
    }
  }

  /**
   * The corrected lexer rejects exactly the lines the source's lexer rejects,
   * and splits an accepted line into as many words: only the text of words
   * with double-quoted escapes differs.
   */
  lemma LexSameAcceptance(s: string)
    ensures Lex(s).Some? <==> LexAsWritten(s).Some?
    ensures Lex(s).Some? ==> |Lex(s).value| == |LexAsWritten(s).value|
  {
    LexFromSameAcceptance(s, 0, "", [], "", []);
  }

  // ---------------------------------------------------------------------------
  // GetFirstWord
  // ---------------------------------------------------------------------------

  /** The prefix of `s` before its first blank, or all of `s` when it has none. */
  function GetFirstWord(s: string): (r: string)
    ensures r <= s && NoBlank(r)
    ensures r == s || IsBlank(s[|r|])
  {
    if s == [] || IsBlank(s[0]) then "" else [s[0]] + GetFirstWord(s[1..])
  }

  /** The three properties of GetFirstWord's contract pin its result down. */
  lemma FirstWordUnique(s: string, p: string)
    requires p <= s && NoBlank(p)
    requires p == s || IsBlank(s[|p|])
    ensures p == GetFirstWord(s)
  {
    var r := GetFirstWord(s);
    if |r| < |p| {
      assert false;
    } else if |p| < |r| {
      assert false;
    }
  }

  // ---------------------------------------------------------------------------
  // RemoveSpecialCharacters
  // ---------------------------------------------------------------------------

  /** The characters a display name keeps: `[-_+0-9A-Za-z]`. */
  predicate IsNameChar(c: char) {
    c == '-' || c == '_' || c == '+' || ('0' <= c <= '9') || ('A' <= c <= 'Z') || ('a' <= c <= 'z')
  }

  /** The name characters of `s`, in order. */
  function KeepNameChars(s: string): (r: string)
    ensures forall k :: 0 <= k < |r| ==> IsNameChar(r[k])
  {
    if s == [] then ""
    else KeepNameChars(s[..|s| - 1]) + (if IsNameChar(s[|s| - 1]) then [s[|s| - 1]] else "")
  }

  /** The display name of a shell command: the name characters of its first word. */
  function DisplayName(s: string): string {
    KeepNameChars(GetFirstWord(s))
  }

  /** Copies the name characters of `s` until the first blank. */
  method RemoveSpecialCharacters(s: string) returns (t: string)
    ensures t == DisplayName(s)
  {
    t := "";
    var i := 0;
    while i < |s|
      invariant 0 <= i <= |s|
      invariant NoBlank(s[..i])
      invariant t == KeepNameChars(s[..i])
    {
      assert s[..i + 1][..i] == s[..i];
      if s[i] == '-' || s[i] == '_' || s[i] == '+' ||
          ('0' <= s[i] <= '9') || ('A' <= s[i] <= 'Z') || ('a' <= s[i] <= 'z') {
        t := t + [s[i]];
      } else if s[i] == ' ' || s[i] == '\t' || s[i] == '\r' || s[i] == '\n' {
        break;
      }
      i := i + 1;
    }
    assert i == |s| ==> s[..i] == s;
    FirstWordUnique(s, s[..i]);
  }

  /** `a` can be obtained from `b` by deleting characters. */
  predicate IsSubsequence(a: string, b: string)
    decreases |b|
  {
    if a == [] then true
    else if b == [] then false
    else if a[|a| - 1] == b[|b| - 1] then IsSubsequence(a[..|a| - 1], b[..|b| - 1])
    else IsSubsequence(a, b[..|b| - 1])
  }

  lemma {:induction false} KeepNameCharsIsSubsequence(s: string)
    ensures IsSubsequence(KeepNameChars(s), s)
    decreases |s|
  {
    if s != [] {
      var init := s[..|s| - 1];
      KeepNameCharsIsSubsequence(init);
      if !IsNameChar(s[|s| - 1]) {
        assert KeepNameChars(s) == KeepNameChars(init) + "" == KeepNameChars(init);
        SubsequenceOfLonger(KeepNameChars(init), init, s);
      } else {
        var r := KeepNameChars(s);
        assert r[..|r| - 1] == KeepNameChars(init);
      }
    }
  }

  lemma {:induction false} SubsequenceOfLonger(a: string, b: string, c: string)
    requires IsSubsequence(a, b) && |c| == |b| + 1 && c[..|b|] == b
    ensures IsSubsequence(a, c)
    decreases |b|, 1
  {
    if a != [] && a[|a| - 1] == c[|c| - 1] {
      SubsequenceDropLast(a, b);
    }
  }

  lemma {:induction false} SubsequenceDropLast(a: string, b: string)
    requires a != [] && IsSubsequence(a, b)
    ensures IsSubsequence(a[..|a| - 1], b)
    decreases |b|, 0
  {
    if a[|a| - 1] != b[|b| - 1] {
      SubsequenceDropLast(a, b[..|b| - 1]);
    }
    SubsequenceOfLonger(a[..|a| - 1], b[..|b| - 1], b);
  }

  /**
   * The display name holds only name characters, and it is a subsequence of
   * the part of `s` before the first blank.
   */
  lemma DisplayNameShape(s: string)
    ensures forall k :: 0 <= k < |DisplayName(s)| ==> IsNameChar(DisplayName(s)[k])
    ensures IsSubsequence(DisplayName(s), GetFirstWord(s))
  {
    KeepNameCharsIsSubsequence(GetFirstWord(s));
  }

  lemma {:induction false} KeepNameCharsOfNameChars(s: string)
    requires forall k :: 0 <= k < |s| ==> IsNameChar(s[k])
    ensures KeepNameChars(s) == s
    decreases |s|
  {
    if s != [] {
      KeepNameCharsOfNameChars(s[..|s| - 1]);
      assert s[..|s| - 1] + [s[|s| - 1]] == s;
    }
  }

  /** Taking the display name twice changes nothing. */
  lemma DisplayNameIdempotent(s: string)
    ensures DisplayName(DisplayName(s)) == DisplayName(s)
  {
    var d := DisplayName(s);
    assert NoBlank(d);
    FirstWordUnique(d, d);
    KeepNameCharsOfNameChars(d);
  }

  // ---------------------------------------------------------------------------
  // DiffTimeString
  // ---------------------------------------------------------------------------

  /** The decimal digit of a value below ten. */
  function Digit(d: nat): char
    requires d < 10
  {
    "0123456789"[d]
  }

  /** `std::to_string` of a non-negative value: decimal, no leading zero. */
  function NatToString(n: nat): (r: string)
    ensures |r| >= 1
    ensures forall k :: 0 <= k < |r| ==> '0' <= r[k] <= '9'
    ensures r[0] == '0' ==> n == 0
  {
    if n < 10 then [Digit(n)] else NatToString(n / 10) + [Digit(n % 10)]
  }

  /** `std::to_string` of any `int`. */
  function IntToString(n: int): (r: string)
    ensures n < 0 ==> r == "-" + NatToString(-n)
    ensures n >= 0 ==> r == NatToString(n)
  {
    if n < 0 then "-" + NatToString(-n) else NatToString(n)
  }

  /** Reads a string of decimal digits back. */
  function ParseDecimal(s: string): nat
    requires forall k :: 0 <= k < |s| ==> '0' <= s[k] <= '9'
  {
    if s == [] then 0 else 10 * ParseDecimal(s[..|s| - 1]) + (s[|s| - 1] - '0') as nat
  }

  /** The decimal rendering reads back as the same number. */
  lemma {:induction false} DecimalRoundTrip(n: nat)
    ensures ParseDecimal(NatToString(n)) == n
    decreases n
  {
    var r := NatToString(n);
    DigitValue(n % 10);
    if n >= 10 {
      DecimalRoundTrip(n / 10);
      var p := NatToString(n / 10);
      assert r == p + [Digit(n % 10)];
      assert r[..|r| - 1] == p;
      assert ParseDecimal(r) == 10 * (n / 10) + n % 10;
    }
  }

  /** A digit character reads back as its value. */
  lemma DigitValue(d: nat)
    requires d < 10
    ensures (Digit(d) - '0') as nat == d
  {
  }

  /** One part of a duration: an amount and its unit, one of d, h, m, s. */
  datatype Part = Part(amount: nat, unit: char)

  function UnitSeconds(u: char): nat {
    if u == 'd' then 86400 else if u == 'h' then 3600 else if u == 'm' then 60 else 1
  }

  /** The position of a unit in the order d, h, m, s. */
  function UnitRank(u: char): nat {
    if u == 'd' then 0 else if u == 'h' then 1 else if u == 'm' then 2 else 3
  }

  /** The seconds a list of parts adds up to. */
  function Total(ps: seq<Part>): nat {
    if ps == [] then 0 else ps[0].amount * UnitSeconds(ps[0].unit) + Total(ps[1..])
  }

  /**
   * The parts of a non-negative elapsed time: whole days, then hours, minutes
   * and seconds of the remainder, each only when non-zero, except that zero
   * seconds is shown when nothing else is.
   */
  function DurationParts(e: nat): seq<Part> {
    var d, h, m, sec := e / 86400, e % 86400 / 3600, e % 3600 / 60, e % 60;
    Parts(d, h, m, sec, e == 0)
  }

  /** Days, hours, minutes and seconds, each shown when non-zero; seconds also when `zero`. */
  function Parts(d: nat, h: nat, m: nat, sec: nat, zero: bool): seq<Part> {
    Optional(Part(d, 'd'), d > 0) + Optional(Part(h, 'h'), h > 0) + Optional(Part(m, 'm'), m > 0)
    + Optional(Part(sec, 's'), sec > 0 || zero)
  }

  /** A part that is shown only under a condition. */
  function Optional(p: Part, show: bool): seq<Part> {
    if show then [p] else []
  }

  function PartText(p: Part): string {
    NatToString(p.amount) + [p.unit]
  }

  /** The parts' texts joined by single spaces. */
  function RenderParts(ps: seq<Part>): (r: string)
    ensures ps != [] ==> r != ""
  {
    if ps == [] then ""
    else RenderParts(ps[..|ps| - 1]) + (if |ps| == 1 then "" else " ") + PartText(ps[|ps| - 1])
  }

  /** Adding up two lists of parts one after the other. */
  lemma {:induction false} TotalAppend(a: seq<Part>, b: seq<Part>)
    ensures Total(a + b) == Total(a) + Total(b)
    decreases |a|
  {
    if a != [] {
      assert (a + b)[1..] == a[1..] + b;
      TotalAppend(a[1..], b);
    } else {
      assert a + b == b;
    }
  }

  /** The parts of an elapsed time add up to exactly that time. */
  lemma DurationTotal(e: nat)
    ensures Total(DurationParts(e)) == e
  {
    var d, h, m, sec := e / 86400, e % 86400 / 3600, e % 3600 / 60, e % 60;
    PartsTotal(d, h, m, sec, e == 0);
    StagedSum(e);
  }

  /** The parts built as DurationParts builds them add up to the weighted amounts. */
  lemma PartsTotal(d: nat, h: nat, m: nat, sec: nat, zero: bool)
    ensures Total(Parts(d, h, m, sec, zero)) == d * 86400 + h * 3600 + m * 60 + sec
  {
    var pd, ph, pm := Optional(Part(d, 'd'), d > 0), Optional(Part(h, 'h'), h > 0), Optional(Part(m, 'm'), m > 0);
    var ps := Optional(Part(sec, 's'), sec > 0 || zero);
    TotalAppend(pd + ph + pm, ps);
    TotalAppend(pd + ph, pm);
    TotalAppend(pd, ph);
    TotalOptional(Part(d, 'd'), d > 0);
    TotalOptional(Part(h, 'h'), h > 0);
    TotalOptional(Part(m, 'm'), m > 0);
    TotalOptional(Part(sec, 's'), sec > 0 || zero);
  }

  /** A part that is not shown has a zero amount, so it adds nothing either way. */
  lemma TotalOptional(p: Part, show: bool)
    requires show || p.amount == 0
    ensures Total(Optional(p, show)) == p.amount * UnitSeconds(p.unit)
  {
  }

  /** Days, hours, minutes and seconds of the staged remainders recompose the time. */
  lemma StagedSum(e: nat)
    ensures e == e / 86400 * 86400 + e % 86400 / 3600 * 3600 + e % 3600 / 60 * 60 + e % 60
  {
    StagedRemainders(e);
    assert e == e / 86400 * 86400 + e % 86400;
    assert e % 86400 == e % 86400 / 3600 * 3600 + e % 3600;
    assert e % 3600 == e % 3600 / 60 * 60 + e % 60;
  }

  predicate IsUnit(u: char) {
    u == 'd' || u == 'h' || u == 'm' || u == 's'
  }

  /** A unit with its amount in range: hours below 24, minutes and seconds below 60. */
  predicate PartOk(p: Part) {
    IsUnit(p.unit) && (p.unit == 'h' ==> p.amount < 24) && (p.unit == 'm' || p.unit == 's' ==> p.amount < 60)
  }

  /** Every part in range, and the units strictly in the order d, h, m, s. */
  predicate Ordered(ps: seq<Part>) {
    (forall k :: 0 <= k < |ps| ==> PartOk(ps[k]))
    && (forall i, j :: 0 <= i < j < |ps| ==> UnitRank(ps[i].unit) < UnitRank(ps[j].unit))
  }

  /**
   * The shape DiffTimeString promises: units in the order d, h, m, s, each at
   * most once; hours below 24, minutes and seconds below 60; no zero amount,
   * except a lone "0s".
   */
  predicate Canonical(ps: seq<Part>) {
    Ordered(ps)
    && (ps == [Part(0, 's')] || Positive(ps))
    && ps != []
  }

  predicate Positive(ps: seq<Part>) {
    forall k :: 0 <= k < |ps| ==> ps[k].amount > 0
  }

  /** Every unit ranks below `rank`. */
  predicate Below(ps: seq<Part>, rank: nat) {
    forall k :: 0 <= k < |ps| ==> UnitRank(ps[k].unit) < rank
  }

  /** The parts of every elapsed time have the promised shape. */
  lemma DurationCanonical(e: nat)
    ensures Canonical(DurationParts(e))
  {
    var d, h, m, sec := e / 86400, e % 86400 / 3600, e % 3600 / 60, e % 60;
    assert h < 24 && m < 60 && sec < 60;
    assert d == 0 && h == 0 && m == 0 && sec == 0 ==> e == 0 by {
      StagedRemainders(e);
    }
    PartsCanonical(d, h, m, sec, e == 0);
  }

  /**
   * Appending a part in range, whose unit comes after every unit already
   * there, keeps a list ordered; so does appending nothing.
   */
  lemma OrderedAppend(q: seq<Part>, p: Part, show: bool) returns (r: seq<Part>)
    requires Ordered(q) && Below(q, UnitRank(p.unit))
    requires show ==> PartOk(p)
    ensures r == q + Optional(p, show)
    ensures Ordered(r) && Below(r, UnitRank(p.unit) + 1)
  {
    r := q + Optional(p, show);
    if !show {
      assert r == q;
    }
  }

  /** The parts built from in-range amounts, as DurationParts builds them, have the promised shape. */
  lemma PartsCanonical(d: nat, h: nat, m: nat, sec: nat, zero: bool)
    requires h < 24 && m < 60 && sec < 60
    requires zero ==> d == 0 && h == 0 && m == 0 && sec == 0
    requires d == 0 && h == 0 && m == 0 && sec == 0 ==> zero
    ensures Canonical(Parts(d, h, m, sec, zero))
  {
    PartsOrdered(d, h, m, sec, zero);
    if zero {
      assert Parts(d, h, m, sec, zero) == [Part(0, 's')];
    } else {
      PartsPositive(d, h, m, sec);
    }
  }

  /** In-range amounts give parts in range and in unit order. */
  lemma PartsOrdered(d: nat, h: nat, m: nat, sec: nat, zero: bool)
    requires h < 24 && m < 60 && sec < 60
    ensures Ordered(Parts(d, h, m, sec, zero))
  {
    var pd := OrderedAppend([], Part(d, 'd'), d > 0);
    var ph := OrderedAppend(pd, Part(h, 'h'), h > 0);
    var pm := OrderedAppend(ph, Part(m, 'm'), m > 0);
    var ps := OrderedAppend(pm, Part(sec, 's'), sec > 0 || zero);
    assert pd == Optional(Part(d, 'd'), d > 0);
  }

  /** Without the lone zero, every part shown has a positive amount, and some part is shown. */
  lemma PartsPositive(d: nat, h: nat, m: nat, sec: nat)
    requires d > 0 || h > 0 || m > 0 || sec > 0
    ensures Positive(Parts(d, h, m, sec, false)) && Parts(d, h, m, sec, false) != []
  {
    var r := Parts(d, h, m, sec, false);
    forall k | 0 <= k < |r|
      ensures r[k].amount > 0
    {
    }
  }

  /** The arithmetic facts behind the staged remainders of DiffTimeString. */
  lemma StagedRemainders(e: nat)
    ensures e >= 86400 <==> e / 86400 > 0
    ensures e < 86400 ==> e % 86400 == e
    ensures e % 86400 >= 3600 <==> e % 86400 / 3600 > 0
    ensures e % 86400 < 3600 ==> e % 86400 == e % 3600
    ensures e % 86400 % 3600 == e % 3600
    ensures e % 3600 >= 60 <==> e % 3600 / 60 > 0
    ensures e % 3600 < 60 ==> e % 3600 == e % 60
    ensures e % 3600 % 60 == e % 60
    ensures e / 86400 == 0 && e % 86400 / 3600 == 0 && e % 3600 / 60 == 0 ==> e % 60 == e
  {
  }

  /** Renders an elapsed number of seconds as "1d 2h 3m 4s". */
  method DiffTimeString(elapsed: int) returns (s: string)
    ensures elapsed >= 0 ==> s == RenderParts(DurationParts(elapsed))
    ensures elapsed < 0 ==> s == IntToString(elapsed) + "s"
  {
    if elapsed < 0 {
      // every stage is skipped for a negative time
      s := IntToString(elapsed) + "s";
      return;
    }
    StagedRemainders(elapsed);
    ghost var d, h, m, sec := elapsed / 86400, elapsed % 86400 / 3600, elapsed % 3600 / 60, elapsed % 60;
    ghost var parts: seq<Part> := [];
    var e: nat := elapsed;
    s := "";
    s, parts, e := AppendStage(s, parts, e, 'd', 86400);
    assert e == elapsed % 86400 && parts == Optional(Part(d, 'd'), d > 0);
    ghost var pd := parts;
    s, parts, e := AppendStage(s, parts, e, 'h', 3600);
    assert e == elapsed % 3600 && parts == pd + Optional(Part(h, 'h'), h > 0);
    ghost var ph := parts;
    s, parts, e := AppendStage(s, parts, e, 'm', 60);
    assert e == sec && parts == ph + Optional(Part(m, 'm'), m > 0);
    assert parts == [] <==> d == 0 && h == 0 && m == 0;
    RenderedEmpty(parts);
    assert (s == "" || e > 0) <==> (sec > 0 || elapsed == 0);
    s, parts := AppendSeconds(s, parts, e);
  }

  /** The last stage of DiffTimeString: the seconds are shown when nonzero or when nothing was shown yet. */
  method AppendSeconds(s: string, ghost parts: seq<Part>, e: nat) returns (s': string, ghost parts': seq<Part>)
    requires s == RenderParts(parts)
    ensures parts' == parts + Optional(Part(e, 's'), s == "" || e > 0)
    ensures s' == RenderParts(parts')
  {
    s', parts' := s, parts;
    if s == "" || e > 0 {
      AppendPart(s, parts, Part(e, 's'));
      s' := s + (if s == "" then "" else " ") + IntToString(e) + "s";
      parts' := parts + [Part(e, 's')];
    }
  }

  /** One stage of DiffTimeString: the whole units of `size` seconds are shown when there is one, and the rest is kept. */
  method AppendStage(s: string, ghost parts: seq<Part>, e: nat, unit: char, size: nat)
    returns (s': string, ghost parts': seq<Part>, e': nat)
    requires size > 0 && s == RenderParts(parts)
    ensures parts' == parts + Optional(Part(e / size, unit), e >= size)
    ensures s' == RenderParts(parts')
    ensures e' == if e >= size then e % size else e
  {
    s', parts', e' := s, parts, e;
    if e >= size {
      AppendPart(s, parts, Part(e / size, unit));
      s' := s + (if s == "" then "" else " ") + IntToString(e / size) + [unit];
      parts' := parts + [Part(e / size, unit)];
      e' := e % size;
    }
  }


  /** Only the empty list of parts renders as the empty text. */
  lemma RenderedEmpty(ps: seq<Part>)
    ensures RenderParts(ps) == "" <==> ps == []
  {
  }

  /** One step of DiffTimeString: the text grows exactly as the rendering of one more part. */
  lemma AppendPart(s: string, ps: seq<Part>, p: Part)
    requires s == RenderParts(ps)
    ensures s + (if s == "" then "" else " ") + IntToString(p.amount) + [p.unit] == RenderParts(ps + [p])
    ensures RenderParts(ps + [p]) != ""
  {
    assert (ps + [p])[..|ps|] == ps;
    assert s == "" <==> ps == [];
  }
}
