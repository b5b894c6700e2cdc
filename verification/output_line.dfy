/**
 * The output of a run: one pull-request number per namespace on the delete
 * list, taken as the second `-`-separated field of its name, serialised as
 * `matrix=` followed by the JSON object `{"pr_numbers": [...]}` written with
 * the default separators of Python's `json.dumps` (", " and ": ") and its
 * default ASCII-only string escaping.
 */
module OutputLine {
  import opened Wrappers
  import opened NamespaceFilter

  /** Python's `str.join` with a one-character separator. */
  function Join(parts: seq<string>, sep: char): string
  {
    if parts == [] then ""
    else if |parts| == 1 then parts[0]
    else parts[0] + [sep] + Join(parts[1..], sep)
  }

  /**
   * Python's `str.split` with a one-character separator: the pieces between
   * the separators, so that joining them again gives back the string.
   */
  function Split(s: string, sep: char): (parts: seq<string>)
    ensures |parts| >= 1
    ensures forall i :: 0 <= i < |parts| ==> sep !in parts[i]
    ensures Join(parts, sep) == s
  {
    if s == [] then [[]]
    else if s[0] == sep then [[]] + Split(s[1..], sep)
    else
      var rest := Split(s[1..], sep);
      [[s[0]] + rest[0]] + rest[1..]
  }

  /** Text with no separator in it splits into itself alone. */
  lemma {:induction false} SplitWithoutSep(a: string, sep: char)
    requires sep !in a
    ensures Split(a, sep) == [a]
  {
    if a != [] {
      assert sep !in a[1..];
      SplitWithoutSep(a[1..], sep);
      assert a == [a[0]] + a[1..];
    }
  }

  /** Splitting at the first separator gives the text before it, then the rest split. */
  lemma {:induction false} SplitAtFirstSep(a: string, sep: char, b: string)
    requires sep !in a
    ensures Split(a + [sep] + b, sep) == [a] + Split(b, sep)
  {
    if a == [] {
      assert a + [sep] + b == [sep] + b;
      assert ([sep] + b)[1..] == b;
    } else {
      var s := a + [sep] + b;
      assert s[1..] == a[1..] + [sep] + b;
      assert sep !in a[1..];
      SplitAtFirstSep(a[1..], sep, b);
      assert a == [a[0]] + a[1..];
    }
  }

  /** `Split` is the only way to cut a string into separator-free pieces that join back to it. */
  lemma {:induction false} SplitUnique(parts: seq<string>, sep: char)
    requires |parts| >= 1
    requires forall i :: 0 <= i < |parts| ==> sep !in parts[i]
    ensures Split(Join(parts, sep), sep) == parts
  {
    if |parts| == 1 {
      SplitWithoutSep(parts[0], sep);
    } else {
      assert sep !in parts[0];
      SplitAtFirstSep(parts[0], sep, Join(parts[1..], sep));
      SplitUnique(parts[1..], sep);
      assert parts == [parts[0]] + parts[1..];
    }
  }

  /**
   * `namespace.split("-")[1]`: the second field of the name, or `None` where
   * the name has no `-` and the index fails.
   */
  function PrToken(namespace: string): (token: Option<string>)
    ensures token.Some? <==> '-' in namespace
    ensures token.Some? ==> '-' !in token.value
  {
    var parts := Split(namespace, '-');
    if |parts| == 1 then None else Some(parts[1])
  }

  /** The pull-request tokens of a list of names, `None` when one of them has no token. */
  function PrTokens(namespaces: seq<string>): (tokens: Option<seq<string>>)
    ensures tokens.Some? <==> forall i :: 0 <= i < |namespaces| ==> '-' in namespaces[i]
    ensures tokens.Some? ==> |tokens.value| == |namespaces|
    ensures tokens.Some? ==> forall i :: 0 <= i < |namespaces| ==> PrToken(namespaces[i]) == Some(tokens.value[i])
  {
    if namespaces == [] then Some([])
    else
      var last := namespaces[|namespaces| - 1];
      match PrTokens(namespaces[..|namespaces| - 1])
      case None => None
      case Some(init) =>
        match PrToken(last)
        case None => None
        case Some(token) => Some(init + [token])
  }

  /** A lower-case hexadecimal digit. */
  function HexDigit(d: int): char
    requires 0 <= d < 16
  {
    "0123456789abcdef"[d]
  }

  /** `\u` followed by a 16-bit code unit in four lower-case hexadecimal digits. */
  function UnicodeEscape(n: int): (e: string)
    requires 0 <= n < 0x1_0000
    ensures |e| == 6 && e[0] == '\\' && e[1] == 'u'
    ensures forall i :: 0 <= i < |e| ==> ' ' <= e[i] <= '~'
  {
    ['\\', 'u', HexDigit(n / 0x1000), HexDigit(n / 0x100 % 0x10), HexDigit(n / 0x10 % 0x10), HexDigit(n % 0x10)]
  }

  /** A character `json.dumps` writes as itself: printable ASCII other than `"` and `\`. */
  predicate IsPlainChar(c: char)
  {
    ' ' <= c <= '~' && c != '"' && c != '\\'
  }

  /** How `json.dumps` writes one character inside a string, with `ensure_ascii` on. */
  function EscapeChar(c: char): (e: string)
    ensures forall i :: 0 <= i < |e| ==> ' ' <= e[i] <= '~'
    ensures IsPlainChar(c) <==> e == [c]
  {
    var n := c as int;
    if c == '"' then "\\\""
    else if c == '\\' then "\\\\"
    else if c == '\n' then "\\n"
    else if c == '\r' then "\\r"
    else if c == '\t' then "\\t"
    else if n == 0x08 then "\\b"
    else if n == 0x0C then "\\f"
    else if ' ' <= c <= '~' then [c]
    else if n < 0x1_0000 then UnicodeEscape(n)
    else
      // outside the Basic Multilingual Plane: a UTF-16 surrogate pair
      var v := n - 0x1_0000;
      UnicodeEscape(0xD800 + v / 0x400) + UnicodeEscape(0xDC00 + v % 0x400)
  }

  /** The characters of a JSON string literal between its quotes. */
  function Escape(s: string): (e: string)
    ensures forall i :: 0 <= i < |e| ==> ' ' <= e[i] <= '~'
  {
    if s == [] then [] else EscapeChar(s[0]) + Escape(s[1..])
  }

  /** Every character of `s` is written as itself. */
  predicate IsPlain(s: string)
  {
    forall i :: 0 <= i < |s| ==> IsPlainChar(s[i])
  }

  /** Plain text needs no escaping. */
  lemma {:induction false} EscapePlain(s: string)
    requires IsPlain(s)
    ensures Escape(s) == s
  {
    if s != [] {
      assert IsPlain(s[1..]);
      EscapePlain(s[1..]);
      assert s == [s[0]] + s[1..];
    }
  }

  /** A JSON string literal. */
  function JsonString(s: string): string
  {
    "\"" + Escape(s) + "\""
  }

  /** The elements of a JSON array of strings, separated by ", ". */
  function JsonItems(items: seq<string>): string
  {
    if items == [] then ""
    else if |items| == 1 then JsonString(items[0])
    else JsonString(items[0]) + ", " + JsonItems(items[1..])
  }

  /** A JSON array of strings. */
  function JsonArray(items: seq<string>): string
  {
    "[" + JsonItems(items) + "]"
  }

  /** The key of the one member of the output object, as a JSON string (it needs no escaping). */
  const PrNumbersKey: string := "\"pr_numbers\""

  /** The output line for a list of pull-request tokens. */
  function MatrixLine(tokens: seq<string>): string
  {
    "matrix=" + "{" + PrNumbersKey + ": " + JsonArray(tokens) + "}"
  }

  /** What every output line starts with. */
  const LineHead: string := "matrix={\"pr_numbers\": ["

  /** What every output line ends with. */
  const LineTail: string := "]}"

  /** The index of the first `"` in `s`, or `|s|` when there is none. */
  function QuoteIndex(s: string): (n: nat)
    ensures n <= |s|
    ensures forall i :: 0 <= i < n ==> s[i] != '"'
    ensures n < |s| ==> s[n] == '"'
  {
    if s == [] || s[0] == '"' then 0 else 1 + QuoteIndex(s[1..])
  }

  /** Reads a non-empty list of quoted strings separated by ", " (escapes are not undone). */
  function DecodeItems(s: string): Option<seq<string>>
    decreases |s|
  {
    if s == [] || s[0] != '"' then None
    else
      var n := QuoteIndex(s[1..]);
      if n == |s| - 1 then None
      else
        var token := s[1..n + 1];
        var rest := s[n + 2..];
        if rest == [] then Some([token])
        else if |rest| > 2 && rest[..2] == ", " then
          match DecodeItems(rest[2..])
          case None => None
          case Some(tokens) => Some([token] + tokens)
        else None
  }

  /** Reads the token list back out of an output line. */
  function DecodeMatrixLine(line: string): Option<seq<string>>
  {
    if |line| < |LineHead| + |LineTail| || line[..|LineHead|] != LineHead || line[|line| - |LineTail|..] != LineTail then None
    else
      var body := line[|LineHead|..|line| - |LineTail|];
      if body == [] then Some([]) else DecodeItems(body)
  }

  /** The output line starts with the fixed head and ends with the fixed tail. */
  lemma MatrixLineShape(tokens: seq<string>)
    ensures MatrixLine(tokens) == LineHead + JsonItems(tokens) + LineTail
  {
    LineAround(JsonItems(tokens));
  }

  /** The text around the array elements is the fixed head and tail. */
  lemma LineAround(items: string)
    ensures "matrix=" + "{" + PrNumbersKey + ": " + ("[" + items + "]") + "}" == LineHead + items + LineTail
  {
  }

  /** The first quote after a quote-free prefix is the one that follows it. */
  lemma {:induction false} QuoteIndexAfter(t: string, rest: string)
    requires forall i :: 0 <= i < |t| ==> t[i] != '"'
    ensures QuoteIndex(t + "\"" + rest) == |t|
  {
    if t != [] {
      assert (t + "\"" + rest)[1..] == t[1..] + "\"" + rest;
      QuoteIndexAfter(t[1..], rest);
    }
  }

  /** A quoted string is read back, whether it ends the list or another element follows. */
  lemma DecodeFirstItem(t: string, rest: string)
    requires forall i :: 0 <= i < |t| ==> t[i] != '"'
    ensures DecodeItems("\"" + t + "\"") == Some([t])
    ensures rest != [] ==>
            DecodeItems("\"" + t + "\"" + ", " + rest) ==
            (match DecodeItems(rest) case None => None case Some(tokens) => Some([t] + tokens))
  {
    var single := "\"" + t + "\"";
    assert single[1..] == t + "\"" + [];
    QuoteIndexAfter(t, []);
    assert single[1..|t| + 1] == t;
    assert single[|t| + 2..] == [];
    if rest != [] {
      var more := ", " + rest;
      var s := "\"" + t + "\"" + more;
      assert s[1..] == t + "\"" + more;
      QuoteIndexAfter(t, more);
      assert s[1..|t| + 1] == t;
      assert s[|t| + 2..] == more;
      assert more[..2] == ", " && more[2..] == rest;
      assert s == "\"" + t + "\"" + ", " + rest;
    }
  }

  /** Plain tokens are read back from their JSON array elements. */
  lemma {:induction false} DecodeJsonItems(tokens: seq<string>)
    requires tokens != []
    requires forall i :: 0 <= i < |tokens| ==> IsPlain(tokens[i])
    ensures DecodeItems(JsonItems(tokens)) == Some(tokens)
    decreases |tokens|
  {
    var t := tokens[0];
    EscapePlain(t);
    assert JsonString(t) == "\"" + t + "\"";
    if |tokens| == 1 {
      DecodeFirstItem(t, []);
      assert JsonItems(tokens) == "\"" + t + "\"" && tokens == [t];
    } else {
      var others := JsonItems(tokens[1..]);
      DecodeJsonItems(tokens[1..]);
      assert others != [];
      DecodeFirstItem(t, others);
      assert tokens == [t] + tokens[1..];
    }
  }

  /** An output line of plain tokens decodes back to those tokens. */
  lemma DecodeMatrixLineInverse(tokens: seq<string>)
    requires forall i :: 0 <= i < |tokens| ==> IsPlain(tokens[i])
    ensures DecodeMatrixLine(MatrixLine(tokens)) == Some(tokens)
  {
    MatrixLineShape(tokens);
    var line := MatrixLine(tokens);
    assert line[..|LineHead|] == LineHead;
    assert line[|line| - |LineTail|..] == LineTail;
    assert line[|LineHead|..|line| - |LineTail|] == JsonItems(tokens);
    if tokens != [] {
      DecodeJsonItems(tokens);
    }
  }

  /** The line for no deletions, and the line for pull requests 42 and 7. */
  lemma MatrixLineExamples()
    ensures MatrixLine([]) == "matrix={\"pr_numbers\": []}"
    ensures MatrixLine(["42", "7"]) == "matrix={\"pr_numbers\": [\"42\", \"7\"]}"
  {
    MatrixLineShape([]);
    MatrixLineShape(["42", "7"]);
    assert IsPlain("42") && IsPlain("7");
    EscapePlain("42");
    EscapePlain("7");
  }

  /**
   * The token of a name the review-app filter accepts is exactly its digit
   * run after `review-`.
   */
  lemma MatchedPrToken(namespace: string, app: string)
    requires MatchesPattern(namespace, app)
    ensures PrToken(namespace) == Some(PrNumber(namespace))
    ensures IsPlain(PrNumber(namespace))
  {
    MatchedPrNumber(namespace, app);
    var digits := PrNumber(namespace);
    var after := namespace[|Prefix| + |digits| + 1..];
    assert namespace == "review" + "-" + (digits + "-" + after);
    assert '-' !in "review";
    SplitAtFirstSep("review", '-', digits + "-" + after);
    assert '-' !in digits by {
      forall i | 0 <= i < |digits| ensures digits[i] != '-' {
        assert IsDigit(digits[i]);
      }
    }
    SplitAtFirstSep(digits, '-', after);
    assert forall i :: 0 <= i < |digits| ==> IsPlainChar(digits[i]) by {
      forall i | 0 <= i < |digits| ensures IsPlainChar(digits[i]) {
        assert IsDigit(digits[i]);
      }
    }
  }

  /**
   * `write_output` without the file: the token of every name is appended to
   * `prList` in order, and the JSON object is written after `matrix=`.
   * `None` stands for the IndexError of a name without `-`.
   */
  method WriteOutput(namespaceList: seq<string>) returns (output: Option<string>)
    ensures output.Some? <==> forall i :: 0 <= i < |namespaceList| ==> '-' in namespaceList[i]
    ensures output.Some? ==> output == Some(MatrixLine(PrTokens(namespaceList).value))
  {
    var prList: seq<string> := [];
    for i := 0 to |namespaceList|
      invariant PrTokens(namespaceList[..i]) == Some(prList)
    {
      assert namespaceList[..i + 1][..i] == namespaceList[..i];
      var token := PrToken(namespaceList[i]);
      if token.None? {
        return None;
      }
      prList := prList + [token.value];
    }
    assert namespaceList[..|namespaceList|] == namespaceList;
    output := Some(MatrixLine(prList));
  }
}
