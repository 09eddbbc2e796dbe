/**
 * SExpParser: the decoder for the S-expressions `ledger emacs` prints. A value is None
 * (`nil` or blank text), a string (a quoted string, or any atom that is not a number), an
 * integer, or a list of values. The index-walking loops of the source are methods, each
 * proved equal to a recursive specification function; properties are proved about the
 * functions: printing a value and decoding the text gives the value back, the scanners stop
 * where they should, and the inputs on which the source raises or loops forever.
 */
module SExpParser {
  import opened Text

  datatype SExp = Nil | Str(text: string) | Int(n: int) | List(items: seq<SExp>)

  /** How a call of the parser ends: with a value, by raising SExpParseError, or never
      (the element loop of _parse_list stops advancing). */
  datatype Outcome<T> = Parsed(value: T) | ParseError | Diverges

  /** xs in front of the elements decoded after them. */
  function Prefix<T>(xs: seq<T>, r: Outcome<seq<T>>): Outcome<seq<T>> {
    match r
    case Parsed(ys) => Parsed(xs + ys)
    case ParseError => ParseError
    case Diverges => Diverges
  }

  lemma PrefixNothing<T>(r: Outcome<seq<T>>)
    ensures Prefix([], r) == r
  {
    if r.Parsed? {
      assert [] + r.value == r.value;
    }
  }

  lemma PrefixTwice<T>(xs: seq<T>, ys: seq<T>, r: Outcome<seq<T>>)
    ensures Prefix(xs, Prefix(ys, r)) == Prefix(xs + ys, r)
  {
    if r.Parsed? {
      assert xs + (ys + r.value) == (xs + ys) + r.value;
    }
  }

  /** s.startswith(c) and s.endswith(c) for a one-character string c. */
  predicate StartsWithChar(s: string, c: char) {
    |s| > 0 && s[0] == c
  }

  predicate EndsWithChar(s: string, c: char) {
    |s| > 0 && s[|s| - 1] == c
  }

  /** s == "nil". */
  predicate IsNilText(s: string) {
    |s| == 3 && s[0] == 'n' && s[1] == 'i' && s[2] == 'l'
  }

  /** Python's s[a:b] for 0 <= a <= b: the end is cut back to the length of s. */
  function Clip(s: string, a: nat, b: nat): (r: string)
    requires a <= b && a <= |s|
    ensures |r| <= |s| - a
  {
    if b <= |s| then s[a..b] else s[a..]
  }

  // ---------------------------------------------------------------------------
  // Quoted strings

  /** The character an escape `\c` stands for: `\n`, `\t`, `\r` are control characters,
      every other character (including `"` and `\`) stands for itself. */
  function Unescape(c: char): char {
    if c == 'n' then '\n' else if c == 't' then '\t' else if c == 'r' then '\r' else c
  }

  /** The decoded text from index i up to the first unescaped `"`; an error when the
      string runs out first. A backslash as the very last character is kept as is. */
  function QuotedFrom(s: string, i: nat): (r: Outcome<string>)
    ensures !r.Diverges?
    decreases |s| - i
  {
    if i >= |s| then ParseError
    else if s[i] == '"' then Parsed([])
    else if s[i] == '\\' && i + 1 < |s| then Prefix([Unescape(s[i + 1])], QuotedFrom(s, i + 2))
    else Prefix([s[i]], QuotedFrom(s, i + 1))
  }

  /** _parse_quoted_string. */
  function QuotedText(s: string): Outcome<string> {
    if !StartsWithChar(s, '"') then ParseError else QuotedFrom(s, 1)
  }

  /** _parse_quoted_string as the source writes it: a loop over i appending to result. */
  method ParseQuotedString(s: string) returns (r: Outcome<string>)
    ensures r == QuotedText(s)
  {
    if !StartsWithChar(s, '"') {
      return ParseError;
    }
    var result: string := [];
    var i := 1;
    PrefixNothing(QuotedFrom(s, 1));
    while i < |s| && s[i] != '"'
      invariant 1 <= i <= |s|
      invariant QuotedFrom(s, 1) == Prefix(result, QuotedFrom(s, i))
      decreases |s| - i
    {
      PrefixTwice(result, [if s[i] == '\\' && i + 1 < |s| then Unescape(s[i + 1]) else s[i]],
        QuotedFrom(s, if s[i] == '\\' && i + 1 < |s| then i + 2 else i + 1));
      if s[i] == '\\' && i + 1 < |s| {
        result := result + [Unescape(s[i + 1])];
        i := i + 2;
      } else {
        result := result + [s[i]];
        i := i + 1;
      }
    }
    if i >= |s| {
      return ParseError;
    }
    assert result + [] == result;
    return Parsed(result);
  }

  /** A string with no `"` after its opening quote is unterminated. */
  lemma UnterminatedQuote(s: string)
    requires StartsWithChar(s, '"') && forall k :: 1 <= k < |s| ==> s[k] != '"'
    ensures QuotedText(s) == ParseError
  {
    UnterminatedFrom(s, 1);
  }

  lemma {:induction false} UnterminatedFrom(s: string, i: nat)
    requires forall k :: i <= k < |s| ==> s[k] != '"'
    ensures QuotedFrom(s, i) == ParseError
    decreases |s| - i
  {
    if i < |s| {
      if s[i] == '\\' && i + 1 < |s| {
        UnterminatedFrom(s, i + 2);
      } else {
        UnterminatedFrom(s, i + 1);
      }
    }
  }

  // ---------------------------------------------------------------------------
  // Atoms

  /** An atom the source turns into an int: all digits, or `-` and then all digits. */
  predicate IsNumeral(s: string) {
    IsDigits(s) || (StartsWithChar(s, '-') && IsDigits(s[1..]))
  }

  /** _parse_atom: int(s) for a numeral, the text itself otherwise. */
  function ParseAtom(s: string): (r: SExp)
    ensures r.Int? || r.Str?
    ensures r.Int? <==> IsNumeral(s)
    ensures r.Str? ==> r.text == s
    ensures IsDigits(s) ==> r == Int(DigitsValue(s))
    ensures !IsDigits(s) && IsNumeral(s) ==> r == Int(-(DigitsValue(s[1..]) as int))
  {
    if IsDigits(s) then Int(DigitsValue(s))
    else if StartsWithChar(s, '-') && IsDigits(s[1..]) then Int(-(DigitsValue(s[1..]) as int))
    else Str(s)
  }

  // ---------------------------------------------------------------------------
  // Scanners

  /** The loop of _find_string_end from index i: the index one past the first `"` that is
      not skipped by a backslash (past the end when there is none). */
  function StringScan(s: string, i: nat): (e: nat)
    ensures e > i

    decreases |s| - i
  {
    if i < |s| && s[i] != '"' then StringScan(s, if s[i] == '\\' then i + 2 else i + 1)
    else i + 1
  }

  /** _find_string_end(s, start). */
  method FindStringEnd(s: string, start: nat) returns (e: nat)
    ensures e == StringScan(s, start + 1)
  {
    var i := start + 1;
    while i < |s| && s[i] != '"'
      invariant StringScan(s, i) == StringScan(s, start + 1)
      decreases |s| - i
    {
      if s[i] == '\\' {
        i := i + 2;
      } else {
        i := i + 1;
      }
    }
    return i + 1;
  }

  /** The loop of _find_list_end from index i at the given depth: `(` and `)` move the depth,
      quoted strings are skipped whole, and the scan stops once the depth is 0. */
  function ListScan(s: string, i: nat, depth: nat): (e: nat)
    ensures e >= i

    decreases |s| - i
  {
    if i < |s| && depth > 0 then
      if s[i] == '"' then ListScan(s, StringScan(s, i + 1), depth)
      else if s[i] == '(' then ListScan(s, i + 1, depth + 1)
      else if s[i] == ')' then ListScan(s, i + 1, depth - 1)
      else ListScan(s, i + 1, depth)
    else i
  }

  /** _find_list_end(s, start). */
  method FindListEnd(s: string, start: nat) returns (e: nat)
    ensures e == ListScan(s, start + 1, 1)
  {
    var depth: nat := 1;
    var i := start + 1;
    while i < |s| && depth > 0
      invariant ListScan(s, i, depth) == ListScan(s, start + 1, 1)
      decreases |s| - i
    {
      if s[i] == '"' {
        i := FindStringEnd(s, i);
        continue;
      } else if s[i] == '(' {
        depth := depth + 1;
      } else if s[i] == ')' {
        depth := depth - 1;
      }
      i := i + 1;
    }
    return i;
  }

  /** The atom loop of _parse_list: up to the next whitespace or parenthesis. */
  function AtomScan(s: string, i: nat): (e: nat)
    requires i <= |s|
    ensures i <= e <= |s|
    ensures forall k :: i <= k < e ==> !IsSpace(s[k]) && s[k] != '(' && s[k] != ')'
    ensures e < |s| ==> IsSpace(s[e]) || s[e] == '(' || s[e] == ')'
    decreases |s| - i
  {
    if i < |s| && !IsSpace(s[i]) && s[i] != '(' && s[i] != ')' then AtomScan(s, i + 1) else i
  }

  /** On any text, the string scan ends one past a `"`, and every `"` it passes over is
      escaped by the backslash just before it. */
  lemma {:induction false} StringScanEnd(s: string, i: nat)
    ensures StringScan(s, i) <= |s| ==> s[StringScan(s, i) - 1] == '"'
    ensures forall k :: i <= k < StringScan(s, i) - 1 && k < |s| && s[k] == '"' ==> i < k && s[k - 1] == '\\'
    decreases |s| - i
  {
    if i < |s| && s[i] != '"' {
      if s[i] == '\\' {
        StringScanEnd(s, i + 2);
      } else {
        StringScanEnd(s, i + 1);
      }
    }
  }

  /** On any text, a list scan that stops inside the text stops just past the `)` that
      closes the list. */
  lemma {:induction false} ListScanEnd(s: string, i: nat, depth: nat)
    requires depth > 0
    ensures ListScan(s, i, depth) < |s| ==> ListScan(s, i, depth) > i && s[ListScan(s, i, depth) - 1] == ')'
    decreases |s| - i
  {
    if i < |s| {
      if s[i] == '"' {
        ListScanEnd(s, StringScan(s, i + 1), depth);
      } else if s[i] == '(' {
        ListScanEnd(s, i + 1, depth + 1);
      } else if s[i] == ')' {
        if depth > 1 {
          ListScanEnd(s, i + 1, depth - 1);
        }
      } else {
        ListScanEnd(s, i + 1, depth);
      }
    }
  }

  /** Where the element that starts at index i ends, by its first character. */
  function ElementEnd(s: string, i: nat): (e: nat)
    requires i < |s|
    ensures e >= i
  {
    if s[i] == '"' then StringScan(s, i + 1)
    else if s[i] == '(' then ListScan(s, i + 1, 1)
    else AtomScan(s, i)
  }

  // ---------------------------------------------------------------------------
  // The decoder

  /** parse: strip, then None for blank text or `nil`, and dispatch on the first character. */
  function Decode(s: string): Outcome<SExp>
    decreases |s|, 2
  {
    var t := Strip(s);
    if t == [] || IsNilText(t) then Parsed(Nil)
    else if t[0] == '"' then
      match QuotedText(t)
      case Parsed(text) => Parsed(Str(text))
      case ParseError => ParseError
      case Diverges => Diverges
    else if t[0] != '(' then Parsed(ParseAtom(t))
    else DecodeList(t)
  }

  /** _parse_list: the text must start with `(` and end with `)`. */
  function DecodeList(s: string): Outcome<SExp>
    decreases |s|, 1
  {
    if !StartsWithChar(s, '(') || !EndsWithChar(s, ')') then ParseError
    else
      match DecodeElements(s, 1)
      case Parsed(items) => Parsed(List(items))
      case ParseError => ParseError
      case Diverges => Diverges
  }

  /** The element loop of _parse_list from index i: whitespace is skipped, each element is
      cut out by its scanner and decoded; a scanner that does not advance (a `)` before the
      last character) means the loop never ends. */
  function DecodeElements(s: string, i: nat): Outcome<seq<SExp>>
    requires 1 <= i
    decreases |s|, 0, |s| - i
  {
    if i + 1 >= |s| then Parsed([])
    else if IsSpace(s[i]) then DecodeElements(s, i + 1)
    else
      var j := ElementEnd(s, i);
      if j == i then Diverges
      else
        match Decode(Clip(s, i, j))
        case Parsed(x) => Prefix([x], DecodeElements(s, j))
        case ParseError => ParseError
        case Diverges => Diverges
  }

  /** An element decoded to o, in front of the elements after it. */
  function Then(o: Outcome<SExp>, rest: Outcome<seq<SExp>>): Outcome<seq<SExp>> {
    match o
    case Parsed(x) => Prefix([x], rest)
    case ParseError => ParseError
    case Diverges => Diverges
  }

  lemma ElementsSpace(s: string, i: nat)
    requires 1 <= i && i + 1 < |s| && IsSpace(s[i])
    ensures DecodeElements(s, i) == DecodeElements(s, i + 1)
  {
  }

  lemma ElementsStall(s: string, i: nat)
    requires 1 <= i && i + 1 < |s| && !IsSpace(s[i]) && ElementEnd(s, i) == i
    ensures DecodeElements(s, i) == Diverges
  {
  }

  lemma ElementsStep(s: string, i: nat)
    requires 1 <= i && i + 1 < |s| && !IsSpace(s[i]) && ElementEnd(s, i) > i
    ensures DecodeElements(s, i) == Then(Decode(Clip(s, i, ElementEnd(s, i))), DecodeElements(s, ElementEnd(s, i)))
  {
  }

  /** parse. */
  method Parse(s: string) returns (r: Outcome<SExp>)
    ensures r == Decode(s)
    decreases |s|, 2
  {
    var t := Strip(s);
    if t == [] || IsNilText(t) {
      return Parsed(Nil);
    }
    if t[0] == '"' {
      var q := ParseQuotedString(t);
      match q {
        case Parsed(text) => return Parsed(Str(text));
        case ParseError => return ParseError;
        case Diverges => return Diverges;
      }
    }
    if t[0] != '(' {
      return Parsed(ParseAtom(t));
    }
    r := ParseList(t);
  }

  /** The branch of the element loop of _parse_list that finds where the element starting
      at `start` ends: a quoted string, a nested list, or an atom up to the next whitespace or
      parenthesis. */
  method FindElementEnd(s: string, start: nat) returns (i: nat)
    requires start < |s|
    ensures i == ElementEnd(s, start)
  {
    i := start;
    if s[i] == '"' {
      i := FindStringEnd(s, i);
    } else if s[i] == '(' {
      i := FindListEnd(s, i);
    } else {
      while i < |s| && !IsSpace(s[i]) && s[i] != '(' && s[i] != ')'
        invariant start <= i <= |s|
        invariant AtomScan(s, i) == AtomScan(s, start)
        decreases |s| - i
      {
        i := i + 1;
      }
    }
  }

  /** _parse_list as the source writes it; where the source would loop forever the method
      stops and reports Diverges. */
  method ParseList(s: string) returns (r: Outcome<SExp>)
    ensures r == DecodeList(s)
    decreases |s|, 1
  {
    if !StartsWithChar(s, '(') {
      return ParseError;
    }
    if !EndsWithChar(s, ')') {
      return ParseError;
    }
    var elements: seq<SExp> := [];
    var i := 1;
    PrefixNothing(DecodeElements(s, 1));
    while i < |s| - 1
      invariant 1 <= i
      invariant DecodeElements(s, 1) == Prefix(elements, DecodeElements(s, i))
      decreases |s| - i
    {
      if IsSpace(s[i]) {
        ElementsSpace(s, i);
        i := i + 1;
        continue;
      }
      var start := i;
      i := FindElementEnd(s, start);
      if i == start {
        ElementsStall(s, start);
        return Diverges;
      }
      ElementsStep(s, start);
      var e := Parse(Clip(s, start, i));
      match e {
        case Parsed(x) =>
          PrefixTwice(elements, [x], DecodeElements(s, i));
          elements := elements + [x];
        case ParseError => return ParseError;
        case Diverges => return Diverges;
      }
    }
    assert elements + [] == elements;
    return Parsed(List(elements));
  }

  // ---------------------------------------------------------------------------
  // Divergence

  /** A `)` where the element loop expects an element, before the last character, stops
      the loop from advancing: _parse_list never returns. */
  lemma StrayCloseDiverges(s: string, i: nat)
    requires 1 <= i && i + 1 < |s| && s[i] == ')'
    ensures DecodeElements(s, i) == Diverges
  {
    assert ElementEnd(s, i) == i;
  }

  /** `(a))` is such an input. */
  lemma StrayCloseExample()
    ensures Decode("(a))") == Diverges
  {
    var s := "(a))";
    assert Strip(s) == s by {
      assert LStrip(s) == s;
    }
    assert Clip(s, 1, 2) == "a";
    assert Strip("a") == "a" by {
      assert LStrip("a") == "a";
    }
    assert Decode("a") == Parsed(Str("a"));
    assert ElementEnd(s, 1) == 2 by {
      assert AtomScan(s, 2) == 2;
    }
    StrayCloseDiverges(s, 2);
  }

  // ---------------------------------------------------------------------------
  // Encoding and the round trip

  /** The escape the decoder reads back as c. */
  function EscapeChar(c: char): (r: string)
    ensures |r| == 1 || |r| == 2
  {
    if c == '"' then "\\\"" else if c == '\\' then "\\\\"
    else if c == '\n' then "\\n" else if c == '\t' then "\\t" else if c == '\r' then "\\r"
    else [c]
  }

  function Escape(t: string): string
    decreases |t|
  {
    if t == [] then [] else EscapeChar(t[0]) + Escape(t[1..])
  }

  /** The decimal spelling of an integer, with `-` in front when it is negative. */
  function IntText(n: int): string {
    if n < 0 then "-" + DecimalString(-n) else DecimalString(n)
  }

  /** The text of a value: `nil`, a numeral, a quoted escaped string, or the elements
      separated by single spaces in parentheses. */
  function Encode(x: SExp): string
    decreases x
  {
    match x
    case Nil => "nil"
    case Int(n) => IntText(n)
    case Str(t) => "\"" + Escape(t) + "\""
    case List(items) => "(" + EncodeItems(items) + ")"
  }

  function EncodeItems(items: seq<SExp>): string
    decreases items
  {
    if items == [] then ""
    else if |items| == 1 then Encode(items[0])
    else Encode(items[0]) + " " + EncodeItems(items[1..])
  }

  /** w occurs in s at index i. */
  predicate At(s: string, i: nat, w: string) {
    i + |w| <= |s| && s[i..i + |w|] == w
  }

  lemma AtSplit(s: string, i: nat, a: string, b: string)
    requires At(s, i, a + b)
    ensures At(s, i, a) && At(s, i + |a|, b)
  {
    assert s[i..i + |a|] == s[i..i + |a + b|][..|a|];
    assert s[i + |a|..i + |a| + |b|] == s[i..i + |a + b|][|a|..];
  }

  lemma Associative(a: string, b: string, c: string)
    ensures (a + b) + c == a + (b + c)
  {
  }

  lemma AtSplitThree(s: string, i: nat, a: string, b: string, c: string)
    requires At(s, i, (a + b) + c)
    ensures At(s, i, a) && At(s, i + |a|, b + c)
  {
    Associative(a, b, c);
    AtSplit(s, i, a, b + c);
  }

  lemma AtChar(s: string, i: nat, w: string, k: nat)
    requires At(s, i, w) && k < |w|
    ensures s[i + k] == w[k]
  {
    assert s[i..i + |w|][k] == s[i + k];
  }

  /** No whitespace, parenthesis or quote: text every scanner steps over one character at a
      time. */
  predicate Bare(w: string) {
    forall k :: 0 <= k < |w| ==> !IsSpace(w[k]) && w[k] != '(' && w[k] != ')' && w[k] != '"'
  }

  lemma AtomsAreBare(x: SExp)
    requires x.Nil? || x.Int?
    ensures Bare(Encode(x)) && |Encode(x)| > 0
  {
    if x.Int? {
      var d := DecimalString(if x.n < 0 then -x.n else x.n);
      assert forall k :: 0 <= k < |d| ==> IsDigit(d[k]);
      if x.n < 0 {
        assert Encode(x) == "-" + d;
        assert forall k :: 1 <= k < |Encode(x)| ==> Encode(x)[k] == d[k - 1];
      }
    }
  }

  /** The first and last characters of an encoding are not whitespace, and the first one
      tells which kind of value it is. */
  lemma EncodeEnds(x: SExp)
    ensures |Encode(x)| > 0
    ensures !IsSpace(Encode(x)[0]) && !IsSpace(Encode(x)[|Encode(x)| - 1])
    ensures Encode(x)[0] == '"' <==> x.Str?
    ensures Encode(x)[0] == '(' <==> x.List?
    ensures IsNilText(Encode(x)) <==> x.Nil?
  {
    if x.Nil? || x.Int? {
      AtomsAreBare(x);
    }
  }

  /** Text with no delimiter inside and a delimiter (or the end) after it is one atom. */
  lemma {:induction false} AtomScanBare(s: string, i: nat, w: string)
    requires At(s, i, w) && Bare(w)
    requires i + |w| < |s| ==> IsSpace(s[i + |w|]) || s[i + |w|] == '(' || s[i + |w|] == ')'
    ensures AtomScan(s, i) == i + |w|
    decreases |w|
  {
    if w != [] {
      AtChar(s, i, w, 0);
      AtSplit(s, i, [w[0]], w[1..]);
      AtomScanBare(s, i + 1, w[1..]);
    }
  }

  lemma {:induction false} ListScanBare(s: string, i: nat, w: string, depth: nat)
    requires At(s, i, w) && Bare(w) && depth > 0
    ensures ListScan(s, i, depth) == ListScan(s, i + |w|, depth)
    decreases |w|
  {
    if w != [] {
      AtChar(s, i, w, 0);
      AtSplit(s, i, [w[0]], w[1..]);
      ListScanBare(s, i + 1, w[1..], depth);
    }
  }

  /** The decoder reads an escaped text back, up to the closing quote. */
  lemma {:induction false} QuotedEscape(s: string, i: nat, t: string)
    requires At(s, i, Escape(t) + "\"")
    ensures QuotedFrom(s, i) == Parsed(t)
    decreases |t|
  {
    if t == [] {
      AtChar(s, i, Escape(t) + "\"", 0);
    } else {
      EscapeAt(s, i, t);
      EscapeCharInverse(t[0]);
      var n := |EscapeChar(t[0])|;
      AtChar(s, i, EscapeChar(t[0]), 0);
      if n == 2 {
        AtChar(s, i, EscapeChar(t[0]), 1);
      }
      QuotedEscape(s, i + n, t[1..]);
      assert QuotedFrom(s, i) == Prefix([t[0]], QuotedFrom(s, i + n));
      assert [t[0]] + t[1..] == t;
    }
  }

  /** The string scanner stops just after the closing quote of an escaped text. */
  lemma {:induction false} StringScanEscape(s: string, i: nat, t: string)
    requires At(s, i, Escape(t) + "\"")
    ensures StringScan(s, i) == i + |Escape(t)| + 1
    decreases |t|
  {
    if t == [] {
      AtChar(s, i, Escape(t) + "\"", 0);
    } else {
      EscapeAt(s, i, t);
      EscapeCharInverse(t[0]);
      var n := |EscapeChar(t[0])|;
      AtChar(s, i, EscapeChar(t[0]), 0);
      StringScanEscape(s, i + n, t[1..]);
      assert StringScan(s, i) == StringScan(s, i + n);
    }
  }

  /** The first escape of a non-empty text and what follows it. */
  lemma EscapeAt(s: string, i: nat, t: string)
    requires t != [] && At(s, i, Escape(t) + "\"")
    ensures At(s, i, EscapeChar(t[0])) && At(s, i + |EscapeChar(t[0])|, Escape(t[1..]) + "\"")
    ensures |Escape(t)| == |EscapeChar(t[0])| + |Escape(t[1..])|
  {
    AtSplitThree(s, i, EscapeChar(t[0]), Escape(t[1..]), "\"");
  }

  /** Unescape undoes EscapeChar, and a character left unescaped is neither a quote nor a
      backslash. */
  lemma EscapeCharInverse(c: char)
    ensures |EscapeChar(c)| == 2 ==> EscapeChar(c)[0] == '\\' && Unescape(EscapeChar(c)[1]) == c
    ensures |EscapeChar(c)| == 1 ==> EscapeChar(c) == [c] && c != '"' && c != '\\'
  {
  }

  /** Scanning for the end of a list jumps over an encoded value, or over encoded elements,
      whole. */
  lemma {:induction false} ListScanValue(s: string, i: nat, x: SExp, depth: nat)
    requires At(s, i, Encode(x)) && depth > 0
    ensures ListScan(s, i, depth) == ListScan(s, i + |Encode(x)|, depth)
    decreases x, 1
  {
    match x
    case Nil =>
      AtomsAreBare(x);
      ListScanBare(s, i, Encode(x), depth);
    case Int(_) =>
      AtomsAreBare(x);
      ListScanBare(s, i, Encode(x), depth);
    case Str(t) =>
      ListScanString(s, i, t, depth);
    case List(items) =>
      ListScanList(s, i, items, depth);
  }

  lemma ListScanString(s: string, i: nat, t: string, depth: nat)
    requires At(s, i, Encode(Str(t))) && depth > 0
    ensures ListScan(s, i, depth) == ListScan(s, i + |Encode(Str(t))|, depth)
  {
    StrAt(s, i, t);
    StringScanEscape(s, i + 1, t);
  }

  lemma {:induction false} ListScanList(s: string, i: nat, items: seq<SExp>, depth: nat)
    requires At(s, i, Encode(List(items))) && depth > 0
    ensures ListScan(s, i, depth) == ListScan(s, i + |Encode(List(items))|, depth)
    decreases items, 2
  {
    ListAt(s, i, items);
    ListScanItems(s, i + 1, items, depth + 1);
  }

  lemma {:induction false} ListScanItems(s: string, i: nat, items: seq<SExp>, depth: nat)
    requires At(s, i, EncodeItems(items)) && depth > 0
    ensures ListScan(s, i, depth) == ListScan(s, i + |EncodeItems(items)|, depth)
    decreases items, 1
  {
    if |items| == 1 {
      assert EncodeItems(items) == Encode(items[0]);
      ListScanValue(s, i, items[0], depth);
    } else if |items| > 1 {
      ListScanMany(s, i, items, depth);
    }
  }

  lemma {:induction false} ListScanMany(s: string, i: nat, items: seq<SExp>, depth: nat)
    requires |items| > 1 && At(s, i, EncodeItems(items)) && depth > 0
    ensures ListScan(s, i, depth) == ListScan(s, i + |EncodeItems(items)|, depth)
    decreases items, 0
  {
    ItemsAt(s, i, items);
    var j := i + |Encode(items[0])|;
    ListScanValue(s, i, items[0], depth);
    ListScanSpace(s, j, depth);
    ListScanItems(s, j + 1, items[1..], depth);
  }

  lemma ListScanSpace(s: string, j: nat, depth: nat)
    requires j < |s| && s[j] == ' ' && depth > 0
    ensures ListScan(s, j, depth) == ListScan(s, j + 1, depth)
  {
  }

  /** Where the parts of an encoded string, list and list of elements sit. */
  lemma StrAt(s: string, i: nat, t: string)
    requires At(s, i, Encode(Str(t)))
    ensures s[i] == '"' && At(s, i + 1, Escape(t) + "\"")
    ensures |Encode(Str(t))| == |Escape(t)| + 2
  {
    Associative("\"", Escape(t), "\"");
    AtSplit(s, i, "\"", Escape(t) + "\"");
    AtChar(s, i, "\"", 0);
  }

  lemma ListAt(s: string, i: nat, items: seq<SExp>)
    requires At(s, i, Encode(List(items)))
    ensures s[i] == '(' && At(s, i + 1, EncodeItems(items)) && s[i + 1 + |EncodeItems(items)|] == ')'
    ensures |Encode(List(items))| == |EncodeItems(items)| + 2
  {
    var w := EncodeItems(items);
    assert Encode(List(items)) == "(" + w + ")";
    AtSplit(s, i, "(" + w, ")");
    AtSplit(s, i, "(", w);
    AtChar(s, i, "(", 0);
    AtChar(s, i + 1 + |w|, ")", 0);
  }

  lemma ItemsAt(s: string, i: nat, items: seq<SExp>)
    requires |items| > 1 && At(s, i, EncodeItems(items))
    ensures At(s, i, Encode(items[0])) && s[i + |Encode(items[0])|] == ' '
    ensures At(s, i + |Encode(items[0])| + 1, EncodeItems(items[1..]))
    ensures |EncodeItems(items)| == |Encode(items[0])| + 1 + |EncodeItems(items[1..])|
  {
    var w := Encode(items[0]);
    AtSplit(s, i, w + " ", EncodeItems(items[1..]));
    AtSplit(s, i, w, " ");
    AtChar(s, i + |w|, " ", 0);
  }

  /** An encoded value followed by a space or `)` is exactly one element. */
  lemma ElementEndValue(s: string, i: nat, x: SExp)
    requires At(s, i, Encode(x)) && i + |Encode(x)| < |s|
    requires s[i + |Encode(x)|] == ' ' || s[i + |Encode(x)|] == ')'
    ensures ElementEnd(s, i) == i + |Encode(x)|
  {
    match x
    case Nil =>
      ElementEndAtom(s, i, x);
    case Int(_) =>
      ElementEndAtom(s, i, x);
    case Str(t) =>
      ElementEndString(s, i, t);
    case List(items) =>
      ElementEndList(s, i, items);
  }

  lemma ElementEndString(s: string, i: nat, t: string)
    requires At(s, i, Encode(Str(t))) && i + |Encode(Str(t))| < |s|
    ensures ElementEnd(s, i) == i + |Encode(Str(t))|
  {
    StrAt(s, i, t);
    StringScanEscape(s, i + 1, t);
  }

  lemma ElementEndList(s: string, i: nat, items: seq<SExp>)
    requires At(s, i, Encode(List(items))) && i + |Encode(List(items))| < |s|
    ensures ElementEnd(s, i) == i + |Encode(List(items))|
  {
    ListAt(s, i, items);
    ListScanItems(s, i + 1, items, 1);
  }

  lemma ElementEndAtom(s: string, i: nat, x: SExp)
    requires x.Nil? || x.Int?
    requires At(s, i, Encode(x)) && i + |Encode(x)| < |s|
    requires s[i + |Encode(x)|] == ' ' || s[i + |Encode(x)|] == ')'
    ensures ElementEnd(s, i) == i + |Encode(x)|
  {
    AtomsAreBare(x);
    AtChar(s, i, Encode(x), 0);
    AtomScanBare(s, i, Encode(x));
  }

  /** A numeral spelled by IntText is read back as the same integer. */
  lemma IntTextRoundTrip(n: int)
    ensures ParseAtom(IntText(n)) == Int(n)
  {
    var m := if n < 0 then -n else n;
    DecimalRoundTrip(m);
    if n < 0 {
      var w := IntText(n);
      assert !IsDigit(w[0]);
      assert StartsWithChar(w, '-') && w[1..] == DecimalString(m);
    }
  }

  /** Decoding the encoding of a value gives the value back. */
  lemma {:induction false} RoundTrip(x: SExp)
    ensures Decode(Encode(x)) == Parsed(x)
    decreases x, 0
  {
    match x
    case Nil =>
      assert Strip("nil") == "nil" by {
        EncodeEnds(x);
        LStripNonSpace("nil");
        RStripNonSpace("nil");
      }
    case Int(n) =>
      RoundTripInt(n);
    case Str(t) =>
      RoundTripString(t);
    case List(items) =>
      RoundTripList(items);
  }

  /** Strip leaves an encoding as it is. */
  lemma EncodeStripped(x: SExp)
    ensures Strip(Encode(x)) == Encode(x)
  {
    EncodeEnds(x);
    LStripNonSpace(Encode(x));
    RStripNonSpace(Encode(x));
  }

  lemma RoundTripInt(n: int)
    ensures Decode(Encode(Int(n))) == Parsed(Int(n))
  {
    var w := Encode(Int(n));
    EncodeEnds(Int(n));
    EncodeStripped(Int(n));
    assert w[0] != 'n';
    IntTextRoundTrip(n);
  }

  lemma RoundTripString(t: string)
    ensures Decode(Encode(Str(t))) == Parsed(Str(t))
  {
    var w := Encode(Str(t));
    EncodeEnds(Str(t));
    EncodeStripped(Str(t));
    assert At(w, 0, w);
    StrAt(w, 0, t);
    QuotedEscape(w, 1, t);
  }

  lemma {:induction false} RoundTripList(items: seq<SExp>)
    ensures Decode(Encode(List(items))) == Parsed(List(items))
    decreases items, 2
  {
    var w := Encode(List(items));
    EncodeEnds(List(items));
    EncodeStripped(List(items));
    assert At(w, 0, w);
    ListAt(w, 0, items);
    ElementsRoundTrip(w, 1, items);
  }

  lemma {:induction false} ElementsRoundTrip(s: string, i: nat, items: seq<SExp>)
    requires 1 <= i && At(s, i, EncodeItems(items))
    requires i + |EncodeItems(items)| + 1 == |s| && s[|s| - 1] == ')'
    ensures DecodeElements(s, i) == Parsed(items)
    decreases items, 1
  {
    if items == [] {
      ElementsNone(s, i);
    } else if |items| == 1 {
      assert EncodeItems(items) == Encode(items[0]) && items == [items[0]];
      ElementsOne(s, i, items[0]);
    } else {
      ElementsMany(s, i, items);
    }
  }

  lemma ElementsNone(s: string, i: nat)
    requires 1 <= i && i + 1 >= |s|
    ensures DecodeElements(s, i) == Parsed([])
  {
  }

  lemma {:induction false} ElementsOne(s: string, i: nat, x: SExp)
    requires 1 <= i && At(s, i, Encode(x))
    requires i + |Encode(x)| + 1 == |s| && s[|s| - 1] == ')'
    ensures DecodeElements(s, i) == Parsed([x])
    decreases x, 3
  {
    ElementsFirst(s, i, x);
    ElementsNone(s, i + |Encode(x)|);
    PrefixLast(x);
  }

  lemma {:induction false} ElementsMany(s: string, i: nat, items: seq<SExp>)
    requires |items| > 1 && 1 <= i && At(s, i, EncodeItems(items))
    requires i + |EncodeItems(items)| + 1 == |s| && s[|s| - 1] == ')'
    ensures DecodeElements(s, i) == Parsed(items)
    decreases items, 0
  {
    var j := i + |Encode(items[0])|;
    ItemsAt(s, i, items);
    ElementsFirst(s, i, items[0]);
    ElementsSpace(s, j);
    ElementsRoundTrip(s, j + 1, items[1..]);
    PrefixRest(items);
  }

  /** The first element of encoded elements is decoded to its value. */
  lemma {:induction false} ElementsFirst(s: string, i: nat, x: SExp)
    requires 1 <= i && At(s, i, Encode(x)) && i + |Encode(x)| < |s|
    requires s[i + |Encode(x)|] == ' ' || s[i + |Encode(x)|] == ')'
    ensures DecodeElements(s, i) == Prefix([x], DecodeElements(s, i + |Encode(x)|))
    decreases x, 2
  {
    ElementAt(s, i, x);
    ElementsCons(s, i, i + |Encode(x)|, x);
  }

  /** An encoded value followed by a space or `)` is one element, and it decodes to the
      value. */
  lemma {:induction false} ElementAt(s: string, i: nat, x: SExp)
    requires 1 <= i && At(s, i, Encode(x)) && i + |Encode(x)| < |s|
    requires s[i + |Encode(x)|] == ' ' || s[i + |Encode(x)|] == ')'
    ensures i < i + |Encode(x)| && !IsSpace(s[i]) && ElementEnd(s, i) == i + |Encode(x)|
    ensures Decode(Clip(s, i, i + |Encode(x)|)) == Parsed(x)
    decreases x, 1
  {
    EncodeEnds(x);
    AtChar(s, i, Encode(x), 0);
    ElementEndValue(s, i, x);
    assert Clip(s, i, i + |Encode(x)|) == Encode(x);
    RoundTrip(x);
  }

  lemma ElementsCons(s: string, i: nat, j: nat, x: SExp)
    requires 1 <= i < j < |s| && !IsSpace(s[i]) && ElementEnd(s, i) == j
    requires Decode(Clip(s, i, j)) == Parsed(x)
    ensures DecodeElements(s, i) == Prefix([x], DecodeElements(s, j))
  {
    ElementsStep(s, i);
  }

  lemma PrefixRest<T>(xs: seq<T>)
    requires xs != []
    ensures Prefix([xs[0]], Parsed(xs[1..])) == Parsed(xs)
  {
    assert [xs[0]] + xs[1..] == xs;
  }

  lemma PrefixLast<T>(x: T)
    ensures Prefix([x], Parsed([])) == Parsed([x])
  {
    assert [x] + [] == [x];
  }
}
