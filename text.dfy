/**
 * The handful of Python string operations the ledger code relies on
 * (str.isspace, strip and its one-sided forms, startswith, split, join,
 * readlines and writelines), written over Dafny strings.
 */
module Text {

  /** Python's str.isspace() for one character (the Unicode whitespace set). */
  predicate IsSpace(c: char) {
    || c == ' '
    || '\t' <= c <= '\r'
    || '\U{1c}' <= c <= '\U{1f}'
    || c == '\U{85}' || c == '\U{a0}' || c == '\U{1680}'
    || '\U{2000}' <= c <= '\U{200a}'
    || c == '\U{2028}' || c == '\U{2029}' || c == '\U{202f}'
    || c == '\U{205f}' || c == '\U{3000}'
  }

  /** An ASCII decimal digit. */
  predicate IsDigit(c: char) {
    '0' <= c <= '9'
  }

  predicate AllSpace(s: string) {
    forall i :: 0 <= i < |s| ==> IsSpace(s[i])
  }

  /** Python's str.isdigit() restricted to ASCII: non-empty and all digits. */
  predicate IsDigits(s: string) {
    |s| > 0 && forall i :: 0 <= i < |s| ==> IsDigit(s[i])
  }

  predicate StartsWith(s: string, p: string) {
    |p| <= |s| && s[..|p|] == p
  }

  predicate EndsWith(s: string, p: string) {
    |p| <= |s| && s[|s| - |p|..] == p
  }

  /** Python's s.lstrip(): what is left after dropping leading whitespace (a suffix of s,
      as LStripSuffix shows). */
  function LStrip(s: string): (r: string)
    ensures |r| <= |s|
    ensures AllSpace(s[..|s| - |r|])
    ensures r != [] ==> !IsSpace(r[0])
  {
    if s != [] && IsSpace(s[0]) then
      var r := LStrip(s[1..]);
      assert s[..|s| - |r|] == [s[0]] + s[1..][..|s| - 1 - |r|];
      r
    else
      s
  }

  /** lstrip() removes a prefix: s is the dropped whitespace followed by the result. */
  lemma {:induction false} LStripSuffix(s: string)
    ensures s == s[..|s| - |LStrip(s)|] + LStrip(s)
    ensures LStrip(s) == s[|s| - |LStrip(s)|..]
    decreases |s|
  {
    if s != [] && IsSpace(s[0]) {
      var r := LStrip(s[1..]);
      LStripSuffix(s[1..]);
      var n := |s| - 1 - |r|;
      var p := s[1..][..n];
      assert s[..n + 1] == [s[0]] + p;
      assert s == [s[0]] + s[1..];
      assert [s[0]] + (p + r) == ([s[0]] + p) + r;
    } else {
      assert s[..0] + s == s;
    }
  }

  /** Python's s.rstrip(): the prefix left after dropping trailing whitespace. */
  function RStrip(s: string): (r: string)
    ensures |r| <= |s| && r == s[..|r|]
    ensures forall i :: |r| <= i < |s| ==> IsSpace(s[i])
    ensures r != [] ==> !IsSpace(r[|r| - 1])
  {
    if s != [] && IsSpace(s[|s| - 1]) then RStrip(s[..|s| - 1]) else s
  }

  /** Python's s.strip(). */
  function Strip(s: string): string {
    RStrip(LStrip(s))
  }

  /** Python's s.rstrip(c) for a single character c. */
  function RStripChar(s: string, c: char): (r: string)
    ensures |r| <= |s| && r == s[..|r|]
    ensures forall i :: |r| <= i < |s| ==> s[i] == c
    ensures r != [] ==> r[|r| - 1] != c
  {
    if s != [] && s[|s| - 1] == c then RStripChar(s[..|s| - 1], c) else s
  }

  lemma {:induction false} LStripOfSpaces(w: string, t: string)
    requires AllSpace(w)
    ensures LStrip(w + t) == LStrip(t)
    decreases |w|
  {
    if w != [] {
      var w' := w[1..];
      assert AllSpace(w');
      assert (w + t)[1..] == w' + t;
      LStripOfSpaces(w', t);
    } else {
      assert w + t == t;
    }
  }

  lemma {:induction false} RStripOfSpaces(x: string, w: string)
    requires AllSpace(w)
    ensures RStrip(x + w) == RStrip(x)
    decreases |w|
  {
    if w == [] {
      assert x + w == x;
    } else {
      var w' := w[..|w| - 1];
      assert (x + w)[|x + w| - 1] == w[|w| - 1];
      assert (x + w)[..|x + w| - 1] == x + w';
      RStripOfSpaces(x, w');
    }
  }

  /** LStrip of x followed by w, when x is not all whitespace. */
  lemma {:induction false} LStripAppend(x: string, w: string)
    ensures LStrip(x) != [] ==> LStrip(x + w) == LStrip(x) + w
    ensures LStrip(x) == [] && AllSpace(w) ==> LStrip(x + w) == []
    decreases |x|
  {
    if x == [] {
      assert x + w == w;
      if AllSpace(w) {
        LStripOfSpaces(w, []);
        assert w + [] == w;
      }
    } else {
      assert (x + w)[0] == x[0];
      assert (x + w)[1..] == x[1..] + w;
      LStripAppend(x[1..], w);
    }
  }

  /** Stripping a string followed by whitespace is stripping the string. */
  lemma StripOfTrailingSpaces(x: string, w: string)
    requires AllSpace(w)
    ensures Strip(x + w) == Strip(x)
  {
    LStripAppend(x, w);
    if LStrip(x) != [] {
      RStripOfSpaces(LStrip(x), w);
    }
  }

  /** Removing trailing newlines does not change what strip() gives. */
  lemma StripUnterminated(s: string)
    ensures Strip(RStripChar(s, '\n')) == Strip(s)
  {
    var r := RStripChar(s, '\n');
    assert s == r + s[|r|..];
    StripOfTrailingSpaces(r, s[|r|..]);
  }

  lemma LStripNonSpace(t: string)
    requires t != [] ==> !IsSpace(t[0])
    ensures LStrip(t) == t
  {
  }

  lemma RStripNonSpace(t: string)
    requires t != [] ==> !IsSpace(t[|t| - 1])
    ensures RStrip(t) == t
  {
  }

  /** Stripping leaves the empty string exactly when the string is all whitespace. */
  lemma {:induction false} StripEmpty(s: string)
    ensures Strip(s) == [] <==> AllSpace(s)
  {
    var l := LStrip(s);
    if l == [] {
      assert s[..|s|] == s;
    } else {
      assert !IsSpace(l[0]);
      LStripSuffix(s);
      assert s[|s| - |l|] == l[0];
      assert l[0..] == l;
    }
  }

  /** RStrip keeps every character up to the last non-space one. */
  lemma {:induction false} RStripKeeps(t: string, n: nat)
    requires 0 < n <= |t| && !IsSpace(t[n - 1])
    ensures |RStrip(t)| >= n
    decreases |t|
  {
    if IsSpace(t[|t| - 1]) {
      RStripKeeps(t[..|t| - 1], n);
    }
  }

  /** A string whose first n characters are non-space keeps them under Strip. */
  lemma StripKeepsPrefix(t: string, n: nat)
    requires 0 < n <= |t|
    requires forall i :: 0 <= i < n ==> !IsSpace(t[i])
    ensures |Strip(t)| >= n && Strip(t)[..n] == t[..n]
  {
    LStripNonSpace(t);
    RStripKeeps(t, n);
  }

  /** The characters of s before the first occurrence of c, or |s| when c does not occur. */
  function IndexOf(s: string, c: char): (k: nat)
    ensures k <= |s|
    ensures k < |s| ==> s[k] == c
    ensures forall i :: 0 <= i < k ==> s[i] != c
  {
    if s == [] then 0 else if s[0] == c then 0 else 1 + IndexOf(s[1..], c)
  }

  /** Python's str.split(c) for a single-character separator: never an empty list. */
  function Split(s: string, c: char): (r: seq<string>)
    ensures |r| > 0
    ensures forall k :: 0 <= k < |r| ==> c !in r[k]
    decreases |s|
  {
    var k := IndexOf(s, c);
    if k == |s| then [s] else [s[..k]] + Split(s[k + 1..], c)
  }

  /** Python's sep.join(xs). */
  function Join(sep: string, xs: seq<string>): string {
    if xs == [] then [] else if |xs| == 1 then xs[0] else xs[0] + sep + Join(sep, xs[1..])
  }

  /** A maximal run of non-whitespace as str.split() returns it. */
  predicate IsWord(w: string) {
    w != [] && forall i :: 0 <= i < |w| ==> !IsSpace(w[i])
  }

  /** Python's str.split() without arguments: the maximal runs of non-whitespace. */
  function Words(s: string): seq<string>
    decreases |s|
  {
    var t := LStrip(s);
    if t == [] then [] else var k := WordLength(t); [t[..k]] + Words(t[k..])
  }

  /** Every piece str.split() returns is a non-empty run of non-whitespace. */
  lemma {:induction false} WordsAreWords(s: string)
    ensures forall k :: 0 <= k < |Words(s)| ==> IsWord(Words(s)[k])
    decreases |s|
  {
    var t := LStrip(s);
    if t != [] {
      var k := WordLength(t);
      WordsAreWords(t[k..]);
      var rest := Words(t[k..]);
      assert Words(s) == [t[..k]] + rest;
      forall j | 0 <= j < |Words(s)| ensures IsWord(Words(s)[j]) {
        if j > 0 { assert Words(s)[j] == rest[j - 1]; }
      }
    }
  }

  /** The length of the run of non-whitespace at the start of t. */
  function WordLength(t: string): (k: nat)
    ensures k <= |t|
    ensures forall i :: 0 <= i < k ==> !IsSpace(t[i])
    ensures k < |t| ==> IsSpace(t[k])
    ensures t != [] && !IsSpace(t[0]) ==> k > 0
  {
    if t == [] || IsSpace(t[0]) then 0 else 1 + WordLength(t[1..])
  }

  /** writelines: the lines written one after the other. */
  function Concat(lines: seq<string>): string {
    if lines == [] then [] else lines[0] + Concat(lines[1..])
  }

  /** The length of the first line of s, counting its terminating newline if it has one. */
  function FirstLineLength(s: string): (k: nat)
    requires s != []
    ensures 0 < k <= |s|
    ensures forall i :: 0 <= i < k - 1 ==> s[i] != '\n'
    ensures k < |s| ==> s[k - 1] == '\n'
  {
    var n := IndexOf(s, '\n');
    if n == |s| then |s| else n + 1
  }

  /** readlines(): s cut after every newline; the last line may lack one. */
  function SplitLines(s: string): seq<string>
    decreases |s|
  {
    if s == [] then [] else var k := FirstLineLength(s); [s[..k]] + SplitLines(s[k..])
  }

  /** A line as readlines() produces it: non-empty, and a newline can only be its last character. */
  predicate IsPhysicalLine(line: string) {
    line != [] && forall i :: 0 <= i < |line| - 1 ==> line[i] != '\n'
  }

  /** Writing the lines that readlines() returned reproduces the text. */
  lemma {:induction false} SplitLinesConcat(s: string)
    ensures Concat(SplitLines(s)) == s
    decreases |s|
  {
    if s != [] {
      var k := FirstLineLength(s);
      SplitLinesConcat(s[k..]);
      assert SplitLines(s) == [s[..k]] + SplitLines(s[k..]);
      assert Concat(SplitLines(s)) == s[..k] + Concat(SplitLines(s[k..]));
      assert s[..k] + s[k..] == s;
    }
  }

  /** Every line readlines() returns is a physical line, and all but the last end with a
      newline. */
  lemma {:induction false} SplitLinesShape(s: string)
    ensures forall k :: 0 <= k < |SplitLines(s)| ==> IsPhysicalLine(SplitLines(s)[k])
    ensures forall k :: 0 <= k < |SplitLines(s)| - 1 ==> EndsWith(SplitLines(s)[k], "\n")
    decreases |s|
  {
    if s != [] {
      var k := FirstLineLength(s);
      var first := s[..k];
      SplitLinesShape(s[k..]);
      var rest := SplitLines(s[k..]);
      var r := SplitLines(s);
      assert r == [first] + rest;
      assert IsPhysicalLine(first);
      assert rest != [] ==> k < |s|;
      assert k < |s| ==> first[|first| - 1..] == "\n";
      forall j | 0 <= j < |r| ensures IsPhysicalLine(r[j]) {
        if j > 0 { assert r[j] == rest[j - 1]; }
      }
      forall j | 0 <= j < |r| - 1 ensures EndsWith(r[j], "\n") {
        if j > 0 { assert r[j] == rest[j - 1]; }
      }
    }
  }

  /** Python's universal-newline decoding on read: "\r\n" and a lone "\r" both become "\n". */
  function UniversalNewlines(s: string): (r: string)
    ensures '\r' !in r
    decreases |s|
  {
    if s == [] then []
    else if s[0] == '\r' then
      "\n" + (if |s| > 1 && s[1] == '\n' then UniversalNewlines(s[2..]) else UniversalNewlines(s[1..]))
    else [s[0]] + UniversalNewlines(s[1..])
  }

  /** Python's ordering of strings: lexicographic by code point. */
  predicate LexLessEq(a: string, b: string) {
    if a == [] then true
    else if b == [] then false
    else if a[0] != b[0] then a[0] < b[0]
    else LexLessEq(a[1..], b[1..])
  }

  lemma {:induction false} LexTotal(a: string, b: string)
    ensures LexLessEq(a, b) || LexLessEq(b, a)
  {
    if a != [] && b != [] && a[0] == b[0] {
      LexTotal(a[1..], b[1..]);
    }
  }

  lemma {:induction false} LexTransitive(a: string, b: string, c: string)
    requires LexLessEq(a, b) && LexLessEq(b, c)
    ensures LexLessEq(a, c)
  {
    if a != [] && b != [] && c != [] && a[0] == b[0] && b[0] == c[0] {
      LexTransitive(a[1..], b[1..], c[1..]);
    }
  }

  /** The value of a string of ASCII digits, most significant first. */
  function DigitsValue(s: string): (n: nat)
    requires forall i :: 0 <= i < |s| ==> IsDigit(s[i])
  {
    if s == [] then 0
    else
      assert IsDigit(s[|s| - 1]);
      DigitsValue(s[..|s| - 1]) * 10 + (s[|s| - 1] as int - '0' as int)
  }

  /** The shortest decimal spelling of n. */
  function DecimalString(n: nat): (s: string)
    ensures IsDigits(s)
  {
    if n < 10 then [('0' as int + n) as char] else DecimalString(n / 10) + [('0' as int + n % 10) as char]
  }

  lemma {:induction false} DecimalRoundTrip(n: nat)
    ensures DigitsValue(DecimalString(n)) == n
  {
    if n >= 10 {
      DecimalRoundTrip(n / 10);
      var s := DecimalString(n);
      assert s[..|s| - 1] == DecimalString(n / 10);
    }
  }
}
