/**
 * The single-line part of the ledger file editor: recognising transaction
 * headers, postings and blank lines, reading a status marker, and rewriting
 * the marker of one header or one posting line.
 */
module LedgerLines {
  import opened Text

  /** The reconciliation status of a posting: unset (""), pending ("!") or cleared ("*"). */
  predicate IsStatus(s: string) {
    s == "" || s == "!" || s == "*"
  }

  type Status = s: string | IsStatus(s) witness ""

  predicate IsMarker(c: char) {
    c == '!' || c == '*'
  }

  predicate IsDateSeparator(c: char) {
    c == '-' || c == '/'
  }

  /** The pattern `^\d{4}[-/]\d{2}[-/]\d{2}` at the start of s. */
  predicate HasDatePrefix(s: string) {
    && |s| >= 10
    && IsDigit(s[0]) && IsDigit(s[1]) && IsDigit(s[2]) && IsDigit(s[3])
    && IsDateSeparator(s[4])
    && IsDigit(s[5]) && IsDigit(s[6])
    && IsDateSeparator(s[7])
    && IsDigit(s[8]) && IsDigit(s[9])
  }

  /** A line with nothing but whitespace. */
  predicate IsBlank(line: string) {
    Strip(line) == []
  }

  /** A transaction header: after stripping, the line starts with a date. */
  predicate IsHeader(line: string) {
    HasDatePrefix(Strip(line))
  }

  /** The raw line starts with a space or a tab. */
  predicate IsIndented(line: string) {
    line != [] && (line[0] == ' ' || line[0] == '\t')
  }

  /** _is_valid_posting_line: not blank, not a `;` comment, not a header, and indented. */
  predicate IsValidPostingLine(line: string) {
    var stripped := Strip(line);
    if stripped == [] then false
    else if stripped[0] == ';' then false
    else if HasDatePrefix(stripped) then false
    else IsIndented(line)
  }

  /** _extract_posting_status: the marker that starts the left-stripped line, if any. */
  function ExtractPostingStatus(line: string): (r: Status)
    ensures r != "" <==> LStrip(line) != [] && IsMarker(LStrip(line)[0])
    ensures r != "" ==> r == [LStrip(line)[0]]
  {
    var stripped := LStrip(line);
    if stripped != [] && IsMarker(stripped[0]) then [stripped[0]] else ""
  }

  /** What follows the date of a stripped header, with the whitespace after the date skipped. */
  function AfterDate(t: string): string
    requires HasDatePrefix(t)
  {
    LStrip(t[10..])
  }

  /** The status group `([!*]?)` once the date and the whitespace after it are matched. */
  function DateMarker(t: string): (r: Status)
    requires HasDatePrefix(t)
  {
    var a := AfterDate(t);
    if a != [] && IsMarker(a[0]) then [a[0]] else ""
  }

  /** The status group of `^\d{4}[-/]\d{2}[-/]\d{2}\s*([!*]?)` matched against the stripped
      header line, as _get_effective_posting_status reads it. */
  function HeaderMarker(line: string): (r: Status)
    ensures r != "" ==> IsHeader(line)
  {
    var t := Strip(line);
    if HasDatePrefix(t) then DateMarker(t) else ""
  }

  /** Status resolution for one posting: its own marker, else its header's marker, else unset. */
  function EffectiveStatus(posting: string, header: string): (r: Status)
    ensures ExtractPostingStatus(posting) != "" ==> r == ExtractPostingStatus(posting)
    ensures ExtractPostingStatus(posting) == "" ==> r == HeaderMarker(header)
  {
    var own := ExtractPostingStatus(posting);
    if own != "" then own else HeaderMarker(header)
  }

  /** The marker text written in front of a description or an account: "" or the marker and a space. */
  function MarkerPrefix(s: Status): string {
    if s == "" then "" else s + " "
  }

  /** The line without its trailing newlines (Python's line.rstrip("\n")). */
  function Unterminated(line: string): string {
    RStripChar(line, '\n')
  }

  /** The newline the rewritten line gets back: one, when the line ended with one. */
  function LineEnd(line: string): string {
    if line != [] && line[|line| - 1] == '\n' then "\n" else ""
  }

  /** The unterminated line with its leading whitespace removed. */
  function Body(line: string): string {
    LStrip(Unterminated(line))
  }

  /** The leading whitespace of the unterminated line (LeadingSpaceSplit: it and the body
      make up the unterminated line). */
  function LeadingSpace(line: string): (w: string)
    ensures AllSpace(w)
  {
    var lw := Unterminated(line);
    lw[..|lw| - |Body(line)|]
  }

  /** The posting body starts with a status marker. */
  predicate HasMarker(line: string) {
    Body(line) != [] && IsMarker(Body(line)[0])
  }

  /** The posting text once an existing marker and ALL the whitespace after it are removed. */
  function AfterMarker(line: string): string {
    if HasMarker(line) then LStrip(Body(line)[1..]) else Body(line)
  }

  /** The text after a marker does not itself begin with a marker (e.g. not `* ! Assets`). */
  predicate NoStackedMarker(line: string) {
    AfterMarker(line) == [] || !IsMarker(AfterMarker(line)[0])
  }

  /** _update_posting_line. */
  function UpdatePostingLine(line: string, status: Status): string {
    if IsBlank(line) then line
    else if status == "" && !HasMarker(line) then line
    else LeadingSpace(line) + (MarkerPrefix(status) + AfterMarker(line)) + LineEnd(line)
  }

  /** The stripped, unterminated header line the header pattern is matched against. */
  function HeaderText(line: string): string {
    Strip(Unterminated(line))
  }

  /** The description group `(.*)` of `^(DATE)\s*([!*]?)\s*(.*)$`, taken greedily. */
  function HeaderDescription(t: string): string
    requires HasDatePrefix(t)
  {
    var a := AfterDate(t);
    LStrip(if a != [] && IsMarker(a[0]) then a[1..] else a)
  }

  /** The whole header pattern matches: a date prefix, and `.` never has to match a newline. */
  predicate HeaderMatches(t: string) {
    HasDatePrefix(t) && '\n' !in HeaderDescription(t)
  }

  /** _update_transaction_line. */
  function UpdateTransactionLine(line: string, status: Status): string {
    var t := HeaderText(line);
    if !HeaderMatches(t) then line
    else LeadingSpace(line) + (t[..10] + " " + MarkerPrefix(status) + HeaderDescription(t)) + LineEnd(line)
  }

  // ---------------------------------------------------------------------------
  // Facts about one line

  /** The leading whitespace and the body make up the unterminated line. */
  lemma LeadingSpaceSplit(line: string)
    ensures Unterminated(line) == LeadingSpace(line) + Body(line)
  {
    LStripSuffix(Unterminated(line));
  }

  /** The last character of what lstrip() leaves is the last character of the string. */
  lemma LStripLast(s: string)
    ensures LStrip(s) != [] ==> LStrip(s)[|LStrip(s)| - 1] == s[|s| - 1]
  {
    LStripSuffix(s);
    var r := LStrip(s);
    if r != [] {
      assert s[|s| - 1] == r[|r| - 1];
    }
  }

  /** A line that is not blank has a non-empty body, and its unterminated part does not end
      with a newline. */
  lemma BodyFacts(line: string)
    requires !IsBlank(line)
    ensures Body(line) != []
    ensures Unterminated(line) != [] && Unterminated(line)[|Unterminated(line)| - 1] != '\n'
  {
    var lw := Unterminated(line);
    StripUnterminated(line);
    assert RStrip(LStrip(lw)) != [];
  }

  /** The text after the marker starts with a non-space character and ends where the
      unterminated line ends. */
  lemma AfterMarkerShape(line: string)
    ensures var am := AfterMarker(line); var lw := Unterminated(line);
      am != [] ==> !IsSpace(am[0]) && am[|am| - 1] == lw[|lw| - 1]
  {
    var lw := Unterminated(line);
    var b := LStrip(lw);
    LStripLast(lw);
    if b != [] && IsMarker(b[0]) {
      var b1 := b[1..];
      LStripLast(b1);
      assert b1 != [] ==> b1[|b1| - 1] == b[|b| - 1];
    }
  }

  /** On a line that is not blank, lstrip() of the whole line and of its unterminated part
      start with the same character, so the marker seen by both is the same. */
  lemma MarkerAgrees(line: string)
    requires !IsBlank(line)
    ensures ExtractPostingStatus(line) != "" <==> HasMarker(line)
    ensures HasMarker(line) ==> ExtractPostingStatus(line) == [Body(line)[0]]
  {
    BodyFacts(line);
    var lw := Unterminated(line);
    var tail := line[|lw|..];
    assert line == lw + tail;
    assert AllSpace(tail) by {
      forall i | 0 <= i < |tail| ensures IsSpace(tail[i]) {
        assert tail[i] == line[|lw| + i];
      }
    }
    LStripAppend(lw, tail);
  }

  lemma UnterminatedAppend(x: string, e: string)
    requires x != [] && x[|x| - 1] != '\n'
    requires e == "" || e == "\n"
    ensures Unterminated(x + e) == x
    ensures LineEnd(x + e) == e
  {
    if e == "\n" {
      assert (x + e)[..|x + e| - 1] == x;
    } else {
      assert x + e == x;
    }
  }

  /** A physical line is its unterminated part followed by its line ending. */
  lemma PhysicalLineSplit(line: string)
    requires IsPhysicalLine(line)
    ensures Unterminated(line) + LineEnd(line) == line
  {
    var lw := Unterminated(line);
    assert |lw| < |line| ==> line[|lw|] == '\n';
    assert |line| - |lw| <= 1;
    if |lw| == |line| {
      assert lw == line;
    } else {
      assert line == lw + "\n";
    }
  }

  /** A line put back together from leading whitespace, a core that starts with a non-space
      character, and a line ending: each part is read back as it went in. */
  lemma RebuiltLine(lead: string, core: string, e: string)
    requires AllSpace(lead)
    requires core != [] && !IsSpace(core[0]) && core[|core| - 1] != '\n'
    requires e == "" || e == "\n"
    ensures var r := lead + core + e;
      && Unterminated(r) == lead + core
      && Body(r) == core
      && LeadingSpace(r) == lead
      && LineEnd(r) == e
      && !IsBlank(r)
  {
    var r := lead + core + e;
    assert (lead + core)[|lead + core| - 1] == core[|core| - 1];
    UnterminatedAppend(lead + core, e);
    LStripOfSpaces(lead, core);
    LStripNonSpace(core);
    assert (lead + core)[..|lead|] == lead;
    StripUnterminated(r);
    RStripKeeps(core, 1);
  }

  /** A marker, a space and the rest: the rest is what follows the marker once the whitespace
      after it is skipped. */
  lemma MarkedCore(status: Status, am: string)
    requires status != ""
    requires am != [] ==> !IsSpace(am[0]) && am[|am| - 1] != '\n'
    ensures var core := MarkerPrefix(status) + am;
      && core != [] && IsMarker(core[0]) && !IsSpace(core[0]) && core[|core| - 1] != '\n'
      && LStrip(core[1..]) == am
  {
    var core := MarkerPrefix(status) + am;
    assert core[|core| - 1] == if am == [] then ' ' else am[|am| - 1];
    assert core[1..] == " " + am;
    LStripOfSpaces(" ", am);
    LStripNonSpace(am);
  }

  /** A rebuilt line whose core is a marker, a space and the rest: the marker is seen and the
      rest comes back as the text after it. */
  lemma MarkedLine(lead: string, status: Status, am: string, e: string)
    requires AllSpace(lead) && status != ""
    requires am != [] ==> !IsSpace(am[0]) && am[|am| - 1] != '\n'
    requires e == "" || e == "\n"
    ensures var r := lead + (MarkerPrefix(status) + am) + e;
      && !IsBlank(r) && LeadingSpace(r) == lead && LineEnd(r) == e
      && HasMarker(r) && Body(r)[0] == status[0] && AfterMarker(r) == am
  {
    MarkedCore(status, am);
    RebuiltLine(lead, MarkerPrefix(status) + am, e);
  }

  /** A rebuilt line whose core does not start with a marker: no marker is seen. */
  lemma UnmarkedLine(lead: string, am: string, e: string)
    requires AllSpace(lead)
    requires am != [] && !IsSpace(am[0]) && !IsMarker(am[0]) && am[|am| - 1] != '\n'
    requires e == "" || e == "\n"
    ensures var r := lead + am + e;
      && !IsBlank(r) && LeadingSpace(r) == lead && LineEnd(r) == e
      && !HasMarker(r) && AfterMarker(r) == am
  {
    RebuiltLine(lead, am, e);
  }

  /** The posting rewrite when it does rewrite: a new marker in front of the text after the
      old one, with the indentation and the line ending kept. */
  lemma UpdatePostingShape(line: string, status: Status)
    requires !IsBlank(line) && (status != "" || HasMarker(line))
    ensures UpdatePostingLine(line, status)
      == LeadingSpace(line) + (MarkerPrefix(status) + AfterMarker(line)) + LineEnd(line)
  {
  }

  /** Setting a marker: the result is marked with it and keeps everything else. */
  lemma UpdatePostingMarks(line: string, status: Status)
    requires !IsBlank(line) && status != ""
    ensures var r := UpdatePostingLine(line, status);
      && !IsBlank(r) && HasMarker(r) && Body(r)[0] == status[0]
      && LeadingSpace(r) == LeadingSpace(line) && AfterMarker(r) == AfterMarker(line)
      && LineEnd(r) == LineEnd(line)
  {
    BodyFacts(line);
    AfterMarkerShape(line);
    MarkedLine(LeadingSpace(line), status, AfterMarker(line), LineEnd(line));
  }

  /** Clearing a marker: the text after it is left (a blank line when there is none). */
  lemma UpdatePostingClears(line: string)
    requires !IsBlank(line) && HasMarker(line)
    ensures var r := UpdatePostingLine(line, "");
      && (AfterMarker(line) == [] ==> IsBlank(r))
      && (AfterMarker(line) != [] && NoStackedMarker(line) ==>
            && !IsBlank(r) && !HasMarker(r)
            && LeadingSpace(r) == LeadingSpace(line) && AfterMarker(r) == AfterMarker(line)
            && LineEnd(r) == LineEnd(line))
  {
    var lead, am, e := LeadingSpace(line), AfterMarker(line), LineEnd(line);
    assert [] + am == am;
    if am == [] {
      SpacesBlank(lead, e);
    } else if NoStackedMarker(line) {
      BodyFacts(line);
      AfterMarkerShape(line);
      UnmarkedLine(lead, am, e);
    }
  }

  lemma SpacesBlank(lead: string, e: string)
    requires AllSpace(lead) && (e == "" || e == "\n")
    ensures IsBlank(lead + ([] + []) + e)
  {
    var r := lead + ([] + []) + e;
    assert AllSpace(r) by {
      assert r == lead + e;
    }
    StripEmpty(r);
  }

  // ---------------------------------------------------------------------------
  // Properties of the posting rewrite

  /** After the rewrite the posting carries exactly the requested status; clearing a marker
      needs the text after it not to begin with a second marker. */
  lemma UpdatePostingLineStatus(line: string, status: Status)
    requires !IsBlank(line)
    requires status != "" || NoStackedMarker(line)
    ensures ExtractPostingStatus(UpdatePostingLine(line, status)) == status
  {
    MarkerAgrees(line);
    var r := UpdatePostingLine(line, status);
    if status != "" {
      UpdatePostingMarks(line, status);
      MarkerAgrees(r);
    } else if HasMarker(line) {
      UpdatePostingClears(line);
      if IsBlank(r) {
        StripEmpty(r);
        LStripOfSpaces(r, []);
        assert r + [] == r;
      } else {
        MarkerAgrees(r);
      }
    }
  }

  /** The rewrite keeps the indentation, the account-and-amount text and the line ending. */
  lemma UpdatePostingLineKeepsText(line: string, status: Status)
    requires !IsBlank(line)
    requires status != "" || NoStackedMarker(line)
    requires status != "" || AfterMarker(line) != []
    ensures var r := UpdatePostingLine(line, status);
      && LeadingSpace(r) == LeadingSpace(line) && AfterMarker(r) == AfterMarker(line)
      && LineEnd(r) == LineEnd(line)
  {
    if status != "" {
      UpdatePostingMarks(line, status);
    } else if HasMarker(line) {
      UpdatePostingClears(line);
    }
  }

  /** Rewriting a posting twice with the same status is rewriting it once; for clearing, the
      text after the marker must not begin with a second marker. */
  lemma UpdatePostingLineIdempotent(line: string, status: Status)
    requires status != "" || NoStackedMarker(line)
    ensures UpdatePostingLine(UpdatePostingLine(line, status), status) == UpdatePostingLine(line, status)
  {
    if !IsBlank(line) {
      var r := UpdatePostingLine(line, status);
      if status != "" {
        UpdatePostingMarks(line, status);
        UpdatePostingShape(r, status);
        UpdatePostingShape(line, status);
      } else if HasMarker(line) {
        UpdatePostingClears(line);
      }
    }
  }

  /** Why clearing needs NoStackedMarker: clearing a posting whose text after the marker
      begins with a second marker leaves that second marker in place. */
  lemma ClearingStackedMarker(line: string)
    requires !IsBlank(line) && HasMarker(line) && !NoStackedMarker(line)
    ensures ExtractPostingStatus(UpdatePostingLine(line, "")) == [AfterMarker(line)[0]]
  {
    var lead, am, e := LeadingSpace(line), AfterMarker(line), LineEnd(line);
    BodyFacts(line);
    AfterMarkerShape(line);
    assert [] + am == am;
    RebuiltLine(lead, am, e);
    MarkerAgrees(lead + am + e);
  }

  /** A physical posting line without a marker comes back exactly after its status is set
      and then cleared again (the mark-then-unmark round trip). */
  lemma MarkThenUnmark(line: string, status: Status)
    requires IsPhysicalLine(line) && !IsBlank(line) && !HasMarker(line)
    requires status != ""
    ensures UpdatePostingLine(UpdatePostingLine(line, status), "") == line
  {
    UpdatePostingMarks(line, status);
    var r := UpdatePostingLine(line, status);
    UpdatePostingShape(r, "");
    assert [] + AfterMarker(line) == Body(line);
    LeadingSpaceSplit(line);
    PhysicalLineSplit(line);
  }

  // ---------------------------------------------------------------------------
  // Properties of the header rewrite

  /** The description ends where the stripped header ends and starts with a non-space
      character. */
  lemma DescriptionShape(t: string)
    requires HasDatePrefix(t) && !IsSpace(t[|t| - 1])
    ensures var d := HeaderDescription(t);
      d != [] ==> !IsSpace(d[0]) && d[|d| - 1] == t[|t| - 1]
  {
    var t10 := t[10..];
    var a := LStrip(t10);
    LStripLast(t10);
    assert t10 != [] ==> t10[|t10| - 1] == t[|t| - 1];
    if a != [] && IsMarker(a[0]) {
      var a1 := a[1..];
      LStripLast(a1);
      assert a1 != [] ==> a1[|a1| - 1] == a[|a| - 1];
    } else {
      LStripLast(a);
    }
  }

  /** The date, a space, the marker text and the description, as the header rewrite builds
      them. */
  function HeaderCore(date: string, status: Status, d: string): string {
    date + " " + MarkerPrefix(status) + d
  }

  /** What a description is expected to be: empty, or starting and ending with non-space
      characters and free of newlines. */
  predicate IsDescription(d: string) {
    d != [] ==> !IsSpace(d[0]) && !IsSpace(d[|d| - 1]) && '\n' !in d
  }

  /** What follows the date in the rebuilt header, once trailing whitespace is stripped. */
  function Rest(status: Status, d: string): string {
    if d == [] then status else MarkerPrefix(status) + d
  }

  /** rstrip() of the rebuilt header keeps the date and leaves a space and the rest after it. */
  lemma HeaderCoreStrip(date: string, status: Status, d: string)
    requires HasDatePrefix(date) && |date| == 10 && IsDescription(d)
    ensures var t := RStrip(HeaderCore(date, status, d));
      && HasDatePrefix(t) && t[..10] == date && AfterDate(t) == Rest(status, d)
  {
    if d != [] {
      CoreStripWithDescription(date, status, d);
    } else if status == "" {
      CoreStripBare(date);
    } else {
      CoreStripMarkerOnly(date, status);
    }
  }

  lemma CoreStripWithDescription(date: string, status: Status, d: string)
    requires HasDatePrefix(date) && |date| == 10 && IsDescription(d) && d != []
    ensures var t := RStrip(HeaderCore(date, status, d));
      && HasDatePrefix(t) && t[..10] == date && AfterDate(t) == MarkerPrefix(status) + d
  {
    var core := HeaderCore(date, status, d);
    var rest := MarkerPrefix(status) + d;
    assert core == date + (" " + rest);
    assert core[|core| - 1] == d[|d| - 1];
    RStripNonSpace(core);
    assert core[10..] == " " + rest;
    LStripOfSpaces(" ", rest);
    LStripNonSpace(rest);
  }

  lemma CoreStripBare(date: string)
    requires HasDatePrefix(date) && |date| == 10
    ensures var t := RStrip(HeaderCore(date, "", []));
      && HasDatePrefix(t) && t[..10] == date && AfterDate(t) == []
  {
    assert HeaderCore(date, "", []) == date + " ";
    RStripOfSpaces(date, " ");
    RStripNonSpace(date);
    assert date[10..] == [];
  }

  lemma CoreStripMarkerOnly(date: string, status: Status)
    requires HasDatePrefix(date) && |date| == 10 && status != ""
    ensures var t := RStrip(HeaderCore(date, status, []));
      && HasDatePrefix(t) && t[..10] == date && AfterDate(t) == status
  {
    var t := date + (" " + status);
    assert HeaderCore(date, status, []) == t + " ";
    RStripOfSpaces(t, " ");
    assert t[|t| - 1] == status[0];
    RStripNonSpace(t);
    assert t[..10] == date;
    DatePrefixKept(t, date);
    assert t[10..] == " " + status;
    LStripOfSpaces(" ", status);
    LStripNonSpace(status);
  }

  /** A string that starts with a date has the date prefix. */
  lemma DatePrefixKept(t: string, date: string)
    requires HasDatePrefix(date) && |date| == 10 && |t| >= 10 && t[..10] == date
    ensures HasDatePrefix(t)
  {
    assert forall i :: 0 <= i < 10 ==> t[i] == date[i];
  }

  /** Reading the marker and the description back from the rest of the rebuilt header. */
  lemma RestReadBack(t: string, status: Status, d: string)
    requires HasDatePrefix(t) && AfterDate(t) == Rest(status, d) && IsDescription(d)
    requires status != "" || d == [] || !IsMarker(d[0])
    ensures DateMarker(t) == status
    ensures HeaderDescription(t) == d
  {
    var a := AfterDate(t);
    if d != [] && status != "" {
      assert a[1..] == " " + d;
      LStripOfSpaces(" ", d);
      LStripNonSpace(d);
    } else if d != [] {
      assert a == d;
      LStripNonSpace(d);
    } else if status != "" {
      assert a[1..] == [];
    }
  }

  /** The parts of a header the pattern matches are a date and a description. */
  lemma MatchedParts(line: string)
    requires HeaderMatches(HeaderText(line))
    ensures var t := HeaderText(line);
      HasDatePrefix(t[..10]) && |t[..10]| == 10 && IsDescription(HeaderDescription(t))
  {
    var t := HeaderText(line);
    assert !IsSpace(t[|t| - 1]);
    DescriptionShape(t);
  }

  /** The header rewrite when the pattern matches. */
  lemma RewrittenHeader(line: string, status: Status)
    requires HeaderMatches(HeaderText(line))
    ensures var t := HeaderText(line); var r := UpdateTransactionLine(line, status);
      && HeaderText(r) == RStrip(HeaderCore(t[..10], status, HeaderDescription(t)))
      && Strip(r) == HeaderText(r)
      && LeadingSpace(r) == LeadingSpace(line) && LineEnd(r) == LineEnd(line)
  {
    var t := HeaderText(line);
    var d := HeaderDescription(t);
    var date := t[..10];
    var core := HeaderCore(date, status, d);
    assert !IsSpace(t[|t| - 1]);
    DescriptionShape(t);
    assert core[0] == t[0];
    assert core[|core| - 1] != '\n' by {
      if d != [] {
        assert core[|core| - 1] == d[|d| - 1];
      } else {
        assert core[|core| - 1] == ' ';
      }
    }
    RebuiltLine(LeadingSpace(line), core, LineEnd(line));
    var r := UpdateTransactionLine(line, status);
    assert r == LeadingSpace(line) + core + LineEnd(line);
    StripUnterminated(r);
  }

  /** After the rewrite the header carries exactly the requested marker and keeps its date,
      its description, its indentation and its line ending; clearing needs a description
      that does not itself begin with a marker. */
  lemma UpdateTransactionLineMarker(line: string, status: Status)
    requires HeaderMatches(HeaderText(line))
    requires status != "" || NoStackedHeaderMarker(line)
    ensures var t := HeaderText(line); var r := UpdateTransactionLine(line, status);
      && IsHeader(r) && HeaderMarker(r) == status
      && HeaderMatches(HeaderText(r))
      && HeaderText(r)[..10] == t[..10]
      && HeaderDescription(HeaderText(r)) == HeaderDescription(t)
      && LeadingSpace(r) == LeadingSpace(line) && LineEnd(r) == LineEnd(line)
  {
    var t := HeaderText(line);
    var d := HeaderDescription(t);
    RewrittenHeader(line, status);
    MatchedParts(line);
    HeaderCoreStrip(t[..10], status, d);
    var r := UpdateTransactionLine(line, status);
    RestReadBack(HeaderText(r), status, d);
  }

  /** The marker the rewritten header reads back. */
  lemma UpdateTransactionLineReadsBack(line: string, status: Status)
    requires HeaderMatches(HeaderText(line))
    requires status != "" || NoStackedHeaderMarker(line)
    ensures HeaderMarker(UpdateTransactionLine(line, status)) == status
  {
    UpdateTransactionLineMarker(line, status);
  }

  /** The description of the header does not itself begin with a marker
      (as it does in `2024-01-01 * ! Shop`). */
  predicate NoStackedHeaderMarker(line: string) {
    var t := HeaderText(line);
    HasDatePrefix(t) ==> HeaderDescription(t) == [] || !IsMarker(HeaderDescription(t)[0])
  }

  /** A header stays a header under the rewrite. */
  lemma UpdateTransactionLineKeepsHeader(line: string, status: Status)
    requires IsHeader(line)
    ensures IsHeader(UpdateTransactionLine(line, status))
  {
    if HeaderMatches(HeaderText(line)) {
      RewrittenHeader(line, status);
      MatchedParts(line);
      HeaderCoreStrip(HeaderText(line)[..10], status, HeaderDescription(HeaderText(line)));
    }
  }

  /** Rewriting a header twice with the same status is rewriting it once. */
  lemma UpdateTransactionLineIdempotent(line: string, status: Status)
    requires status != "" || NoStackedHeaderMarker(line)
    ensures UpdateTransactionLine(UpdateTransactionLine(line, status), status) == UpdateTransactionLine(line, status)
  {
    if HeaderMatches(HeaderText(line)) {
      UpdateTransactionLineMarker(line, status);
    }
  }

  /** Why clearing needs NoStackedHeaderMarker: clearing a header whose description begins
      with a marker leaves that marker as the header's status. */
  lemma ClearingStackedHeaderMarker(line: string)
    requires HeaderMatches(HeaderText(line)) && !NoStackedHeaderMarker(line)
    ensures HeaderMarker(UpdateTransactionLine(line, "")) == [HeaderDescription(HeaderText(line))[0]]
  {
    var t := HeaderText(line);
    var d := HeaderDescription(t);
    RewrittenHeader(line, "");
    MatchedParts(line);
    HeaderCoreStrip(t[..10], "", d);
    var t' := HeaderText(UpdateTransactionLine(line, ""));
    assert AfterDate(t') == d;
  }
}
