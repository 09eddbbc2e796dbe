/**
 * What the reconciler makes of the text the `ledger` command prints. The output of
 * `ledger emacs` is normalised, decoded as one S-expression and turned into
 * reconciliation entries; the output of `ledger accounts` becomes a sorted list of
 * account names; the output of `ledger balance` is cut down to its first token.
 * Running the command is not modelled: every operation takes its standard output.
 */
module LedgerInterface {
  import opened Wrappers
  import opened Text
  import opened LedgerLines
  import opened SExpParser

  // ---------------------------------------------------------------------------
  // Records

  /** A posting as the emacs report describes it. The decoded values are stored as the
      parser produced them: nothing converts them to the annotated field types. */
  datatype LedgerPosting = LedgerPosting(account: SExp, amount: SExp, status: string, lineNumber: SExp, originalLine: string)

  /** The date of a transaction: a time in seconds, which the platform clock turns into
      a calendar date, or the fallback date 2024/01/01. */
  datatype Date = Seconds(seconds: int) | Fallback

  datatype ReconciliationEntry = ReconciliationEntry(date: Date, description: SExp, lineNumber: SExp, accountPostings: seq<LedgerPosting>, originalLine: string)

  /** Python truthiness of a decoded value. */
  predicate Truthy(v: SExp) {
    match v
    case Nil => false
    case Str(t) => t != []
    case Int(n) => n != 0
    case List(items) => items != []
  }

  // ---------------------------------------------------------------------------
  // _convert_status

  /** The status marker of a posting's status value: the two names ledger prints become
      their markers, a falsy value or a non-string becomes no marker, and any other string
      is kept as it is. */
  function ConvertStatus(v: SExp): (r: string)
    ensures !Truthy(v) || !v.Str? ==> r == ""
    ensures v == Str("pending") ==> r == "!"
    ensures v == Str("cleared") ==> r == "*"
    ensures v.Str? && v.text != "pending" && v.text != "cleared" ==> r == v.text
  {
    if !Truthy(v) then ""
    else if v == Str("pending") then "!"
    else if v == Str("cleared") then "*"
    else if v.Str? then v.text
    else ""
  }

  /** The status value `ledger emacs` prints for a marker: nothing, pending or cleared. */
  function EmacsStatus(s: Status): SExp {
    if s == "!" then Str("pending") else if s == "*" then Str("cleared") else Nil
  }

  /** Converting the printed value gives back the marker of the ledger file. */
  lemma ConvertStatusInverse(s: Status)
    ensures ConvertStatus(EmacsStatus(s)) == s
  {
  }

  // ---------------------------------------------------------------------------
  // _create_transaction_from_data

  /** The date of `data[2]`. A list of two or more values must start with two integers
      (the high and low halves of an Emacs time); with anything else in those places
      `high * 65536 + low` raises TypeError (None). Any other value gives the fallback. */
  function DateOf(info: SExp): (r: Option<Date>)
    ensures r == Some(Fallback) <==> !(info.List? && |info.items| >= 2)
    ensures r.None? <==> info.List? && |info.items| >= 2 && !(info.items[0].Int? && info.items[1].Int?)
  {
    if info.List? && |info.items| >= 2 then
      if info.items[0].Int? && info.items[1].Int? then Some(Seconds(info.items[0].n * 65536 + info.items[1].n))
      else None
    else Some(Fallback)
  }

  /** An Emacs time (high low usec) gives back its two 16-bit halves. */
  lemma EmacsTimeHalves(high: int, low: int, rest: seq<SExp>)
    requires 0 <= low < 65536
    ensures DateOf(List([Int(high), Int(low)] + rest)).Some?
    ensures DateOf(List([Int(high), Int(low)] + rest)).value.Seconds?
    ensures DateOf(List([Int(high), Int(low)] + rest)).value.seconds / 65536 == high
    ensures DateOf(List([Int(high), Int(low)] + rest)).value.seconds % 65536 == low
  {
    var t := high * 65536 + low;
    assert DateOf(List([Int(high), Int(low)] + rest)) == Some(Seconds(t));
    DivModUnique(t, high, low);
  }

  lemma DivModUnique(t: int, q: int, m: int)
    requires 0 <= m < 65536 && t == q * 65536 + m
    ensures t / 65536 == q && t % 65536 == m
  {
  }

  /** An element of the transaction after the first five that describes a posting. */
  predicate IsPostingData(v: SExp) {
    v.List? && |v.items| >= 3
  }

  /** The posting of `(line account amount [status ...])`. */
  function MakePosting(v: SExp): LedgerPosting
    requires IsPostingData(v)
  {
    LedgerPosting(v.items[1], v.items[2], ConvertStatus(if |v.items| > 3 then v.items[3] else Nil), v.items[0], "")
  }

  /** The postings of the elements xs, in order; other elements are skipped. */
  function PostingsOf(xs: seq<SExp>): (r: seq<LedgerPosting>)
    ensures |r| <= |xs|
    decreases |xs|
  {
    if xs == [] then []
    else (if IsPostingData(xs[0]) then [MakePosting(xs[0])] else []) + PostingsOf(xs[1..])
  }

  /** The postings of two runs of elements are those of the first followed by those of
      the second: the order of the report is kept. */
  lemma {:induction false} PostingsAppend(a: seq<SExp>, b: seq<SExp>)
    ensures PostingsOf(a + b) == PostingsOf(a) + PostingsOf(b)
    decreases |a|
  {
    if a != [] {
      assert (a + b)[0] == a[0];
      assert (a + b)[1..] == a[1..] + b;
      PostingsAppend(a[1..], b);
      var h := if IsPostingData(a[0]) then [MakePosting(a[0])] else [];
      assert PostingsOf(a + b) == h + PostingsOf(a[1..] + b);
      assert h + (PostingsOf(a[1..]) + PostingsOf(b)) == (h + PostingsOf(a[1..])) + PostingsOf(b);
    } else {
      assert a + b == b;
    }
  }

  /** Every posting comes from an element of three or more values, which supplies its line
      number, account and amount, and its status is the conversion of the fourth value;
      and every such element supplies one. */
  lemma {:induction false} PostingsSource(xs: seq<SExp>)
    ensures PostingsOf(xs) == [] <==> forall k :: 0 <= k < |xs| ==> !IsPostingData(xs[k])
    ensures forall p :: p in PostingsOf(xs) ==>
      exists k :: 0 <= k < |xs| && IsPostingData(xs[k]) && p == MakePosting(xs[k])
    decreases |xs|
  {
    if xs != [] {
      PostingsSource(xs[1..]);
      forall p | p in PostingsOf(xs)
        ensures exists k :: 0 <= k < |xs| && IsPostingData(xs[k]) && p == MakePosting(xs[k])
      {
        if IsPostingData(xs[0]) && p == MakePosting(xs[0]) {
          assert 0 < |xs|;
        } else {
          assert p in PostingsOf(xs[1..]);
          var k :| 0 <= k < |xs[1..]| && IsPostingData(xs[1..][k]) && p == MakePosting(xs[1..][k]);
          assert xs[k + 1] == xs[1..][k];
        }
      }
      if !IsPostingData(xs[0]) && PostingsOf(xs) == [] {
        forall k | 0 <= k < |xs| ensures !IsPostingData(xs[k]) {
          if k > 0 { assert xs[k] == xs[1..][k - 1]; }
        }
      }
      if forall k :: 0 <= k < |xs| ==> !IsPostingData(xs[k]) {
        forall k | 0 <= k < |xs[1..]| ensures !IsPostingData(xs[1..][k]) {
          assert xs[1..][k] == xs[k + 1];
        }
      }
    }
  }

  /** What creating an entry from a transaction's values yields. */
  datatype Creation = Entry(entry: ReconciliationEntry) | NotATransaction | Malformed

  /** _create_transaction_from_data: `(file line date code description posting...)`. Fewer
      than five values is no transaction; a malformed date raises (RuntimeError). */
  function CreateTransaction(data: seq<SExp>): (r: Creation)
    ensures r.NotATransaction? <==> |data| < 5
    ensures r.Malformed? <==> |data| >= 5 && DateOf(data[2]).None?
    ensures r.Entry? ==> r.entry.lineNumber == data[1] && r.entry.originalLine == ""
    ensures r.Entry? ==> r.entry.description == if Truthy(data[4]) then data[4] else Str("")
    ensures r.Entry? ==> Some(r.entry.date) == DateOf(data[2])
    ensures r.Entry? ==> r.entry.accountPostings == PostingsOf(data[5..])
  {
    if |data| < 5 then NotATransaction
    else match DateOf(data[2])
      case None => Malformed
      case Some(date) =>
        Entry(ReconciliationEntry(date, if Truthy(data[4]) then data[4] else Str(""), data[1], PostingsOf(data[5..]), ""))
  }

  /** _create_transaction_from_data, with its loop over the posting elements. */
  method CreateTransactionFromData(data: seq<SExp>) returns (r: Creation)
    ensures r == CreateTransaction(data)
  {
    if |data| < 5 {
      return NotATransaction;
    }
    var lineNumber := data[1];
    var info := data[2];
    var date: Date;
    if info.List? && |info.items| >= 2 {
      if !(info.items[0].Int? && info.items[1].Int?) {
        return Malformed;
      }
      date := Seconds(info.items[0].n * 65536 + info.items[1].n);
    } else {
      date := Fallback;
    }
    var description := if Truthy(data[4]) then data[4] else Str("");
    var postings: seq<LedgerPosting> := [];
    var i := 5;
    while i < |data|
      invariant 5 <= i <= |data|
      invariant postings == PostingsOf(data[5..i])
    {
      var postingData := data[i];
      if IsPostingData(postingData) {
        var status := ConvertStatus(if |postingData.items| > 3 then postingData.items[3] else Nil);
        postings := postings + [LedgerPosting(postingData.items[1], postingData.items[2], status, postingData.items[0], "")];
      }
      assert data[5..i + 1] == data[5..i] + [postingData];
      PostingsAppend(data[5..i], [postingData]);
      i := i + 1;
    }
    assert data[5..i] == data[5..];
    return Entry(ReconciliationEntry(date, description, lineNumber, postings, ""));
  }

  // ---------------------------------------------------------------------------
  // _parse_ledger_emacs_output

  /** What reading the emacs report yields: the entries, or the exception that escapes. */
  datatype Reading = Transactions(entries: seq<ReconciliationEntry>) | SExpError | Diverging | RuntimeError

  /** A top-level element that is a transaction: a list of at least five values. */
  predicate IsTransactionData(v: SExp) {
    v.List? && |v.items| >= 5
  }

  /** The entry e in front of the entries of a reading; an exception stays as it is. */
  function Push(e: ReconciliationEntry, r: Reading): Reading {
    if r.Transactions? then Transactions([e] + r.entries) else r
  }

  /** The entries of a first reading followed by those of a second: the first exception
      raised wins. */
  function AndThen(a: Reading, b: Reading): Reading {
    if !a.Transactions? then a
    else if !b.Transactions? then b
    else Transactions(a.entries + b.entries)
  }

  /** The entries of the top-level elements xs, in order; elements that are not
      transactions are skipped and a malformed transaction raises. */
  function EntriesOf(xs: seq<SExp>): (r: Reading)
    ensures r.Transactions? || r.RuntimeError?
    ensures r.Transactions? ==> |r.entries| <= |xs|
    decreases |xs|
  {
    if xs == [] then Transactions([])
    else if !IsTransactionData(xs[0]) then EntriesOf(xs[1..])
    else
      // Five values or more: the creation gives an entry or raises.
      var c := CreateTransaction(xs[0].items);
      if c.Entry? then Push(c.entry, EntriesOf(xs[1..])) else RuntimeError
  }

  /** Reading two runs of elements one after the other is reading their concatenation. */
  lemma {:induction false} EntriesAppend(a: seq<SExp>, b: seq<SExp>)
    ensures EntriesOf(a + b) == AndThen(EntriesOf(a), EntriesOf(b))
    decreases |a|
  {
    if a == [] {
      assert a + b == b;
    } else {
      assert (a + b)[1..] == a[1..] + b;
      assert (a + b)[0] == a[0];
      EntriesAppend(a[1..], b);
      if IsTransactionData(a[0]) && CreateTransaction(a[0].items).Entry? {
        var e := CreateTransaction(a[0].items).entry;
        PushAndThen(e, EntriesOf(a[1..]), EntriesOf(b));
      }
    }
  }

  lemma PushAndThen(e: ReconciliationEntry, a: Reading, b: Reading)
    ensures Push(e, AndThen(a, b)) == AndThen(Push(e, a), b)
  {
    if a.Transactions? && b.Transactions? {
      assert [e] + (a.entries + b.entries) == ([e] + a.entries) + b.entries;
    }
  }

  /** A run of elements none of which is a transaction gives no entries. */
  lemma {:induction false} EntriesWithoutTransactions(xs: seq<SExp>)
    requires forall k :: 0 <= k < |xs| ==> !IsTransactionData(xs[k])
    ensures EntriesOf(xs) == Transactions([])
    decreases |xs|
  {
    if xs != [] {
      assert !IsTransactionData(xs[0]);
      forall k | 0 <= k < |xs[1..]| ensures !IsTransactionData(xs[1..][k]) {
        assert xs[1..][k] == xs[k + 1];
      }
      EntriesWithoutTransactions(xs[1..]);
    }
  }

  /** The whitespace normalisation of the raw report: its words joined by single spaces. */
  function Normalize(out: string): string {
    Join(" ", Words(out))
  }

  /** The text has no whitespace but single spaces between non-whitespace characters. */
  predicate Collapsed(n: string) {
    forall k :: 0 <= k < |n| && IsSpace(n[k]) ==>
      n[k] == ' ' && 0 < k < |n| - 1 && !IsSpace(n[k - 1]) && !IsSpace(n[k + 1])
  }

  /** _parse_ledger_emacs_output as a value: blank output, output that does not start with
      a parenthesis and a parsed value that is falsy or not a list give no entries;
      decoding errors and the RuntimeError of a malformed transaction escape. */
  function EmacsEntries(out: string): Reading {
    if Strip(out) == [] then Transactions([])
    else
      var normalized := Normalize(out);
      if normalized == [] || !StartsWithChar(normalized, '(') then Transactions([])
      else match Decode(normalized)
        case ParseError => SExpError
        case Diverges => Diverging
        case Parsed(v) => if !Truthy(v) || !v.List? then Transactions([]) else EntriesOf(v.items)
  }

  /** _parse_ledger_emacs_output, with its loop over the top-level elements. */
  method ParseLedgerEmacsOutput(out: string) returns (r: Reading)
    ensures r == EmacsEntries(out)
  {
    if Strip(out) == [] {
      return Transactions([]);
    }
    var normalized := Join(" ", Words(out));
    if normalized == [] || !StartsWithChar(normalized, '(') {
      return Transactions([]);
    }
    var parsed := Parse(normalized);
    if parsed.ParseError? {
      return SExpError;
    }
    if parsed.Diverges? {
      return Diverging;
    }
    var v := parsed.value;
    if !Truthy(v) || !v.List? {
      return Transactions([]);
    }
    var transactions: seq<ReconciliationEntry> := [];
    var i := 0;
    while i < |v.items|
      invariant 0 <= i <= |v.items|
      invariant EntriesOf(v.items) == AndThen(Transactions(transactions), EntriesOf(v.items[i..]))
    {
      var transactionData := v.items[i];
      assert v.items[i..][1..] == v.items[i + 1..];
      if IsTransactionData(transactionData) {
        var transaction := CreateTransactionFromData(transactionData.items);
        if transaction.Malformed? {
          return RuntimeError;
        }
        if transaction.Entry? {
          PushAndThen(transaction.entry, Transactions(transactions), EntriesOf(v.items[i + 1..]));
          AppendEntry(transactions, transaction.entry, EntriesOf(v.items[i + 1..]));
          transactions := transactions + [transaction.entry];
        }
      }
      i := i + 1;
    }
    assert transactions + [] == transactions;
    return Transactions(transactions);
  }

  lemma AppendEntry(es: seq<ReconciliationEntry>, e: ReconciliationEntry, r: Reading)
    ensures AndThen(Transactions(es), Push(e, r)) == AndThen(Transactions(es + [e]), r)
  {
    if r.Transactions? {
      assert es + ([e] + r.entries) == (es + [e]) + r.entries;
    }
  }

  /** Blank output gives no entries. */
  lemma BlankOutputNoEntries(out: string)
    requires AllSpace(out)
    ensures EmacsEntries(out) == Transactions([])
  {
    StripEmpty(out);
  }

  /** Output whose first non-blank character is not an opening parenthesis gives no
      entries: normalising keeps the first non-blank character. */
  lemma NotAListNoEntries(out: string)
    requires Strip(out) != [] && Strip(out)[0] != '('
    ensures EmacsEntries(out) == Transactions([])
  {
    NormalizeStart(out);
  }

  /** The normalised text is empty exactly when the output is blank, and otherwise starts
      with the output's first non-blank character. */
  lemma NormalizeStart(out: string)
    ensures Normalize(out) == [] <==> Strip(out) == []
    ensures Strip(out) != [] ==> Normalize(out)[0] == Strip(out)[0]
  {
    var u := LStrip(out);
    WordsAreWords(out);
    if u == [] {
      assert Words(out) == [];
    } else {
      assert !IsSpace(u[0]);
      RStripKeeps(u, 1);
      var ws := Words(out);
      var k := WordLength(u);
      assert ws[0] == u[..k];
      JoinEnds(ws);
      assert Strip(out) == RStrip(u);
      assert RStrip(u)[0] == u[0];
    }
  }

  /** Normalising leaves no whitespace but single spaces between words. */
  lemma NormalizeCollapsed(out: string)
    ensures Collapsed(Normalize(out))
  {
    WordsAreWords(out);
    JoinCollapsed(Words(out));
  }

  /** The words joined by single spaces start with the first word's first character and
      end with a non-blank character. */
  lemma {:induction false} JoinEnds(ws: seq<string>)
    requires ws != [] && forall k :: 0 <= k < |ws| ==> IsWord(ws[k])
    ensures ws[0] != [] && Join(" ", ws) != [] && Join(" ", ws)[0] == ws[0][0]
    ensures !IsSpace(Join(" ", ws)[|Join(" ", ws)| - 1])
    decreases |ws|
  {
    assert IsWord(ws[0]);
    if |ws| > 1 {
      assert forall k :: 0 <= k < |ws[1..]| ==> ws[1..][k] == ws[k + 1];
      JoinEnds(ws[1..]);
    }
  }

  lemma {:induction false} JoinCollapsed(ws: seq<string>)
    requires forall k :: 0 <= k < |ws| ==> IsWord(ws[k])
    ensures Collapsed(Join(" ", ws))
    decreases |ws|
  {
    if |ws| == 1 {
      assert IsWord(ws[0]);
    } else if |ws| > 1 {
      var w := ws[0];
      assert IsWord(w);
      assert forall k :: 0 <= k < |ws[1..]| ==> ws[1..][k] == ws[k + 1];
      var rest := Join(" ", ws[1..]);
      JoinEnds(ws[1..]);
      JoinCollapsed(ws[1..]);
      var j := Join(" ", ws);
      assert j == w + " " + rest;
      forall k | 0 <= k < |j| && IsSpace(j[k])
        ensures j[k] == ' ' && 0 < k < |j| - 1 && !IsSpace(j[k - 1]) && !IsSpace(j[k + 1])
      {
        if k < |w| {
          assert false;
        } else if k == |w| {
          assert j[k + 1] == rest[0];
          assert j[k - 1] == w[|w| - 1];
        } else {
          var m := k - |w| - 1;
          assert j[k] == rest[m];
          assert j[k - 1] == rest[m - 1];
          assert j[k + 1] == rest[m + 1];
        }
      }
    }
  }

  // ---------------------------------------------------------------------------
  // get_accounts

  /** The non-blank lines, each stripped. */
  function StrippedLines(lines: seq<string>): (r: seq<string>)
    ensures forall a :: a in r ==> a != [] && !IsSpace(a[0]) && !IsSpace(a[|a| - 1])
    decreases |lines|
  {
    if lines == [] then []
    else
      var rest := StrippedLines(lines[1..]);
      var t := Strip(lines[0]);
      if t == [] then rest
      else
        assert t[0] == LStrip(lines[0])[0];
        [t] + rest
  }

  /** Python's ordering of strings, for the non-blank lines. */
  predicate Sorted(xs: seq<string>) {
    forall k :: 0 <= k < |xs| - 1 ==> LexLessEq(xs[k], xs[k + 1])
  }

  function Insert(x: string, xs: seq<string>): seq<string>
    decreases |xs|
  {
    if xs == [] || LexLessEq(x, xs[0]) then [x] + xs else [xs[0]] + Insert(x, xs[1..])
  }

  /** sorted(). */
  function Sort(xs: seq<string>): seq<string>
    decreases |xs|
  {
    if xs == [] then [] else Insert(xs[0], Sort(xs[1..]))
  }

  /** get_accounts on the text ledger printed. */
  function Accounts(out: string): seq<string> {
    Sort(StrippedLines(Split(Strip(out), '\n')))
  }

  lemma {:induction false} InsertPermutation(x: string, xs: seq<string>)
    ensures multiset(Insert(x, xs)) == multiset(xs) + multiset{x}
    decreases |xs|
  {
    if xs != [] && !LexLessEq(x, xs[0]) {
      InsertPermutation(x, xs[1..]);
      assert xs == [xs[0]] + xs[1..];
    }
  }

  lemma {:induction false} InsertSorted(x: string, xs: seq<string>)
    requires Sorted(xs)
    ensures Sorted(Insert(x, xs))
    ensures Insert(x, xs) != [] && (Insert(x, xs)[0] == x || (xs != [] && Insert(x, xs)[0] == xs[0]))
    decreases |xs|
  {
    if xs != [] && !LexLessEq(x, xs[0]) {
      LexTotal(x, xs[0]);
      var tail := xs[1..];
      assert Sorted(tail) by {
        forall k | 0 <= k < |tail| - 1 ensures LexLessEq(tail[k], tail[k + 1]) {
          assert tail[k] == xs[k + 1] && tail[k + 1] == xs[k + 2];
        }
      }
      InsertSorted(x, tail);
      var r := Insert(x, tail);
      var s := [xs[0]] + r;
      assert s == Insert(x, xs);
      forall k | 0 <= k < |s| - 1 ensures LexLessEq(s[k], s[k + 1]) {
        if k == 0 {
          assert s[1] == r[0];
          if r[0] != x {
            assert LexLessEq(xs[0], xs[1]);
          }
        } else {
          assert s[k] == r[k - 1] && s[k + 1] == r[k];
        }
      }
    }
  }

  lemma {:induction false} SortSorted(xs: seq<string>)
    ensures Sorted(Sort(xs))
    ensures multiset(Sort(xs)) == multiset(xs)
    decreases |xs|
  {
    if xs != [] {
      SortSorted(xs[1..]);
      InsertSorted(xs[0], Sort(xs[1..]));
      InsertPermutation(xs[0], Sort(xs[1..]));
      assert xs == [xs[0]] + xs[1..];
    }
  }

  /** The accounts are in Python's string order, are exactly the non-blank lines of the
      output, stripped, and none is empty or starts or ends with whitespace. */
  lemma AccountsSorted(out: string)
    ensures Sorted(Accounts(out))
    ensures multiset(Accounts(out)) == multiset(StrippedLines(Split(Strip(out), '\n')))
    ensures forall a :: a in Accounts(out) ==> a != [] && !IsSpace(a[0]) && !IsSpace(a[|a| - 1])
  {
    var lines := StrippedLines(Split(Strip(out), '\n'));
    SortSorted(lines);
    forall a | a in Accounts(out) ensures a in lines {
      assert a in multiset(Accounts(out));
    }
  }

  // ---------------------------------------------------------------------------
  // get_cleared_and_pending_balance

  /** The amount of `ledger balance` output: the first token of its first line, or
      $0.00 when there is none. */
  function Balance(out: string): string {
    var lines := Split(Strip(out), '\n');
    if |lines| > 0 && Strip(lines[0]) != [] then
      var parts := Words(Strip(lines[0]));
      if parts != [] then parts[0] else "$0.00"
    else "$0.00"
  }

  /** The amount is the first whitespace-separated token of the whole output. */
  lemma BalanceFirstToken(out: string)
    ensures Balance(out) == if Words(out) == [] then "$0.00" else Words(out)[0]
  {
    var u := LStrip(out);
    var t := Strip(out);
    assert t == RStrip(u);
    if u == [] {
      assert t == [];
      assert Split(t, '\n') == [t];
    } else {
      StrippedStart(u);
      FirstLineToken(t);
      assert Words(out)[0] == u[..WordLength(u)];
    }
  }

  /** Stripping the end keeps the first word of a text that starts with one. */
  lemma StrippedStart(u: string)
    requires u != [] && !IsSpace(u[0])
    ensures RStrip(u) != [] && !IsSpace(RStrip(u)[0])
    ensures WordLength(RStrip(u)) == WordLength(u)
    ensures RStrip(u)[..WordLength(u)] == u[..WordLength(u)]
  {
    RStripKeeps(u, 1);
    WordLengthPrefix(RStrip(u), u);
  }

  /** The first token of the first line of a text that starts with a non-blank character
      is the text's first word. */
  lemma FirstLineToken(t: string)
    requires t != [] && !IsSpace(t[0])
    ensures Strip(Split(t, '\n')[0]) != []
    ensures Words(Strip(Split(t, '\n')[0])) != []
    ensures Words(Strip(Split(t, '\n')[0]))[0] == t[..WordLength(t)]
  {
    var k := IndexOf(t, '\n');
    var l := t[..k];
    assert Split(t, '\n')[0] == l;
    assert l != [] && l[0] == t[0];
    LStripNonSpace(l);
    assert Strip(l) == RStrip(l);
    StrippedStart(l);
    var m := RStrip(l);
    LStripNonSpace(m);
    WordLengthPrefix(l, t);
    assert Words(m)[0] == m[..WordLength(m)];
    assert l[..WordLength(l)] == t[..WordLength(t)];
  }

  /** A prefix that ends at whitespace has the same first word. */
  lemma {:induction false} WordLengthPrefix(u: string, v: string)
    requires |u| <= |v| && u == v[..|u|]
    requires |u| == |v| || IsSpace(v[|u|])
    ensures WordLength(u) == WordLength(v)
    decreases |u|
  {
    if u != [] && !IsSpace(u[0]) {
      assert v[0] == u[0];
      assert u[1..] == v[1..][..|u| - 1];
      WordLengthPrefix(u[1..], v[1..]);
    }
  }
}
