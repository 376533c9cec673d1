/** `parseCSVLine`, the field splitter of the CSV import: commas separate
    fields except inside quotes, every field is trimmed, and quotes are
    recognised only where they can start or end a field. A quote opens at the
    start of the line or right after a comma; inside quotes, a quote closes
    when it is the last character or is followed by a comma. Any other quote
    is kept as text, and the quotes that open or close are dropped. */
module Csv {
  import opened JsText

  /** The loop's variables `current` and `inQuotes`, and the fields it has
      completed, as cut from the line: the loop's `result` holds each of them
      trimmed. */
  datatype ScanState = ScanState(fields: seq<string>, current: string, inQuotes: bool)

  /** A quote at `i` that opens a quoted stretch. */
  predicate OpensQuote(line: string, i: int)
    requires 0 <= i < |line|
  {
    line[i] == '"' && (i == 0 || line[i - 1] == ',')
  }

  /** A quote at `i` that closes a quoted stretch if one is open. */
  predicate ClosesQuote(line: string, i: int)
    requires 0 <= i < |line|
  {
    line[i] == '"' && !OpensQuote(line, i) && (i == |line| - 1 || line[i + 1] == ',')
  }

  /** One turn of the loop, on the character at `i`, branch by branch. */
  function Step(line: string, i: int, st: ScanState): ScanState
    requires 0 <= i < |line|
  {
    var c := line[i];
    if c == '"' && (i == 0 || line[i - 1] == ',') then st.(inQuotes := true)
    else if c == '"' && st.inQuotes && (i == |line| - 1 || line[i + 1] == ',') then st.(inQuotes := false)
    else if c == ',' && !st.inQuotes then st.(fields := st.fields + [st.current], current := [])
    else st.(current := st.current + [c])
  }

  /** The loop's variables after its first `n` turns. */
  function Scan(line: string, n: int): ScanState
    requires 0 <= n <= |line|
  {
    if n == 0 then ScanState([], [], false) else Step(line, n - 1, Scan(line, n - 1))
  }

  /** What `parseCSVLine` returns: the completed fields and the last one,
      each trimmed. */
  function CsvFields(line: string): seq<string> {
    var st := Scan(line, |line|);
    TrimAll(st.fields + [st.current])
  }

  /** Every piece trimmed. */
  function TrimAll(parts: seq<string>): (r: seq<string>)
    ensures |r| == |parts|
  {
    if parts == [] then [] else TrimAll(parts[..|parts| - 1]) + [Trim(parts[|parts| - 1])]
  }

  lemma TrimAllSnoc(p: seq<string>, x: string)
    ensures TrimAll(p + [x]) == TrimAll(p) + [Trim(x)]
  {
    assert (p + [x])[..|p|] == p;
  }

  /** The fields of a line, from where its scan ends. */
  lemma CsvFieldsOfScan(line: string, fields: seq<string>, current: string)
    requires Scan(line, |line|).fields == fields && Scan(line, |line|).current == current
    ensures CsvFields(line) == TrimAll(fields + [current])
  {
  }

  /** `parseCSVLine`. */
  method ParseCsvLine(line: string) returns (result: seq<string>)
    ensures result == CsvFields(line)
    ensures |result| >= 1
    ensures forall k :: 0 <= k < |result| ==> IsTrimmed(result[k])
  {
    result := [];
    var current := "";
    var inQuotes := false;
    for i := 0 to |line|
      invariant result == TrimAll(Scan(line, i).fields)
      invariant current == Scan(line, i).current && inQuotes == Scan(line, i).inQuotes
    {
      var c := line[i];
      ghost var st := Scan(line, i);
      if c == '"' && (i == 0 || line[i - 1] == ',') {
        inQuotes := true;
        assert Scan(line, i + 1) == st.(inQuotes := true);
      } else if c == '"' && inQuotes && (i == |line| - 1 || line[i + 1] == ',') {
        inQuotes := false;
        assert Scan(line, i + 1) == st.(inQuotes := false);
      } else if c == ',' && !inQuotes {
        StepSeparates(line, i);
        TrimAllSnoc(st.fields, current);
        result := result + [Trim(current)];
        current := "";
      } else {
        current := current + [c];
        assert Scan(line, i + 1) == st.(current := current);
      }
    }
    TrimAllSnoc(Scan(line, |line|).fields, current);
    CsvFieldsOfScan(line, Scan(line, |line|).fields, current);
    result := result + [Trim(current)];
    CsvFieldsTrimmed(line);
  }

  /** Every piece of the result is trimmed. */
  lemma {:induction false} TrimAllTrimmed(parts: seq<string>)
    ensures forall k :: 0 <= k < |parts| ==> IsTrimmed(TrimAll(parts)[k])
  {
    if parts != [] {
      var front := parts[..|parts| - 1];
      TrimAllTrimmed(front);
      var r := TrimAll(parts);
      var last := Trim(parts[|parts| - 1]);
      assert r == TrimAll(front) + [last];
      forall k | 0 <= k < |parts|
        ensures IsTrimmed(r[k])
      {
        if k < |front| {
          assert r[k] == TrimAll(front)[k];
        } else {
          assert r[k] == last;
        }
      }
    }
  }

  /** No field of a line starts or ends with a space. */
  lemma CsvFieldsTrimmed(line: string)
    ensures forall k :: 0 <= k < |CsvFields(line)| ==> IsTrimmed(CsvFields(line)[k])
  {
    var st := Scan(line, |line|);
    CsvFieldsOfScan(line, st.fields, st.current);
    TrimAllTrimmed(st.fields + [st.current]);
  }

  /** After `n` characters the scanner is inside quotes: some quote opened
      and no quote has closed since. */
  predicate InsideQuotes(line: string, n: int)
    requires n <= |line|
  {
    exists j :: 0 <= j < n && OpensQuote(line, j) && forall k :: j < k < n ==> !ClosesQuote(line, k)
  }

  /** How one character moves the quote state. */
  lemma StepQuotes(line: string, i: int)
    requires 0 <= i < |line|
    ensures Scan(line, i + 1).inQuotes ==
      if OpensQuote(line, i) then true
      else if ClosesQuote(line, i) && Scan(line, i).inQuotes then false
      else Scan(line, i).inQuotes
  {
  }

  /** A character that is neither a quote nor a separating comma joins the
      current field. */
  lemma StepAppends(line: string, i: int)
    requires 0 <= i < |line| && line[i] != '"' && (line[i] != ',' || Scan(line, i).inQuotes)
    ensures Scan(line, i + 1) == Scan(line, i).(current := Scan(line, i).current + [line[i]])
  {
  }

  /** A comma outside quotes completes the current field. */
  lemma StepSeparates(line: string, i: int)
    requires 0 <= i < |line| && line[i] == ',' && !Scan(line, i).inQuotes
    ensures Scan(line, i + 1)
         == Scan(line, i).(fields := Scan(line, i).fields + [Scan(line, i).current], current := [])
  {
  }

  /** The loop's `inQuotes` is exactly "inside quotes". */
  lemma {:induction false} InQuotesIff(line: string, n: int)
    requires 0 <= n <= |line|
    ensures Scan(line, n).inQuotes <==> InsideQuotes(line, n)
  {
    if n > 0 {
      var i := n - 1;
      InQuotesIff(line, i);
      StepQuotes(line, i);
      if OpensQuote(line, i) {
        assert i + 1 == n;
      } else if ClosesQuote(line, i) && Scan(line, i).inQuotes {
        forall j | 0 <= j < n && OpensQuote(line, j)
          ensures exists k :: j < k < n && ClosesQuote(line, k)
        {
          assert j < i && ClosesQuote(line, i);
        }
      } else {
        if InsideQuotes(line, i) {
          var j :| 0 <= j < i && OpensQuote(line, j) && forall k :: j < k < i ==> !ClosesQuote(line, k);
          assert !ClosesQuote(line, i);
          assert forall k :: j < k < n ==> !ClosesQuote(line, k);
        }
        if InsideQuotes(line, n) {
          var j :| 0 <= j < n && OpensQuote(line, j) && forall k :: j < k < n ==> !ClosesQuote(line, k);
          assert j < i;
          assert forall k :: j < k < i ==> !ClosesQuote(line, k);
        }
      }
    }
  }

  /** A quote state changes from outside to inside only at a quote at the
      start of the line or right after a comma. */
  lemma QuoteOpensOnlyAfterComma(line: string, i: int)
    requires 0 <= i < |line|
    requires !InsideQuotes(line, i) && InsideQuotes(line, i + 1)
    ensures line[i] == '"' && (i == 0 || line[i - 1] == ',')
  {
    InQuotesIff(line, i);
    InQuotesIff(line, i + 1);
    StepQuotes(line, i);
  }

  /** ... and from inside to outside only at a quote that ends the line or is
      followed by a comma. */
  lemma QuoteClosesOnlyBeforeComma(line: string, i: int)
    requires 0 <= i < |line|
    requires InsideQuotes(line, i) && !InsideQuotes(line, i + 1)
    ensures line[i] == '"' && (i == |line| - 1 || line[i + 1] == ',')
  {
    InQuotesIff(line, i);
    InQuotesIff(line, i + 1);
    StepQuotes(line, i);
  }

  /** A comma outside quotes: a field boundary. */
  predicate IsSeparator(line: string, i: int)
    requires 0 <= i < |line|
  {
    line[i] == ',' && !InsideQuotes(line, i)
  }

  /** The number of field boundaries among the first `n` characters. */
  function Separators(line: string, n: int): nat
    requires 0 <= n <= |line|
  {
    if n == 0 then 0 else Separators(line, n - 1) + (if IsSeparator(line, n - 1) then 1 else 0)
  }

  /** How one character moves the number of completed fields. */
  lemma StepFieldCount(line: string, i: int)
    requires 0 <= i < |line|
    ensures |Scan(line, i + 1).fields|
         == |Scan(line, i).fields| + if line[i] == ',' && !Scan(line, i).inQuotes then 1 else 0
  {
  }

  lemma {:induction false} ScanFieldCount(line: string, n: int)
    requires 0 <= n <= |line|
    ensures |Scan(line, n).fields| == Separators(line, n)
  {
    if n > 0 {
      ScanFieldCount(line, n - 1);
      InQuotesIff(line, n - 1);
      StepFieldCount(line, n - 1);
      var here := line[n - 1] == ',' && !Scan(line, n - 1).inQuotes;
      assert IsSeparator(line, n - 1) == here;
      assert Separators(line, n) == Separators(line, n - 1) + if here then 1 else 0;
    }
  }

  /** One field more than there are commas outside quotes. */
  lemma FieldCount(line: string)
    ensures |CsvFields(line)| == Separators(line, |line|) + 1
  {
    ScanFieldCount(line, |line|);
  }

  /** The scan of a quote-free comma: the last piece becomes a field. */
  lemma QuoteFreeComma(line: string, i: int, p: seq<string>)
    requires 0 <= i < |line| && line[i] == ',' && |p| >= 1
    requires !Scan(line, i).inQuotes && Scan(line, i).fields == p[..|p| - 1] && Scan(line, i).current == p[|p| - 1]
    ensures var q := p + [[]];
      !Scan(line, i + 1).inQuotes && Scan(line, i + 1).fields == q[..|q| - 1] && Scan(line, i + 1).current == q[|q| - 1]
  {
    StepSeparates(line, i);
    var q := p + [[]];
    assert q[..|q| - 1] == p;
    assert p == p[..|p| - 1] + [p[|p| - 1]];
  }

  /** The scan of a quote-free non-comma: it joins the last piece. */
  lemma QuoteFreeOther(line: string, i: int, p: seq<string>)
    requires 0 <= i < |line| && line[i] != ',' && line[i] != '"' && |p| >= 1
    requires !Scan(line, i).inQuotes && Scan(line, i).fields == p[..|p| - 1] && Scan(line, i).current == p[|p| - 1]
    ensures var q := p[..|p| - 1] + [p[|p| - 1] + [line[i]]];
      !Scan(line, i + 1).inQuotes && Scan(line, i + 1).fields == q[..|q| - 1] && Scan(line, i + 1).current == q[|q| - 1]
  {
    StepAppends(line, i);
    var q := p[..|p| - 1] + [p[|p| - 1] + [line[i]]];
    assert q[..|q| - 1] == p[..|p| - 1];
  }

  lemma {:induction false} ScanQuoteFree(line: string, n: int)
    requires 0 <= n <= |line| && '"' !in line
    ensures var p := Split(line[..n], ',');
      !Scan(line, n).inQuotes && Scan(line, n).fields == p[..|p| - 1] && Scan(line, n).current == p[|p| - 1]
  {
    if n == 0 {
      assert line[..0] == [];
    } else {
      var i := n - 1;
      ScanQuoteFree(line, i);
      var c := line[i];
      var p := Split(line[..i], ',');
      assert line[..n] == line[..i] + [c];
      SplitSnoc(line[..i], c, ',');
      assert c != '"';
      if c == ',' {
        QuoteFreeComma(line, i, p);
      } else {
        QuoteFreeOther(line, i, p);
      }
    }
  }

  /** A line without quotes is split at every comma, each piece trimmed. */
  lemma QuoteFreeLineSplitsOnCommas(line: string)
    requires '"' !in line
    ensures CsvFields(line) == TrimAll(Split(line, ','))
  {
    ScanQuoteFree(line, |line|);
    assert line[..|line|] == line;
    CsvFieldsFromPieces(line, Split(line, ','));
  }

  /** The fields of a line whose scan ends with the pieces `p`. */
  lemma CsvFieldsFromPieces(line: string, p: seq<string>)
    requires |p| >= 1
    requires Scan(line, |line|).fields == p[..|p| - 1] && Scan(line, |line|).current == p[|p| - 1]
    ensures CsvFields(line) == TrimAll(p)
  {
    CsvFieldsOfScan(line, p[..|p| - 1], p[|p| - 1]);
    DropLastAppend(p);
  }

  lemma DropLastAppend(p: seq<string>)
    requires |p| >= 1
    ensures p[..|p| - 1] + [p[|p| - 1]] == p
  {
  }

  lemma {:induction false} ScanInsideQuotedField(f: string, n: int)
    requires '"' !in f && 1 <= n <= |f| + 1
    ensures Scan(['"'] + f + ['"'], n) == ScanState([], f[..n - 1], true)
  {
    var line := ['"'] + f + ['"'];
    if n > 1 {
      ScanInsideQuotedField(f, n - 1);
      assert line[n - 1] == f[n - 2];
      StepAppends(line, n - 1);
      assert f[..n - 1] == f[..n - 2] + [f[n - 2]];
    } else {
      assert line[0] == '"';
    }
  }

  /** A quote that ends the line inside quotes adds nothing to the fields. */
  lemma StepFinalQuote(line: string)
    requires |line| >= 2 && line[|line| - 1] == '"' && Scan(line, |line| - 1).inQuotes
    ensures Scan(line, |line|).fields == Scan(line, |line| - 1).fields
    ensures Scan(line, |line|).current == Scan(line, |line| - 1).current
  {
  }

  /** A field wrapped in quotes is one field, commas and all. */
  lemma QuotedFieldKeepsCommas(f: string)
    requires '"' !in f
    ensures CsvFields(['"'] + f + ['"']) == [Trim(f)]
  {
    var line := ['"'] + f + ['"'];
    ScanInsideQuotedField(f, |f| + 1);
    assert f[..|f|] == f;
    StepFinalQuote(line);
    CsvFieldsOfScan(line, [], f);
    TrimAllSnoc([], f);
  }
}
