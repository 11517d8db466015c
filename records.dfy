/**
 * Reading the tab-separated document collection: each line is
 * `<id>\t<content>`, lower-cased as a whole, and the lines fill a dictionary
 * from id to content.  The file handling around the loop is not modelled;
 * the lines arrive as a sequence, each with its line terminator if it had one.
 */
module Records {
  import opened Results
  import opened Text
  import opened OrderedMaps

  /** The two `ValueError`s a line can raise: no tab to split on, or an id `int()` rejects. */
  datatype ParseError = MissingTab | InvalidId

  datatype Record = Record(id: int, content: string)

  type Documents = OrderedMap<int, string>

  predicate IsDigit(c: char) {
    '0' <= c <= '9'
  }

  predicate IsDecimal(s: string) {
    s != [] && forall k :: 0 <= k < |s| ==> IsDigit(s[k])
  }

  /** The value of a string of decimal digits, most significant first. */
  function DecimalValue(s: string): (n: nat)
    requires forall k :: 0 <= k < |s| ==> IsDigit(s[k])
  {
    if s == [] then 0
    else
      assert IsDigit(s[|s| - 1]);
      10 * DecimalValue(s[..|s| - 1]) + (s[|s| - 1] as int - '0' as int)
  }

  /** `int(s)` for decimal digit strings; `None` where `int()` raises. */
  function ParseDecimal(s: string): (r: Option<int>)
    ensures r.Some? <==> IsDecimal(s)
    ensures r.Some? ==> r.value >= 0
  {
    if IsDecimal(s) then Some(DecimalValue(s)) else None
  }

  /** A leading zero does not change the value: `int("0" + s) == int(s)`, and `int("0") == 0`. */
  lemma {:induction false} ValueLeadingZero(s: string)
    requires forall k :: 0 <= k < |s| ==> IsDigit(s[k])
    ensures forall k :: 0 <= k < |"0" + s| ==> IsDigit(("0" + s)[k])
    ensures DecimalValue("0" + s) == DecimalValue(s)
    ensures ParseDecimal("0" + s) == Some(DecimalValue(s))
    decreases |s|
  {
    var t := "0" + s;
    assert forall k :: 0 < k < |t| ==> t[k] == s[k - 1];
    if s == [] {
      assert t[..|t| - 1] == [];
    } else {
      var s' := s[..|s| - 1];
      ValueLeadingZero(s');
      assert t[..|t| - 1] == "0" + s';
      assert t[|t| - 1] == s[|s| - 1];
    }
  }

  /** `str(n)` for a natural number. */
  function ShowDecimal(n: nat): (s: string)
    ensures IsDecimal(s)
  {
    if n < 10 then [('0' as int + n) as char] else ShowDecimal(n / 10) + [('0' as int + n % 10) as char]
  }

  /** `int(str(n)) == n`. */
  lemma {:induction false} ParseShowDecimal(n: nat)
    ensures ParseDecimal(ShowDecimal(n)) == Some(n)
  {
    var s := ShowDecimal(n);
    if n < 10 {
      assert s[..|s| - 1] == [];
    } else {
      ParseShowDecimal(n / 10);
      assert s[..|s| - 1] == ShowDecimal(n / 10);
      assert DecimalValue(s) == 10 * (n / 10) + n % 10;
    }
  }

  /** The position of the first tab in `s`, or `|s|` when there is none. */
  function FirstTab(s: string): (i: nat)
    ensures i <= |s|
    ensures forall k :: 0 <= k < i ==> s[k] != '\t'
    ensures i < |s| ==> s[i] == '\t'
  {
    if s == [] || s[0] == '\t' then 0 else 1 + FirstTab(s[1..])
  }

  /** The id part of a line: the lower-cased text before its first tab. */
  function IdPart(line: string): string {
    var low := Lower(line);
    low[..FirstTab(low)]
  }

  /**
   * One line of the library's loader: the whole line is lower-cased and split
   * once on its first tab; the part before the tab must be an integer, the
   * rest, further tabs and the line terminator included, is the content.
   */
  function ParseRecord(line: string): (r: Result<Record, ParseError>)
    ensures r == Err(MissingTab) <==> '\t' !in line
    ensures r == Err(InvalidId) <==> '\t' in line && !IsDecimal(IdPart(line))
    ensures r.Ok? <==> '\t' in line && IsDecimal(IdPart(line))
    ensures r.Ok? ==> var low := Lower(line); var i := FirstTab(low);
      && i < |line|
      && Some(r.value.id) == ParseDecimal(low[..i])
      && r.value.content == low[i + 1..]
  {
    var low := Lower(line);
    var i := FirstTab(low);
    assert '\t' in line <==> '\t' in low by {
      forall k | 0 <= k < |line| ensures line[k] == '\t' <==> low[k] == '\t' {}
    }
    if i == |low| then Err(MissingTab)
    else match ParseDecimal(low[..i])
      case None => Err(InvalidId)
      case Some(id) => Ok(Record(id, low[i + 1..]))
  }

  /**
   * A line written as the id in decimal, a tab and any content parses back to
   * that id and the lower-cased content, whatever tabs the content holds.
   */
  lemma ParseRecordOfFormatted(id: nat, content: string)
    ensures ParseRecord(ShowDecimal(id) + "\t" + content) == Ok(Record(id, Lower(content)))
  {
    var digits := ShowDecimal(id);
    var line := digits + "\t" + content;
    var low := Lower(line);
    var n := |digits|;
    assert low[n] == '\t';
    assert forall k :: 0 <= k < n ==> low[k] == digits[k];
    assert FirstTab(low) == n;
    assert low[..n] == digits;
    assert low[n + 1..] == Lower(content);
    ParseShowDecimal(id);
  }

  /** The command-line copy of the loader also strips whitespace from both ends of the content. */
  function ParseStrippedRecord(line: string): (r: Result<Record, ParseError>)
    ensures r.Err? <==> ParseRecord(line).Err?
    ensures r.Err? ==> r.error == ParseRecord(line).error
    ensures r.Ok? ==> r.value.id == ParseRecord(line).value.id
    ensures r.Ok? ==> r.value.content == Strip(ParseRecord(line).value.content)
    ensures r.Ok? ==> NoOuterSpace(r.value.content)
  {
    match ParseRecord(line)
    case Err(e) => Err(e)
    case Ok(rec) => Ok(Record(rec.id, Strip(rec.content)))
  }

  /**
   * A line read with its terminator keeps it in the library's content, whose
   * last piece after splitting is then the empty word.
   */
  lemma NewlineContent(line: string)
    requires ParseRecord(line).Ok? && line[|line| - 1] == '\n'
    ensures var c := ParseRecord(line).value.content; var r := Split(c); c != [] && r[|r| - 1] == []
  {
    var low := Lower(line);
    var i := FirstTab(low);
    var c := ParseRecord(line).value.content;
    assert low[|line| - 1] == '\n';
    assert i != |line| - 1;
    assert c[|c| - 1] == low[|line| - 1];
    SplitLast(c);
  }

  /**
   * The stripped content never ends in whitespace, a line terminator
   * included, so its last piece is the empty word only when the content is
   * empty or ends in some other separator.
   */
  lemma StrippedContentLast(line: string)
    requires ParseStrippedRecord(line).Ok?
    ensures var c := ParseStrippedRecord(line).value.content; var r := Split(c);
      && (c == [] || c[|c| - 1] != '\n')
      && (r[|r| - 1] == [] <==> c == [] || (!IsWordChar(c[|c| - 1]) && !IsSpace(c[|c| - 1])))
  {
    TrimmedLast(ParseStrippedRecord(line).value.content);
  }

  /** A text that does not end in whitespace ends in an empty piece exactly when it ends in a non-space separator. */
  lemma TrimmedLast(c: string)
    requires c != [] ==> !IsSpace(c[|c| - 1])
    ensures var r := Split(c);
      && (c == [] || c[|c| - 1] != '\n')
      && (r[|r| - 1] == [] <==> c == [] || (!IsWordChar(c[|c| - 1]) && !IsSpace(c[|c| - 1])))
  {
    SplitLast(c);
  }

  function Parse(line: string, stripContent: bool): Result<Record, ParseError> {
    if stripContent then ParseStrippedRecord(line) else ParseRecord(line)
  }

  /** The outcome of parsing each line on its own. */
  function ParseEach(lines: seq<string>, stripContent: bool): (rs: seq<Result<Record, ParseError>>)
    ensures |rs| == |lines|
    ensures forall i :: 0 <= i < |lines| ==> rs[i] == Parse(lines[i], stripContent)
  {
    seq(|lines|, i requires 0 <= i < |lines| => Parse(lines[i], stripContent))
  }

  /**
   * The dictionary the loader has built after storing the given per-line
   * outcomes in order, or the first line's error.
   */
  function Collect(rs: seq<Result<Record, ParseError>>): Result<Documents, ParseError> {
    if rs == [] then Ok(Empty())
    else match Collect(rs[..|rs| - 1])
      case Err(e) => Err(e)
      case Ok(docs) =>
        match rs[|rs| - 1]
        case Err(e) => Err(e)
        case Ok(rec) => Ok(Put(docs, rec.id, rec.content))
  }

  /** `load_documents` after the file is opened: parse each line and store it under its id. */
  method LoadDocuments(lines: seq<string>, stripContent: bool) returns (r: Result<Documents, ParseError>)
    ensures r == Collect(ParseEach(lines, stripContent))
  {
    ghost var rs := ParseEach(lines, stripContent);
    var docs: Documents := Empty();
    var i := 0;
    while i < |lines|
      invariant 0 <= i <= |lines|
      invariant Collect(rs[..i]) == Ok(docs)
    {
      CollectStep(rs, i);
      match Parse(lines[i], stripContent)
      case Err(e) =>
        CollectStopsAtError(rs, i);
        return Err(e);
      case Ok(rec) =>
        docs := Put(docs, rec.id, rec.content);
      i := i + 1;
    }
    assert rs[..i] == rs;
    r := Ok(docs);
  }

  /**
   * Loading succeeds exactly when every line has a tab with a decimal id
   * before it, in either copy of the loader.
   */
  lemma LoadSucceeds(lines: seq<string>, stripContent: bool)
    ensures Collect(ParseEach(lines, stripContent)).Ok? <==>
      forall i :: 0 <= i < |lines| ==> '\t' in lines[i] && IsDecimal(IdPart(lines[i]))
  {
    CollectSucceeds(ParseEach(lines, stripContent));
  }

  /** Storing one more line's outcome. */
  lemma CollectStep(rs: seq<Result<Record, ParseError>>, i: nat)
    requires i < |rs|
    ensures Collect(rs[..i + 1]) ==
      if Collect(rs[..i]).Err? then Collect(rs[..i])
      else if rs[i].Err? then Err(rs[i].error)
      else Ok(Put(Collect(rs[..i]).value, rs[i].value.id, rs[i].value.content))
  {
    assert rs[..i + 1][..i] == rs[..i];
  }

  /** A successful load yields a well-formed dictionary. */
  lemma {:induction false} CollectValid(rs: seq<Result<Record, ParseError>>)
    requires Collect(rs).Ok?
    ensures Valid(Collect(rs).value)
    decreases |rs|
  {
    if rs != [] {
      var init := rs[..|rs| - 1];
      CollectValid(init);
      PutValid(Collect(init).value, rs[|rs| - 1].value.id, rs[|rs| - 1].value.content);
    }
  }

  /** Loading fails with the error of the first line that does not parse. */
  lemma {:induction false} CollectStopsAtError(rs: seq<Result<Record, ParseError>>, i: nat)
    requires i < |rs| && rs[i].Err?
    requires Collect(rs[..i]).Ok?
    ensures Collect(rs) == Err(rs[i].error)
    decreases |rs|
  {
    if i == |rs| - 1 {
      assert rs[..|rs| - 1] == rs[..i];
    } else {
      var init := rs[..|rs| - 1];
      assert init[..i] == rs[..i];
      CollectStopsAtError(init, i);
    }
  }

  /** Loading succeeds exactly when every line parses. */
  lemma {:induction false} CollectSucceeds(rs: seq<Result<Record, ParseError>>)
    ensures Collect(rs).Ok? <==> forall i :: 0 <= i < |rs| ==> rs[i].Ok?
    decreases |rs|
  {
    if rs != [] {
      var init := rs[..|rs| - 1];
      CollectSucceeds(init);
      assert forall i :: 0 <= i < |init| ==> init[i] == rs[i];
    }
  }

  /** No line after line `i` carries the same id: line `i` is the last word on that id. */
  predicate LastWithId(rs: seq<Result<Record, ParseError>>, i: nat)
    requires i < |rs| && forall j :: 0 <= j < |rs| ==> rs[j].Ok?
  {
    forall j :: i < j < |rs| ==> rs[j].value.id != rs[i].value.id
  }

  /** After a successful load every line's id is a key. */
  lemma {:induction false} CollectHasId(rs: seq<Result<Record, ParseError>>, i: nat)
    requires Collect(rs).Ok?
    requires i < |rs|
    ensures rs[i].Ok? && rs[i].value.id in Collect(rs).value.entries
    decreases |rs|
  {
    CollectSucceeds(rs);
    var n := |rs| - 1;
    var init := rs[..n];
    assert Collect(rs).value == Put(Collect(init).value, rs[n].value.id, rs[n].value.content);
    if i < n {
      CollectHasId(init, i);
      assert init[i] == rs[i];
    }
  }

  /** After a successful load every key is the id of some line. */
  lemma {:induction false} CollectOnlyIds(rs: seq<Result<Record, ParseError>>, k: int)
    requires Collect(rs).Ok?
    requires k in Collect(rs).value.entries
    ensures exists i :: 0 <= i < |rs| && rs[i].Ok? && rs[i].value.id == k
    decreases |rs|
  {
    var n := |rs| - 1;
    var init := rs[..n];
    assert Collect(init).Ok? && rs[n].Ok?;
    assert Collect(rs).value == Put(Collect(init).value, rs[n].value.id, rs[n].value.content);
    if k != rs[n].value.id {
      CollectOnlyIds(init, k);
      var i :| 0 <= i < |init| && init[i].Ok? && init[i].value.id == k;
      assert rs[i] == init[i];
    }
  }

  /** After a successful load each id holds the content of the last line that carries it. */
  lemma {:induction false} CollectLastWins(rs: seq<Result<Record, ParseError>>, i: nat)
    requires Collect(rs).Ok?
    requires i < |rs|
    requires forall j :: 0 <= j < |rs| ==> rs[j].Ok?
    requires LastWithId(rs, i)
    ensures rs[i].value.id in Collect(rs).value.entries
    ensures Collect(rs).value.entries[rs[i].value.id] == rs[i].value.content
    decreases |rs|
  {
    var n := |rs| - 1;
    var init := rs[..n];
    assert Collect(rs).value == Put(Collect(init).value, rs[n].value.id, rs[n].value.content);
    if i < n {
      assert init[i] == rs[i];
      assert forall j :: i < j < n ==> init[j] == rs[j];
      CollectLastWins(init, i);
    }
  }
}
