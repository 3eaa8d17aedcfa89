/**
 * utils.py: turning pasted text and CSV rows into chat ids, the recipient
 * limit, and the append-only send log.
 */
module Utils {
  import opened Wrappers
  import opened PyText

  /** The default maximum number of recipients (`limit: int = 50`). */
  const DefaultRecipientLimit: nat := 50

  // ---------------------------------------------------------------------------
  // Stripped, non-blank values: shared by the pasted-text and the CSV paths.
  // ---------------------------------------------------------------------------

  /**
   * `[x.strip() for x in xs if x.strip()]`: the stripped form of every value
   * that is not blank, in the original order, duplicates kept.
   */
  function StrippedNonBlank(xs: seq<string>): (r: seq<string>)
    ensures |r| <= |xs|
    ensures forall k :: 0 <= k < |r| ==> r[k] != [] && IsStripped(r[k])
  {
    if xs == [] then [] else Kept(xs[0]) + StrippedNonBlank(xs[1..])
  }

  /** What one value contributes: its stripped form, or nothing when it is blank. */
  function Kept(x: string): (r: seq<string>)
    ensures |r| <= 1
    ensures forall k :: 0 <= k < |r| ==> r[k] != [] && IsStripped(r[k])
  {
    var y := Strip(x);
    if y == [] then [] else [y]
  }

  /** Every non-blank value shows up stripped, and every result comes from some value. */
  lemma {:induction false} StrippedNonBlankMembers(xs: seq<string>)
    ensures forall x :: x in xs && Strip(x) != [] ==> Strip(x) in StrippedNonBlank(xs)
    ensures forall y :: y in StrippedNonBlank(xs) ==> exists x :: x in xs && Strip(x) == y
  {
    if xs != [] {
      var rest := StrippedNonBlank(xs[1..]);
      StrippedNonBlankMembers(xs[1..]);
      assert forall x :: x in xs ==> x == xs[0] || x in xs[1..];
      forall y | y in StrippedNonBlank(xs) ensures exists x :: x in xs && Strip(x) == y {
        if y in Kept(xs[0]) {
          assert xs[0] in xs && Strip(xs[0]) == y;
        } else {
          assert y in rest;
          var x :| x in xs[1..] && Strip(x) == y;
          assert x in xs;
        }
      }
    }
  }

  /** The filter works value by value: it distributes over concatenation. */
  lemma {:induction false} StrippedNonBlankAppend(a: seq<string>, b: seq<string>)
    ensures StrippedNonBlank(a + b) == StrippedNonBlank(a) + StrippedNonBlank(b)
  {
    if a == [] {
      assert a + b == b;
    } else {
      assert (a + b)[0] == a[0];
      assert (a + b)[1..] == a[1..] + b;
      StrippedNonBlankAppend(a[1..], b);
      assert StrippedNonBlank(a + b) == Kept(a[0]) + StrippedNonBlank(a[1..] + b);
    }
  }

  /** Values that are already stripped and non-blank pass through unchanged. */
  lemma {:induction false} StrippedNonBlankFixed(xs: seq<string>)
    requires forall k :: 0 <= k < |xs| ==> xs[k] != [] && IsStripped(xs[k])
    ensures StrippedNonBlank(xs) == xs
  {
    if xs != [] {
      StripStripped(xs[0]);
      StrippedNonBlankFixed(xs[1..]);
    }
  }

  // ---------------------------------------------------------------------------
  // parse_chat_ids
  // ---------------------------------------------------------------------------

  /** `parse_chat_ids(text)`: the stripped, non-blank lines of `text`, in order. */
  function ParseChatIds(text: string): (ids: seq<string>)
    ensures |ids| <= |SplitLines(text)|
    ensures forall k :: 0 <= k < |ids| ==> ids[k] != [] && IsStripped(ids[k]) && NoLineBreak(ids[k])
  {
    var lines := SplitLines(text);
    var ids := StrippedNonBlank(lines);
    assert forall k :: 0 <= k < |ids| ==> NoLineBreak(ids[k]) by {
      StrippedNonBlankMembers(lines);
      forall k | 0 <= k < |ids| ensures NoLineBreak(ids[k]) {
        assert ids[k] in ids;
        var x :| x in lines && Strip(x) == ids[k];
        StripKeepsNoLineBreak(x);
      }
    }
    ids
  }

  /** Parsing the newline-joined result again gives the same ids. */
  lemma ParseChatIdsIdempotent(text: string)
    ensures ParseChatIds(JoinLines(ParseChatIds(text))) == ParseChatIds(text)
  {
    var ids := ParseChatIds(text);
    SplitJoinLines(ids);
    StrippedNonBlankFixed(ids);
  }

  // ---------------------------------------------------------------------------
  // ensure_recipient_limit
  // ---------------------------------------------------------------------------

  /** `ensure_recipient_limit(recipients, limit)`: (within the limit, how many). */
  function EnsureRecipientLimit(recipients: seq<string>, limit: int): (r: (bool, nat))
    ensures r.0 <==> |recipients| <= limit
    ensures r.1 == |recipients|
  {
    (|recipients| <= limit, |recipients|)
  }

  // ---------------------------------------------------------------------------
  // load_recipients_from_csv, on rows already tokenised by csv.DictReader
  // ---------------------------------------------------------------------------

  /**
   * One row as csv.DictReader yields it: a cell per header name; a row with
   * fewer cells than the header holds None (DictReader's `restval`) for the rest.
   */
  type CsvRow = map<string, Option<string>>

  /** What the reader saw: `fieldnames` is None when the file has no header line. */
  datatype CsvTable = CsvTable(fieldnames: Option<seq<string>>, rows: seq<CsvRow>)

  datatype CsvError =
    | NoHeader             // `"chat_id" not in None` raises TypeError
    | MissingChatIdColumn  // the ValueError "CSV must contain a 'chat_id' column"
    | ChatIdCellMissing    // `None.strip()` raises AttributeError

  const ChatIdColumn := "chat_id"

  /** `row.get("chat_id", "")`: None when the cell is DictReader's `restval`. */
  function ChatIdCell(row: CsvRow): Option<string>
  {
    if ChatIdColumn in row then row[ChatIdColumn] else Some("")
  }

  /**
   * Some row's `chat_id` cell is missing: the row is shorter than the header
   * and ends before the `chat_id` column. A row that is short only in columns
   * after `chat_id` keeps its cell and loads normally.
   */
  predicate HasMissingChatIdCell(rows: seq<CsvRow>)
  {
    exists k :: 0 <= k < |rows| && ChatIdCell(rows[k]).None?
  }

  /** The chat-id cells of the rows, in row order, when none of them is missing. */
  function ChatIdCells(rows: seq<CsvRow>): (cells: seq<string>)
    requires !HasMissingChatIdCell(rows)
    ensures |cells| == |rows|
    ensures forall k :: 0 <= k < |rows| ==> ChatIdCell(rows[k]) == Some(cells[k])
  {
    if rows == [] then []
    else
      assert ChatIdCell(rows[|rows| - 1]).Some?;
      ChatIdCells(rows[..|rows| - 1]) + [ChatIdCell(rows[|rows| - 1]).value]
  }

  /** What the loop over the rows produces, row by row. */
  function RowsRecipients(rows: seq<CsvRow>): Result<seq<string>, CsvError>
  {
    if rows == [] then Success([])
    else
      match RowsRecipients(rows[..|rows| - 1])
      case Failure(e) => Failure(e)
      case Success(ids) =>
        match ChatIdCell(rows[|rows| - 1])
        case None => Failure(ChatIdCellMissing)
        case Some(cell) => Success(ids + Kept(cell))
  }

  /** The result of `load_recipients_from_csv` on a file the reader tokenised as `table`. */
  function CsvRecipients(table: CsvTable): (r: Result<seq<string>, CsvError>)
    ensures table.fieldnames.None? ==> r == Failure(NoHeader)
    ensures table.fieldnames.Some? && ChatIdColumn !in table.fieldnames.value ==> r == Failure(MissingChatIdColumn)
  {
    match table.fieldnames
    case None => Failure(NoHeader)
    case Some(names) =>
      if ChatIdColumn !in names then Failure(MissingChatIdColumn) else RowsRecipients(table.rows)
  }

  /** One more row: what the loop does with row `i`. */
  lemma RowsRecipientsStep(rows: seq<CsvRow>, i: nat)
    requires i < |rows|
    ensures RowsRecipients(rows[..i + 1]) ==
      match RowsRecipients(rows[..i])
      case Failure(e) => Failure(e)
      case Success(ids) =>
        match ChatIdCell(rows[i])
        case None => Failure(ChatIdCellMissing)
        case Some(cell) => Success(ids + Kept(cell))
  {
    assert rows[..i + 1][..i] == rows[..i];
    assert rows[..i + 1][i] == rows[i];
  }

  /**
   * Past the header check, loading fails exactly when some row lacks its chat-id cell, and
   * otherwise yields the stripped, non-empty chat-id cells in row order,
   * duplicates kept.
   */
  lemma {:induction false} RowsRecipientsSpec(rows: seq<CsvRow>)
    ensures HasMissingChatIdCell(rows) <==> RowsRecipients(rows) == Failure(ChatIdCellMissing)
    ensures !HasMissingChatIdCell(rows) ==> RowsRecipients(rows) == Success(StrippedNonBlank(ChatIdCells(rows)))
  {
    if rows != [] {
      var init := rows[..|rows| - 1];
      var last := rows[|rows| - 1];
      RowsRecipientsSpec(init);
      assert HasMissingChatIdCell(rows) <==> HasMissingChatIdCell(init) || ChatIdCell(last).None? by {
        if HasMissingChatIdCell(rows) {
          var k :| 0 <= k < |rows| && ChatIdCell(rows[k]).None?;
          if k < |rows| - 1 { assert init[k] == rows[k]; }
        }
        if HasMissingChatIdCell(init) {
          var k :| 0 <= k < |init| && ChatIdCell(init[k]).None?;
          assert rows[k] == init[k];
        }
      }
      if !HasMissingChatIdCell(rows) {
        var cell := ChatIdCell(last).value;
        assert ChatIdCells(rows) == ChatIdCells(init) + [cell];
        StrippedNonBlankAppend(ChatIdCells(init), [cell]);
        assert StrippedNonBlank([cell]) == Kept(cell) + StrippedNonBlank([]);
        assert Kept(cell) + [] == Kept(cell);
        assert RowsRecipients(init) == Success(StrippedNonBlank(ChatIdCells(init)));
      }
    }
  }

  /** `load_recipients_from_csv`: the header check, then the loop that appends each kept chat id. */
  method LoadRecipientsFromCsv(table: CsvTable) returns (r: Result<seq<string>, CsvError>)
    ensures r == CsvRecipients(table)
  {
    if table.fieldnames.None? {
      return Failure(NoHeader);
    }
    if ChatIdColumn !in table.fieldnames.value {
      return Failure(MissingChatIdColumn);
    }
    var recipients: seq<string> := [];
    var i := 0;
    while i < |table.rows|
      invariant 0 <= i <= |table.rows|
      invariant RowsRecipients(table.rows[..i]) == Success(recipients)
    {
      var row := table.rows[i];
      RowsRecipientsStep(table.rows, i);
      match ChatIdCell(row)
      case None =>
        MissingCellAbortsLoad(table.rows, i + 1);
        return Failure(ChatIdCellMissing);
      case Some(cell) =>
        assert RowsRecipients(table.rows[..i + 1]) == Success(recipients + Kept(cell));
        var chatId := Strip(cell);
        if chatId != [] {
          recipients := recipients + [chatId];
        } else {
          assert recipients + Kept(cell) == recipients;
        }
      i := i + 1;
    }
    assert table.rows[..i] == table.rows;
    r := Success(recipients);
  }

  /** A failure on a prefix of the rows is the failure of all the rows. */
  lemma {:induction false} MissingCellAbortsLoad(rows: seq<CsvRow>, n: nat)
    requires n <= |rows| && RowsRecipients(rows[..n]) == Failure(ChatIdCellMissing)
    ensures RowsRecipients(rows) == Failure(ChatIdCellMissing)
    decreases |rows| - n
  {
    if n < |rows| {
      assert rows[..n + 1][..n] == rows[..n];
      MissingCellAbortsLoad(rows, n + 1);
    } else {
      assert rows[..n] == rows;
    }
  }

  // ---------------------------------------------------------------------------
  // append_log
  // ---------------------------------------------------------------------------

  /** One CSV row of the log, as a list of fields. */
  type Row = seq<string>

  const LogHeader: Row := ["timestamp", "chat_id", "status", "error_message"]

  function LogRow(timestamp: string, chatId: string, status: string, errorMessage: string): Row
  {
    [timestamp, chatId, status, errorMessage]
  }

  /** The content of the file at `path`, None when it does not exist. */
  function Lookup(files: map<string, seq<Row>>, path: string): Option<seq<Row>>
  {
    if path in files then Some(files[path]) else None
  }

  /**
   * The log after one `append_log`: a missing file is created with the header
   * before the row; an existing file only gains the row.
   */
  function AppendRow(file: Option<seq<Row>>, row: Row): seq<Row>
  {
    match file
    case None => [LogHeader, row]
    case Some(rows) => rows + [row]
  }

  function AppendRows(file: Option<seq<Row>>, rows: seq<Row>): Option<seq<Row>>
  {
    if rows == [] then file
    else Some(AppendRow(AppendRows(file, rows[..|rows| - 1]), rows[|rows| - 1]))
  }

  /**
   * Any number of appends: the header is written once, and only when the file
   * did not exist; earlier content is kept and the rows follow in call order.
   */
  lemma {:induction false} AppendRowsSpec(file: Option<seq<Row>>, rows: seq<Row>)
    ensures AppendRows(file, rows) ==
      if rows == [] then file
      else Some((if file.None? then [LogHeader] else file.value) + rows)
  {
    if rows != [] {
      var init := rows[..|rows| - 1];
      var last := rows[|rows| - 1];
      var start := if file.None? then [LogHeader] else file.value;
      assert rows == init + [last];
      assert AppendRows(file, rows) == Some(AppendRow(AppendRows(file, init), last));
      AppendRowsSpec(file, init);
      if init == [] {
        assert AppendRows(file, init) == file;
        assert AppendRow(file, last) == start + [last] by {
          if file.None? {
            assert [LogHeader, last] == [LogHeader] + [last];
          }
        }
        assert rows == [last];
      } else {
        assert AppendRows(file, init) == Some(start + init);
        assert AppendRow(Some(start + init), last) == start + init + [last];
        assert start + init + [last] == start + rows;
      }
    }
  }

  /** The files after `append_log(path, ...)` has written each of `rows`, in order. */
  function AppendAll(files: map<string, seq<Row>>, path: string, rows: seq<Row>): map<string, seq<Row>>
  {
    if rows == [] then files else files[path := AppendRows(Lookup(files, path), rows).value]
  }

  /** Only the log file changes, and it changes as `AppendRows` says. */
  lemma AppendAllSpec(files: map<string, seq<Row>>, path: string, rows: seq<Row>)
    ensures Lookup(AppendAll(files, path, rows), path) == AppendRows(Lookup(files, path), rows)
    ensures forall other :: other != path ==> Lookup(AppendAll(files, path, rows), other) == Lookup(files, other)
  {
    AppendRowsSpec(Lookup(files, path), rows);
  }

  /** Writing one more row is one more `append_log` on the files so far. */
  lemma AppendAllSnoc(files: map<string, seq<Row>>, path: string, rows: seq<Row>, row: Row)
    ensures AppendAll(files, path, rows + [row])
            == AppendAll(files, path, rows)[path := AppendRow(Lookup(AppendAll(files, path, rows), path), row)]
  {
    var file := Lookup(files, path);
    assert (rows + [row])[..|rows|] == rows;
    assert AppendRows(file, rows + [row]) == Some(AppendRow(AppendRows(file, rows), row));
    if rows != [] {
      var f := AppendRows(file, rows).value;
      assert AppendRows(file, rows) == Some(f);
      assert files[path := f][path := AppendRow(Some(f), row)] == files[path := AppendRow(Some(f), row)];
    }
  }

  /** The file system as far as the log is concerned: path to rows, present iff the file exists. */
  class LogStore {
    var files: map<string, seq<Row>>

    constructor (files: map<string, seq<Row>>)
      ensures this.files == files
    {
      this.files := files;
    }

    /** `append_log(log_path, chat_id, status, error_message)`; `timestamp` is `datetime.now()` formatted. */
    method AppendLog(logPath: string, timestamp: string, chatId: string, status: string, errorMessage: string)
      modifies this
      ensures files == old(files)[logPath := AppendRow(Lookup(old(files), logPath), LogRow(timestamp, chatId, status, errorMessage))]
    {
      var newFile := logPath !in files;
      var rows: seq<Row> := if newFile then [] else files[logPath];
      if newFile {
        rows := rows + [LogHeader];
      }
      rows := rows + [LogRow(timestamp, chatId, status, errorMessage)];
      assert newFile ==> rows == [LogHeader, LogRow(timestamp, chatId, status, errorMessage)];
      files := files[logPath := rows];
    }
  }
}
