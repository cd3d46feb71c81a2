/**
 * The diary manager: the command-line router of its `main`, and the data
 * file the `save` and `view` commands work on.
 *
 * The file is modelled as the sequence of its bytes. Appending a record is
 * the intended body of the `fopen("ab")` / `fwrite` writer; viewing a date
 * is the intended `fread` loop that compares each record's date with
 * `strcmp` and emits the matches, returned here in the order emitted.
 */
module NostalgiaManager {
  import opened CStrings
  import opened DiaryStruct

  const EXIT_SUCCESS: int := 0
  /** `EXIT_FAILURE` from `<stdlib.h>`; its value is 1 on the platforms the program targets. */
  const EXIT_FAILURE: int := 1

  // ---------------------------------------------------------------------
  // Command routing
  // ---------------------------------------------------------------------

  /** What `main` does with its arguments: one usage error, or one handler call. */
  datatype Route =
    | MissingCommand
    | SaveUsage
    | ViewUsage
    | UnknownCommand(command: CStr)
    | CallSave(date: CStr, content: CStr)
    | CallView(date: CStr)

  function SaveCommand(): CStr { Ascii("save") }
  function ViewCommand(): CStr { Ascii("view") }

  /**
   * The routing decision for `argv` (so `argc == |argv|`). The command is
   * `argv[1]`, compared with `strcmp`; `save` needs exactly four arguments
   * and `view` exactly three.
   */
  function RouteArgs(argv: seq<CStr>): (r: Route)
    ensures r.MissingCommand? <==> |argv| < 2
    ensures r.CallSave? <==> |argv| == 4 && StrEqual(argv[1], SaveCommand())
    ensures r.SaveUsage? <==> |argv| >= 2 && |argv| != 4 && StrEqual(argv[1], SaveCommand())
    ensures r.CallView? <==> |argv| == 3 && StrEqual(argv[1], ViewCommand())
    ensures r.ViewUsage? <==> |argv| >= 2 && |argv| != 3 && StrEqual(argv[1], ViewCommand())
    ensures r.UnknownCommand? <==>
      |argv| >= 2 && !StrEqual(argv[1], SaveCommand()) && !StrEqual(argv[1], ViewCommand())
    ensures r.CallSave? ==> r.date == argv[2] && r.content == argv[3]
    ensures r.CallView? ==> r.date == argv[2]
    ensures r.UnknownCommand? ==> r.command == argv[1]
  {
    StrEqualIsEquality(SaveCommand(), ViewCommand());
    if |argv| < 2 then MissingCommand
    else
      var command := argv[1];
      if StrEqual(command, SaveCommand()) then
        if |argv| != 4 then SaveUsage else CallSave(argv[2], argv[3])
      else if StrEqual(command, ViewCommand()) then
        if |argv| != 3 then ViewUsage else CallView(argv[2])
      else UnknownCommand(command)
  }

  /** `handle_save_command` as written: its steps are comments and it returns 0. */
  function HandleSaveCommand(date: CStr, content: CStr): (status: int)
    ensures status == EXIT_SUCCESS
  {
    0
  }

  /** `handle_view_command` as written: its steps are comments and it returns 0. */
  function HandleViewCommand(date: CStr): (status: int)
    ensures status == EXIT_SUCCESS
  {
    0
  }

  /** The status `main` returns: a usage error fails, a handler call returns the handler's status. */
  function ExitStatus(argv: seq<CStr>): (status: int)
    ensures status == EXIT_SUCCESS || status == EXIT_FAILURE
    ensures status == EXIT_SUCCESS <==> RouteArgs(argv).CallSave? || RouteArgs(argv).CallView?
  {
    match RouteArgs(argv)
    case CallSave(date, content) => HandleSaveCommand(date, content)
    case CallView(date) => HandleViewCommand(date)
    case _ => EXIT_FAILURE
  }

  /**
   * `main` succeeds exactly for `save <a> <b>` and `view <a>`, matched by the
   * exact command text, and fails for every other argument vector.
   */
  lemma ExitStatusIff(argv: seq<CStr>)
    ensures ExitStatus(argv) == EXIT_SUCCESS || ExitStatus(argv) == EXIT_FAILURE
    ensures ExitStatus(argv) == EXIT_SUCCESS <==>
      (|argv| == 4 && argv[1] == SaveCommand()) || (|argv| == 3 && argv[1] == ViewCommand())
  {
    if |argv| >= 2 {
      StrEqualIsEquality(argv[1], SaveCommand());
      StrEqualIsEquality(argv[1], ViewCommand());
    }
  }

  // ---------------------------------------------------------------------
  // The data file
  // ---------------------------------------------------------------------

  /** The data file's bytes (an absent file is an empty one: `"ab"` creates it). */
  class DiaryFile {
    var bytes: seq<byte>

    constructor (existing: seq<byte>)
      ensures bytes == existing
    {
      bytes := existing;
    }

    /** The records a full `fread` pass over the file delivers. */
    function Entries(): seq<Entry>
      reads this
    {
      Records(bytes)
    }

    /** Whether the file holds only whole records. */
    predicate WholeRecords()
      reads this
    {
      |bytes| % RECORD_SIZE == 0
    }

    /**
     * `write_entry_to_file`: open for append, write the record's bytes after
     * everything already in the file, close; the status is 0.
     */
    method Append(e: Entry) returns (status: int)
      modifies this
      ensures bytes == old(bytes) + Encode(e)
      ensures status == 0
      ensures old(WholeRecords()) ==> WholeRecords() && Entries() == old(Entries()) + [e]
    {
      bytes := bytes + Encode(e);
      status := 0;
      AppendOneRecord(old(bytes), e);
    }

    /**
     * The `view` scan: read one record at a time while a whole record
     * remains, and emit each whose date equals `query` under `strcmp`.
     */
    method View(query: seq<byte>) returns (found: seq<Entry>)
      ensures found == Matches(Entries(), query)
    {
      found := [];
      var rest := bytes;
      ghost var read: seq<Entry> := [];
      while RECORD_SIZE <= |rest|
        invariant Records(bytes) == read + Records(rest)
        invariant found == Matches(read, query)
        decreases |rest|
      {
        var e := Decode(rest[..RECORD_SIZE]);
        ScanStep(read, rest, query);
        if StrEqual(StoredDate(e), query) {
          found := found + [e];
        }
        read := read + [e];
        rest := rest[RECORD_SIZE..];
      }
      assert read + Records(rest) == read;
    }
  }

  /**
   * One step of the scan: reading the next whole block moves its record from
   * the unread part to the read part, and adds it to the matches when its
   * date is `query`.
   */
  lemma ScanStep(read: seq<Entry>, rest: seq<byte>, query: seq<byte>)
    requires RECORD_SIZE <= |rest|
    ensures var e := Decode(rest[..RECORD_SIZE]);
      read + Records(rest) == read + [e] + Records(rest[RECORD_SIZE..])
      && Matches(read + [e], query) == Matches(read, query) + (if StrEqual(StoredDate(e), query) then [e] else [])
  {
    var e := Decode(rest[..RECORD_SIZE]);
    var later := Records(rest[RECORD_SIZE..]);
    NextRecord(rest);
    assert read + ([e] + later) == read + [e] + later;
    MatchesConcat(read, [e], query);
    assert Matches([e], query) == (if StrEqual(StoredDate(e), query) then [e] else []) + Matches([], query);
  }

  /** The first whole block of the unread bytes is the next record read. */
  lemma NextRecord(rest: seq<byte>)
    requires RECORD_SIZE <= |rest|
    ensures Records(rest) == [Decode(rest[..RECORD_SIZE])] + Records(rest[RECORD_SIZE..])
  {
  }

  /** Appending one record to a file of whole records adds exactly that record at the end. */
  lemma AppendOneRecord(file: seq<byte>, e: Entry)
    ensures |file + Encode(e)| % RECORD_SIZE == 0 <==> |file| % RECORD_SIZE == 0
    ensures |file| % RECORD_SIZE == 0 ==> Records(file + Encode(e)) == Records(file) + [e]
  {
    if |file| % RECORD_SIZE == 0 {
      RecordsConcat(file, Encode(e));
      RecordsEncodeAll([e]);
      assert EncodeAll([e]) == Encode(e) + [];
      assert Encode(e) + [] == Encode(e);
    }
  }

  /**
   * Viewing a date after appending a record returns the earlier matches,
   * then the new record if its date is the one asked for.
   */
  lemma ViewAfterAppend(file: seq<byte>, e: Entry, query: seq<byte>)
    requires |file| % RECORD_SIZE == 0
    ensures Matches(Records(file + Encode(e)), query)
      == Matches(Records(file), query) + (if DateMatches(e, query) then [e] else [])
  {
    AppendOneRecord(file, e);
    MatchesConcat(Records(file), [e], query);
  }

  /**
   * Three records written in turn, the first and third dated `query` and the
   * second not: viewing `query` returns the first and the third, in that order.
   */
  lemma ViewKeepsWriteOrder(e1: Entry, e2: Entry, e3: Entry, query: seq<byte>)
    requires DateMatches(e1, query) && !DateMatches(e2, query) && DateMatches(e3, query)
    ensures Matches(Records(Encode(e1) + Encode(e2) + Encode(e3)), query) == [e1, e3]
  {
    var es := [e1, e2, e3];
    assert EncodeAll(es[2..]) == Encode(e3) + EncodeAll([]);
    assert EncodeAll(es[1..]) == Encode(e2) + EncodeAll(es[2..]);
    assert EncodeAll(es) == Encode(e1) + Encode(e2) + Encode(e3);
    RecordsEncodeAll(es);
    MatchesConcat([e1], [e2, e3], query);
    MatchesConcat([e2], [e3], query);
    assert [e1] + [e2, e3] == es;
  }
}
