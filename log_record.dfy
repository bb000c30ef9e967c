/**
 * The UPDATE log record: its field encoding in the log, its decoding from a
 * log cursor, and its display text.
 *
 * The log is a sequence of typed fields and a cursor is an index into it;
 * `nextInt` and `nextString` read the field under the cursor and advance it.
 * A field of the wrong kind, or the end of the log, is a decode failure.
 */
module LogRecords {
  import opened Wrappers
  import opened Decimal

  datatype Field = IntField(i: int) | StrField(s: string)

  /** The kind tag of an update record, written as its first field. */
  const UPDATE: int := 6

  /** Why a decode stopped, with the position of the field it could not read. */
  datatype DecodeError = EndOfLog(pos: nat) | CorruptLogRecord(pos: nat)

  datatype UpdateRecord = UpdateRecord(txnum: int, filename: string, blockNum: int, offset: int)
  {
    /** The kind tag, the first field writeToLog writes. */
    function Op(): (op: int)
      ensures Fields(this)[0] == IntField(op)
    {
      UPDATE
    }

    /** The transaction, the field writeToLog writes after the tag. */
    function TxNumber(): (t: int)
      ensures Fields(this)[1] == IntField(t)
    {
      txnum
    }
  }

  /** The field tuple writeToLog hands to the log: the tag, then the four values. */
  function Fields(r: UpdateRecord): (fs: seq<Field>)
    ensures |fs| == 5 && Decode(fs, 1) == Ok((r, |fs|))
  {
    [IntField(UPDATE), IntField(r.txnum), StrField(r.filename), IntField(r.blockNum), IntField(r.offset)]
  }

  /** nextInt at `cursor`: the value and the cursor after it. */
  function NextInt(log: seq<Field>, cursor: nat): (r: Result<(int, nat), DecodeError>)
    ensures r.Ok? ==> r.value.1 == cursor + 1
  {
    if cursor >= |log| then Err(EndOfLog(cursor))
    else if log[cursor].IntField? then Ok((log[cursor].i, cursor + 1))
    else Err(CorruptLogRecord(cursor))
  }

  /** nextString at `cursor`: the value and the cursor after it. */
  function NextString(log: seq<Field>, cursor: nat): (r: Result<(string, nat), DecodeError>)
    ensures r.Ok? ==> r.value.1 == cursor + 1
  {
    if cursor >= |log| then Err(EndOfLog(cursor))
    else if log[cursor].StrField? then Ok((log[cursor].s, cursor + 1))
    else Err(CorruptLogRecord(cursor))
  }

  /**
   * The decoding constructor: reads txnum, filename, blockNum and offset, in
   * that order, from a cursor just past the tag; returns the record and the
   * cursor after it.
   */
  function Decode(log: seq<Field>, cursor: nat): (d: Result<(UpdateRecord, nat), DecodeError>)
    ensures d.Ok? ==> d.value.1 == cursor + 4 <= |log|
    ensures d.Err? ==> cursor <= d.error.pos < cursor + 4
  {
    match NextInt(log, cursor)
    case Err(e) => Err(e)
    case Ok((txnum, c1)) =>
      match NextString(log, c1)
      case Err(e) => Err(e)
      case Ok((filename, c2)) =>
        match NextInt(log, c2)
        case Err(e) => Err(e)
        case Ok((blockNum, c3)) =>
          match NextInt(log, c3)
          case Err(e) => Err(e)
          case Ok((offset, c4)) => Ok((UpdateRecord(txnum, filename, blockNum, offset), c4))
  }

  /** The kinds the decoder expects at each of the four positions. */
  predicate KindsMatch(log: seq<Field>, cursor: nat, n: nat)
    requires n <= 4 && cursor + n <= |log|
  {
    (n > 0 ==> log[cursor].IntField?) &&
    (n > 1 ==> log[cursor + 1].StrField?) &&
    (n > 2 ==> log[cursor + 2].IntField?) &&
    (n > 3 ==> log[cursor + 3].IntField?)
  }

  /**
   * Decoding succeeds exactly when the four fields from the cursor are there
   * and are an int, a string, an int and an int; it then consumes exactly
   * those four and the record holds their values. A failure names the first
   * position that is missing or of the wrong kind.
   */
  lemma DecodeSpec(log: seq<Field>, cursor: nat)
    ensures var d := Decode(log, cursor);
      (d.Ok? <==> cursor + 4 <= |log| && KindsMatch(log, cursor, 4)) &&
      (d.Ok? ==> d.value == (UpdateRecord(log[cursor].i, log[cursor + 1].s, log[cursor + 2].i, log[cursor + 3].i), cursor + 4)) &&
      (d.Err? ==> var p := d.error.pos;
        cursor <= p < cursor + 4 && (p <= |log| ==> KindsMatch(log, cursor, p - cursor)) &&
        (d.error.EndOfLog? <==> p >= |log|) && (p > |log| ==> p == cursor))
  {
  }

  /**
   * Round trip: wherever the record's fields sit in the log, the tag read at
   * their start is the record's op, and decoding from just past the tag
   * gives back the record with the cursor at the end of its fields.
   */
  lemma EncodeDecode(prefix: seq<Field>, r: UpdateRecord, suffix: seq<Field>)
    ensures var log := prefix + Fields(r) + suffix;
      NextInt(log, |prefix|) == Ok((r.Op(), |prefix| + 1)) &&
      Decode(log, |prefix| + 1) == Ok((r, |prefix| + 5))
  {
    var log := prefix + Fields(r) + suffix;
    assert log[|prefix|..|prefix| + 5] == Fields(r);
    DecodeSpec(log, |prefix| + 1);
  }

  /** The converse round trip: a record decoded after an UPDATE tag re-encodes to exactly the fields it was read from. */
  lemma DecodeEncode(log: seq<Field>, cursor: nat)
    requires 0 < cursor <= |log| && log[cursor - 1] == IntField(UPDATE)
    ensures var d := Decode(log, cursor);
      d.Ok? ==> Fields(d.value.0) == log[cursor - 1..d.value.1]
  {
    DecodeSpec(log, cursor);
  }

  /**
   * op() is the tag writeToLog writes first, and txNumber() of a decoded
   * record is the transaction field it was read from.
   */
  lemma OpAndTxNumber(r: UpdateRecord, log: seq<Field>, cursor: nat)
    ensures Fields(r)[0] == IntField(r.Op()) && r.Op() == UPDATE
    ensures var d := Decode(log, cursor);
      d.Ok? ==> log[cursor] == IntField(d.value.0.TxNumber())
  {
    DecodeSpec(log, cursor);
  }

  /** toString: "<UPDATE txnum filename blockNum offset>". */
  function ToString(r: UpdateRecord): (s: string)
    ensures |s| >= 9 && s[..8] == "<UPDATE " && s[|s| - 1] == '>'
  {
    "<UPDATE " + DisplayBody(r) + ">"
  }

  /** The four values of the display text, separated by single spaces. */
  function DisplayBody(r: UpdateRecord): string {
    IntToString(r.txnum) + " " + ((r.filename + " " + IntToString(r.blockNum)) + " " + IntToString(r.offset))
  }

  /** The position of the first space in `s`, if there is one. */
  function FirstSpace(s: string): (r: Option<nat>)
    ensures r.None? ==> ' ' !in s
    ensures r.Some? ==> r.value < |s| && s[r.value] == ' ' && ' ' !in s[..r.value]
  {
    if s == [] then None
    else if s[0] == ' ' then Some(0)
    else match FirstSpace(s[1..])
      case None => assert s == [s[0]] + s[1..]; None
      case Some(i) => assert s[..i + 1] == [s[0]] + s[1..][..i]; Some(i + 1)
  }

  /** The position of the last space in `s`, if there is one. */
  function LastSpace(s: string): (r: Option<nat>)
    ensures r.None? ==> ' ' !in s
    ensures r.Some? ==> r.value < |s| && s[r.value] == ' ' && ' ' !in s[r.value + 1..]
  {
    if s == [] then None
    else if s[|s| - 1] == ' ' then Some(|s| - 1)
    else match LastSpace(s[..|s| - 1])
      case None => assert s == s[..|s| - 1] + [s[|s| - 1]]; None
      case Some(i) => assert s[i + 1..] == s[..|s| - 1][i + 1..] + [s[|s| - 1]]; Some(i)
  }

  /** A space-free word followed by a space: the first space is the one after the word. */
  lemma FirstSpaceCut(a: string, b: string)
    requires ' ' !in a
    ensures FirstSpace(a + " " + b) == Some(|a|)
  {
    var s := a + " " + b;
    assert s[|a|] == ' ';
  }

  /** A space followed by a space-free word: the last space is the one before the word. */
  lemma LastSpaceCut(a: string, b: string)
    requires ' ' !in b
    ensures LastSpace(a + " " + b) == Some(|a|)
  {
    var s := a + " " + b;
    assert s[|a|] == ' ';
  }

  /**
   * Cuts the inside of a display text into txnum, filename, blockNum and
   * offset: the first word, the last word, the word before it, and whatever
   * lies between (a file name may itself contain spaces).
   */
  function SplitDisplay(body: string): Option<(string, string, string, string)> {
    match FirstSpace(body)
    case None => None
    case Some(i) =>
      var rest := body[i + 1..];
      match LastSpace(rest)
      case None => None
      case Some(j) =>
        var mid := rest[..j];
        match LastSpace(mid)
        case None => None
        case Some(k) => Some((body[..i], mid[..k], mid[k + 1..], rest[j + 1..]))
  }

  /** Reads a display text back: the inverse of ToString. */
  function ParseDisplay(s: string): Option<UpdateRecord> {
    if |s| >= 9 && s[..8] == "<UPDATE " && s[|s| - 1] == '>' then
      match SplitDisplay(s[8..|s| - 1])
      case None => None
      case Some((t, f, b, o)) =>
        match (ParseInt(t), ParseInt(b), ParseInt(o))
        case (Some(txnum), Some(blockNum), Some(offset)) => Some(UpdateRecord(txnum, f, blockNum, offset))
        case _ => None
    else None
  }

  /** The two sides of a text joined at a space, cut back apart. */
  lemma CutAtSpace(a: string, b: string)
    ensures (a + " " + b)[..|a|] == a && (a + " " + b)[|a| + 1..] == b
  {
  }

  /** The three number words around any file name are cut back out of the joined text. */
  lemma SplitDisplayParts(t: string, f: string, b: string, o: string)
    requires ' ' !in t && ' ' !in b && ' ' !in o
    ensures SplitDisplay(t + " " + ((f + " " + b) + " " + o)) == Some((t, f, b, o))
  {
    var fb := f + " " + b;
    var rest := fb + " " + o;
    var body := t + " " + rest;
    FirstSpaceCut(t, rest);
    CutAtSpace(t, rest);
    LastSpaceCut(fb, o);
    CutAtSpace(fb, o);
    LastSpaceCut(f, b);
    CutAtSpace(f, b);
  }

  /** The display text of every record reads back to that record. */
  lemma DisplayRoundTrip(r: UpdateRecord)
    ensures ParseDisplay(ToString(r)) == Some(r)
  {
    IntRoundTrip(r.txnum);
    IntRoundTrip(r.blockNum);
    IntRoundTrip(r.offset);
    SplitDisplayParts(IntToString(r.txnum), r.filename, IntToString(r.blockNum), IntToString(r.offset));
    var s := ToString(r);
    assert s[8..|s| - 1] == DisplayBody(r);
  }

  /** Two records with the same display text are the same record. */
  lemma ToStringInjective(r1: UpdateRecord, r2: UpdateRecord)
    ensures ToString(r1) == ToString(r2) ==> r1 == r2
  {
    DisplayRoundTrip(r1);
    DisplayRoundTrip(r2);
  }

  /** The log manager's append, on an in-memory log of fields. */
  class LogMgr {
    var fields: seq<Field>

    constructor ()
      ensures fields == []
    {
      fields := [];
    }

    /** Appends `rec` and returns the position of its first field. */
    method Append(rec: seq<Field>) returns (lsn: nat)
      modifies this
      ensures fields == old(fields) + rec
      ensures lsn == |old(fields)|
    {
      lsn := |fields|;
      fields := fields + rec;
    }
  }

  /**
   * writeToLog: appends the record's five fields; the position returned is
   * where a reader finds the tag, and decoding past it gives the record back.
   */
  method WriteToLog(r: UpdateRecord, logMgr: LogMgr) returns (lsn: nat)
    modifies logMgr
    ensures logMgr.fields == old(logMgr.fields) + Fields(r)
    ensures lsn == |old(logMgr.fields)|
    ensures NextInt(logMgr.fields, lsn) == Ok((UPDATE, lsn + 1))
    ensures Decode(logMgr.fields, lsn + 1) == Ok((r, |logMgr.fields|))
  {
    lsn := logMgr.Append(Fields(r));
    EncodeDecode(old(logMgr.fields), r, []);
    assert logMgr.fields == old(logMgr.fields) + Fields(r) + [];
  }
}
