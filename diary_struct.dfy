/**
 * The fixed-size diary record (`DiaryEntry`) and its raw byte image.
 *
 * The record is three `char` arrays laid out one after another with no
 * padding; it is written and read as raw memory, so its byte image is the
 * concatenation of the three arrays and reading it back is slicing.
 */
module DiaryStruct {
  import opened CStrings

  /** Capacity of the diary text, in bytes. */
  const MAX_CONTENT_SIZE: nat := 4096
  /** Width of the date field: `YYYY-MM-DD` plus its terminator. */
  const DATE_SIZE: nat := 11
  /** Capacity of the reserved image path field. */
  const MAX_IMAGE_PATH_SIZE: nat := 256

  /** Offsets of the three fields in the byte image, and its total width. */
  const DATE_OFFSET: nat := 0
  const CONTENT_OFFSET: nat := DATE_OFFSET + DATE_SIZE
  const IMAGE_PATH_OFFSET: nat := CONTENT_OFFSET + MAX_CONTENT_SIZE
  const RECORD_SIZE: nat := IMAGE_PATH_OFFSET + MAX_IMAGE_PATH_SIZE

  datatype DiaryEntry = DiaryEntry(date: seq<byte>, content: seq<byte>, imagePath: seq<byte>)

  /** A `DiaryEntry` whose arrays have the widths the struct declares. */
  type Entry = e: DiaryEntry
    | |e.date| == DATE_SIZE && |e.content| == MAX_CONTENT_SIZE && |e.imagePath| == MAX_IMAGE_PATH_SIZE
    witness DiaryEntry(seq(DATE_SIZE, _ => NUL), seq(MAX_CONTENT_SIZE, _ => NUL), seq(MAX_IMAGE_PATH_SIZE, _ => NUL))

  /** The bytes `fwrite` writes for one record: its fields in declaration order. */
  function Encode(e: Entry): (b: seq<byte>)
    ensures |b| == RECORD_SIZE == 4363
    ensures b[DATE_OFFSET..CONTENT_OFFSET] == e.date
    ensures b[CONTENT_OFFSET..IMAGE_PATH_OFFSET] == e.content
    ensures b[IMAGE_PATH_OFFSET..RECORD_SIZE] == e.imagePath
  {
    e.date + e.content + e.imagePath
  }

  /** The record `fread` fills from one block of `RECORD_SIZE` bytes. */
  function Decode(b: seq<byte>): (e: Entry)
    requires |b| == RECORD_SIZE
    ensures e.date == b[DATE_OFFSET..CONTENT_OFFSET]
    ensures e.content == b[CONTENT_OFFSET..IMAGE_PATH_OFFSET]
    ensures e.imagePath == b[IMAGE_PATH_OFFSET..]
  {
    DiaryEntry(b[DATE_OFFSET..CONTENT_OFFSET], b[CONTENT_OFFSET..IMAGE_PATH_OFFSET], b[IMAGE_PATH_OFFSET..])
  }

  /** Reading back a written record gives the same record. */
  lemma DecodeEncode(e: Entry)
    ensures Decode(Encode(e)) == e
  {
  }

  /** Every block of the record width is the image of exactly one record. */
  lemma EncodeDecode(b: seq<byte>)
    requires |b| == RECORD_SIZE
    ensures Encode(Decode(b)) == b
  {
    assert b == b[..CONTENT_OFFSET] + b[CONTENT_OFFSET..IMAGE_PATH_OFFSET] + b[IMAGE_PATH_OFFSET..];
  }

  /** Two records with the same image are the same record. */
  lemma EncodeInjective(e1: Entry, e2: Entry)
    requires Encode(e1) == Encode(e2)
    ensures e1 == e2
  {
    DecodeEncode(e1);
    DecodeEncode(e2);
  }

  /** Storing a new date changes the bytes of the date field and no other byte. */
  lemma SetDateTouchesOnlyDate(e: Entry, d: seq<byte>)
    requires |d| == DATE_SIZE
    ensures Encode(e.(date := d))[DATE_OFFSET..CONTENT_OFFSET] == d
    ensures forall i | CONTENT_OFFSET <= i < RECORD_SIZE :: Encode(e.(date := d))[i] == Encode(e)[i]
  {
  }

  /** Storing new content changes the bytes of the content field and no other byte. */
  lemma SetContentTouchesOnlyContent(e: Entry, c: seq<byte>)
    requires |c| == MAX_CONTENT_SIZE
    ensures Encode(e.(content := c))[CONTENT_OFFSET..IMAGE_PATH_OFFSET] == c
    ensures forall i | 0 <= i < RECORD_SIZE && !(CONTENT_OFFSET <= i < IMAGE_PATH_OFFSET) ::
      Encode(e.(content := c))[i] == Encode(e)[i]
  {
  }

  /** Storing a new image path changes the bytes of that field and no other byte. */
  lemma SetImagePathTouchesOnlyImagePath(e: Entry, p: seq<byte>)
    requires |p| == MAX_IMAGE_PATH_SIZE
    ensures Encode(e.(imagePath := p))[IMAGE_PATH_OFFSET..RECORD_SIZE] == p
    ensures forall i | 0 <= i < IMAGE_PATH_OFFSET :: Encode(e.(imagePath := p))[i] == Encode(e)[i]
  {
  }

  /**
   * The date of a record as `strcmp` reads it from `entry.date`: the struct
   * has no padding, so a date field without a terminator reads on into the
   * content and image path.
   */
  function StoredDate(e: Entry): (s: seq<byte>)
    ensures |s| <= RECORD_SIZE && s == Encode(e)[..|s|] && NoNul(s)
    ensures |s| < RECORD_SIZE ==> Encode(e)[|s|] == NUL
  {
    CString(Encode(e))
  }

  /** A `YYYY-MM-DD` text stored with its terminator fills bytes 0..9 and 10 of the record. */
  lemma DateFieldLayout(e: Entry, text: seq<byte>)
    requires NoNul(text) && e.date == text + [NUL]
    ensures |text| == DATE_SIZE - 1
    ensures Encode(e)[..DATE_SIZE - 1] == text && Encode(e)[DATE_SIZE - 1] == NUL
    ensures StoredDate(e) == text
  {
    assert Encode(e) == text + [NUL] + (e.content + e.imagePath);
    CStringOfTerminated(text, e.content + e.imagePath);
  }

  /** A date field that holds a terminator is read as a C string on its own. */
  lemma StoredDateWithinField(e: Entry)
    requires !NoNul(e.date)
    ensures StoredDate(e) == CString(e.date)
  {
    assert Encode(e) == e.date + (e.content + e.imagePath);
    CStringStopsAtNul(e.date, e.content + e.imagePath);
  }

  /**
   * The records a loop of `fread(&e, sizeof e, 1, f)` delivers from a file:
   * one per whole block, in file order; a trailing partial block makes
   * `fread` return 0 and is never delivered.
   */
  function Records(file: seq<byte>): (es: seq<Entry>)
    ensures |es| * RECORD_SIZE <= |file| < |es| * RECORD_SIZE + RECORD_SIZE
    ensures es != [] ==> es[0] == Decode(file[..RECORD_SIZE])
    decreases |file|
  {
    if |file| < RECORD_SIZE then []
    else [Decode(file[..RECORD_SIZE])] + Records(file[RECORD_SIZE..])
  }

  /** The file image of a sequence of records written one after another. */
  function EncodeAll(es: seq<Entry>): (file: seq<byte>)
    ensures |file| == |es| * RECORD_SIZE
  {
    if es == [] then [] else Encode(es[0]) + EncodeAll(es[1..])
  }

  /** Block `i` of a file, when the file holds it whole, is delivered as record `i`. */
  lemma {:induction false} RecordAtOffset(file: seq<byte>, i: nat)
    requires i * RECORD_SIZE + RECORD_SIZE <= |file|
    ensures i < |Records(file)|
    ensures Records(file)[i] == Decode(file[i * RECORD_SIZE..i * RECORD_SIZE + RECORD_SIZE])
  {
    if i > 0 {
      var rest := file[RECORD_SIZE..];
      assert (i - 1) * RECORD_SIZE == i * RECORD_SIZE - RECORD_SIZE;
      RecordAtOffset(rest, i - 1);
      assert rest[(i - 1) * RECORD_SIZE..(i - 1) * RECORD_SIZE + RECORD_SIZE]
          == file[i * RECORD_SIZE..i * RECORD_SIZE + RECORD_SIZE];
    }
  }

  /** Every record delivered comes from a whole block: record `i` ends within the file. */
  lemma {:induction false} RecordsFit(file: seq<byte>, i: nat)
    requires i < |Records(file)|
    ensures i * RECORD_SIZE + RECORD_SIZE <= |file|
  {
    if i > 0 {
      RecordsFit(file[RECORD_SIZE..], i - 1);
      assert (i - 1) * RECORD_SIZE == i * RECORD_SIZE - RECORD_SIZE;
    }
  }

  /** A file of `k` whole blocks and a shorter tail delivers exactly `k` records. */
  lemma {:induction false} RecordsCount(file: seq<byte>)
    ensures |Records(file)| == |file| / RECORD_SIZE
    decreases |file|
  {
    if |file| >= RECORD_SIZE {
      RecordsCount(file[RECORD_SIZE..]);
    }
  }

  /** Reading a file of whole blocks after more blocks reads the first file's records first. */
  lemma {:induction false} RecordsConcat(f: seq<byte>, g: seq<byte>)
    requires |f| % RECORD_SIZE == 0
    ensures Records(f + g) == Records(f) + Records(g)
    decreases |f|
  {
    if |f| == 0 {
      assert f + g == g;
    } else {
      assert |f| >= RECORD_SIZE;
      assert (f + g)[..RECORD_SIZE] == f[..RECORD_SIZE];
      assert (f + g)[RECORD_SIZE..] == f[RECORD_SIZE..] + g;
      RecordsConcat(f[RECORD_SIZE..], g);
    }
  }

  /** A file written record by record reads back as exactly those records, in order. */
  lemma {:induction false} RecordsEncodeAll(es: seq<Entry>)
    ensures Records(EncodeAll(es)) == es
  {
    if es != [] {
      var b := Encode(es[0]);
      assert b[..RECORD_SIZE] == b && b[RECORD_SIZE..] == [];
      assert Records(b) == [es[0]] by {
        DecodeEncode(es[0]);
      }
      RecordsConcat(b, EncodeAll(es[1..]));
      RecordsEncodeAll(es[1..]);
    }
  }

  /** Whether `strcmp(entry.date, query) == 0`. */
  predicate DateMatches(e: Entry, query: seq<byte>)
    ensures NoNul(query) ==> (DateMatches(e, query) <==> StoredDate(e) == query)
  {
    StrEqual(StoredDate(e), query)
  }

  /** The records that match a date, in the order given. */
  function Matches(es: seq<Entry>, query: seq<byte>): (ms: seq<Entry>)
    ensures |ms| <= |es|
    ensures forall m | m in ms :: m in es && DateMatches(m, query)
  {
    if es == [] then []
    else (if DateMatches(es[0], query) then [es[0]] else []) + Matches(es[1..], query)
  }

  /** Matching a concatenation matches each part, the first part's matches first. */
  lemma {:induction false} MatchesConcat(a: seq<Entry>, b: seq<Entry>, query: seq<byte>)
    ensures Matches(a + b, query) == Matches(a, query) + Matches(b, query)
  {
    if a == [] {
      assert a + b == b;
    } else {
      var tail := a[1..];
      assert (a + b)[0] == a[0] && (a + b)[1..] == tail + b;
      MatchesConcat(tail, b, query);
      var head := if DateMatches(a[0], query) then [a[0]] else [];
      assert head + (Matches(tail, query) + Matches(b, query))
          == (head + Matches(tail, query)) + Matches(b, query);
    }
  }

  /** No matching record is dropped. */
  lemma {:induction false} MatchesComplete(es: seq<Entry>, query: seq<byte>, e: Entry)
    requires e in es && DateMatches(e, query)
    ensures e in Matches(es, query)
  {
    if es[0] != e {
      MatchesComplete(es[1..], query, e);
    }
  }
}
