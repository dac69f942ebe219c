/** Opaque page cursors: `base64(ID ":" RFC 3339 time)` for SQL rows and `base64(score)` for
    sorted-set members, and the text form of 16-byte identifiers. */
module Cursor {
  import opened Text
  import opened Codec
  import opened Keyset

  const COLON: byte := Ascii(':')
  const DASH: byte := Ascii('-')

  /** `time.Format` and `time.Parse` with the RFC 3339 layout.  Instants are nanoseconds since
      0001-01-01T00:00:00Z, so the zero `time.Time` is 0; `writable` are the instants the layout
      can express. */
  datatype TimeText = TimeText(format: int -> Str, parse: Str -> Option<int>, writable: int -> bool) {
    ghost predicate Lawful() {
      forall t :: writable(t) ==> parse(format(t)) == Some(t)
    }
  }

  datatype CursorError = BadBase64 | NoSeparator | BadTime | BadIdType

  /** `Cursor.String`; a row's cursor consists of its two key columns. */
  function CursorText(tt: TimeText, c: Row): Str {
    if c.id == [] || c.rank == 0 then []
    else Base64Encode(c.id + [COLON] + tt.format(c.rank))
  }

  function ParseCursor(tt: TimeText, text: Str): Result<Row, CursorError> {
    match Base64Decode(text)
    case None => Err(BadBase64)
    case Some(raw) =>
      match IndexOf(raw, [COLON])
      case None => Err(NoSeparator)
      case Some(i) =>
        match tt.parse(raw[i + 1..])
        case None => Err(BadTime)
        case Some(t) => Ok(Row(t, raw[..i]))
  }

  /** The receiver of `SetString`. */
  class CursorBox {
    var id: Str
    var createdAt: int

    function Key(): Row
      reads this
    {
      Row(createdAt, id)
    }

    constructor ()
      ensures Key() == Row(0, [])
    {
      id, createdAt := [], 0;
    }

    method SetString(tt: TimeText, text: Str) returns (r: Result<Row, CursorError>)
      modifies this
      ensures r == ParseCursor(tt, text)
      ensures Key() == if r.Ok? then r.value else old(Key())
    {
      var raw := Base64Decode(text);
      if raw.None? {
        return Err(BadBase64);
      }
      var cut := IndexOf(raw.value, [COLON]);
      if cut.None? {
        return Err(NoSeparator);
      }
      var t := tt.parse(raw.value[cut.value + 1..]);
      if t.None? {
        return Err(BadTime);
      }
      id := raw.value[..cut.value];
      createdAt := t.value;
      r := Ok(Key());
    }
  }

  /** Rows whose cursor can be sent back. */
  predicate Addressable(c: Row) {
    c.id != [] && c.rank != 0 && COLON !in c.id
  }

  lemma CutAtFirstColon(id: Str, rest: Str)
    ensures IndexOf(id + [COLON] + rest, [COLON]).Some?
    ensures var i := IndexOf(id + [COLON] + rest, [COLON]).value;
            i <= |id| && (i == |id| <==> COLON !in id)
  {
    var raw := id + [COLON] + rest;
    assert OccursAt(raw, [COLON], |id|);
    var i := IndexOf(raw, [COLON]).value;
    assert raw[i] == COLON by {
      assert raw[i..i + 1][0] == COLON;
    }
    if COLON in id {
      var j :| 0 <= j < |id| && id[j] == COLON;
      assert raw[j..j + 1] == [COLON];
      assert OccursAt(raw, [COLON], j);
    } else {
      assert forall j :: 0 <= j < |id| ==> raw[j] == id[j];
    }
  }

  /** The cursor comes back as the same key exactly for addressable rows: a colon in the identifier
      cuts it short, and an empty identifier or zero time has no cursor text at all. */
  lemma CursorRoundTrip(tt: TimeText, c: Row)
    requires tt.Lawful() && tt.writable(c.rank)
    ensures ParseCursor(tt, CursorText(tt, c)) == Ok(c) <==> Addressable(c)
  {
    if c.id == [] || c.rank == 0 {
      assert CursorText(tt, c) == [];
    } else {
      var time := tt.format(c.rank);
      var raw := c.id + [COLON] + time;
      Base64RoundTrip(raw);
      CutAtFirstColon(c.id, time);
      var i := IndexOf(raw, [COLON]).value;
      if COLON !in c.id {
        assert raw[..i] == c.id && raw[i + 1..] == time;
      } else {
        assert |raw[..i]| < |c.id|;
      }
    }
  }

  /** What a cursor text is: base64 of the identifier, a colon and the time; rows without an identifier or
      with the zero time have the empty text. */
  lemma CursorTextIs(tt: TimeText, c: Row)
    ensures CursorText(tt, c) == [] <==> c.id == [] || c.rank == 0
    ensures CursorText(tt, c) != [] ==> Base64Decode(CursorText(tt, c)) == Some(c.id + [0x3A] + tt.format(c.rank))
  {
    if c.id != [] && c.rank != 0 {
      var raw := c.id + [COLON] + tt.format(c.rank);
      Base64RoundTrip(raw);
      assert |raw| > 0;
    }
  }

  /** The part before the first colon and the part after it. */
  ghost predicate CutAt(raw: Str, id: Str, time: Str) {
    raw == id + [0x3A] + time && 0x3A !in id
  }

  lemma ColonAt(raw: Str, j: nat)
    ensures OccursAt(raw, [COLON], j) <==> j < |raw| && raw[j] == 0x3A
  {
    if j < |raw| {
      assert raw[j..j + 1] == [raw[j]];
    }
  }

  lemma CutIs(raw: Str)
    ensures IndexOf(raw, [COLON]).None? <==> 0x3A !in raw
    ensures var i := IndexOf(raw, [COLON]); i.Some? ==> CutAt(raw, raw[..i.value], raw[i.value + 1..])
    ensures forall id, time :: CutAt(raw, id, time) ==> IndexOf(raw, [COLON]) == Some(|id|)
  {
    var cut := IndexOf(raw, [COLON]);
    forall j | 0 <= j < |raw|
      ensures OccursAt(raw, [COLON], j) <==> raw[j] == 0x3A
    {
      ColonAt(raw, j);
    }
    if cut.Some? {
      var i := cut.value;
      ColonAt(raw, i);
      assert raw == raw[..i] + [raw[i]] + raw[i + 1..];
      forall c | c in raw[..i]
        ensures c != 0x3A
      {
        var j :| 0 <= j < i && raw[j] == c;
        assert !OccursAt(raw, [COLON], j);
      }
    }
    forall id: Str, time: Str | CutAt(raw, id, time)
      ensures cut == Some(|id|)
    {
      CutAtFirstColon(id, time);
    }
  }

  /** What decodes and what each error means: not base64, no colon, or no time behind the first colon. */
  lemma ParseExactly(tt: TimeText, text: Str)
    ensures var raw, r := Base64Decode(text), ParseCursor(tt, text);
            && (r == Err(BadBase64) <==> raw.None?)
            && (r == Err(NoSeparator) <==> raw.Some? && 0x3A !in raw.value)
            && (r == Err(BadTime) <==>
                  raw.Some? && exists id, time :: CutAt(raw.value, id, time) && tt.parse(time).None?)
            && forall row :: r == Ok(row) <==>
                 raw.Some? && exists time :: CutAt(raw.value, row.id, time) && tt.parse(time) == Some(row.rank)
  {
    hide Base64Decode, IndexOf;
    var raw, r := Base64Decode(text), ParseCursor(tt, text);
    if raw.Some? {
      CutIs(raw.value);
      var cut := IndexOf(raw.value, [COLON]);
      if cut.Some? {
        var i := cut.value;
        assert CutAt(raw.value, raw.value[..i], raw.value[i + 1..]);
        forall id: Str, time: Str | CutAt(raw.value, id, time)
          ensures id == raw.value[..i] && time == raw.value[i + 1..]
        {
          SameCut(raw.value, id, time);
        }
      }
    }
  }

  lemma SameCut(raw: Str, id: Str, time: Str)
    requires CutAt(raw, id, time)
    ensures |id| < |raw| && raw[..|id|] == id && raw[|id| + 1..] == time
  {
  }

  // ---- identifiers -------------------------------------------------------

  /** `bytesToUUIDString`. */
  function UuidText(b: Str): (t: Str)
    requires |b| == 16
    ensures |t| == 36
  {
    HexEncode(b[..4]) + [DASH] + HexEncode(b[4..6]) + [DASH] + HexEncode(b[6..8]) + [DASH]
    + HexEncode(b[8..10]) + [DASH] + HexEncode(b[10..])
  }

  /** The ID field of an item: a string, or a byte slice or array. */
  datatype IdField = TextId(text: Str) | BytesId(bytes: Str)

  /** `computeItemCursor` on the fields of an item. */
  function ItemCursor(id: IdField, createdAt: int): Result<Row, CursorError> {
    match id
    case TextId(text) => Ok(Row(createdAt, text))
    case BytesId(b) => if |b| == 16 then Ok(Row(createdAt, UuidText(b))) else Err(BadIdType)
  }

  /** Every 16-byte identifier yields an addressable row (unless its time is zero), and distinct
      identifiers yield distinct rows. */
  lemma UuidAddressable(b: Str, createdAt: int)
    requires |b| == 16 && createdAt != 0
    ensures Addressable(ItemCursor(BytesId(b), createdAt).value)
  {
  }

  /** The cursor of an item, sent back, gives the item's time and its text, or its sixteen bytes. */
  lemma ItemCursorDecodes(tt: TimeText, id: IdField, createdAt: int)
    requires tt.Lawful() && tt.writable(createdAt) && createdAt != 0
    ensures ItemCursor(id, createdAt).Err? <==> id.BytesId? && |id.bytes| != 16
    ensures ItemCursor(id, createdAt).Ok? ==>
              var back := ParseCursor(tt, CursorText(tt, ItemCursor(id, createdAt).value));
              && (id.TextId? && id.text != [] && 0x3A !in id.text ==> back == Ok(Row(createdAt, id.text)))
              && (id.BytesId? ==> && back.Ok? && back.value.rank == createdAt && |back.value.id| == 36
                                  && HexDecode(UuidDigits(back.value.id)) == Some(id.bytes))
  {
    if ItemCursor(id, createdAt).Ok? {
      CursorRoundTrip(tt, ItemCursor(id, createdAt).value);
      if id.BytesId? {
        UuidAddressable(id.bytes, createdAt);
        UuidReadsBack(id.bytes);
      }
      hide CursorText, ParseCursor, UuidText, HexDecode;
    }
  }

  /** The text without its dashes. */
  function UuidDigits(t: Str): Str
    requires |t| == 36
  {
    t[..8] + t[9..13] + t[14..18] + t[19..23] + t[24..]
  }

  /** The 8-4-4-4-12 form: dashes at four places, hex digits everywhere else, and these read back as
      the identifier. */
  lemma UuidReadsBack(b: Str)
    requires |b| == 16
    ensures var t := UuidText(b);
            && (forall i :: 0 <= i < 36 ==> (t[i] == DASH <==> i in {8, 13, 18, 23}))
            && HexDecode(UuidDigits(t)) == Some(b)
  {
    hide HexEncode, HexDecode;
    var t := UuidText(b);
    var h1, h2, h3, h4 := HexEncode(b[..4]), HexEncode(b[4..6]), HexEncode(b[6..8]), HexEncode(b[8..10]);
    var h5 := HexEncode(b[10..]);
    assert t[..8] == h1 && t[9..13] == h2 && t[14..18] == h3 && t[19..23] == h4 && t[24..] == h5;
    forall i | 0 <= i < 36
      ensures t[i] == DASH <==> i in {8, 13, 18, 23}
    {
      assert i in {8, 13, 18, 23} || t[i] in h1 || t[i] in h2 || t[i] in h3 || t[i] in h4 || t[i] in h5;
    }
    HexEncodeJoin(b[..4], b[4..6]);
    HexEncodeJoin(b[..6], b[6..8]);
    HexEncodeJoin(b[..8], b[8..10]);
    HexEncodeJoin(b[..10], b[10..]);
    assert b[..4] + b[4..6] == b[..6] && b[..6] + b[6..8] == b[..8] && b[..8] + b[8..10] == b[..10];
    assert b[..10] + b[10..] == b;
    HexRoundTrip(b);
  }

  lemma UuidInjective(a: Str, b: Str)
    requires |a| == 16 && |b| == 16 && UuidText(a) == UuidText(b)
    ensures a == b
  {
    UuidReadsBack(a);
    UuidReadsBack(b);
  }

  /** Texts that sort like the bytes behind them. */
  ghost predicate SortAlike(t: Str, u: Str, a: Str, b: Str) {
    && |t| == |u| && |a| == |b|
    && (StrLess(t, u) <==> StrLess(a, b))
    && (t == u <==> a == b)
  }

  lemma SameSuffix(t: Str, u: Str, x: Str, y: Str)
    requires |t| == |u| && |x| == |y|
    ensures t + x == u + y <==> t == u && x == y
  {
    assert t + x == u + y ==> (t + x)[..|t|] == (u + y)[..|u|] && (t + x)[|t|..] == (u + y)[|u|..];
  }

  /** One more group of hex digits, after a dash. */
  lemma OneMoreGroup(t: Str, u: Str, a: Str, b: Str, x: Str, y: Str)
    requires SortAlike(t, u, a, b) && |x| == |y|
    ensures SortAlike(t + [DASH] + HexEncode(x), u + [DASH] + HexEncode(y), a + x, b + y)
  {
    hide HexEncode;
    hide StrLess;
    HexAlike(x, y);
    StrLessIrreflexive([DASH]);
    StrLessJoin(t, u, [DASH], [DASH]);
    StrLessJoin(t + [DASH], u + [DASH], HexEncode(x), HexEncode(y));
    StrLessJoin(a, b, x, y);
    SameSuffix(t, u, [DASH], [DASH]);
    SameSuffix(t + [DASH], u + [DASH], HexEncode(x), HexEncode(y));
    SameSuffix(a, b, x, y);
  }

  lemma HexAlike(x: Str, y: Str)
    requires |x| == |y|
    ensures SortAlike(HexEncode(x), HexEncode(y), x, y)
  {
    hide HexEncode, StrLess;
    HexOrder(x, y);
    HexRoundTrip(x);
    HexRoundTrip(y);
  }

  /** The texts of identifiers sort like the identifiers, so the key comparison may use either. */
  lemma UuidOrder(a: Str, b: Str)
    requires |a| == 16 && |b| == 16
    ensures StrLess(UuidText(a), UuidText(b)) <==> StrLess(a, b)
  {
    hide StrLess, HexEncode;
    HexAlike(a[..4], b[..4]);
    var t, u := HexEncode(a[..4]), HexEncode(b[..4]);
    OneMoreGroup(t, u, a[..4], b[..4], a[4..6], b[4..6]);
    t, u := t + [DASH] + HexEncode(a[4..6]), u + [DASH] + HexEncode(b[4..6]);
    assert a[..4] + a[4..6] == a[..6] && b[..4] + b[4..6] == b[..6];
    OneMoreGroup(t, u, a[..6], b[..6], a[6..8], b[6..8]);
    t, u := t + [DASH] + HexEncode(a[6..8]), u + [DASH] + HexEncode(b[6..8]);
    assert a[..6] + a[6..8] == a[..8] && b[..6] + b[6..8] == b[..8];
    OneMoreGroup(t, u, a[..8], b[..8], a[8..10], b[8..10]);
    t, u := t + [DASH] + HexEncode(a[8..10]), u + [DASH] + HexEncode(b[8..10]);
    assert a[..8] + a[8..10] == a[..10] && b[..8] + b[8..10] == b[..10];
    OneMoreGroup(t, u, a[..10], b[..10], a[10..], b[10..]);
    assert a[..10] + a[10..] == a && b[..10] + b[10..] == b;
  }

  // ---- sorted-set cursors ------------------------------------------------

  /** `formatScore` and `strconv.ParseFloat`.  A score is its rank among the float64 values. */
  datatype ScoreText = ScoreText(format: int -> Str, parse: Str -> Option<int>) {
    ghost predicate Lawful() {
      forall s :: parse(format(s)) == Some(s)
    }
  }

  /** `encodeScoreCursor`. */
  function ScoreCursor(st: ScoreText, score: int): Str {
    Base64Encode(st.format(score))
  }

  function OptionalScoreCursor(st: ScoreText, c: Option<int>): Option<Str> {
    if c.None? then None else Some(ScoreCursor(st, c.value))
  }

  /** `decodeScoreCursor`. */
  function ParseScore(st: ScoreText, text: Str): Option<int> {
    match Base64Decode(text)
    case None => None
    case Some(raw) => st.parse(raw)
  }

  lemma ScoreRoundTrip(st: ScoreText, score: int)
    requires st.Lawful()
    ensures ParseScore(st, ScoreCursor(st, score)) == Some(score)
  {
    Base64RoundTrip(st.format(score));
  }
}
