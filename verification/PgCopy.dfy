/**
 PostgreSQL binary COPY streams (src/PgCopyBinary.cpp; "Binary Format" under File Formats
 in the PostgreSQL COPY reference): what a whole stream means, independent of how it is
 delivered, and writing rows back verbatim.
 */
module PgCopy {
  import opened Core
  import opened Wire

  const SIGNATURE: seq<Byte> := [80, 71, 67, 79, 80, 89, 10, 255, 13, 10, 0]
  const HEADER_SIZE := 19
  const ZEROS: seq<Byte> := [0, 0, 0, 0, 0, 0, 0, 0]
  const TRAILER: seq<Byte> := [255, 255]

  datatype Field = Null | Data(bytes: seq<Byte>)
  datatype Row = Row(raw: seq<Byte>, fields: seq<Field>)

  datatype Parsed<T> = Parsed(value: T, rest: seq<Byte>)

  /** A length prefix, then that many bytes; -1 is NULL, any other negative length is malformed. */
  function ParseField(b: seq<Byte>): (r: Option<Parsed<Field>>)
    ensures r.Some? ==> |r.value.rest| < |b| && r.value.rest == b[|b| - |r.value.rest|..]
  {
    if |b| < 4 then None
    else
      var len := Signed(FromBE(b[..4]), 4);
      if len == -1 then Some(Parsed(Null, b[4..]))
      else if len < 0 || |b| < 4 + len then None
      else Some(Parsed(Data(b[4..4 + len]), b[4 + len..]))
  }

  function ParseFields(n: nat, b: seq<Byte>): (r: Option<Parsed<seq<Field>>>)
    ensures r.Some? ==> |r.value.rest| <= |b| && r.value.rest == b[|b| - |r.value.rest|..]
  {
    if n == 0 then Some(Parsed([], b))
    else match ParseField(b)
      case None => None
      case Some(first) =>
        match ParseFields(n - 1, first.rest)
        case None => None
        case Some(more) => Some(Parsed([first.value] + more.value, more.rest))
  }

  /** The next thing in a stream: a row, the trailer, or malformed/truncated data. */
  datatype Item = ARow(row: Row, rest: seq<Byte>) | TheEnd(rest: seq<Byte>) | Broken

  function ParseItem(b: seq<Byte>): (r: Item)
    ensures r.ARow? ==> |r.rest| + 2 <= |b| && b == r.row.raw + r.rest
    ensures r.TheEnd? ==> |b| >= 2 && r.rest == b[2..]
  {
    if |b| < 2 then Broken
    else
      var count := Signed(FromBE(b[..2]), 2);
      if count == -1 then TheEnd(b[2..])
      else if count < 0 then Broken
      else match ParseFields(count, b[2..])
        case None => Broken
        case Some(p) =>
          assert p.rest == b[|b| - |p.rest|..];
          ARow(Row(b[..|b| - |p.rest|], p.value), p.rest)
  }

  /** The rows delivered, and whether the stream ended with its trailer. */
  datatype Outcome = Outcome(rows: seq<Row>, clean: bool, rest: seq<Byte>)

  function ParseRows(b: seq<Byte>): Outcome
    decreases |b|
  {
    match ParseItem(b)
    case Broken => Outcome([], false, [])
    case TheEnd(rest) => Outcome([], true, rest)
    case ARow(row, rest) =>
      var more := ParseRows(rest);
      more.(rows := [row] + more.rows)
  }

  /** A whole stream; only the signature of the 19-byte header is looked at. */
  function ParseStream(b: seq<Byte>): Outcome {
    if |b| < HEADER_SIZE || b[..11] != SIGNATURE then Outcome([], false, [])
    else ParseRows(b[HEADER_SIZE..])
  }

  // ---------------------------------------------------------------- writing back

  class Writer {
    var bytes: seq<Byte>
    var closed: bool

    constructor ()
      ensures bytes == SIGNATURE + ZEROS && !closed
    {
      bytes, closed := SIGNATURE + ZEROS, false;
    }

    /** Refused after `Close`. */
    method WriteRow(raw: seq<Byte>) returns (ok: bool)
      modifies this
      ensures ok == !old(closed) && closed == old(closed)
      ensures bytes == if ok then old(bytes) + raw else old(bytes)
    {
      if closed { return false; }
      bytes := bytes + raw;
      return true;
    }

    method Close()
      modifies this
      ensures closed
      ensures bytes == if old(closed) then old(bytes) else old(bytes) + TRAILER
    {
      if closed { return; }
      bytes := bytes + TRAILER;
      closed := true;
    }
  }

  function Raws(rows: seq<Row>): seq<Byte> {
    if rows == [] then [] else rows[0].raw + Raws(rows[1..])
  }

  function Written(rows: seq<Row>): seq<Byte> { SIGNATURE + ZEROS + Raws(rows) + TRAILER }

  lemma RawsAt(rows: seq<Row>, i: nat, front: seq<Byte>)
    requires i < |rows|
    ensures front + Raws(rows[i..]) == (front + rows[i].raw) + Raws(rows[i + 1..])
  {
    assert rows[i..][1..] == rows[i + 1..];
  }

  lemma NoRaws()
    ensures Raws([]) == []
  {}

  /** Header once, rows verbatim, trailer once. */
  method WriteAll(rows: seq<Row>) returns (w: Writer)
    ensures fresh(w) && w.closed && w.bytes == Written(rows)
  {
    hide Raws;
    w := new Writer();
    var i := 0;
    assert rows[0..] == rows;
    while i < |rows|
      invariant 0 <= i <= |rows| && fresh(w) && !w.closed
      invariant w.bytes + Raws(rows[i..]) == SIGNATURE + ZEROS + Raws(rows)
    {
      RawsAt(rows, i, w.bytes);
      var ok := w.WriteRow(rows[i].raw);
      i := i + 1;
    }
    assert rows[i..] == [];
    NoRaws();
    w.Close();
  }

  lemma TrailerBytes(b: seq<Byte>)
    requires |b| >= 2
    ensures Signed(FromBE(b[..2]), 2) == -1 <==> b[..2] == TRAILER
  {
    Widths();
    BEBytes(b[..2]);
    TwoBytes(b[..2]);
    TwoBytes(TRAILER);
  }

  lemma TwoBytes(s: seq<Byte>)
    requires |s| == 2
    ensures FromBE(s) == Pair(s[0], s[1])
  {
    assert s[..1][..0] == [];
    assert FromBE(s[..1]) == s[0];
  }

  function Pair(hi: int, lo: int): (v: int)
    ensures hi >= 0 && lo >= 0 ==> v >= 0
  {
    256 * hi + lo
  }

  /** A cleanly ending row section is the raw rows, the trailer, and what follows. */
  lemma {:induction false} RowsRebuild(b: seq<Byte>)
    requires ParseRows(b).clean
    ensures b == Raws(ParseRows(b).rows) + TRAILER + ParseRows(b).rest
    decreases |b|
  {
    hide ParseItem, Raws;
    match ParseItem(b)
    case Broken =>
    case TheEnd(rest) =>
      EndBytes(b);
      RawsOf([]);
      assert b == [] + TRAILER + rest;
    case ARow(row, rest) =>
      RowsRebuild(rest);
      var more := ParseRows(rest);
      RawsOf([row] + more.rows);
      assert ([row] + more.rows)[1..] == more.rows;
      RegroupRow(row.raw, Raws(more.rows), more.rest);
  }

  lemma RawsOf(rows: seq<Row>)
    ensures Raws(rows) == if rows == [] then [] else rows[0].raw + Raws(rows[1..])
  {}

  lemma RegroupRow(a: seq<Byte>, b: seq<Byte>, c: seq<Byte>)
    ensures a + (b + TRAILER + c) == (a + b) + TRAILER + c
  {}

  lemma EndBytes(b: seq<Byte>)
    requires ParseItem(b).TheEnd?
    ensures b == TRAILER + ParseItem(b).rest
  {
    TrailerBytes(b);
    assert b == b[..2] + b[2..];
  }

  /**
   Writing the rows of a cleanly ending stream back reproduces it byte for byte exactly when
   its flags and extension length are zero and nothing follows the trailer.
   */
  lemma WriteBackIff(b: seq<Byte>)
    requires ParseStream(b).clean
    ensures Written(ParseStream(b).rows) == b <==> b[11..HEADER_SIZE] == ZEROS && ParseStream(b).rest == []
  {
    hide ParseRows, Raws;
    var tail := b[HEADER_SIZE..];
    RowsRebuild(tail);
    var rows, rest := ParseStream(b).rows, ParseStream(b).rest;
    assert b == b[..11] + b[11..HEADER_SIZE] + tail;
    var w := Written(rows);
    assert w[11..HEADER_SIZE] == ZEROS;
    assert |w| + |rest| == |b|;
    if b[11..HEADER_SIZE] == ZEROS && rest == [] {
      assert tail == Raws(rows) + TRAILER;
      assert w == SIGNATURE + ZEROS + (Raws(rows) + TRAILER);
    }
  }

  /** Rows that parse back as themselves. */
  ghost predicate WellFormed(row: Row) {
    forall tail :: ParseItem(row.raw + tail) == ARow(row, tail)
  }

  /** Every row the reader delivers is of that kind. */
  lemma DeliveredWellFormed(b: seq<Byte>)
    requires ParseItem(b).ARow?
    ensures WellFormed(ParseItem(b).row)
  {
    var row, rest := ParseItem(b).row, ParseItem(b).rest;
    forall tail ensures ParseItem(row.raw + tail) == ARow(row, tail) {
      SameFront(b, rest, row.raw + tail, tail);
    }
  }

  /** Parsing a row looks only at the row's own bytes. */
  lemma SameFront(b: seq<Byte>, rest: seq<Byte>, c: seq<Byte>, tail: seq<Byte>)
    requires ParseItem(b).ARow? && ParseItem(b).rest == rest && c == ParseItem(b).row.raw + tail
    ensures ParseItem(c) == ARow(ParseItem(b).row, tail)
  {
    hide FromBE, ParseFields, Signed;
    var raw := ParseItem(b).row.raw;
    Slice(raw, rest, 0, 2);
    Slice(raw, tail, 0, 2);
    SuffixAt(raw, rest, 2);
    SuffixAt(raw, tail, 2);
    FieldsFront(Signed(FromBE(b[..2]), 2), raw[2..], rest, tail);
    Slice(raw, tail, 0, |raw|);
  }

  lemma {:induction false} FieldsFront(n: nat, front: seq<Byte>, rest: seq<Byte>, tail: seq<Byte>)
    requires ParseFields(n, front + rest).Some? && ParseFields(n, front + rest).value.rest == rest
    ensures ParseFields(n, front + tail) == Some(Parsed(ParseFields(n, front + rest).value.value, tail))
  {
    hide ParseField;
    if n == 0 {
      assert front == [];
      assert front + tail == tail;
    } else {
      var first := ParseField(front + rest).value;
      var used := |front + rest| - |first.rest|;
      RestSuffix(n - 1, first.rest, rest);
      assert used <= |front|;
      assert first.rest == front[used..] + rest;
      FieldFront(front, rest, tail, used);
      FieldsFront(n - 1, front[used..], rest, tail);
    }
  }

  lemma RestSuffix(n: nat, b: seq<Byte>, rest: seq<Byte>)
    requires ParseFields(n, b).Some? && ParseFields(n, b).value.rest == rest
    ensures |rest| <= |b|
  {
    hide ParseField;
  }

  lemma FieldFront(front: seq<Byte>, rest: seq<Byte>, tail: seq<Byte>, used: nat)
    requires ParseField(front + rest).Some? && used == |front + rest| - |ParseField(front + rest).value.rest| && used <= |front|
    ensures ParseField(front + tail) == Some(Parsed(ParseField(front + rest).value.value, front[used..] + tail))
  {
    hide FromBE;
    var b, c := front + rest, front + tail;
    Slice(front, rest, 0, 4);
    Slice(front, tail, 0, 4);
    var len := Signed(FromBE(b[..4]), 4);
    SuffixAt(front, tail, used);
    if len == -1 {
      assert used == 4;
    } else {
      assert used == 4 + len && |c| >= used;
      Slice(front, rest, 4, used);
      Slice(front, tail, 4, used);
    }
  }

  lemma SuffixAt(front: seq<Byte>, tail: seq<Byte>, k: nat)
    requires k <= |front|
    ensures (front + tail)[k..] == front[k..] + tail
  {}

  lemma Slice(front: seq<Byte>, tail: seq<Byte>, i: nat, j: nat)
    requires i <= j <= |front|
    ensures (front + tail)[i..j] == front[i..j]
  {}

  /** Reading back what was written delivers the same rows and ends cleanly. */
  lemma {:induction false} ReadBack(rows: seq<Row>)
    requires forall i :: 0 <= i < |rows| ==> WellFormed(rows[i])
    ensures ParseStream(Written(rows)) == Outcome(rows, true, [])
  {
    hide ParseRows, Raws;
    var w := Written(rows);
    assert w[..11] == SIGNATURE;
    assert w[HEADER_SIZE..] == Raws(rows) + TRAILER;
    RowsBack(rows);
  }

  lemma {:induction false} RowsBack(rows: seq<Row>)
    requires forall i :: 0 <= i < |rows| ==> WellFormed(rows[i])
    ensures ParseRows(Raws(rows) + TRAILER) == Outcome(rows, true, [])
  {
    hide ParseItem, WellFormed;
    if rows == [] {
      EndBack();
      assert Raws(rows) + TRAILER == TRAILER;
    } else {
      var more := Raws(rows[1..]) + TRAILER;
      assert Raws(rows) + TRAILER == rows[0].raw + more;
      RowBack(rows[0], more);
      assert |more| < |rows[0].raw + more|;
      RowsBack(rows[1..]);
      assert rows == [rows[0]] + rows[1..];
    }
  }

  lemma RowBack(row: Row, tail: seq<Byte>)
    requires WellFormed(row)
    ensures ParseItem(row.raw + tail) == ARow(row, tail) && |row.raw| >= 2
  {
    hide ParseFields;
  }

  lemma EndBack()
    ensures ParseItem(TRAILER) == TheEnd([])
  {
    TrailerBytes(TRAILER);
    assert TRAILER[..2] == TRAILER && TRAILER[2..] == [];
  }

  // ---------------------------------------------------------------- bigint fields

  /** `readBigintBE`: refused unless the field is 8 non-NULL bytes. */
  method ReadBigintBE(f: Field) returns (id: Option<int>)
    ensures id.Some? <==> f.Data? && |f.bytes| == 8
    ensures id.Some? ==> id.value == Signed(FromBE(f.bytes), 8)
  {
    if !f.Data? || |f.bytes| != 8 { return None; }
    var u: nat := 0;
    for i := 0 to 8
      invariant u == FromBE(f.bytes[..i])
    {
      assert f.bytes[..i + 1][..i] == f.bytes[..i];
      u := Pair(u, f.bytes[i]);
    }
    assert f.bytes[..8] == f.bytes;
    return Some(Signed(u, 8));
  }

  lemma BigintTrip(id: int)
    requires -0x8000_0000_0000_0000 <= id < 0x8000_0000_0000_0000
    ensures Pow256(8) == 0x1_0000_0000_0000_0000
    ensures Signed(FromBE(BE(Unsigned(id, 8), 8)), 8) == id
  {
    Widths();
    SignedRoundTrip(id, 8);
    BERoundTrip(Unsigned(id, 8), 8);
  }

  // ---------------------------------------------------------------- rows as a server sends them

  function TwoBE(n: nat): seq<Byte> { [n / 0x100 % 256, n % 256] }

  function FourBE(n: nat): seq<Byte> { [n / 0x100_0000 % 256, n / 0x1_0000 % 256, n / 0x100 % 256, n % 256] }

  predicate Sendable(fields: seq<Field>) {
    |fields| < 0x8000 && forall i :: 0 <= i < |fields| && fields[i].Data? ==> |fields[i].bytes| < 0x8000_0000
  }

  /** A length of 4 bytes and the data; all ones for NULL. */
  function EncodeField(f: Field): seq<Byte> {
    match f case Null => [255, 255, 255, 255] case Data(bytes) => FourBE(|bytes|) + bytes
  }

  function EncodeFields(fields: seq<Field>): seq<Byte> {
    if fields == [] then [] else EncodeField(fields[0]) + EncodeFields(fields[1..])
  }

  function EncodeRow(fields: seq<Field>): seq<Byte> { TwoBE(|fields|) + EncodeFields(fields) }

  function EncodeRows(rows: seq<seq<Field>>): seq<Byte> {
    if rows == [] then [] else EncodeRow(rows[0]) + EncodeRows(rows[1..])
  }

  lemma FourDigits(n: nat)
    requires n < 0x1_0000_0000
    ensures 0x100_0000 * (n / 0x100_0000 % 256) + 0x1_0000 * (n / 0x1_0000 % 256) + 0x100 * (n / 0x100 % 256) + n % 256 == n
  {
    var a := n / 0x100;
    var b := a / 0x100;
    var c := b / 0x100;
    assert c == n / 0x100_0000 && b == n / 0x1_0000 && c < 256;
  }

  lemma LengthRead(n: nat, more: seq<Byte>)
    requires n < 0x8000_0000
    ensures Signed(FromBE((FourBE(n) + more)[..4]), 4) == n
  {
    hide FromBE;
    Widths();
    assert (FourBE(n) + more)[..4] == FourBE(n);
    FourDigits(n);
    BigEndian(n / 0x100_0000 % 256, n / 0x1_0000 % 256, n / 0x100 % 256, n % 256);
  }

  lemma CountRead(n: nat, more: seq<Byte>)
    requires n < 0x8000
    ensures Signed(FromBE((TwoBE(n) + more)[..2]), 2) == n
  {
    hide FromBE;
    Widths();
    assert (TwoBE(n) + more)[..2] == TwoBE(n);
    BigEndian(n / 0x100 % 256, n % 256, 0, 0);
  }

  lemma OnesRead(more: seq<Byte>)
    ensures Signed(FromBE(([255, 255, 255, 255] + more)[..4]), 4) == -1
    ensures Signed(FromBE(([255, 255] + more)[..2]), 2) == -1
  {
    hide FromBE;
    Widths();
    assert ([255, 255, 255, 255] + more)[..4] == [255, 255, 255, 255] && ([255, 255] + more)[..2] == [255, 255];
    BigEndian(255, 255, 255, 255);
  }

  lemma FieldTrip(f: Field, tail: seq<Byte>)
    requires f.Data? ==> |f.bytes| < 0x8000_0000
    ensures ParseField(EncodeField(f) + tail) == Some(Parsed(f, tail))
  {
    hide FromBE, Signed, FourBE;
    var b := EncodeField(f) + tail;
    match f
    case Null =>
      OnesRead(tail);
      assert b[4..] == tail;
    case Data(bytes) =>
      LengthRead(|bytes|, bytes + tail);
      assert |FourBE(|bytes|)| == 4 by { FourLong(|bytes|); }
      assert b == FourBE(|bytes|) + (bytes + tail);
      assert b[4..4 + |bytes|] == bytes && b[4 + |bytes|..] == tail;
  }

  lemma FourLong(n: nat)
    ensures |FourBE(n)| == 4
  {}

  lemma {:induction false} FieldsTrip(fields: seq<Field>, tail: seq<Byte>)
    requires forall i :: 0 <= i < |fields| && fields[i].Data? ==> |fields[i].bytes| < 0x8000_0000
    ensures ParseFields(|fields|, EncodeFields(fields) + tail) == Some(Parsed(fields, tail))
  {
    hide ParseField, EncodeField;
    if fields == [] {
      assert EncodeFields(fields) + tail == tail;
    } else {
      var more := EncodeFields(fields[1..]) + tail;
      assert EncodeFields(fields) + tail == EncodeField(fields[0]) + more;
      FieldTrip(fields[0], more);
      FieldsTrip(fields[1..], tail);
      assert fields == [fields[0]] + fields[1..];
    }
  }

  /** A row, of no fields too, is read as its fields, with its own bytes. */
  lemma RowTrip(fields: seq<Field>, tail: seq<Byte>)
    requires Sendable(fields)
    ensures ParseItem(EncodeRow(fields) + tail) == ARow(Row(EncodeRow(fields), fields), tail)
  {
    hide FromBE, Signed, ParseFields, EncodeFields, TwoBE;
    var b := EncodeRow(fields) + tail;
    CountRead(|fields|, EncodeFields(fields) + tail);
    TwoLong(|fields|);
    assert b == TwoBE(|fields|) + (EncodeFields(fields) + tail);
    assert b[2..] == EncodeFields(fields) + tail;
    FieldsTrip(fields, tail);
    assert b[..|b| - |tail|] == EncodeRow(fields);
  }

  lemma TwoLong(n: nat)
    ensures |TwoBE(n)| == 2
  {}

  /** The rows and their bytes. */
  ghost predicate AreRows(rows: seq<Row>, sent: seq<seq<Field>>) {
    |rows| == |sent| && forall i :: 0 <= i < |sent| ==> rows[i] == Row(EncodeRow(sent[i]), sent[i])
  }

  lemma {:induction false} RowsTrip(sent: seq<seq<Field>>, tail: seq<Byte>)
    requires forall i :: 0 <= i < |sent| ==> Sendable(sent[i])
    ensures var o := ParseRows(EncodeRows(sent) + ([255, 255] + tail));
      AreRows(o.rows, sent) && o.clean && o.rest == tail
    decreases |sent|
  {
    hide ParseItem, EncodeRow;
    if sent == [] {
      assert EncodeRows(sent) + ([255, 255] + tail) == [255, 255] + tail;
      TrailerEnds(tail);
    } else {
      var more := EncodeRows(sent[1..]) + ([255, 255] + tail);
      assert EncodeRows(sent) + ([255, 255] + tail) == EncodeRow(sent[0]) + more;
      RowTrip(sent[0], more);
      RowsTrip(sent[1..], tail);
      var o := ParseRows(more);
      assert forall i :: 0 < i < |sent| ==> sent[i] == sent[1..][i - 1];
    }
  }

  lemma TrailerEnds(tail: seq<Byte>)
    ensures ParseItem([255, 255] + tail) == TheEnd(tail)
  {
    hide FromBE, Signed, ParseFields;
    OnesRead(tail);
    assert ([255, 255] + tail)[2..] == tail;
  }

  /**
   A stream as the server sends it: 11 signature bytes, 8 more, the rows, two bytes of ones. The
   reader gets the rows, sees a clean end, and leaves what follows.
   */
  lemma StreamTrip(skipped: seq<Byte>, sent: seq<seq<Field>>, tail: seq<Byte>)
    requires |skipped| == 8 && forall i :: 0 <= i < |sent| ==> Sendable(sent[i])
    ensures var o := ParseStream([80, 71, 67, 79, 80, 89, 10, 255, 13, 10, 0] + skipped + (EncodeRows(sent) + ([255, 255] + tail)));
      AreRows(o.rows, sent) && o.clean && o.rest == tail
  {
    hide ParseRows, EncodeRows;
    var head: seq<Byte> := [80, 71, 67, 79, 80, 89, 10, 255, 13, 10, 0];
    var body := EncodeRows(sent) + ([255, 255] + tail);
    var b := head + skipped + body;
    assert b[..11] == head && b[HEADER_SIZE..] == body;
    RowsTrip(sent, tail);
  }

  /** The file written: signature, flags and extension length of zero, the rows, the trailer. */
  lemma WrittenBytes(rows: seq<Row>)
    ensures Written(rows) == [80, 71, 67, 79, 80, 89, 10, 255, 13, 10, 0, 0, 0, 0, 0, 0, 0, 0, 0] + Raws(rows) + [255, 255]
  {
    hide Raws;
  }

  /** What is refused: a negative count or length other than -1, and bytes that run out. */
  lemma Refused(b: seq<Byte>, tail: seq<Byte>)
    ensures |b| < 2 ==> ParseItem(b) == Broken
    ensures |b| == 2 && 0x80 <= b[0] && b != [255, 255] ==> ParseItem(b + tail) == Broken
    ensures |b| < 4 ==> ParseField(b) == None
    ensures |b| == 4 && 0x80 <= b[0] && b != [255, 255, 255, 255] ==> ParseField(b + tail) == None
    ensures |b| == 4 && 0x80 > b[0] && |tail| < 0x100_0000 * (b[0] as int) + 0x1_0000 * (b[1] as int) + 0x100 * (b[2] as int) + (b[3] as int) ==> ParseField(b + tail) == None
  {
    hide FromBE, ParseFields;
    Widths();
    if |b| == 2 {
      BigEndian(b[0], b[1], 0, 0);
      assert (b + tail)[..2] == [b[0], b[1]] == b;
    }
    if |b| == 4 {
      BigEndian(b[0], b[1], b[2], b[3]);
      assert (b + tail)[..4] == [b[0], b[1], b[2], b[3]] == b;
    }
  }
}
