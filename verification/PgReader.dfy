/**
 The COPY reader as it runs (`PgCopyBinary::Reader`): a buffer fed by wire chunks of any
 size and compacted in the middle of rows. It delivers what the whole stream means.
 */
module PgReader {
  import opened Core
  import opened Wire
  import opened PgCopy

  /** A field as the offset of its bytes within the row; length -1 is NULL. */
  datatype Rel = Rel(offset: nat, len: int)

  predicate Within(rel: Rel, size: nat) { rel.len == -1 || (0 <= rel.len && rel.offset + rel.len <= size) }

  function View(raw: seq<Byte>, rel: Rel): Field
    requires Within(rel, |raw|)
  {
    if rel.len == -1 then Null else Data(raw[rel.offset..rel.offset + rel.len])
  }

  /** The offsets, applied to the row's bytes so far, are the fields parsed so far. */
  ghost predicate Points(rels: seq<Rel>, raw: seq<Byte>, done: seq<Field>) {
    && |rels| == |done|
    && forall k :: 0 <= k < |rels| ==> Within(rels[k], |raw|) && View(raw, rels[k]) == done[k]
  }

  lemma PointsGrows(rels: seq<Rel>, raw: seq<Byte>, done: seq<Field>, more: seq<Byte>)
    requires Points(rels, raw, done)
    ensures Points(rels, raw + more, done)
  {
    forall k | 0 <= k < |rels|
      ensures Within(rels[k], |raw + more|) && View(raw + more, rels[k]) == done[k]
    {
      assert View(raw, rels[k]) == done[k];
      if rels[k].len != -1 {
        assert (raw + more)[rels[k].offset..rels[k].offset + rels[k].len] == raw[rels[k].offset..rels[k].offset + rels[k].len];
      }
    }
  }

  lemma PointsSnoc(rels: seq<Rel>, raw: seq<Byte>, done: seq<Field>, rel: Rel)
    requires Points(rels, raw, done) && Within(rel, |raw|)
    ensures Points(rels + [rel], raw, done + [View(raw, rel)])
  {}

  datatype Got = GotRow(row: Row) | Ended | Failed

  class Reader {
    var chunks: seq<seq<Byte>>
    var buf: seq<Byte>
    var pos: nat
    var mark: nat
    var eof: bool

    predicate Valid()
      reads this
    {
      mark <= pos <= |buf|
    }

    /** The bytes not consumed yet, wherever they are. */
    ghost function Pending(): seq<Byte>
      reads this
      requires Valid()
    {
      buf[pos..] + Flatten(chunks)
    }

    /** The bytes of the row being parsed. */
    function Marked(): seq<Byte>
      reads this
      requires Valid()
    {
      buf[mark..pos]
    }

    constructor (wire: seq<seq<Byte>>)
      ensures Valid() && chunks == wire && Pending() == Flatten(wire) && mark == pos == 0 && !eof
    {
      chunks, buf, pos, mark, eof := wire, [], 0, 0, false;
    }

    /** Pulls chunks until `need` bytes wait, dropping what lies before the mark. */
    method Fill(need: nat) returns (ok: bool)
      requires Valid()
      modifies this
      ensures Valid() && Pending() == old(Pending()) && Marked() == old(Marked()) && eof == old(eof)
      ensures ok <==> |old(Pending())| >= need
      ensures ok ==> |buf| - pos >= need
    {
      while |buf| - pos < need
        invariant Valid() && Pending() == old(Pending()) && Marked() == old(Marked()) && eof == old(eof)
        decreases |chunks|
      {
        if chunks == [] { return false; }
        var chunk := chunks[0];
        ghost var was, pending := Marked(), Pending();
        if mark > 0 {
          ghost var full, m, p := buf, mark, pos;
          buf := buf[mark..];
          pos := pos - mark;
          mark := 0;
          assert buf[..pos] == full[m..p] && buf[pos..] == full[p..];
        }
        assert Marked() == was && buf[pos..] + Flatten(chunks) == pending;
        Deliver(buf, pos, mark, chunks);
        chunks := chunks[1..];
        buf := buf + chunk;
      }
      return true;
    }

    /** Consumes `n` buffered bytes. */
    method Take(n: nat) returns (bytes: seq<Byte>)
      requires Valid() && |buf| - pos >= n
      modifies this`pos
      ensures Valid() && bytes == old(buf)[old(pos)..old(pos) + n] && |bytes| == n
      ensures old(Pending()) == bytes + Pending() && Marked() == old(Marked()) + bytes
    {
      bytes := buf[pos..pos + n];
      assert buf[pos..] == bytes + buf[pos + n..];
      Regroup(bytes, buf[pos + n..], Flatten(chunks));
      assert buf[mark..pos] + bytes == buf[mark..pos + n];
      pos := pos + n;
    }

    /** The 19-byte header: its signature is checked, the rest skipped. */
    method ReadHeader() returns (ok: bool)
      requires Valid()
      modifies this
      ensures Valid()
      ensures ok <==> |old(Pending())| >= HEADER_SIZE && old(Pending())[..11] == SIGNATURE
      ensures ok ==> Pending() == old(Pending())[HEADER_SIZE..]
    {
      ok := Fill(HEADER_SIZE);
      if !ok { return; }
      ghost var all := Pending();
      assert buf[pos..pos + 11] == all[..11];
      ok := buf[pos..pos + 11] == SIGNATURE;
      if ok {
        var header := Take(HEADER_SIZE);
      }
    }

    method Finish()
      requires Valid()
      modifies this`chunks, this`eof
      ensures eof && (old(eof) || chunks == [])
    {
      if eof { return; }
      while chunks != [] { chunks := chunks[1..]; }
      eof := true;
    }

    /** One field's length and bytes. */
    method NextField() returns (ok: bool, rel: Rel)
      requires Valid()
      modifies this
      ensures Valid() && eof == old(eof)
      ensures ok <==> ParseField(old(Pending())).Some?
      ensures ok ==> Pending() == ParseField(old(Pending())).value.rest
      ensures ok ==> |Marked()| >= |old(Marked())| && old(Marked()) == Marked()[..|old(Marked())|]
      ensures ok ==> Marked() + Pending() == old(Marked() + Pending())
      ensures ok ==> Within(rel, |Marked()|) && View(Marked(), rel) == ParseField(old(Pending())).value.value
    {
      hide FromBE, Flatten, ParseField, Signed, Pending;
      ghost var all, was := Pending(), Marked();
      ShortField(all);
      ok := Fill(4);
      if !ok { return false, Rel(0, -1); }
      var prefix := Take(4);
      FieldIs(all, prefix, Pending());
      var len := Signed(FromBE(prefix), 4);
      Regroup(was, prefix, Pending());
      if len == -1 { return true, Rel(0, -1); }
      if len < 0 { return false, Rel(0, -1); }
      ok := Fill(len);
      if !ok { return false, Rel(0, -1); }
      rel := Rel(pos - mark, len);
      ghost var before, body := Marked(), Pending();
      var bytes := Take(len);
      assert body[..len] == bytes && body[len..] == Pending();
      Regroup(before, bytes, Pending());
      assert Marked()[|before|..|before| + len] == bytes;
    }

    /** `next`: the next item of the stream, however it arrives. */
    method Next() returns (got: Got)
      requires Valid()
      modifies this
      ensures Valid()
      ensures match ParseItem(old(Pending()))
        case ARow(row, rest) => got == GotRow(row) && Pending() == rest && eof == old(eof)
        case TheEnd(rest) => got == Ended && eof
        case Broken => got == Failed
    {
      hide FromBE, Flatten, ParseFields, ParseField;
      ghost var all := Pending();
      mark := pos;
      var ok := Fill(2);
      if !ok { return Failed; }
      var head := Take(2);
      assert head == all[..2] && Pending() == all[2..];
      var count := Signed(FromBE(head), 2);
      if count == -1 {
        Finish();
        return Ended;
      }
      if count < 0 { return Failed; }
      assert Marked() + Pending() == all;
      var rels := NextFields(count);
      if rels.None? { return Failed; }
      var raw := Marked();
      assert raw == all[..|all| - |Pending()|];
      var fields := Views(raw, rels.value, ParseFields(count, all[2..]).value.value);
      return GotRow(Row(raw, fields));
    }

    method NextFields(count: nat) returns (r: Option<seq<Rel>>)
      requires Valid()
      modifies this
      ensures Valid() && eof == old(eof)
      ensures r.Some? <==> ParseFields(count, old(Pending())).Some?
      ensures r.Some? ==> Pending() == ParseFields(count, old(Pending())).value.rest
      ensures r.Some? ==> Marked() + Pending() == old(Marked() + Pending())
      ensures r.Some? ==> Points(r.value, Marked(), ParseFields(count, old(Pending())).value.value)
    {
      hide ParseField, Flatten, Points;
      var rels: seq<Rel> := [];
      ghost var done: seq<Field> := [];
      ghost var all := Pending();
      BeforeEnds([], ParseFields(count, all));
      NoPoints(Marked());
      for i := 0 to count
        invariant Valid() && eof == old(eof)
        invariant Marked() + Pending() == old(Marked() + Pending())
        invariant Points(rels, Marked(), done)
        invariant ParseFields(count, all) == Before(done, ParseFields(count - i, Pending()))
      {
        ghost var before, raw := Pending(), Marked();
        var ok, rel := NextField();
        BeforeOne(done, count - i, before);
        if !ok { return None; }
        assert Marked() == raw + Marked()[|raw|..];
        PointsGrows(rels, raw, done, Marked()[|raw|..]);
        PointsSnoc(rels, Marked(), done, rel);
        done := done + [View(Marked(), rel)];
        rels := rels + [rel];
      }
      BeforeEnds(done, ParseFields(0, Pending()));
      return Some(rels);
    }
  }

  lemma NoPoints(raw: seq<Byte>)
    ensures Points([], raw, [])
  {}

  /** What the length prefix decides. */
  lemma FieldIs(all: seq<Byte>, prefix: seq<Byte>, body: seq<Byte>)
    requires |prefix| == 4 && all == prefix + body
    ensures var len := Signed(FromBE(prefix), 4);
      ParseField(all) ==
        if len == -1 then Some(Parsed(Null, body))
        else if len < 0 || |body| < len then None
        else Some(Parsed(Data(body[..len]), body[len..]))
  {
    hide FromBE, Signed;
    assert all[..4] == prefix && all[4..] == body;
    var len := Signed(FromBE(prefix), 4);
    if 0 <= len <= |body| { assert all[4..4 + len] == body[..len] && all[4 + len..] == body[len..]; }
  }

  lemma ShortField(all: seq<Byte>)
    ensures |all| < 4 ==> ParseField(all).None?
  {}

  lemma Regroup<T>(a: seq<T>, b: seq<T>, c: seq<T>)
    ensures (a + b) + c == a + (b + c)
  {}

  /** Moving the first chunk into the buffer. */
  lemma Deliver(buf: seq<Byte>, pos: nat, mark: nat, chunks: seq<seq<Byte>>)
    requires mark <= pos <= |buf| && chunks != []
    ensures (buf + chunks[0])[pos..] + Flatten(chunks[1..]) == buf[pos..] + Flatten(chunks)
    ensures (buf + chunks[0])[mark..pos] == buf[mark..pos]
  {
    assert (buf + chunks[0])[pos..] == buf[pos..] + chunks[0];
    Regroup(buf[pos..], chunks[0], Flatten(chunks[1..]));
  }

  /** What a loop has read, in front of what is still to be read. */
  ghost function Before(done: seq<Field>, r: Option<Parsed<seq<Field>>>): Option<Parsed<seq<Field>>> {
    match r case None => None case Some(p) => Some(Parsed(done + p.value, p.rest))
  }

  lemma BeforeEnds(done: seq<Field>, r: Option<Parsed<seq<Field>>>)
    ensures Before([], r) == r
    ensures r.Some? && r.value.value == [] ==> Before(done, r) == Some(Parsed(done, r.value.rest))
  {
    if r.Some? { assert [] + r.value.value == r.value.value; }
    assert done + [] == done;
  }

  lemma BeforeOne(done: seq<Field>, n: nat, b: seq<Byte>)
    requires n > 0
    ensures ParseField(b).None? ==> ParseFields(n, b) == None
    ensures ParseField(b).Some? ==>
      Before(done, ParseFields(n, b)) == Before(done + [ParseField(b).value.value], ParseFields(n - 1, ParseField(b).value.rest))
  {
    hide ParseField;
    if ParseField(b).Some? {
      var first := ParseField(b).value;
      var more := ParseFields(n - 1, first.rest);
      if more.Some? { Regroup(done, [first.value], more.value.value); }
    }
  }

  /** The row's fields are views of its own bytes. */
  method Views(raw: seq<Byte>, rels: seq<Rel>, ghost parsed: seq<Field>) returns (fields: seq<Field>)
    requires Points(rels, raw, parsed)
    ensures fields == parsed
  {
    fields := [];
    for i := 0 to |rels|
      invariant fields == parsed[..i]
    {
      fields := fields + [View(raw, rels[i])];
    }
  }

  /** A whole stream: the outcome depends on the bytes, not on how they were split. */
  method ReadStream(wire: seq<seq<Byte>>) returns (rows: seq<Row>, clean: bool)
    ensures rows == ParseStream(Flatten(wire)).rows && clean == ParseStream(Flatten(wire)).clean
  {
    hide ParseItem;
    var reader := new Reader(wire);
    var ok := reader.ReadHeader();
    rows := [];
    if !ok { return rows, false; }
    ghost var all := reader.Pending();
    assert rows + ParseRows(all).rows == ParseRows(all).rows;
    while true
      invariant reader.Valid() && fresh(reader)
      invariant ParseRows(all).rows == rows + ParseRows(reader.Pending()).rows
      invariant ParseRows(all).clean == ParseRows(reader.Pending()).clean
      decreases |reader.Pending()|
    {
      ghost var now := reader.Pending();
      var got := reader.Next();
      match got
      case Failed => return rows, false;
      case Ended => return rows, true;
      case GotRow(row) =>
        Regroup(rows, [row], ParseRows(reader.Pending()).rows);
        rows := rows + [row];
    }
  }
}
