/** The flat tag/length/value decoder (`parse_tlv`): each record is a
    little-endian 16-bit tag, a little-endian 16-bit length, then that many
    value bytes, records back to back with nothing in between. */
module Tlv {
  import opened Common

  /** Decoded file contents: tag to raw value bytes. */
  type TlvMap = map<u16, seq<byte>>

  /** One record of a TLV buffer. */
  datatype Field = Field(tag: u16, value: seq<byte>)

  /** A record whose value length fits the 16-bit length prefix. */
  predicate Encodable(f: Field) {
    |f.value| < 0x1_0000
  }

  predicate AllEncodable(fs: seq<Field>) {
    forall i :: 0 <= i < |fs| ==> Encodable(fs[i])
  }

  /** The four prefix bytes of a record: tag, then value length, both little-endian. */
  function Header(f: Field): (r: seq<byte>)
    requires Encodable(f)
    ensures |r| == 4
    ensures LeU16(r[0], r[1]) == f.tag && LeU16(r[2], r[3]) == |f.value|
  {
    LeBytes(f.tag) + LeBytes(|f.value|)
  }

  /** Records written back to back: the layout `parse_tlv` expects. */
  function Encode(fs: seq<Field>): (r: seq<byte>)
    requires AllEncodable(fs)
    ensures |fs| > 0 ==> |r| >= 4
  {
    if |fs| == 0 then [] else Header(fs[0]) + fs[0].value + Encode(fs[1..])
  }

  /** Inserting records into `acc` in order, so that a later record with the
      same tag replaces an earlier one (`HashMap::insert`). */
  function Insert(acc: TlvMap, fs: seq<Field>): TlvMap
    decreases |fs|
  {
    if |fs| == 0 then acc else Insert(acc[fs[0].tag := fs[0].value], fs[1..])
  }

  /** The map a sequence of records denotes. */
  function ToMap(fs: seq<Field>): TlvMap {
    Insert(map[], fs)
  }

  /** One pass of the decoding loop, with the cursor `offset` and the map
      built so far. A record start with fewer than two bytes left fails
      reading the tag and one with fewer than four fails reading the length
      (both `Err`); a value running past the end fails the slice (a panic).
      Otherwise the value is stored and the cursor moves past it. */
  function ParseFrom(buffer: seq<byte>, offset: nat, acc: TlvMap): (r: Result<TlvMap>)
    requires offset <= |buffer|
    ensures r.Err? ==> r.error == EndOfBuffer || r.error == Panic(SliceOutOfRange)
    decreases |buffer| - offset, 0
  {
    if |buffer| - offset < 2 then Err(EndOfBuffer)
    else if |buffer| - offset < 4 then Err(EndOfBuffer)
    else
      var tag := LeU16(buffer[offset], buffer[offset + 1]);
      var length := LeU16(buffer[offset + 2], buffer[offset + 3]);
      var end := offset + 4 + length;
      if end > |buffer| then Err(Panic(SliceOutOfRange))
      else Continue(buffer, end, acc[tag := buffer[offset + 4..end]])
  }

  /** The loop's exit test: stop once the cursor reaches the end of the
      buffer, otherwise run another pass. */
  function Continue(buffer: seq<byte>, offset: nat, acc: TlvMap): (r: Result<TlvMap>)
    requires offset <= |buffer|
    ensures r.Err? ==> r.error == EndOfBuffer || r.error == Panic(SliceOutOfRange)
    decreases |buffer| - offset, 1
  {
    if offset >= |buffer| then Ok(acc) else ParseFrom(buffer, offset, acc)
  }

  /** `parse_tlv`: decode a whole buffer. The loop body runs before the exit
      test, so even the empty buffer is read for a tag, and fails. */
  function ParseTlv(buffer: seq<byte>): (r: Result<TlvMap>)
    ensures |buffer| < 4 ==> r == Err(EndOfBuffer)
    ensures r.Ok? ==> |r.value| > 0
    ensures r.Err? ==> r.error == EndOfBuffer || r.error == Panic(SliceOutOfRange)
  {
    ParseFromNonEmpty(buffer, 0, map[]);
    ParseFrom(buffer, 0, map[])
  }

  /** A successful decode always inserts at least one record. */
  lemma {:induction false} ParseFromNonEmpty(buffer: seq<byte>, offset: nat, acc: TlvMap)
    requires offset <= |buffer|
    ensures ParseFrom(buffer, offset, acc).Ok? ==> |ParseFrom(buffer, offset, acc).value| > 0
    decreases |buffer| - offset
  {
    if |buffer| - offset >= 4 {
      var tag := LeU16(buffer[offset], buffer[offset + 1]);
      var length := LeU16(buffer[offset + 2], buffer[offset + 3]);
      var end := offset + 4 + length;
      if end <= |buffer| {
        var acc' := acc[tag := buffer[offset + 4..end]];
        assert tag in acc';
        if end < |buffer| {
          ParseFromNonEmpty(buffer, end, acc');
        }
      }
    }
  }

  /** Decoding one encoded record at `offset`: the cursor moves by exactly
      four plus the declared length, and the stored value is exactly the
      record's value. */
  lemma ParseStep(buffer: seq<byte>, offset: nat, acc: TlvMap, f: Field, rest: seq<byte>)
    requires Encodable(f)
    requires offset <= |buffer|
    requires buffer[offset..] == Header(f) + f.value + rest
    ensures offset + 4 + |f.value| <= |buffer|
    ensures ParseFrom(buffer, offset, acc) == Continue(buffer, offset + 4 + |f.value|, acc[f.tag := f.value])
  {
    var h := Header(f);
    assert buffer[offset..][..4] == h;
    assert buffer[offset] == h[0] && buffer[offset + 1] == h[1];
    assert buffer[offset + 2] == h[2] && buffer[offset + 3] == h[3];
    var end := offset + 4 + |f.value|;
    assert buffer[offset + 4..end] == buffer[offset..][4..4 + |f.value|];
  }

  /** Decoding the encoding of records `fs` followed by `tail` reaches the
      end of the encoded part with exactly those records inserted. */
  lemma {:induction false} ParseEncoded(buffer: seq<byte>, offset: nat, acc: TlvMap, fs: seq<Field>, tail: seq<byte>)
    requires AllEncodable(fs) && |fs| > 0
    requires offset <= |buffer|
    requires buffer[offset..] == Encode(fs) + tail
    ensures ParseFrom(buffer, offset, acc) == Continue(buffer, |buffer| - |tail|, Insert(acc, fs))
    decreases |fs|
  {
    var f, more := fs[0], fs[1..];
    var next := EncodeSplit(buffer, offset, fs, tail);
    var acc' := acc[f.tag := f.value];
    InsertCons(acc, fs);
    ParseStep(buffer, offset, acc, f, Encode(more) + tail);
    if |fs| > 1 {
      ParseEncoded(buffer, next, acc', more, tail);
    }
  }

  /** Inserting a run of records is inserting the first, then the rest. */
  lemma InsertCons(acc: TlvMap, fs: seq<Field>)
    requires |fs| > 0
    ensures Insert(acc, fs) == Insert(acc[fs[0].tag := fs[0].value], fs[1..])
  {
  }

  /** The first record of an encoding sits at `offset`; the rest follows it. */
  lemma EncodeSplit(buffer: seq<byte>, offset: nat, fs: seq<Field>, tail: seq<byte>) returns (next: nat)
    requires AllEncodable(fs) && |fs| > 0
    requires offset <= |buffer|
    requires buffer[offset..] == Encode(fs) + tail
    ensures AllEncodable(fs[1..]) && Encodable(fs[0])
    ensures next == offset + 4 + |fs[0].value| <= |buffer|
    ensures buffer[offset..] == Header(fs[0]) + fs[0].value + (Encode(fs[1..]) + tail)
    ensures buffer[next..] == Encode(fs[1..]) + tail
    ensures |fs| == 1 ==> next == |buffer| - |tail|
    ensures |fs| > 1 ==> next < |buffer| - |tail|
  {
    var f, more := fs[0], fs[1..];
    assert Encodable(f);
    assert AllEncodable(more);
    assert Encode(fs) == Header(f) + f.value + Encode(more);
    next := offset + 4 + |f.value|;
    assert |Header(f) + f.value| == 4 + |f.value|;
    SuffixAfter(buffer, offset, Header(f) + f.value, Encode(more) + tail);
    assert |buffer| - next == |Encode(more)| + |tail|;
  }

  /** Dropping a known prefix from the suffix of a buffer. */
  lemma SuffixAfter(buffer: seq<byte>, offset: nat, prefix: seq<byte>, rest: seq<byte>)
    requires offset <= |buffer|
    requires buffer[offset..] == prefix + rest
    ensures offset + |prefix| <= |buffer|
    ensures buffer[offset + |prefix|..] == rest
  {
    assert buffer[offset + |prefix|..] == buffer[offset..][|prefix|..];
  }

  /** Round trip: decoding a non-empty back-to-back encoding yields the map
      of its records, later records winning on a repeated tag. */
  lemma DecodeEncode(fs: seq<Field>)
    requires AllEncodable(fs) && |fs| > 0
    ensures ParseTlv(Encode(fs)) == Ok(ToMap(fs))
  {
    var b := Encode(fs);
    assert b[0..] == Encode(fs) + [];
    ParseEncoded(b, 0, map[], fs, []);
  }

  /** After a run of well-formed records, a remainder of one to three bytes
      fails on reading the next tag or length. */
  lemma TruncatedHeaderFails(fs: seq<Field>, tail: seq<byte>)
    requires AllEncodable(fs)
    requires 0 < |tail| < 4
    ensures ParseTlv(Encode(fs) + tail) == Err(EndOfBuffer)
  {
    var b := Encode(fs) + tail;
    if |fs| > 0 {
      assert b[0..] == Encode(fs) + tail;
      ParseEncoded(b, 0, map[], fs, tail);
    }
  }

  /** After a run of well-formed records, a record whose declared length runs
      past the end of the buffer makes the value slice fail. */
  lemma OverlongValueFails(fs: seq<Field>, tail: seq<byte>)
    requires AllEncodable(fs)
    requires |tail| >= 4 && LeU16(tail[2], tail[3]) > |tail| - 4
    ensures ParseTlv(Encode(fs) + tail) == Err(Panic(SliceOutOfRange))
  {
    var b := Encode(fs) + tail;
    var at := |Encode(fs)|;
    assert b[at..] == tail;
    assert b[at + 2] == tail[2] && b[at + 3] == tail[3];
    if |fs| > 0 {
      assert b[0..] == Encode(fs) + tail;
      ParseEncoded(b, 0, map[], fs, tail);
    }
  }

  /** Soundness: every buffer that decodes is the back-to-back encoding of a
      non-empty run of records whose map is the decoded map. */
  lemma {:induction false} ParseFromSound(buffer: seq<byte>, offset: nat, acc: TlvMap) returns (fs: seq<Field>)
    requires offset <= |buffer|
    requires ParseFrom(buffer, offset, acc).Ok?
    ensures AllEncodable(fs) && |fs| > 0
    ensures buffer[offset..] == Encode(fs)
    ensures ParseFrom(buffer, offset, acc).value == Insert(acc, fs)
    decreases |buffer| - offset
  {
    var tag := LeU16(buffer[offset], buffer[offset + 1]);
    var length := LeU16(buffer[offset + 2], buffer[offset + 3]);
    var end := offset + 4 + length;
    var f := Field(tag, buffer[offset + 4..end]);
    var acc' := acc[tag := f.value];
    assert Header(f) == buffer[offset..offset + 4] by {
      var h := Header(f);
      LeU16Injective(h[0], h[1], buffer[offset], buffer[offset + 1]);
      LeU16Injective(h[2], h[3], buffer[offset + 2], buffer[offset + 3]);
    }
    if end >= |buffer| {
      fs := [f];
      assert Encode(fs) == Header(f) + f.value + Encode([]);
      assert buffer[offset..] == buffer[offset..offset + 4] + buffer[offset + 4..end];
      assert Insert(acc, fs) == Insert(acc', []);
    } else {
      var more := ParseFromSound(buffer, end, acc');
      fs := [f] + more;
      assert fs[1..] == more;
      assert buffer[offset..] == buffer[offset..offset + 4] + buffer[offset + 4..end] + buffer[end..];
    }
  }

  /** Soundness of `parse_tlv`: a decoded buffer is exactly the encoding of
      records whose map is the result. */
  lemma ParseTlvSound(buffer: seq<byte>) returns (fs: seq<Field>)
    requires ParseTlv(buffer).Ok?
    ensures AllEncodable(fs) && |fs| > 0
    ensures Encode(fs) == buffer
    ensures ToMap(fs) == ParseTlv(buffer).value
  {
    fs := ParseFromSound(buffer, 0, map[]);
    assert buffer[0..] == buffer;
  }

  /** A tag whose record is the last one carrying it maps to that record's value. */
  lemma {:induction false} InsertLastWins(acc: TlvMap, fs: seq<Field>, i: nat)
    requires i < |fs|
    requires forall j :: i < j < |fs| ==> fs[j].tag != fs[i].tag
    ensures fs[i].tag in Insert(acc, fs) && Insert(acc, fs)[fs[i].tag] == fs[i].value
    decreases |fs|
  {
    if i == 0 {
      InsertKeeps(acc[fs[0].tag := fs[0].value], fs[1..], fs[0].tag);
    } else {
      InsertLastWins(acc[fs[0].tag := fs[0].value], fs[1..], i - 1);
    }
  }

  /** Inserting records that do not carry tag `k` leaves the entry for `k` alone. */
  lemma {:induction false} InsertKeeps(acc: TlvMap, fs: seq<Field>, k: u16)
    requires forall j :: 0 <= j < |fs| ==> fs[j].tag != k
    ensures k in Insert(acc, fs) <==> k in acc
    ensures k in acc ==> Insert(acc, fs)[k] == acc[k]
    decreases |fs|
  {
    if |fs| > 0 {
      InsertKeeps(acc[fs[0].tag := fs[0].value], fs[1..], k);
    }
  }
}
