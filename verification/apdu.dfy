/** Command builders and response checks of the two card protocols.
    Commands follow the command/response format of ISO/IEC 7816-4: SELECT is
    instruction A4 (section 11.2.2), READ BINARY is instruction B0 (section
    11.3.3), and a reply ends in the status word SW1 SW2, 90 00 meaning
    success (section 5.1.3). */
module Apdu {
  import opened Common

  /** A command or response as raw bytes. */
  type Apdu = seq<byte>

  /** The two chip families, each with its own protocol. */
  datatype Variant = Apollo | Gemalto

  /** The success status word `SUCCESS_RESPONSE`. */
  const SwOk: seq<byte> := [0x90, 0x00]

  /** `BLOCK_SIZE`: the most bytes one READ BINARY asks for. */
  const BlockSize: nat := 254

  /** `LICNA_KARTA_AID`: the identity application's identifier. */
  const IdentityAid: seq<byte> := [0xF3, 0x81, 0x00, 0x00, 0x02, 0x53, 0x45, 0x52, 0x49, 0x44, 0x01]

  /** SELECT by DF name (P1 = 04) carrying the application identifier, its
      length truncated to a byte as `aid.len() as u8` does. */
  function SelectByNameCommand(aid: seq<byte>): (c: Apdu)
    ensures |c| == 5 + |aid|
    ensures c[..4] == [0x00, 0xA4, 0x04, 0x00]
    ensures c[4] == |aid| % 256
    ensures c[5..] == aid
  {
    [0x00, 0xA4, 0x04, 0x00, |aid| % 256] + aid
  }

  /** SELECT by file identifier (P1 = 08) with the expected-size hint as the
      last byte. Gemalto always announces two data bytes; Apollo announces
      `file.len() as u8`. Both send the first two bytes of `file`. */
  function SelectFileCommand(v: Variant, file: seq<byte>, hint: byte): (c: Apdu)
    requires |file| >= 2
    ensures |c| == 8
    ensures c[..4] == [0x00, 0xA4, 0x08, 0x00]
    ensures c[4] == (if v.Gemalto? then 2 else |file| % 256)
    ensures c[5] == file[0] && c[6] == file[1] && c[7] == hint
  {
    var lc := match v
      case Gemalto => 2
      case Apollo => |file| % 256;
    [0x00, 0xA4, 0x08, 0x00, lc, file[0], file[1], hint]
  }

  /** READ BINARY: P1 P2 carry the offset's two low bytes (`(offset >> 8) as
      u8`, `(offset & 0xff) as u8`) and the expected length is the request
      clamped to `BLOCK_SIZE`. */
  function ReadBinaryCommand(offset: nat, length: nat): (c: Apdu)
    ensures |c| == 5
    ensures c[0] == 0x00 && c[1] == 0xB0
    ensures c[4] <= BlockSize
    ensures c[4] == if length < BlockSize then length else BlockSize
  {
    var size := if length < BlockSize then length else BlockSize;
    [0x00, 0xB0, (offset / 256) % 256, offset % 256, size]
  }

  /** The file offset a READ BINARY command addresses. */
  function CommandOffset(c: Apdu): nat
    requires |c| >= 4
  {
    LeU16(c[3], c[2])
  }

  /** The offset in a READ BINARY command is the requested offset modulo
      65536: offsets past 16 bits alias onto the start of the file. */
  lemma ReadBinaryOffset(offset: nat, length: nat)
    ensures CommandOffset(ReadBinaryCommand(offset, length)) == offset % 0x1_0000
  {
    var q, lo := offset / 256, offset % 256;
    var hi, top := q % 256, q / 256;
    assert offset == 256 * q + lo;
    assert q == 256 * top + hi;
    assert offset == 0x1_0000 * top + (256 * hi + lo);
    WordRemainder(offset, top, 256 * hi + lo);
  }

  /** The remainder modulo 65536 is determined by any split into a multiple
      of 65536 and a smaller rest. */
  lemma WordRemainder(x: nat, q: nat, r: nat)
    requires r < 0x1_0000 && x == 0x1_0000 * q + r
    ensures x % 0x1_0000 == r
  {
  }

  /** Two requests whose offsets agree modulo 65536 send the same command. */
  lemma ReadBinaryAliases(offset: nat, length: nat)
    ensures ReadBinaryCommand(offset + 0x1_0000, length) == ReadBinaryCommand(offset, length)
  {
    assert (offset + 0x1_0000) / 256 == offset / 256 + 256;
  }

  /** The shapes of the commands, by class, instruction and P1 P2 header. */
  predicate IsSelectByName(c: Apdu) {
    |c| >= 5 && c[0] == 0x00 && c[1] == 0xA4 && c[2] == 0x04 && c[3] == 0x00
  }

  predicate IsSelectFile(c: Apdu) {
    |c| == 8 && c[0] == 0x00 && c[1] == 0xA4 && c[2] == 0x08 && c[3] == 0x00
  }

  predicate IsReadBinary(c: Apdu) {
    |c| == 5 && c[0] == 0x00 && c[1] == 0xB0
  }

  /** A READ BINARY command as this reader sends them: the right header and a
      length between 1 and `BLOCK_SIZE`. */
  predicate IsBlockRead(c: Apdu) {
    |c| == 5 && c[0] == 0x00 && c[1] == 0xB0 && 1 <= c[4] <= BlockSize
  }

  /** A reply that ends in the success status word. */
  predicate StatusOk(reply: seq<byte>) {
    |reply| >= 2 && reply[|reply| - 2..] == SwOk
  }

  /** The shared response check (`select_aid`, Gemalto `select_file`,
      `read_binary`): a reply shorter than its status word makes
      `rapdu.len() - 2` panic; otherwise the data is returned exactly when the
      status word is 90 00, and the offending status word is reported when it
      is not. */
  function CheckStatus(reply: seq<byte>): (r: Result<seq<byte>>)
    ensures |reply| < 2 ==> r == Err(Panic(StatusWordMissing))
    ensures r.Ok? <==> StatusOk(reply)
    ensures r.Ok? ==> r.value + SwOk == reply
    ensures |reply| >= 2 && !StatusOk(reply) ==> r == Err(StatusError(reply[|reply| - 2], reply[|reply| - 1]))
  {
    if |reply| < 2 then Err(Panic(StatusWordMissing))
    else
      var status := reply[|reply| - 2..];
      if status != SwOk then Err(StatusError(reply[|reply| - 2], reply[|reply| - 1]))
      else Ok(reply[..|reply| - 2])
  }

  /** Apollo's `select_file` response check: the data slice `rapdu[2..len-2]`
      is taken before the status is examined, so any reply shorter than four
      bytes panics, even one that carries an error status; otherwise the first
      two bytes and the status word are dropped. */
  function ApolloCheckSelect(reply: seq<byte>): (r: Result<seq<byte>>)
    ensures |reply| < 2 ==> r == Err(Panic(StatusWordMissing))
    ensures 2 <= |reply| < 4 ==> r == Err(Panic(SliceOutOfRange))
    ensures r.Ok? <==> |reply| >= 4 && StatusOk(reply)
    ensures r.Ok? ==> reply == reply[..2] + r.value + SwOk
    ensures |reply| >= 4 && !StatusOk(reply) ==> r == Err(StatusError(reply[|reply| - 2], reply[|reply| - 1]))
  {
    if |reply| < 2 then Err(Panic(StatusWordMissing))
    else if |reply| < 4 then Err(Panic(SliceOutOfRange))
    else
      var status := reply[|reply| - 2..];
      var data := reply[2..|reply| - 2];
      if status != SwOk then Err(StatusError(reply[|reply| - 2], reply[|reply| - 1]))
      else
        assert reply == reply[..2] + data + status;
        Ok(data)
  }

  /** A reply made of data and 90 00 yields that data. */
  lemma CheckStatusAccepts(data: seq<byte>)
    ensures CheckStatus(data + SwOk) == Ok(data)
  {
    var reply := data + SwOk;
    assert reply[|reply| - 2..] == SwOk;
    assert reply[..|reply| - 2] == data;
  }

  /** Apollo's select check drops the first two data bytes of a good reply. */
  lemma ApolloCheckSelectAccepts(data: seq<byte>)
    requires |data| >= 2
    ensures ApolloCheckSelect(data + SwOk) == Ok(data[2..])
  {
    var reply := data + SwOk;
    assert reply[|reply| - 2..] == SwOk;
    assert reply[2..|reply| - 2] == data[2..];
  }

  /** The shared response check applied to what the transport handed back:
      a transport failure passes through unchanged. */
  function CheckReply(reply: Result<seq<byte>>): (r: Result<seq<byte>>)
    ensures reply.Err? ==> r == Err(reply.error)
    ensures reply.Ok? ==> r == CheckStatus(reply.value)
  {
    match reply
    case Err(e) => Err(e)
    case Ok(bytes) => CheckStatus(bytes)
  }

  /** The response check each variant applies to a SELECT FILE reply. */
  function SelectFileCheck(v: Variant, reply: seq<byte>): (r: Result<seq<byte>>)
    ensures r.Ok? ==> StatusOk(reply)
    ensures v.Gemalto? ==> r == CheckStatus(reply)
    ensures v.Apollo? ==> r == ApolloCheckSelect(reply)
  {
    match v
    case Gemalto => CheckStatus(reply)
    case Apollo => ApolloCheckSelect(reply)
  }
}
