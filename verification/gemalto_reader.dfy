/** The Gemalto card reader (`GemaltoCardReader`): the identity application
    is selected by name first, replies are checked by the shared response
    check, and a file starts with a four-byte header whose last two bytes give
    the length of the content that follows. */
module GemaltoReader {
  import opened Common
  import opened Apdu
  import opened Channel
  import opened IdCard
  import opened RawFile

  /** `select_aid`: SELECT the identity application by name. The model card
      knows the application, so it accepts the command with no data. */
  method SelectAid(t: Transport, before: seq<Apdu>, ghost card: Card)
    returns (r: Result<seq<byte>>, log: seq<Exchange>)
    ensures Consistent(t, before, log)
    ensures |log| == 1 && log[0].command == SelectByNameCommand(IdentityAid)
    ensures r == Checked(log[0])
    ensures StopsAt(Gemalto, log, Verdict(r))
    ensures ActsAs(t, card) ==> r == Ok([])
  {
    var reply;
    reply, log := Transmit(t, before, [], SelectByNameCommand(IdentityAid));
    assert before + Commands([]) == before;
    r := CheckReply(reply);
    assert StopsAt(Gemalto, log, Verdict(r)) by {
      var e := Exchange(SelectByNameCommand(IdentityAid), reply);
      assert log == [e];
      StopsAtSingle(Gemalto, e);
    }
    assert ActsAs(t, card) ==> r == Ok([]) by {
      if ActsAs(t, card) {
        SelectAidOnCard(t, card, before, IdentityAid);
      }
    }
  }

  /** `read_raw_file`: select `file`, read its four-byte header, then read the
      length the header declares, starting right after the bytes the header
      read returned; with `strip` the first four content bytes are dropped.

      Against any transport, a success means: both the SELECT and the header
      read passed, the header holds at least four bytes, and the result is the
      declared number of bytes the block reads delivered, less the tag when
      stripping. Against the model card, the result is `Expected`: a missing
      file is reported with the card's "not found" status, and with whole
      chunks the read takes one exchange per block. */
  method ReadRawFile(t: Transport, before: seq<Apdu>, file: seq<byte>, strip: bool, ghost card: Card)
    returns (r: Result<seq<byte>>, log: seq<Exchange>)
    requires ReadsProgress(t)
    ensures Consistent(t, before, log)
    ensures StopsAt(Gemalto, log, Verdict(r))
    ensures |file| < 2 ==> r == Err(Panic(IndexOutOfRange)) && log == []
    ensures |file| >= 2 ==> |log| >= 1 && log[0].command == SelectFileCommand(Gemalto, file, 4)
    ensures |log| >= 2 ==> Checked(log[0]).Ok? && log[1].command == ReadBinaryCommand(0, 4)
    ensures r.Ok? ==>
      |log| >= 2 && Checked(log[1]).Ok? && |Checked(log[1]).value| >= 4
      && var header := Checked(log[1]).value;
      var content := Payload(log[2..]);
      && (strip ==> |content| >= 4)
      && Requested(log[2..], |header|, Declared(Gemalto, header))
      && |content| == Declared(Gemalto, header)
      && r.value == if strip then content[4..] else content
    ensures ActsAs(t, card) && |file| >= 2 && Key(file) !in card.files ==>
      r == Err(StatusError(0x6A, 0x82)) && |log| == 1
    ensures ActsAs(t, card) && |file| >= 2 && Served(card, Gemalto, file) ==>
      r == Expected(Gemalto, card.files[Key(file)], strip)
    ensures ActsAs(t, card) && |file| >= 2 && Served(card, Gemalto, file) && FullChunks(card)
            && 4 + Declared(Gemalto, card.files[Key(file)]) <= |card.files[Key(file)]| ==>
      |log| == 2 + CeilDiv(Declared(Gemalto, card.files[Key(file)]))
  {
    var header;
    header, log := ReadHeader(Gemalto, t, before, file, card);
    if header.Err? {
      return header, log;
    }
    var length := Declared(Gemalto, header.value);
    var content, rest := ReadBlocks(Gemalto, t, before + Commands(log), |header.value|, length, card, Key(file));
    ConsistentConcat(t, before, log, rest);
    PayloadConcat(log, rest);
    assert StopsAt(Gemalto, log + rest, Verdict(content)) by {
      StopsAtConcat(Gemalto, log, rest, Verdict(content));
    }
    assert (log + rest)[2..] == rest;
    log := log + rest;
    if content.Err? {
      return content, log;
    }
    if strip {
      if |content.value| < 4 {
        StopsAtChecked(Gemalto, log, Fail(Panic(SliceOutOfRange)));
        return Err(Panic(SliceOutOfRange)), log;
      }
      r := Ok(content.value[4..]);
    } else {
      r := content;
    }
  }
}
