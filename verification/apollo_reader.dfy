/** The Apollo card reader (`ApolloCardReader`): no application is selected,
    the SELECT FILE reply loses its first two bytes to the select check, and a
    file starts with a six-byte header whose last two bytes give the length of
    the content that follows. */
module ApolloReader {
  import opened Common
  import opened Apdu
  import opened Channel
  import opened IdCard
  import opened RawFile

  /** `select_aid`: the Apollo card needs no application selection; nothing
      is sent and the answer is empty. */
  method SelectAid(t: Transport, before: seq<Apdu>) returns (r: Result<seq<byte>>, log: seq<Exchange>)
    ensures r == Ok([]) && log == []
    ensures StopsAt(Apollo, log, Verdict(r))
  {
    r, log := Ok([]), [];
  }

  /** `read_raw_file`: select `file`, read its six-byte header, then read the
      length the header declares from offset 6. With `strip` the first four
      content bytes are skipped by starting at offset 10 and asking for four
      bytes less, which goes below zero on a declared length under 4.

      Against any transport, a success means: both the SELECT and the header
      read passed, the header holds at least six bytes, and the result is the
      bytes the block reads delivered, exactly as many as were asked for.
      Against the model card, the result is `Expected`: a missing file makes
      the select check panic, and with whole chunks the read takes one
      exchange per block. */
  method ReadRawFile(t: Transport, before: seq<Apdu>, file: seq<byte>, strip: bool, ghost card: Card)
    returns (r: Result<seq<byte>>, log: seq<Exchange>)
    requires ReadsProgress(t)
    ensures Consistent(t, before, log)
    ensures StopsAt(Apollo, log, Verdict(r))
    ensures |file| < 2 ==> r == Err(Panic(IndexOutOfRange)) && log == []
    ensures |file| >= 2 ==> |log| >= 1 && log[0].command == SelectFileCommand(Apollo, file, 4)
    ensures |log| >= 2 ==> SelectPassed(Apollo, log[0]) && log[1].command == ReadBinaryCommand(0, 6)
    ensures r.Ok? ==>
      |log| >= 2 && Checked(log[1]).Ok? && |Checked(log[1]).value| >= 6
      && var length := Declared(Apollo, Checked(log[1]).value);
      && (strip ==> length >= 4)
      && Requested(log[2..], if strip then 10 else 6, Fetched(Apollo, length, strip))
      && r.value == Payload(log[2..])
      && |r.value| == Fetched(Apollo, length, strip)
    ensures ActsAs(t, card) && |file| >= 2 && Key(file) !in card.files ==>
      r == Err(Panic(SliceOutOfRange)) && |log| == 1
    ensures ActsAs(t, card) && |file| >= 2 && Served(card, Apollo, file) ==>
      r == Expected(Apollo, card.files[Key(file)], strip)
    ensures ActsAs(t, card) && |file| >= 2 && Served(card, Apollo, file) && FullChunks(card)
            && 6 + Declared(Apollo, card.files[Key(file)]) <= |card.files[Key(file)]| ==>
      |log| == 2 + CeilDiv(Fetched(Apollo, Declared(Apollo, card.files[Key(file)]), strip))
  {
    var header;
    header, log := ReadHeader(Apollo, t, before, file, card);
    if header.Err? {
      return header, log;
    }
    var length: nat := Declared(Apollo, header.value);
    var offset: nat := 6;
    ghost var oracle := ActsAs(t, card) && |file| >= 2 && Served(card, Apollo, file);
    if oracle {
      DeclaredPrefix(Apollo, card.files[Key(file)]);
    }
    if strip {
      if length < 4 {
        StopsAtChecked(Apollo, log, Fail(Panic(Underflow)));
        return Err(Panic(Underflow)), log;
      }
      length := length - 4;
      offset := offset + 4;
    }
    assert offset == (if strip then 10 else 6) && length == Fetched(Apollo, Declared(Apollo, header.value), strip);
    var rest;
    r, rest := ReadBlocks(Apollo, t, before + Commands(log), offset, length, card, Key(file));
    ConsistentConcat(t, before, log, rest);
    PayloadConcat(log, rest);
    assert StopsAt(Apollo, log + rest, Verdict(r)) by {
      StopsAtConcat(Apollo, log, rest, Verdict(r));
    }
    assert (log + rest)[2..] == rest;
    log := log + rest;
  }
}
