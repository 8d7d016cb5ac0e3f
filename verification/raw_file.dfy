/** `read_raw_file` of both chip families: select an elementary file, read
    its header to learn the length of what follows, then fetch that many
    bytes in READ BINARY blocks of at most `BLOCK_SIZE` bytes. */
module RawFile {
  import opened Common
  import opened Apdu
  import opened Channel
  import opened IdCard

  /** Bytes of the file header each variant reads first; the declared length
      sits little-endian in its last two bytes. */
  function HeaderSize(v: Variant): nat {
    match v
    case Gemalto => 4
    case Apollo => 6
  }

  /** The content length a header declares. */
  function Declared(v: Variant, header: seq<byte>): u16
    requires |header| >= HeaderSize(v)
  {
    LeU16(header[HeaderSize(v) - 2], header[HeaderSize(v) - 1])
  }

  /** The declared length only depends on the header bytes. */
  lemma DeclaredPrefix(v: Variant, f: seq<byte>)
    requires |f| >= HeaderSize(v)
    ensures Declared(v, f[..HeaderSize(v)]) == Declared(v, f)
  {
  }

  /** The number of READ BINARY blocks needed for `n` bytes. */
  function CeilDiv(n: nat): nat {
    (n + BlockSize - 1) / BlockSize
  }

  /** Taking one full block off a non-empty remainder leaves one block less. */
  lemma CeilDivStep(n: nat)
    requires n > 0
    ensures CeilDiv(n - (if n < BlockSize then n else BlockSize)) + 1 == CeilDiv(n)
  {
    if n >= BlockSize {
      assert n + BlockSize - 1 == (n - BlockSize + BlockSize - 1) + BlockSize;
    }
  }

  /** What reading `n` bytes at offset `s` of `file` yields from the model
      card: the bytes when the file holds them, and the card's wrong-offset
      status once the reads run past its end. */
  function Window(file: seq<byte>, s: nat, n: nat): Result<seq<byte>> {
    if n == 0 then Ok([])
    else if s + n <= |file| then Ok(file[s..s + n])
    else Err(StatusError(0x6B, 0x00))
  }

  /** The file identifier as the card sees it. */
  function Key(file: seq<byte>): FileId
    requires |file| >= 2
  {
    (file[0], file[1])
  }

  /** The card holds the file, hands out its whole header in one reply,
      and the declared content fits in 16-bit offsets; an Apollo card's
      SELECT reply carries at least the two bytes the reader slices off. */
  ghost predicate Served(card: Card, v: Variant, file: seq<byte>)
    requires |file| >= 2
  {
    Key(file) in card.files
    && var f := card.files[Key(file)];
    |f| >= HeaderSize(v)
    && card.chunk(0, HeaderSize(v)) >= HeaderSize(v)
    && HeaderSize(v) + Declared(v, f) <= 0x1_0000
    && (v.Apollo? ==> |card.fci| >= 2)
  }

  /** The fault each variant hits when asked to strip a four-byte tag from
      content shorter than four bytes: Gemalto's `drain(0..4)` leaves the
      buffer, Apollo's `len -= 4` goes below zero. */
  function StripFault(v: Variant): Fault {
    match v
    case Gemalto => SliceOutOfRange
    case Apollo => Underflow
  }

  /** What `read_raw_file` returns for file contents `f` on a card that
      serves it: the declared content after the header, less its first four
      bytes when `strip` is set. */
  function Expected(v: Variant, f: seq<byte>, strip: bool): Result<seq<byte>>
    requires |f| >= HeaderSize(v)
  {
    var length := Declared(v, f);
    match v
    case Gemalto =>
      (match Window(f, 4, length)
       case Err(e) => Err(e)
       case Ok(content) =>
         if !strip then Ok(content)
         else if |content| < 4 then Err(Panic(SliceOutOfRange))
         else Ok(content[4..]))
    case Apollo =>
      if !strip then Window(f, 6, length)
      else if length < 4 then Err(Panic(Underflow))
      else Window(f, 10, length - 4)
  }

  /** Both variants deliver the same bytes of a file that is as long as its
      header says: the content after the header, without the tag when
      stripping, and fail only on content too short to strip. */
  lemma ExpectedContent(v: Variant, f: seq<byte>, strip: bool)
    requires |f| >= HeaderSize(v) && HeaderSize(v) + Declared(v, f) <= |f|
    ensures var length := Declared(v, f);
      Expected(v, f, strip) ==
        if strip && length < 4 then Err(Panic(StripFault(v)))
        else Ok(f[HeaderSize(v) + (if strip then 4 else 0)..HeaderSize(v) + length])
  {
    var length := Declared(v, f);
    var h := HeaderSize(v);
    if length == 0 {
      assert f[h..h + length] == [];
    }
    assert Window(f, h, length) == Ok(f[h..h + length]);
    if strip && length >= 4 {
      if length == 4 {
        assert f[h + 4..h + length] == [];
      }
      assert Window(f, h + 4, length - 4) == Ok(f[h + 4..h + length]);
      assert f[h..h + length][4..] == f[h + 4..h + length];
    }
  }

  /** A file shorter than its header declares ends in the card's
      wrong-offset status, unless stripping fails first or needs no read. */
  lemma ExpectedTruncated(v: Variant, f: seq<byte>, strip: bool)
    requires |f| >= HeaderSize(v) && |f| < HeaderSize(v) + Declared(v, f)
    requires strip ==> Declared(v, f) > 4
    ensures Expected(v, f, strip) == Err(StatusError(0x6B, 0x00))
  {
    var length := Declared(v, f);
    if v.Apollo? && strip {
      assert 10 + (length - 4) > |f|;
    }
  }

  /** Each READ BINARY of `log` asks for the bytes still missing: it starts
      where the data received so far ends and asks for the rest of `length`. */
  predicate Requested(log: seq<Exchange>, start: nat, length: nat)
    decreases |log|
  {
    |log| == 0
    || (var init := log[..|log| - 1];
        Requested(init, start, length)
        && |Payload(init)| < length
        && log[|log| - 1].command == ReadBinaryCommand(start + |Payload(init)|, length - |Payload(init)|))
  }

  /** The block loop shared by both variants (the `while len > 0` loop of
      `read_raw_file`): read `length` bytes starting at `start`, asking each
      time for what is still missing, at most `BLOCK_SIZE` bytes. A reply
      with more data than is still missing makes `len -=` go below zero. */
  method ReadBlocks(ghost v: Variant, t: Transport, before: seq<Apdu>, start: nat, length: nat, ghost card: Card, ghost f: FileId)
    returns (r: Result<seq<byte>>, log: seq<Exchange>)
    requires ReadsProgress(t)
    ensures Consistent(t, before, log)
    ensures StopsAt(v, log, Verdict(r))
    ensures Requested(log, start, length)
    ensures r.Ok? ==> r.value == Payload(log) && |r.value| == length
    ensures OnCard(t, card, f, before, start, length) ==> r == Window(card.files[f], start, length)
    ensures OnCard(t, card, f, before, start, length) && FullChunks(card) && start + length <= |card.files[f]| ==>
      |log| == CeilDiv(length)
  {
    var offset: nat, remaining: nat, buffer: seq<byte> := start, length, [];
    log := [];
    FollowsStart(t, card, f, before, start, length);
    while remaining > 0
      invariant offset == start + |buffer| && remaining + |buffer| == length
      invariant buffer == Payload(log)
      invariant Consistent(t, before, log)
      invariant Requested(log, start, length)
      invariant AllChecked(v, log)
      invariant Follows(t, card, f, before, start, length, log, buffer)
      decreases remaining
    {
      ghost var previous := log;
      var command, reply, data;
      command, reply, data, log := RequestBlock(t, before, log, start, length, buffer);
      FollowsStep(t, card, f, before, start, length, previous, buffer, command, data, log);
      CheckedStepShared(v, previous, Exchange(command, reply));
      if data.Err? {
        return data, log;
      }
      if |data.value| > remaining {
        StopsAtChecked(v, log, Fail(Panic(Underflow)));
        return Err(Panic(Underflow)), log;
      }
      buffer := buffer + data.value;
      offset := offset + |data.value|;
      remaining := remaining - |data.value|;
    }
    FollowsDone(t, card, f, before, start, length, log, buffer);
    StopsAtChecked(v, log, Pass);
    r := Ok(buffer);
  }

  /** The read targets file `f` of the model card: the transport is that
      card, `f` is selected when the loop starts, and every offset the loop
      can ask for fits the 16 bits of a READ BINARY command. */
  ghost predicate OnCard(t: Transport, card: Card, f: FileId, before: seq<Apdu>, start: nat, length: nat) {
    ActsAs(t, card) && Selected(card, before) == Some(f) && start + length <= 0x1_0000
  }

  /** The loop's progress against the model card: `f` stays selected, the
      bytes read so far are the file's from `start` on, and with full chunks
      every exchange so far fetched a whole block. */
  ghost predicate Follows(t: Transport, card: Card, f: FileId, before: seq<Apdu>, start: nat, length: nat,
                          log: seq<Exchange>, buffer: seq<byte>) {
    OnCard(t, card, f, before, start, length) ==>
      |buffer| <= length
      && Tracking(card, before + Commands(log), f, start, start + |buffer|, buffer)
      && (FullChunks(card) && start + length <= |card.files[f]| ==>
            |log| + CeilDiv(length - |buffer|) == CeilDiv(length))
  }

  /** Nothing has been read yet when the loop starts. */
  lemma FollowsStart(t: Transport, card: Card, f: FileId, before: seq<Apdu>, start: nat, length: nat)
    ensures Follows(t, card, f, before, start, length, [], [])
  {
    assert before + Commands([]) == before;
  }

  /** One block read keeps the loop on track against the model card: a
      failure is exactly the wrong-offset status the whole read ends in, and
      data extends the bytes read so far without overshooting. */
  lemma FollowsStep(t: Transport, card: Card, f: FileId, before: seq<Apdu>, start: nat, length: nat,
                    log: seq<Exchange>, buffer: seq<byte>, command: Apdu, data: Result<seq<byte>>, log': seq<Exchange>)
    requires Follows(t, card, f, before, start, length, log, buffer) && |buffer| < length
    requires |log'| == |log| + 1
    requires command == ReadBinaryCommand(start + |buffer|, length - |buffer|)
    requires data == CheckReply(t(before + Commands(log), command))
    requires before + Commands(log') == (before + Commands(log)) + [command]
    requires data.Ok? ==> |data.value| > 0
    ensures OnCard(t, card, f, before, start, length) && data.Err? ==> data == Window(card.files[f], start, length)
    ensures OnCard(t, card, f, before, start, length) && data.Ok? ==> |data.value| <= length - |buffer|
    ensures data.Ok? && |data.value| <= length - |buffer| ==>
      Follows(t, card, f, before, start, length, log', buffer + data.value)
  {
    if OnCard(t, card, f, before, start, length) {
      OracleStep(t, card, f, before + Commands(log), before + Commands(log'), start, length, buffer, command);
      if data.Ok? && FullChunks(card) && start + length <= |card.files[f]| {
        CeilDivStep(length - |buffer|);
      }
    }
  }


  /** Once all `length` bytes are in, they are the file's window. */
  lemma FollowsDone(t: Transport, card: Card, f: FileId, before: seq<Apdu>, start: nat, length: nat,
                    log: seq<Exchange>, buffer: seq<byte>)
    requires Follows(t, card, f, before, start, length, log, buffer) && |buffer| == length
    ensures OnCard(t, card, f, before, start, length) ==> Ok(buffer) == Window(card.files[f], start, length)
    ensures OnCard(t, card, f, before, start, length) && FullChunks(card) && start + length <= |card.files[f]| ==>
      |log| == CeilDiv(length)
  {
  }

  /** One pass of the block loop: ask for the bytes still missing and check
      the reply. */
  method RequestBlock(t: Transport, before: seq<Apdu>, log: seq<Exchange>, start: nat, length: nat, buffer: seq<byte>)
    returns (command: Apdu, reply: Result<seq<byte>>, data: Result<seq<byte>>, log': seq<Exchange>)
    requires ReadsProgress(t)
    requires Consistent(t, before, log) && Requested(log, start, length)
    requires buffer == Payload(log) && |buffer| < length
    ensures command == ReadBinaryCommand(start + |buffer|, length - |buffer|)
    ensures log' == log + [Exchange(command, reply)] && data == Checked(log'[|log|])
    ensures |log'| == |log| + 1
    ensures data == CheckReply(t(before + Commands(log), command))
    ensures before + Commands(log') == (before + Commands(log)) + [command]
    ensures Consistent(t, before, log') && Requested(log', start, length)
    ensures data.Ok? ==> |data.value| > 0 && Payload(log') == buffer + data.value
  {
    command := ReadBinaryCommand(start + |buffer|, length - |buffer|);
    reply, log' := Transmit(t, before, log, command);
    data := CheckReply(reply);
    BlockArrives(t, before + Commands(log), log, Exchange(command, reply), start, length);
  }

  /** What one block read adds to the transcript of the loop. */
  lemma BlockArrives(t: Transport, h: seq<Apdu>, log: seq<Exchange>, e: Exchange, start: nat, length: nat)
    requires ReadsProgress(t) && Requested(log, start, length) && |Payload(log)| < length
    requires e.command == ReadBinaryCommand(start + |Payload(log)|, length - |Payload(log)|)
    requires e.reply == t(h, e.command)
    ensures Requested(log + [e], start, length)
    ensures Checked(e) == CheckReply(e.reply)
    ensures Checked(e).Ok? ==> |Checked(e).value| > 0 && Checked(e).value == Data(e)
  {
    RequestedStep(log, e, start, length);
    CheckedData(e);
    if Checked(e).Ok? {
      DataArrives(t, h, e.command);
    }
  }

  /** With file `f` selected after `h`, the bytes read so far are the file's
      bytes from `start` on, as far as the file reaches. */
  ghost predicate Tracking(card: Card, h: seq<Apdu>, f: FileId, start: nat, offset: nat, buffer: seq<byte>) {
    Selected(card, h) == Some(f)
    && offset == start + |buffer|
    && (start <= |card.files[f]| ==> offset <= |card.files[f]| && buffer == card.files[f][start..offset])
    && (start > |card.files[f]| ==> buffer == [])
  }

  /** One block read against the model card keeps the loop on track: a
      failure is exactly the wrong-offset status the whole read ends in, and
      data extends the bytes read so far without overshooting. */
  lemma OracleStep(t: Transport, card: Card, f: FileId, h: seq<Apdu>, h': seq<Apdu>, start: nat, length: nat,
                   buffer: seq<byte>, command: Apdu)
    requires ActsAs(t, card) && start + length <= 0x1_0000 && |buffer| < length
    requires Tracking(card, h, f, start, start + |buffer|, buffer)
    requires command == ReadBinaryCommand(start + |buffer|, length - |buffer|)
    requires h' == h + [command]
    ensures var data := CheckReply(t(h, command));
      && (data.Err? ==> data == Window(card.files[f], start, length))
      && (data.Ok? ==>
            |data.value| <= length - |buffer|
            && Tracking(card, h', f, start, start + |buffer + data.value|, buffer + data.value))
      && (data.Ok? && FullChunks(card) && start + length <= |card.files[f]| ==>
            |data.value| == if length - |buffer| < BlockSize then length - |buffer| else BlockSize)
  {
    var file := card.files[f];
    var offset, remaining := start + |buffer|, length - |buffer|;
    OracleBlock(t, card, h, f, offset, remaining, command);
    var data := CheckReply(t(h, command));
    if data.Ok? {
      TrackingExtends(card, h', f, start, buffer, data.value);
      if FullChunks(card) {
        assert card.chunk(offset, command[4]) >= command[4];
      }
    }
  }

  /** A piece of the file read right where the bytes so far end extends them. */
  lemma TrackingExtends(card: Card, h: seq<Apdu>, f: FileId, start: nat, buffer: seq<byte>, piece: seq<byte>)
    requires f in card.files && Selected(card, h) == Some(f)
    requires var offset := start + |buffer|;
      (start <= |card.files[f]| ==> offset <= |card.files[f]| && buffer == card.files[f][start..offset])
      && (start > |card.files[f]| ==> buffer == [])
    requires start + |buffer| + |piece| <= |card.files[f]|
    requires piece == card.files[f][start + |buffer|..start + |buffer| + |piece|]
    ensures Tracking(card, h, f, start, start + |buffer + piece|, buffer + piece)
  {
    var file := card.files[f];
    assert start <= |file|;
    assert buffer + piece == file[start..start + |buffer| + |piece|];
  }

  /** An exchange asking for the bytes still missing extends a well-formed
      sequence of requests. */
  lemma RequestedStep(log: seq<Exchange>, e: Exchange, start: nat, length: nat)
    requires Requested(log, start, length) && |Payload(log)| < length
    requires e.command == ReadBinaryCommand(start + |Payload(log)|, length - |Payload(log)|)
    ensures Requested(log + [e], start, length)
  {
    assert (log + [e])[..|log|] == log;
  }

  /** A block read that passes the response check carries data. */
  lemma DataArrives(t: Transport, h: seq<Apdu>, command: Apdu)
    requires ReadsProgress(t) && IsBlockRead(command) && CheckReply(t(h, command)).Ok?
    ensures |CheckReply(t(h, command)).value| > 0
  {
    assert Progresses(t, h, command);
  }

  /** The model card's reply to a READ BINARY of `n` bytes at `o` in file
      `f`: past the end it reports a wrong offset; otherwise it delivers a
      non-empty piece of the file at `o` of at most `n` bytes, all `n` when
      it hands out full chunks and the file reaches that far. */
  lemma ReadReplyShape(card: Card, f: FileId, o: nat, n: nat)
    requires f in card.files && 0 < n
    ensures var data := CheckStatus(ReadReply(card, Some(f), o, n));
      var file := card.files[f];
      (o >= |file| ==> data == Err(StatusError(0x6B, 0x00)))
      && (o < |file| ==>
            data.Ok? && 0 < |data.value| <= n && o + |data.value| <= |file| && data.value == file[o..o + |data.value|]
            && (card.chunk(o, n) >= n && o + n <= |file| ==> |data.value| == n))
  {
    var file := card.files[f];
    if o < |file| {
      var k := Portion(card.chunk(o, n), if n < |file| - o then n else |file| - o);
      assert ReadReply(card, Some(f), o, n) == file[o..o + k] + SwOk;
      CheckStatusAccepts(file[o..o + k]);
    }
  }

  /** The model card's reply to one block read of the loop. */
  lemma OracleBlock(t: Transport, card: Card, h: seq<Apdu>, f: FileId, offset: nat, remaining: nat, command: Apdu)
    requires ActsAs(t, card) && Selected(card, h) == Some(f)
    requires 0 < remaining && offset < 0x1_0000
    requires command == ReadBinaryCommand(offset, remaining)
    ensures Selected(card, h + [command]) == Some(f)
    ensures var data := CheckReply(t(h, command));
      var file := card.files[f];
      var n := command[4];
      (offset >= |file| ==> data == Err(StatusError(0x6B, 0x00)))
      && (offset < |file| ==>
            data.Ok? && 0 < |data.value| <= remaining && offset + |data.value| <= |file| && data.value == file[offset..offset + |data.value|]
            && (card.chunk(offset, n) >= n && offset + n <= |file| ==> |data.value| == n))
  {
    ReadBinaryOffset(offset, remaining);
    var n := command[4];
    assert CommandOffset(command) == offset;
    assert Respond(card, h, command) == Ok(ReadReply(card, Some(f), offset, n));
    ReadReplyShape(card, f, offset, n);
    assert Responds(t, card, h, command);
    SelectedAfterOther(card, h, command);
  }

  /** The content bytes the block loop fetches after a header declaring
      `length`: Apollo skips the four tag bytes when stripping, and fetches
      nothing when stripping fails; Gemalto fetches everything. */
  function Fetched(v: Variant, length: nat, strip: bool): nat {
    if v.Apollo? && strip then (if length >= 4 then length - 4 else 0) else length
  }

  /** The model card's answer to the SELECT FILE of `read_raw_file`: its
      control information when the file exists, "not found" otherwise; the
      selection moves to the file exactly when it exists. */
  lemma SelectOnCard(t: Transport, card: Card, h: seq<Apdu>, v: Variant, file: seq<byte>, hint: byte)
    requires ActsAs(t, card) && |file| >= 2
    ensures var c := SelectFileCommand(v, file, hint);
      && t(h, c) == Ok(if Key(file) in card.files then card.fci + SwOk else NotFound)
      && Selected(card, h + [c]) == if Key(file) in card.files then Some(Key(file)) else Selected(card, h)
  {
    var c := SelectFileCommand(v, file, hint);
    assert Responds(t, card, h, c);
    assert !IsSelectByName(c) && IsSelectFile(c);
    if Key(file) !in card.files {
      assert (h + [c])[..|h|] == h;
    }
  }

  /** The model card's answer to the header read: the first `HeaderSize`
      bytes of the selected file, which stays selected. */
  lemma HeaderOnCard(t: Transport, card: Card, h: seq<Apdu>, v: Variant, f: FileId)
    requires ActsAs(t, card) && Selected(card, h) == Some(f)
    requires |card.files[f]| >= HeaderSize(v) && card.chunk(0, HeaderSize(v)) >= HeaderSize(v)
    ensures var c := ReadBinaryCommand(0, HeaderSize(v));
      && CheckReply(t(h, c)) == Ok(card.files[f][..HeaderSize(v)])
      && Selected(card, h + [c]) == Some(f)
  {
    var n := HeaderSize(v);
    var c := ReadBinaryCommand(0, n);
    OracleBlock(t, card, h, f, 0, n, c);
    assert c[4] == n;
  }

  /** The SELECT FILE exchange passed the variant's select check. */
  predicate SelectPassed(v: Variant, e: Exchange) {
    e.reply.Ok? && SelectFileCheck(v, e.reply.value).Ok?
  }

  /** What the model card makes of a SELECT FILE naming a missing file:
      Gemalto reports the "not found" status, Apollo's slice panics first. */
  function MissingFile(v: Variant): Error {
    match v
    case Gemalto => StatusError(0x6A, 0x82)
    case Apollo => Panic(SliceOutOfRange)
  }

  /** Each variant's select check turns "not found" into `MissingFile`. */
  lemma MissingFileCheck(v: Variant)
    ensures SelectFileCheck(v, NotFound) == Err(MissingFile(v))
  {
    NotFoundRejected();
  }

  /** `select_file`: SELECT FILE by the first two bytes of `file`, checked
      with the variant's select check. Indexing `file[0]`, `file[1]` panics on
      a shorter identifier. On the model card the file becomes the selected
      one exactly when it exists; selecting a missing file fails. */
  method SelectFile(v: Variant, t: Transport, before: seq<Apdu>, file: seq<byte>, hint: byte, ghost card: Card)
    returns (r: Result<seq<byte>>, log: seq<Exchange>)
    ensures Consistent(t, before, log)
    ensures |file| < 2 ==> r == Err(Panic(IndexOutOfRange)) && log == []
    ensures |file| >= 2 ==>
      |log| == 1 && log[0].command == SelectFileCommand(v, file, hint)
      && r == ReplyCheck(v, log[0])
      && (r.Ok? <==> SelectPassed(v, log[0]))
    ensures StopsAt(v, log, Verdict(r))
    ensures ActsAs(t, card) && |file| >= 2 ==>
      (Key(file) !in card.files ==> r == Err(MissingFile(v)))
      && (Key(file) in card.files && (v.Apollo? ==> |card.fci| >= 2) ==> r.Ok?)
      && Selected(card, before + Commands(log)) ==
           if Key(file) in card.files then Some(Key(file)) else Selected(card, before)
  {
    if |file| < 2 {
      StopsAtChecked(v, [], Fail(Panic(IndexOutOfRange)));
      return Err(Panic(IndexOutOfRange)), [];
    }
    var command := SelectFileCommand(v, file, hint);
    var reply;
    reply, log := Transmit(t, before, [], command);
    assert before + Commands([]) == before;
    assert Commands(log) == [command];
    if ActsAs(t, card) {
      SelectOnCard(t, card, before, v, file, hint);
      if Key(file) !in card.files {
        MissingFileCheck(v);
      } else if v.Apollo? && |card.fci| >= 2 {
        ApolloCheckSelectAccepts(card.fci);
      } else if v.Gemalto? {
        CheckStatusAccepts(card.fci);
      }
    }
    r := if reply.Ok? then SelectFileCheck(v, reply.value) else Err(reply.error);
    assert StopsAt(v, log, Verdict(r)) by {
      var e := Exchange(command, reply);
      assert log == [e] && IsSelectFile(command);
      StopsAtSingle(v, e);
    }
  }

  /** The opening of `read_raw_file` shared by both variants: `select_file`
      with an expected size of 4, `read_binary` of the header at offset 0,
      and the header bytes the length is taken from (`data[2]`, `data[3]`
      or `result[4]`, `result[5]`), which must be there. */
  method ReadHeader(v: Variant, t: Transport, before: seq<Apdu>, file: seq<byte>, ghost card: Card)
    returns (header: Result<seq<byte>>, log: seq<Exchange>)
    ensures Consistent(t, before, log) && |log| <= 2
    ensures StopsAt(v, log, Verdict(header))
    ensures |file| < 2 ==> header == Err(Panic(IndexOutOfRange)) && log == []
    ensures |file| >= 2 ==> |log| >= 1 && log[0].command == SelectFileCommand(v, file, 4)
    ensures |log| == 2 ==> SelectPassed(v, log[0]) && log[1].command == ReadBinaryCommand(0, HeaderSize(v))
    ensures header.Ok? ==> |log| == 2 && Checked(log[1]) == header && |header.value| >= HeaderSize(v)
    ensures ActsAs(t, card) && |file| >= 2 && Key(file) !in card.files ==>
      header == Err(MissingFile(v)) && |log| == 1
    ensures ActsAs(t, card) && |file| >= 2 && Served(card, v, file) ==>
      header == Ok(card.files[Key(file)][..HeaderSize(v)])
      && Selected(card, before + Commands(log)) == Some(Key(file))
  {
    var selected;
    selected, log := SelectFile(v, t, before, file, 4, card);
    if selected.Err? {
      return selected, log;
    }
    ghost var opening := log;
    ghost var sent := before + Commands(log);
    var headerRead := ReadBinaryCommand(0, HeaderSize(v));
    var reply;
    reply, log := Transmit(t, before, log, headerRead);
    header := CheckReply(reply);
    assert ActsAs(t, card) && Served(card, v, file) ==>
      header == Ok(card.files[Key(file)][..HeaderSize(v)])
      && Selected(card, before + Commands(log)) == Some(Key(file)) by {
      assert before + Commands(log) == sent + [headerRead];
      if ActsAs(t, card) && Served(card, v, file) {
        HeaderOnCard(t, card, sent, v, Key(file));
      }
    }
    ghost var e := Exchange(headerRead, reply);
    assert log == opening + [e] && ReplyCheck(v, e) == header;
    CheckedStep(v, opening, e);
    if header.Ok? {
      if |header.value| < HeaderSize(v) {
        header := Err(Panic(IndexOutOfRange));
      }
      StopsAtChecked(v, log, Verdict(header));
    }
  }
}
