/** The single-file predecessor of the reader (`src/idreader.rs`). Its card
    readers, TLV decoding and `read_id` sequence behave as the current ones
    do; it differs in recognising only two Answer-To-Reset signatures, in
    passing the application identifier to `select_aid` as a parameter, and in
    spelling the descriptions of its tag catalogue without diacritics. */
module Legacy {
  import opened Common
  import opened Apdu
  import opened Channel
  import opened IdCard
  import opened Record
  import Reader

  /** The legacy `PersonalId::new`: only the Apollo signature and the first
      Gemalto signature are known. */
  function New(atr: Result<seq<byte>>): (r: Result<Reader.PersonalId>)
    ensures atr.Err? ==> r == Err(atr.error)
    ensures r.Ok? ==> r.value.personal == map[] && r.value.image == []
    ensures r.Ok? && r.value.reader == Apollo <==> atr == Ok(Reader.ApolloAtr)
    ensures r.Ok? && r.value.reader == Gemalto <==> atr == Ok(Reader.GemaltoAtr)
    ensures atr.Ok? && atr.value != Reader.ApolloAtr && atr.value != Reader.GemaltoAtr ==> r == Err(UnknownCardType)
  {
    match atr
    case Err(e) => Err(e)
    case Ok(buffer) =>
      if buffer == Reader.ApolloAtr then Ok(Reader.PersonalId(map[], [], Apollo))
      else if buffer == Reader.GemaltoAtr then Ok(Reader.PersonalId(map[], [], Gemalto))
      else Err(UnknownCardType)
  }

  /** The two versions agree on the cards the legacy one knows and on every
      signature neither knows; the three newer Gemalto signatures are
      rejected by the legacy version and accepted by the current one. */
  lemma NewComparison(atr: Result<seq<byte>>)
    ensures atr.Err? || atr.value == Reader.ApolloAtr || atr.value == Reader.GemaltoAtr
            || atr.value !in Reader.GemaltoAtrs ==>
      New(atr) == Reader.New(atr)
    ensures atr.Ok? && atr.value in Reader.GemaltoAtrs[1..] ==>
      New(atr) == Err(UnknownCardType) && Reader.New(atr) == Ok(Reader.PersonalId(map[], [], Gemalto))
  {
    Reader.AtrsDistinct();
    if atr.Ok? && atr.value in Reader.GemaltoAtrs[1..] {
      var i :| 0 <= i < |Reader.GemaltoAtrs[1..]| && Reader.GemaltoAtrs[1..][i] == atr.value;
      assert Reader.GemaltoAtrs[i + 1] == atr.value;
    }
  }

  /** The legacy Gemalto `select_aid(aid)`: SELECT by name carrying `aid`,
      with `aid.len() as u8` as its length byte. The model card accepts its
      own application and reports any other as not found. */
  method SelectAid(t: Transport, before: seq<Apdu>, aid: seq<byte>, ghost card: Card)
    returns (r: Result<seq<byte>>, log: seq<Exchange>)
    ensures Consistent(t, before, log)
    ensures |log| == 1 && log[0].command == SelectByNameCommand(aid)
    ensures r == Checked(log[0])
    ensures StopsAt(Gemalto, log, Verdict(r))
    ensures ActsAs(t, card) ==>
      r == if aid == IdentityAid then Ok([]) else Err(StatusError(0x6A, 0x82))
  {
    var reply;
    reply, log := Transmit(t, before, [], SelectByNameCommand(aid));
    assert before + Commands([]) == before;
    r := CheckReply(reply);
    assert StopsAt(Gemalto, log, Verdict(r)) by {
      var e := Exchange(SelectByNameCommand(aid), reply);
      assert log == [e];
      StopsAtSingle(Gemalto, e);
    }
    assert ActsAs(t, card) ==>
      r == if aid == IdentityAid then Ok([]) else Err(StatusError(0x6A, 0x82)) by {
      if ActsAs(t, card) {
        SelectAidOnCard(t, card, before, aid);
      }
    }
  }

  /** The legacy `read_id`: the current sequence of selections and reads,
      merged with the legacy catalogue. Its Gemalto `select_aid` is given
      the identity application, so it sends the same SELECT as the current
      one (see `SelectAid`); the Apollo one ignores its argument. */
  method ReadId(id: Reader.PersonalId, t: Transport, before: seq<Apdu>, decode: Utf8Decoder, ghost card: Card)
    returns (id': Reader.PersonalId, r: Outcome, log: seq<Exchange>)
    requires ReadsProgress(t)
    ensures Consistent(t, before, log)
    ensures StopsAt(id.reader, log, r)
    ensures id.reader.Gemalto? ==> |log| >= 1 && log[0].command == SelectByNameCommand(IdentityAid)
    ensures id.reader.Gemalto? && Checked(log[0]).Err? ==>
      |log| == 1 && id' == id && r == Fail(Checked(log[0]).error)
    ensures id'.reader == id.reader
    ensures Reader.Extends(LegacyIdTags, id.personal, id'.personal)
    ensures r.Fail? ==> id'.image == id.image
    ensures ActsAs(t, card) && Reader.AllKnown(card, id.reader, Reader.DataFiles)
            && Reader.Known(card, id.reader, Reader.PhotoFile) ==>
      (id', r) == Reader.Assemble(LegacyIdTags, id, Reader.CardReads(card, id.reader, Reader.DataFiles, false),
                                  Reader.CardRead(card, id.reader, Reader.PhotoFile, true), decode)
  {
    id', r, log := Reader.ReadIdFrom(LegacyIdTags, id, t, before, decode, card);
  }

  /** On the same read results the legacy and the current `read_id` end the
      same way, with the same image and reader, and with records holding the
      same fields and texts: only the descriptions of the tags differ. */
  lemma SameAsCurrent(id: Reader.PersonalId, texts: seq<Result<seq<byte>>>, photo: Result<seq<byte>>,
                      decode: Utf8Decoder)
    ensures var (x, r) := Reader.Assemble(LegacyIdTags, id, texts, photo, decode);
      var (y, s) := Reader.Assemble(IdTags, id, texts, photo, decode);
      r == s && x.image == y.image && x.reader == y.reader && SameFields(x.personal, y.personal)
  {
    LegacyIdTagsParallel();
    Reader.AssembleParallel(LegacyIdTags, IdTags, id, texts, photo, decode);
  }
}
