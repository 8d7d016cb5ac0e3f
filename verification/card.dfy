/** A reference model of the card side of the channel: an identity card with a
    set of elementary files that answers SELECT and READ BINARY as section 7
    of ISO/IEC 7816-4 describes, delivering at most what was asked for and
    possibly less in one reply. It is the yardstick against which the
    reader's file-reading procedures are stated. */
module IdCard {
  import opened Common
  import opened Apdu
  import opened Channel

  /** A two-byte file identifier. */
  type FileId = (byte, byte)

  /** The card: its elementary files, the control information its SELECT FILE
      replies carry, and how many bytes it is willing to return for a read at
      a given offset and expected length (`chunk`). */
  datatype Card = Card(files: map<FileId, seq<byte>>, fci: seq<byte>, chunk: (nat, nat) -> nat)

  /** Status words of section 5.6 of ISO/IEC 7816-4 the card answers with. */
  const NotFound: seq<byte> := [0x6A, 0x82]        // file or application not found
  const NoCurrentFile: seq<byte> := [0x69, 0x86]   // command not allowed, no current EF
  const WrongOffset: seq<byte> := [0x6B, 0x00]     // wrong parameters P1-P2
  const WrongLength: seq<byte> := [0x67, 0x00]     // wrong length
  const NotSupported: seq<byte> := [0x6D, 0x00]    // instruction not supported

  /** The elementary file chosen by the last SELECT FILE of the session that
      named an existing file; a failed SELECT leaves the selection alone. */
  function Selected(card: Card, h: seq<Apdu>): (r: Option<FileId>)
    ensures r.Some? ==> r.value in card.files
    decreases |h|
  {
    if |h| == 0 then None
    else
      var c := h[|h| - 1];
      if IsSelectFile(c) && (c[5], c[6]) in card.files then Some((c[5], c[6]))
      else Selected(card, h[..|h| - 1])
  }

  /** The reply to READ BINARY at offset `o` asking for `n` bytes: a non-empty
      slice of the selected file starting at `o`, no longer than asked. */
  function ReadReply(card: Card, selected: Option<FileId>, o: nat, n: nat): (r: seq<byte>)
    requires selected.Some? ==> selected.value in card.files
    ensures |r| >= 2
    ensures StatusOk(r) ==> |r| > 2
  {
    match selected
    case None => NoCurrentFile
    case Some(f) =>
      var file := card.files[f];
      if o >= |file| then WrongOffset
      else if n == 0 then WrongLength
      else
        var k := Portion(card.chunk(o, n), if n < |file| - o then n else |file| - o);
        var piece := file[o..o + k];
        assert |piece + SwOk| == k + 2;
        piece + SwOk
  }

  /** How many bytes the card hands out when willing to give `offered` and
      at most `most` are available and asked for: never none. */
  function Portion(offered: nat, most: nat): (k: nat)
    requires most >= 1
    ensures 1 <= k <= most
    ensures offered >= most ==> k == most
  {
    if offered == 0 then 1 else if offered < most then offered else most
  }

  /** The card's answer to `c` after the commands `h`. */
  function Respond(card: Card, h: seq<Apdu>, c: Apdu): (r: Result<seq<byte>>)
    ensures r.Ok? && |r.value| >= 2
  {
    if IsSelectByName(c) then Ok(if c[5..] == IdentityAid then SwOk else NotFound)
    else if IsSelectFile(c) then Ok(if (c[5], c[6]) in card.files then card.fci + SwOk else NotFound)
    else if IsReadBinary(c) then Ok(ReadReply(card, Selected(card, h), CommandOffset(c), c[4]))
    else Ok(NotSupported)
  }

  /** The transport is this card behind a reader that never fails. */
  ghost predicate ActsAs(t: Transport, card: Card) {
    forall h, c :: Responds(t, card, h, c)
  }

  /** The transport answers `c` after `h` as the card does. */
  ghost predicate Responds(t: Transport, card: Card, h: seq<Apdu>, c: Apdu) {
    t(h, c) == Respond(card, h, c)
  }

  /** The card sends every byte asked for in one reply, as far as the file reaches. */
  ghost predicate FullChunks(card: Card) {
    forall o, n :: card.chunk(o, n) >= n
  }

  /** A transport that acts as the model card always makes progress on a
      read, so the read loops it serves terminate. */
  lemma RespondProgresses(t: Transport, card: Card)
    requires ActsAs(t, card)
    ensures ReadsProgress(t)
  {
    forall h: seq<Apdu>, c: Apdu
      ensures Progresses(t, h, c)
    {
      assert Responds(t, card, h, c);
      if IsBlockRead(c) {
        assert t(h, c) == Ok(ReadReply(card, Selected(card, h), CommandOffset(c), c[4]));
      }
    }
  }

  /** Any other command leaves the selection unchanged. */
  lemma SelectedAfterOther(card: Card, h: seq<Apdu>, c: Apdu)
    requires !IsSelectFile(c)
    ensures Selected(card, h + [c]) == Selected(card, h)
  {
    assert (h + [c])[..|h|] == h;
  }

  /** The card accepts the SELECT of the identity application with no data,
      and reports any other application as not found. */
  lemma SelectAidOnCard(t: Transport, card: Card, h: seq<Apdu>, aid: seq<byte>)
    requires ActsAs(t, card)
    ensures CheckReply(t(h, SelectByNameCommand(aid))) ==
      if aid == IdentityAid then Ok([]) else Err(StatusError(0x6A, 0x82))
  {
    var c := SelectByNameCommand(aid);
    assert Responds(t, card, h, c);
    assert IsSelectByName(c) && c[5..] == aid;
    if aid == IdentityAid {
      assert [] + SwOk == SwOk;
      CheckStatusAccepts([]);
    } else {
      NotFoundRejected();
    }
  }

  /** The "not found" reply is reported with its status word by the shared
      check, and makes Apollo's select check panic on its slice. */
  lemma NotFoundRejected()
    ensures CheckStatus(NotFound) == Err(StatusError(0x6A, 0x82))
    ensures ApolloCheckSelect(NotFound) == Err(Panic(SliceOutOfRange))
  {
    assert NotFound[|NotFound| - 2..] == NotFound != SwOk;
  }
}
