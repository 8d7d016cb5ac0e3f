/** The card-independent part of the reader (`PersonalId`): recognising the
    card from its Answer-To-Reset, dispatching to the matching card reader,
    and `read_id`, which reads the three data files and the photo into one
    record. */
module Reader {
  import opened Common
  import opened Apdu
  import opened Channel
  import opened IdCard
  import opened RawFile
  import Tlv
  import opened Record
  import GemaltoReader
  import ApolloReader

  /** `APOLLO_CARD_TYPE`: the Answer-To-Reset of the older Apollo cards. */
  const ApolloAtr: seq<byte> := [
    0x3b, 0xb9, 0x18, 0x00, 0x81, 0x31, 0xfe, 0x9e, 0x80, 0x73, 0xff, 0x61, 0x40, 0x83, 0x00, 0x00,
    0x00, 0xdf]

  /** `GEMALTO_CARD_TYPE`. */
  const GemaltoAtr: seq<byte> := [
    0x3B, 0xFF, 0x94, 0x00, 0x00, 0x81, 0x31, 0x80, 0x43, 0x80, 0x31, 0x80, 0x65, 0xB0, 0x85, 0x02,
    0x01, 0xF3, 0x12, 0x0F, 0xFF, 0x82, 0x90, 0x00, 0x79]

  /** `GEMALTO_NEW_CARD_TYPE`. */
  const GemaltoNewAtr: seq<byte> := [
    0x3B, 0xF9, 0x96, 0x00, 0x00, 0x80, 0x31, 0xFE, 0x45, 0x53, 0x43, 0x45, 0x37, 0x20, 0x47, 0x43,
    0x4E, 0x33, 0x5E]

  /** `GEMALTO_EVEN_NEWER_CARD_TYPE`. */
  const GemaltoEvenNewerAtr: seq<byte> := [
    0x3B, 0x9E, 0x96, 0x80, 0x31, 0xFE, 0x45, 0x53, 0x43, 0x45, 0x20, 0x38, 0x2E, 0x30, 0x2D, 0x43,
    0x31, 0x56, 0x30, 0x0D, 0x0A, 0x6F]

  /** `GEMALTO_CARD_TYPE_1`. */
  const GemaltoAtr1: seq<byte> := [
    0x3B, 0x9E, 0x96, 0x80, 0x31, 0xFE, 0x45, 0x53, 0x43, 0x45, 0x20, 0x38, 0x2E, 0x30, 0x2D, 0x43,
    0x32, 0x56, 0x30, 0x0D, 0x0A, 0x6C]

  /** Every Answer-To-Reset a Gemalto card is recognised by. */
  const GemaltoAtrs: seq<seq<byte>> := [GemaltoAtr, GemaltoNewAtr, GemaltoEvenNewerAtr, GemaltoAtr1]

  /** The elementary files of the identity application. */
  const PersonalFile: seq<byte> := [0x0F, 0x03]
  const DocumentFile: seq<byte> := [0x0F, 0x02]
  const ResidenceFile: seq<byte> := [0x0F, 0x04]
  const PhotoFile: seq<byte> := [0x0F, 0x06]

  /** The data files `read_id` merges, in the order it reads them. */
  const DataFiles: seq<seq<byte>> := [PersonalFile, ResidenceFile, DocumentFile]

  /** The record `read_id` fills in (`PersonalId`): the personal data, the
      photo, and which chip family's protocol to speak. */
  datatype PersonalId = PersonalId(personal: Personal, image: seq<byte>, reader: Variant)

  /** `PersonalId::new`: pick the card reader by comparing the card's
      Answer-To-Reset (`atr`, or the error reading it) against the known
      ones; the record starts empty. */
  function New(atr: Result<seq<byte>>): (r: Result<PersonalId>)
    ensures atr.Err? ==> r == Err(atr.error)
    ensures r.Ok? ==> r.value.personal == map[] && r.value.image == []
    ensures r.Ok? && r.value.reader == Apollo <==> atr == Ok(ApolloAtr)
    ensures r.Ok? && r.value.reader == Gemalto <==> atr.Ok? && atr.value in GemaltoAtrs
    ensures atr.Ok? && atr.value != ApolloAtr && atr.value !in GemaltoAtrs ==> r == Err(UnknownCardType)
  {
    match atr
    case Err(e) => Err(e)
    case Ok(buffer) =>
      if buffer == ApolloAtr then Ok(PersonalId(map[], [], Apollo))
      else if buffer == GemaltoAtr then Ok(PersonalId(map[], [], Gemalto))
      else if buffer == GemaltoNewAtr then Ok(PersonalId(map[], [], Gemalto))
      else if buffer == GemaltoEvenNewerAtr then Ok(PersonalId(map[], [], Gemalto))
      else if buffer == GemaltoAtr1 then Ok(PersonalId(map[], [], Gemalto))
      else Err(UnknownCardType)
  }

  /** The five signatures are pairwise different, so the order of the
      comparisons in `New` does not matter: each one picks its own reader. */
  lemma AtrsDistinct()
    ensures ApolloAtr !in GemaltoAtrs
    ensures forall i, j :: 0 <= i < j < |GemaltoAtrs| ==> GemaltoAtrs[i] != GemaltoAtrs[j]
  {
    assert ApolloAtr[1] == 0xb9;
    assert GemaltoAtr[1] == 0xFF && GemaltoNewAtr[1] == 0xF9;
    assert GemaltoEvenNewerAtr[1] == 0x9E && GemaltoAtr1[1] == 0x9E;
    assert GemaltoEvenNewerAtr[16] == 0x31 && GemaltoAtr1[16] == 0x32;
  }

  /** `select_aid` of the reader in use. */
  method SelectAid(v: Variant, t: Transport, before: seq<Apdu>, ghost card: Card)
    returns (r: Result<seq<byte>>, log: seq<Exchange>)
    ensures Consistent(t, before, log)
    ensures v.Apollo? ==> r == Ok([]) && log == []
    ensures v.Gemalto? ==>
      |log| == 1 && log[0].command == SelectByNameCommand(IdentityAid) && r == Checked(log[0])
    ensures StopsAt(v, log, Verdict(r))
    ensures ActsAs(t, card) ==> r == Ok([])
  {
    match v
    case Apollo =>
      r, log := ApolloReader.SelectAid(t, before);
    case Gemalto =>
      r, log := GemaltoReader.SelectAid(t, before, card);
  }

  /** `read_raw_file` of the reader in use. On the model card the result is
      what the card holds: `Expected` for a file it serves, the variant's
      failure for a file it does not have. */
  method ReadRawFile(v: Variant, t: Transport, before: seq<Apdu>, file: seq<byte>, strip: bool, ghost card: Card)
    returns (r: Result<seq<byte>>, log: seq<Exchange>)
    requires ReadsProgress(t)
    ensures Consistent(t, before, log)
    ensures |file| < 2 ==> r == Err(Panic(IndexOutOfRange)) && log == []
    ensures |file| >= 2 ==> |log| >= 1 && log[0].command == SelectFileCommand(v, file, 4)
    ensures StopsAt(v, log, Verdict(r))
    ensures ActsAs(t, card) && |file| >= 2 && Known(card, v, file) ==> r == CardRead(card, v, file, strip)
  {
    match v
    case Apollo =>
      r, log := ApolloReader.ReadRawFile(t, before, file, strip, card);
    case Gemalto =>
      r, log := GemaltoReader.ReadRawFile(t, before, file, strip, card);
  }

  /** The card either lacks the file or serves it. */
  ghost predicate Known(card: Card, v: Variant, file: seq<byte>)
    requires |file| >= 2
  {
    Key(file) !in card.files || Served(card, v, file)
  }

  /** The card lacks or serves each of `files`. */
  ghost predicate AllKnown(card: Card, v: Variant, files: seq<seq<byte>>) {
    forall i :: 0 <= i < |files| ==> |files[i]| >= 2 && Known(card, v, files[i])
  }

  /** What `read_raw_file` yields on a model card that lacks or serves `file`. */
  function CardRead(card: Card, v: Variant, file: seq<byte>, strip: bool): Result<seq<byte>>
    requires |file| >= 2
    requires Key(file) in card.files ==> |card.files[Key(file)]| >= HeaderSize(v)
  {
    if Key(file) !in card.files then Err(MissingFile(v))
    else Expected(v, card.files[Key(file)], strip)
  }

  /** What reading each of `files` yields on the model card. */
  function CardReads(card: Card, v: Variant, files: seq<seq<byte>>, strip: bool): (r: seq<Result<seq<byte>>>)
    requires AllKnown(card, v, files)
    ensures |r| == |files|
    decreases |files|
  {
    if |files| == 0 then []
    else
      assert Known(card, v, files[0]);
      [CardRead(card, v, files[0], strip)] + CardReads(card, v, files[1..], strip)
  }

  /** The record after merging one data file, given what reading it returned:
      the file is decoded and merged with `fit_in` over `catalogue`; a failed
      read or decode leaves the record as it was and ends `read_id` with that
      error. */
  function MergeStep(catalogue: seq<TagType>, personal: Personal, text: Result<seq<byte>>, decode: Utf8Decoder)
    : (Personal, Outcome)
  {
    match text
    case Err(e) => (personal, Fail(e))
    case Ok(bytes) =>
      match Tlv.ParseTlv(bytes)
      case Err(e) => (personal, Fail(e))
      case Ok(tlv) => (FitIn(catalogue, personal, tlv, decode), Pass)
  }

  /** The data files merged in order, stopping at the first failure. */
  function MergeFiles(catalogue: seq<TagType>, personal: Personal, texts: seq<Result<seq<byte>>>, decode: Utf8Decoder)
    : (Personal, Outcome)
    decreases |texts|
  {
    if |texts| == 0 then (personal, Pass)
    else
      var (next, outcome) := MergeStep(catalogue, personal, texts[0], decode);
      if outcome.Fail? then (next, outcome) else MergeFiles(catalogue, next, texts[1..], decode)
  }

  /** `read_id` as a function of what the reads return: the three data files
      are merged in order, then the photo replaces the image; the first
      failure ends it, keeping whatever was merged before. */
  function Assemble(catalogue: seq<TagType>, id: PersonalId, texts: seq<Result<seq<byte>>>, photo: Result<seq<byte>>,
                    decode: Utf8Decoder)
    : (PersonalId, Outcome)
  {
    var (personal, outcome) := MergeFiles(catalogue, id.personal, texts, decode);
    if outcome.Fail? then (id.(personal := personal), outcome)
    else if photo.Err? then (id.(personal := personal), Fail(photo.error))
    else (id.(personal := personal, image := photo.value), Pass)
  }

  /** The record only gains fields: every field present before is still
      there, and every new one is a tag of the catalogue. */
  predicate Extends(catalogue: seq<TagType>, before: Personal, after: Personal) {
    before.Keys <= after.Keys
    && forall k :: k in after && k !in before ==> Lookup(catalogue, k).Some?
  }

  /** Gaining fields twice is gaining fields. */
  lemma ExtendsTrans(catalogue: seq<TagType>, a: Personal, b: Personal, c: Personal)
    requires Extends(catalogue, a, b) && Extends(catalogue, b, c)
    ensures Extends(catalogue, a, c)
  {
  }

  /** A read result that `read_id` gets past: the read succeeded and its
      bytes decode as a TLV map. */
  predicate Decodes(text: Result<seq<byte>>) {
    text.Ok? && Tlv.ParseTlv(text.value).Ok?
  }

  /** The error a read result that does not decode ends `read_id` with. */
  function FailureOf(text: Result<seq<byte>>): Error
    requires !Decodes(text)
  {
    if text.Err? then text.error else Tlv.ParseTlv(text.value).error
  }

  /** The merge passes exactly when every file was read and decoded. */
  lemma {:induction false} MergeFilesPass(catalogue: seq<TagType>, personal: Personal, texts: seq<Result<seq<byte>>>,
                                          decode: Utf8Decoder)
    ensures MergeFiles(catalogue, personal, texts, decode).1 == Pass <==> forall i :: 0 <= i < |texts| ==> Decodes(texts[i])
    decreases |texts|
  {
    if |texts| > 0 {
      var (next, outcome) := MergeStep(catalogue, personal, texts[0], decode);
      if outcome.Pass? {
        assert Decodes(texts[0]);
        MergeFilesPass(catalogue, next, texts[1..], decode);
        if forall i :: 0 <= i < |texts[1..]| ==> Decodes(texts[1..][i]) {
          forall i | 0 <= i < |texts|
            ensures Decodes(texts[i])
          {
            if i > 0 {
              assert texts[i] == texts[1..][i - 1];
            }
          }
        } else {
          var i :| 0 <= i < |texts[1..]| && !Decodes(texts[1..][i]);
          assert texts[1..][i] == texts[i + 1];
        }
      } else {
        assert !Decodes(texts[0]);
      }
    }
  }

  /** The first file that fails decides the error, and the record keeps
      exactly what the files before it merged. */
  lemma {:induction false} MergeFilesStops(catalogue: seq<TagType>, personal: Personal, texts: seq<Result<seq<byte>>>,
                                           decode: Utf8Decoder, k: nat)
    requires k < |texts|
    requires forall i :: 0 <= i < k ==> Decodes(texts[i])
    requires !Decodes(texts[k])
    ensures MergeFiles(catalogue, personal, texts, decode).1 == Fail(FailureOf(texts[k]))
    ensures MergeFiles(catalogue, personal, texts, decode).0 == MergeFiles(catalogue, personal, texts[..k], decode).0
    decreases k
  {
    if k > 0 {
      assert Decodes(texts[0]);
      var next := MergeStep(catalogue, personal, texts[0], decode).0;
      assert texts[..k][1..] == texts[1..][..k - 1];
      forall i | 0 <= i < k - 1
        ensures Decodes(texts[1..][i])
      {
        assert texts[1..][i] == texts[i + 1];
      }
      MergeFilesStops(catalogue, next, texts[1..], decode, k - 1);
    }
  }

  /** When every file decodes, the last one is merged last, on top of what
      the others merged: a tag in a later file overwrites an earlier one. */
  lemma {:induction false} MergeFilesLast(catalogue: seq<TagType>, personal: Personal, texts: seq<Result<seq<byte>>>,
                                          decode: Utf8Decoder)
    requires |texts| > 0
    requires forall i :: 0 <= i < |texts| ==> Decodes(texts[i])
    ensures var last := texts[|texts| - 1];
      Decodes(last) &&
      MergeFiles(catalogue, personal, texts, decode) ==
        (FitIn(catalogue, MergeFiles(catalogue, personal, texts[..|texts| - 1], decode).0,
               Tlv.ParseTlv(last.value).value, decode), Pass)
    decreases |texts|
  {
    assert Decodes(texts[0]);
    var next := MergeStep(catalogue, personal, texts[0], decode).0;
    var init := texts[..|texts| - 1];
    if |texts| > 1 {
      var rest := texts[1..];
      forall i | 0 <= i < |rest|
        ensures Decodes(rest[i])
      {
        assert rest[i] == texts[i + 1];
      }
      MergeFilesLast(catalogue, next, rest, decode);
      assert MergeFiles(catalogue, personal, texts, decode) == MergeFiles(catalogue, next, rest, decode);
      assert init[0] == texts[0] && init[1..] == rest[..|rest| - 1];
      assert MergeFiles(catalogue, personal, init, decode) == MergeFiles(catalogue, next, init[1..], decode);
      assert rest[|rest| - 1] == texts[|texts| - 1];
    } else {
      assert init == [];
    }
  }

  /** `read_id` passes exactly when every data file was read and decoded and
      the photo was read; only then is the image replaced, with the photo
      bytes; the reader never changes, and the record only gains fields. */
  lemma AssembleOutcome(catalogue: seq<TagType>, id: PersonalId, texts: seq<Result<seq<byte>>>,
                        photo: Result<seq<byte>>, decode: Utf8Decoder)
    ensures var (id', r) := Assemble(catalogue, id, texts, photo, decode);
      && (r.Pass? <==> (forall i :: 0 <= i < |texts| ==> Decodes(texts[i])) && photo.Ok?)
      && (r.Pass? ==> id'.image == photo.value)
      && (r.Fail? ==> id'.image == id.image)
      && id'.reader == id.reader
      && Extends(catalogue, id.personal, id'.personal)
  {
    MergeFilesPass(catalogue, id.personal, texts, decode);
    MergeFilesExtends(catalogue, id.personal, texts, decode);
  }

  /** Merging files only gains fields. */
  lemma {:induction false} MergeFilesExtends(catalogue: seq<TagType>, personal: Personal, texts: seq<Result<seq<byte>>>,
                                             decode: Utf8Decoder)
    ensures Extends(catalogue, personal, MergeFiles(catalogue, personal, texts, decode).0)
    decreases |texts|
  {
    if |texts| > 0 {
      var next := MergeStep(catalogue, personal, texts[0], decode).0;
      MergeFilesExtends(catalogue, next, texts[1..], decode);
      ExtendsTrans(catalogue, personal, next, MergeFiles(catalogue, personal, texts, decode).0);
    }
  }

  /** Merging the same read results with parallel catalogues into records
      with the same fields ends the same way, with records that hold the
      same fields. */
  lemma {:induction false} MergeFilesParallel(c: seq<TagType>, d: seq<TagType>, a: Personal, b: Personal,
                                              texts: seq<Result<seq<byte>>>, decode: Utf8Decoder)
    requires Parallel(c, d) && SameFields(a, b)
    ensures MergeFiles(c, a, texts, decode).1 == MergeFiles(d, b, texts, decode).1
    ensures SameFields(MergeFiles(c, a, texts, decode).0, MergeFiles(d, b, texts, decode).0)
    decreases |texts|
  {
    if |texts| > 0 && Decodes(texts[0]) {
      var tlv := Tlv.ParseTlv(texts[0].value).value;
      FitInParallel(c, d, a, b, tlv, decode);
      MergeFilesParallel(c, d, FitIn(c, a, tlv, decode), FitIn(d, b, tlv, decode), texts[1..], decode);
    }
  }

  /** `read_id` with parallel catalogues: on the same read results it ends
      the same way, with the same image and reader, and with records that
      hold the same fields. */
  lemma AssembleParallel(c: seq<TagType>, d: seq<TagType>, id: PersonalId, texts: seq<Result<seq<byte>>>,
                         photo: Result<seq<byte>>, decode: Utf8Decoder)
    requires Parallel(c, d)
    ensures var (x, r) := Assemble(c, id, texts, photo, decode);
      var (y, s) := Assemble(d, id, texts, photo, decode);
      r == s && x.image == y.image && x.reader == y.reader && SameFields(x.personal, y.personal)
  {
    MergeFilesParallel(c, d, id.personal, id.personal, texts, decode);
  }

  /** One data file of `read_id`: read it without stripping, decode it and
      merge it into `personal`. The merge stops where the read stops: a
      decoding failure comes after exchanges that all passed. */
  method MergeFile(catalogue: seq<TagType>, v: Variant, t: Transport, before: seq<Apdu>, personal: Personal,
                   file: seq<byte>, decode: Utf8Decoder, ghost card: Card)
    returns (personal': Personal, outcome: Outcome, log: seq<Exchange>)
    requires ReadsProgress(t) && |file| >= 2
    ensures Consistent(t, before, log)
    ensures StopsAt(v, log, outcome)
    ensures Extends(catalogue, personal, personal')
    ensures outcome.Fail? ==> personal' == personal
    ensures ActsAs(t, card) && Known(card, v, file) ==>
      (personal', outcome) == MergeStep(catalogue, personal, CardRead(card, v, file, false), decode)
  {
    var text;
    text, log := ReadRawFile(v, t, before, file, false, card);
    var (merged, verdict) := MergeStep(catalogue, personal, text, decode);
    personal', outcome := merged, verdict;
    if text.Ok? {
      StopsAtChecked(v, log, outcome);
    }
  }

  /** The data files of `read_id`, merged one after the other until one
      fails. */
  method MergeAll(catalogue: seq<TagType>, v: Variant, t: Transport, before: seq<Apdu>, personal: Personal,
                  files: seq<seq<byte>>, decode: Utf8Decoder, ghost card: Card)
    returns (personal': Personal, outcome: Outcome, log: seq<Exchange>)
    requires ReadsProgress(t)
    requires forall i :: 0 <= i < |files| ==> |files[i]| >= 2
    ensures Consistent(t, before, log)
    ensures StopsAt(v, log, outcome)
    ensures Extends(catalogue, personal, personal')
    ensures ActsAs(t, card) && AllKnown(card, v, files) ==>
      (personal', outcome) == MergeFiles(catalogue, personal, CardReads(card, v, files, false), decode)
    decreases |files|
  {
    if |files| == 0 {
      StopsAtChecked(v, [], Pass);
      return personal, Pass, [];
    }
    personal', outcome, log := MergeFile(catalogue, v, t, before, personal, files[0], decode, card);
    if ActsAs(t, card) && AllKnown(card, v, files) {
      assert Known(card, v, files[0]);
      assert AllKnown(card, v, files[1..]) by {
        forall i | 0 <= i < |files[1..]|
          ensures |files[1..][i]| >= 2 && Known(card, v, files[1..][i])
        {
          assert files[1..][i] == files[i + 1];
        }
      }
    }
    if outcome.Fail? {
      return;
    }
    ghost var first := personal';
    var rest;
    personal', outcome, rest := MergeAll(catalogue, v, t, before + Commands(log), personal', files[1..], decode, card);
    assert StopsAt(v, log + rest, outcome) by {
      StopsAtConcat(v, log, rest, outcome);
    }
    log := Append(t, before, log, rest);
    ExtendsTrans(catalogue, personal, first, personal');
  }

  /** `read_id` over a tag catalogue: select the identity application, merge
      the personal, residence and document files in that order, then read
      the photo with its tag stripped. The first failure is returned, and
      whatever was merged before it stays in the record.

      Against any transport the session stops at its first failing exchange
      (`StopsAt`): in particular a Gemalto card's rejection of the SELECT of
      the application ends it at once, with the record unchanged. The record
      only gains catalogued fields, the image only changes on success, and
      the reader stays the same. Against a model card that lacks or serves
      each file, the result is `Assemble` of what the card holds. */
  method ReadIdFrom(catalogue: seq<TagType>, id: PersonalId, t: Transport, before: seq<Apdu>, decode: Utf8Decoder,
                    ghost card: Card)
    returns (id': PersonalId, r: Outcome, log: seq<Exchange>)
    requires ReadsProgress(t)
    ensures Consistent(t, before, log)
    ensures StopsAt(id.reader, log, r)
    ensures id.reader.Gemalto? ==> |log| >= 1 && log[0].command == SelectByNameCommand(IdentityAid)
    ensures id.reader.Gemalto? && Checked(log[0]).Err? ==>
      |log| == 1 && id' == id && r == Fail(Checked(log[0]).error)
    ensures id'.reader == id.reader
    ensures Extends(catalogue, id.personal, id'.personal)
    ensures r.Fail? ==> id'.image == id.image
    ensures ActsAs(t, card) && AllKnown(card, id.reader, DataFiles) && Known(card, id.reader, PhotoFile) ==>
      (id', r) == Assemble(catalogue, id, CardReads(card, id.reader, DataFiles, false),
                           CardRead(card, id.reader, PhotoFile, true), decode)
  {
    var v := id.reader;
    var aid;
    aid, log := SelectAid(v, t, before, card);
    if aid.Err? {
      return id, Fail(aid.error), log;
    }
    ghost var opening := log;
    var personal, outcome, step := MergeAll(catalogue, v, t, before + Commands(log), id.personal, DataFiles, decode, card);
    assert StopsAt(v, log + step, outcome) by {
      StopsAtConcat(v, log, step, outcome);
    }
    log := Append(t, before, log, step);
    assert log[..|opening|] == opening;
    if outcome.Fail? {
      return id.(personal := personal), outcome, log;
    }
    var photo;
    photo, step := ReadRawFile(v, t, before + Commands(log), PhotoFile, true, card);
    assert StopsAt(v, log + step, Verdict(photo)) by {
      StopsAtConcat(v, log, step, Verdict(photo));
    }
    ghost var merged := log;
    log := Append(t, before, log, step);
    assert log[..|merged|] == merged;
    if photo.Err? {
      return id.(personal := personal), Fail(photo.error), log;
    }
    id', r := id.(personal := personal, image := photo.value), Pass;
  }

  /** `read_id` (`src/idreader/reader.rs`), with `ID_TAGS`. What stopping at
      the first failure means for the exchanges: each one before the last
      succeeded, all did when `read_id` passed, and a transport failure or a
      bad status word on the last one is the error it reports. */
  method ReadId(id: PersonalId, t: Transport, before: seq<Apdu>, decode: Utf8Decoder, ghost card: Card)
    returns (id': PersonalId, r: Outcome, log: seq<Exchange>)
    requires ReadsProgress(t)
    ensures Consistent(t, before, log)
    ensures StopsAt(id.reader, log, r)
    ensures forall i :: 0 <= i < |log| - 1 ==> Passed(log[i])
    ensures r.Pass? ==> forall i :: 0 <= i < |log| ==> Passed(log[i])
    ensures |log| > 0 && log[|log| - 1].reply.Err? ==> r == Fail(log[|log| - 1].reply.error)
    ensures id.reader.Gemalto? ==> |log| >= 1 && log[0].command == SelectByNameCommand(IdentityAid)
    ensures id.reader.Gemalto? && Checked(log[0]).Err? ==>
      |log| == 1 && id' == id && r == Fail(Checked(log[0]).error)
    ensures id'.reader == id.reader
    ensures Extends(IdTags, id.personal, id'.personal)
    ensures r.Fail? ==> id'.image == id.image
    ensures ActsAs(t, card) && AllKnown(card, id.reader, DataFiles) && Known(card, id.reader, PhotoFile) ==>
      (id', r) == Assemble(IdTags, id, CardReads(card, id.reader, DataFiles, false),
                           CardRead(card, id.reader, PhotoFile, true), decode)
  {
    id', r, log := ReadIdFrom(IdTags, id, t, before, decode, card);
    StopsAtMeans(id.reader, log, r);
  }

  /** Appending the next operation's exchanges to the session's transcript. */
  method Append(t: Transport, before: seq<Apdu>, log: seq<Exchange>, step: seq<Exchange>) returns (log': seq<Exchange>)
    requires Consistent(t, before, log) && Consistent(t, before + Commands(log), step)
    ensures Consistent(t, before, log') && log' == log + step
  {
    ConsistentConcat(t, before, log, step);
    log' := log + step;
  }
}
