/** The record assembler: the fixed tag catalogue, `PersonalIdItem::new`, and
    `fit_in`, which merges one decoded file into the personal-data record. */
module Record {
  import opened Common
  import Tlv

  /** An entry of the tag catalogue (`PersonalIdTagType`): the numeric tag,
      the human-readable description and the JSON field name. */
  datatype TagType = TagType(id: u16, description: string, jsonId: string)

  /** A decoded field of the record (`PersonalIdItem`). */
  datatype Item = Item(tag: TagType, value: string)

  /** The personal-data mapping, keyed by numeric tag id. */
  type Personal = map<u16, Item>

  /** Text decoding of raw bytes, standing for `std::str::from_utf8`:
      `Some(text)` exactly when the bytes are valid UTF-8. */
  type Utf8Decoder = seq<byte> -> Option<string>

  /** The sentinel entry `ID_TAG_NONE` (`PersonalIdTag::None`, id 0). */
  const TagNone: TagType := TagType(0, "", "")

  /** `ID_TAGS`: every known field, in catalogue order, the sentinel last. */
  const IdTags: seq<TagType> := [
    TagType(1546, "Broj dokumenta", "DocRegNo"),
    TagType(1549, "Datum izdavanja", "IssuingDate"),
    TagType(1550, "Datum isteka", "ExpiryDate"),
    TagType(1551, "Izdato od", "IssuingAuthority"),
    TagType(1558, "JMBG", "PersonalNumber"),
    TagType(1559, "Prezime", "Surname"),
    TagType(1560, "Ime", "GivenName"),
    TagType(1561, "Ime roditelja", "ParentGivenName"),
    TagType(1562, "Pol", "Sex"),
    TagType(1563, "Mesto ro\U{0111}enja", "PlaceOfBirth"),
    TagType(1564, "Op\U{0161}tina ro\U{0111}enja", "CommunityOfBirth"),
    TagType(1565, "Dr\U{017E}ava ro\U{0111}enja", "StateOfBirth"),
    TagType(1566, "Datum ro\U{0111}enja", "DateOfBirth"),
    TagType(1568, "Dr\U{017E}ava", "State"),
    TagType(1569, "Op\U{0161}tina", "Community"),
    TagType(1570, "Mesto", "Place"),
    TagType(1571, "Ulica", "Street"),
    TagType(1572, "Ku\U{0107}ni broj", "HouseNumber"),
    TagType(1573, "Ku\U{0107}na oznaka", "HouseLetter"),
    TagType(1574, "Broj ulaza", "Entrance"),
    TagType(1575, "Sprat broj", "Floor"),
    TagType(1578, "Broj stana", "AppartmentNumber"),
    TagType(1580, "Datum adrese", "AddressDate"),
    TagNone
  ]

  /** The catalogue of the single-file predecessor (`src/idreader.rs`): the
      same ids and field names in the same order, with the descriptions
      spelled without diacritics. */
  const LegacyIdTags: seq<TagType> := [
    TagType(1546, "Broj dokumenta", "DocRegNo"),
    TagType(1549, "Datum izdavanja", "IssuingDate"),
    TagType(1550, "Datum isteka", "ExpiryDate"),
    TagType(1551, "Izdato od", "IssuingAuthority"),
    TagType(1558, "JMBG", "PersonalNumber"),
    TagType(1559, "Prezime", "Surname"),
    TagType(1560, "Ime", "GivenName"),
    TagType(1561, "Ime roditelja", "ParentGivenName"),
    TagType(1562, "Pol", "Sex"),
    TagType(1563, "Mesto rodjenja", "PlaceOfBirth"),
    TagType(1564, "Opstina rodjenja", "CommunityOfBirth"),
    TagType(1565, "Drzava rodjenja", "StateOfBirth"),
    TagType(1566, "Datum rodjenja", "DateOfBirth"),
    TagType(1568, "Drzava", "State"),
    TagType(1569, "Opstina", "Community"),
    TagType(1570, "Mesto", "Place"),
    TagType(1571, "Ulica", "Street"),
    TagType(1572, "Kucni broj", "HouseNumber"),
    TagType(1573, "Kucna oznaka", "HouseLetter"),
    TagType(1574, "Broj ulaza", "Entrance"),
    TagType(1575, "Sprat broj", "Floor"),
    TagType(1578, "Broj stana", "AppartmentNumber"),
    TagType(1580, "Datum adrese", "AddressDate"),
    TagNone
  ]

  /** The text a decoded file holds for tag `k`, if it holds valid text. */
  function Text(tlv: Tlv.TlvMap, decode: Utf8Decoder, k: u16): Option<string> {
    if k in tlv then decode(tlv[k]) else None
  }

  /** `PersonalIdItem::new`: the field for catalogue entry `tag`, present
      exactly when the decoded file has the tag and its bytes are valid text. */
  function NewItem(tag: TagType, tlv: Tlv.TlvMap, decode: Utf8Decoder): (r: Option<Item>)
    ensures r.Some? <==> tag.id in tlv && decode(tlv[tag.id]).Some?
    ensures r.Some? ==> r.value.tag == tag && r.value.value == decode(tlv[tag.id]).value
  {
    if tag.id !in tlv then None
    else match decode(tlv[tag.id])
      case None => None
      case Some(s) => Some(Item(tag, s))
  }

  /** The catalogue entry that decides tag `k`: the last one carrying that id. */
  function Lookup(catalogue: seq<TagType>, k: u16): Option<TagType>
  {
    if |catalogue| == 0 then None
    else if catalogue[|catalogue| - 1].id == k then Some(catalogue[|catalogue| - 1])
    else Lookup(catalogue[..|catalogue| - 1], k)
  }

  /** Tag `k` is taken from the decoded file: it is catalogued and its bytes are valid text. */
  predicate Accepted(catalogue: seq<TagType>, tlv: Tlv.TlvMap, decode: Utf8Decoder, k: u16) {
    Lookup(catalogue, k).Some? && Text(tlv, decode, k).Some?
  }

  /** `fit_in`: walk the catalogue in order and store every field whose bytes
      are valid text, replacing an earlier value for that tag. Tags outside the
      catalogue and tags whose bytes are not text are skipped silently;
      nothing is ever removed. */
  function FitIn(catalogue: seq<TagType>, personal: Personal, tlv: Tlv.TlvMap, decode: Utf8Decoder): (r: Personal)
    ensures forall k :: k in r <==> k in personal || Accepted(catalogue, tlv, decode, k)
    ensures forall k :: k in r ==>
      r[k] == if Accepted(catalogue, tlv, decode, k)
              then Item(Lookup(catalogue, k).value, Text(tlv, decode, k).value)
              else personal[k]
  {
    if |catalogue| == 0 then personal
    else
      var before := FitIn(catalogue[..|catalogue| - 1], personal, tlv, decode);
      var tag := catalogue[|catalogue| - 1];
      match NewItem(tag, tlv, decode)
      case None => before
      case Some(item) => before[item.tag.id := item]
  }

  /** No two catalogue entries share a tag id. */
  predicate DistinctIds(catalogue: seq<TagType>) {
    forall i, j :: 0 <= i < j < |catalogue| ==> catalogue[i].id != catalogue[j].id
  }

  /** In a catalogue without repeated ids, every entry decides its own tag. */
  lemma {:induction false} LookupDistinct(catalogue: seq<TagType>, i: nat)
    requires DistinctIds(catalogue)
    requires i < |catalogue|
    ensures Lookup(catalogue, catalogue[i].id) == Some(catalogue[i])
    decreases |catalogue|
  {
    var last := |catalogue| - 1;
    if i < last {
      assert catalogue[last].id != catalogue[i].id;
      var init := catalogue[..last];
      assert init[i] == catalogue[i];
      assert DistinctIds(init) by {
        forall a, b | 0 <= a < b < |init|
          ensures init[a].id != init[b].id
        {
          assert init[a] == catalogue[a] && init[b] == catalogue[b];
        }
      }
      LookupDistinct(init, i);
    }
  }

  /** Only catalogued ids are ever looked up successfully. */
  lemma {:induction false} LookupFound(catalogue: seq<TagType>, k: u16)
    requires Lookup(catalogue, k).Some?
    ensures Lookup(catalogue, k).value.id == k
    ensures Lookup(catalogue, k).value in catalogue
    decreases |catalogue|
  {
    var last := |catalogue| - 1;
    if catalogue[last].id != k {
      LookupFound(catalogue[..last], k);
    }
  }

  /** The ids of `ID_TAGS` are pairwise different: they increase up to the
      sentinel, which is smaller than all of them. */
  lemma IdTagsDistinct()
    ensures DistinctIds(IdTags)
  {
    var last := |IdTags| - 1;
    var ids := seq(last, k requires 0 <= k < last => IdTags[k].id);
    assert ids == [1546, 1549, 1550, 1551, 1558, 1559, 1560, 1561, 1562, 1563, 1564, 1565,
                   1566, 1568, 1569, 1570, 1571, 1572, 1573, 1574, 1575, 1578, 1580];
    assert IdTags[last].id == 0;
    assert forall k :: 0 <= k < |ids| - 1 ==> ids[k] < ids[k + 1];
    forall i, j | 0 <= i < j < |IdTags|
      ensures IdTags[i].id != IdTags[j].id
    {
      assert IdTags[i].id == ids[i];
      if j < last {
        IncreasingFromAdjacent(ids, i, j);
        assert IdTags[j].id == ids[j];
      }
    }
  }

  /** A sequence increasing at each step increases between any two positions. */
  lemma {:induction false} IncreasingFromAdjacent(s: seq<int>, i: nat, j: nat)
    requires forall k :: 0 <= k < |s| - 1 ==> s[k] < s[k + 1]
    requires i < j < |s|
    ensures s[i] < s[j]
    decreases j - i
  {
    if i + 1 < j {
      IncreasingFromAdjacent(s, i + 1, j);
    }
  }

  /** Merging a file into the record with `ID_TAGS`: each catalogued tag whose
      bytes are valid text is stored under its own catalogue entry with exactly
      that text, including the sentinel id 0. */
  lemma FitInIdTags(personal: Personal, tlv: Tlv.TlvMap, decode: Utf8Decoder, i: nat)
    requires i < |IdTags|
    requires IdTags[i].id in tlv && decode(tlv[IdTags[i].id]).Some?
    ensures var r := FitIn(IdTags, personal, tlv, decode);
      IdTags[i].id in r && r[IdTags[i].id] == Item(IdTags[i], decode(tlv[IdTags[i].id]).value)
  {
    IdTagsDistinct();
    LookupDistinct(IdTags, i);
  }

  /** A tag that is not in `ID_TAGS`, or whose bytes are not valid text, never
      enters the record through a merge, and an entry already there is kept. */
  lemma FitInSkips(personal: Personal, tlv: Tlv.TlvMap, decode: Utf8Decoder, k: u16)
    requires (forall i :: 0 <= i < |IdTags| ==> IdTags[i].id != k) || Text(tlv, decode, k).None?
    ensures var r := FitIn(IdTags, personal, tlv, decode);
      (k in r <==> k in personal) && (k in personal ==> r[k] == personal[k])
  {
    if Lookup(IdTags, k).Some? {
      LookupFound(IdTags, k);
    }
  }

  /** Merging a second file that carries a catalogued tag as text replaces the
      value the first file stored for it. */
  lemma LaterFileOverwrites(personal: Personal, first: Tlv.TlvMap, second: Tlv.TlvMap, decode: Utf8Decoder, i: nat)
    requires i < |IdTags|
    requires Text(second, decode, IdTags[i].id).Some?
    ensures var r := FitIn(IdTags, FitIn(IdTags, personal, first, decode), second, decode);
      IdTags[i].id in r && r[IdTags[i].id].value == Text(second, decode, IdTags[i].id).value
  {
    IdTagsDistinct();
    LookupDistinct(IdTags, i);
  }

  /** Two catalogues list the same ids and field names in the same order;
      only the descriptions may differ. */
  predicate Parallel(c: seq<TagType>, d: seq<TagType>) {
    |c| == |d| && forall i :: 0 <= i < |c| ==> c[i].id == d[i].id && c[i].jsonId == d[i].jsonId
  }

  /** Two records hold the same fields with the same texts under the same
      ids and field names; only the descriptions of their tags may differ. */
  predicate SameFields(a: Personal, b: Personal) {
    a.Keys == b.Keys
    && forall k :: k in a ==> a[k].value == b[k].value && a[k].tag.id == b[k].tag.id && a[k].tag.jsonId == b[k].tag.jsonId
  }

  /** The legacy catalogue parallels `ID_TAGS`, and the descriptions differ in
      exactly the eight entries that carry a diacritic in `ID_TAGS`. */
  lemma LegacyIdTagsParallel()
    ensures Parallel(LegacyIdTags, IdTags)
    ensures forall i :: 0 <= i < |IdTags| ==>
      (LegacyIdTags[i].description != IdTags[i].description <==> i in {9, 10, 11, 12, 13, 14, 17, 18})
  {
  }

  /** The ids of the legacy catalogue are pairwise different as well. */
  lemma LegacyIdTagsDistinct()
    ensures DistinctIds(LegacyIdTags)
  {
    IdTagsDistinct();
    LegacyIdTagsParallel();
  }

  /** Merging the same decoded file with parallel catalogues into records
      with the same fields yields records with the same fields. */
  lemma {:induction false} FitInParallel(c: seq<TagType>, d: seq<TagType>, a: Personal, b: Personal,
                                         tlv: Tlv.TlvMap, decode: Utf8Decoder)
    requires Parallel(c, d) && SameFields(a, b)
    ensures SameFields(FitIn(c, a, tlv, decode), FitIn(d, b, tlv, decode))
    decreases |c|
  {
    if |c| > 0 {
      var n := |c| - 1;
      assert Parallel(c[..n], d[..n]) by {
        forall i | 0 <= i < n
          ensures c[..n][i].id == d[..n][i].id && c[..n][i].jsonId == d[..n][i].jsonId
        {
          assert c[..n][i] == c[i] && d[..n][i] == d[i];
        }
      }
      FitInParallel(c[..n], d[..n], a, b, tlv, decode);
      var x := NewItem(c[n], tlv, decode);
      assert c[n].id == d[n].id && c[n].jsonId == d[n].jsonId;
      if x.Some? {
        SameFieldsInsert(FitIn(c[..n], a, tlv, decode), FitIn(d[..n], b, tlv, decode),
                         x.value, NewItem(d[n], tlv, decode).value);
      }
    }
  }

  /** Storing matching items under one id keeps two records in step. */
  lemma SameFieldsInsert(a: Personal, b: Personal, x: Item, y: Item)
    requires SameFields(a, b)
    requires x.value == y.value && x.tag.id == y.tag.id && x.tag.jsonId == y.tag.jsonId
    ensures SameFields(a[x.tag.id := x], b[y.tag.id := y])
  {
  }
}
