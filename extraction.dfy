/**
 * `lade_sanktionen`: every `sanctionEntity` of the export, in document order,
 * becomes one flat record of eight text fields. Each field falls back to a
 * default on its own when the element or attribute it reads is missing.
 *
 * The XML tree is given already parsed and restricted to the export's
 * namespace. A child list holds the children of one tag in document order,
 * so the element that ElementTree's `find` returns is that list's first
 * element. An attribute is an `Option`.
 */
module Extraction {
  import opened Wrappers
  import opened Text

  /** An element whose text is the only thing read from it; `None` when it has no text. */
  datatype TextElement = TextElement(text: Option<string>)

  datatype NameAlias = NameAlias(wholeName: Option<string>, remarks: seq<TextElement>)

  datatype SubjectType = SubjectType(code: Option<string>)

  datatype Regulation = Regulation(publicationDate: Option<string>, programme: Option<string>,
                                   publicationUrls: seq<TextElement>)

  datatype Address = Address(countryDescription: Option<string>)

  datatype Entity = Entity(euReferenceNumber: Option<string>,
                           nameAliases: seq<NameAlias>,
                           subjectTypes: seq<SubjectType>,
                           regulations: seq<Regulation>,
                           addresses: seq<Address>)

  /** One row of the table, its columns in the order the application builds them. */
  datatype Record = Record(referenceNumber: string,  // EU-Referenznummer
                           name: string,             // Name
                           subjectType: string,      // Typ
                           country: string,          // Land
                           publicationDate: string,  // Publikationsdatum
                           programme: string,        // Programm
                           remark: string,           // Bemerkung
                           publicationUrl: string)   // Publikations-URL

  /** The placeholder for a missing value. */
  const Unknown: string := "Unbekannt"

  function First<T>(s: seq<T>): Option<T>
  {
    if s == [] then None else Some(s[0])
  }

  function ReferenceNumberOf(e: Entity): string
  {
    e.euReferenceNumber.GetOr(Unknown)
  }

  function NameOf(e: Entity): string
  {
    match First(e.nameAliases)
    case Some(alias) => alias.wholeName.GetOr(Unknown)
    case None => Unknown
  }

  /** `findtext` on the first alias: "" when there is no remark, and also when the remark has no text. */
  function RemarkOf(e: Entity): string
  {
    match First(e.nameAliases)
    case Some(alias) =>
      (match First(alias.remarks)
       case Some(remark) => remark.text.GetOr("")
       case None => "")
    case None => ""
  }

  /** The subject-type code, "Unbekannt" when the element or its attribute is missing. */
  function SubjectCodeOf(e: Entity): string
  {
    match First(e.subjectTypes)
    case Some(t) => t.code.GetOr(Unknown)
    case None => Unknown
  }

  /** The label for a subject-type code. */
  function SubjectLabel(code: string): string
  {
    if Lower(code) == "person" then "Person"
    else if Lower(code) == "enterprise" then "Entity"
    else Title(code)
  }

  function SubjectTypeOf(e: Entity): string
  {
    SubjectLabel(SubjectCodeOf(e))
  }

  function PublicationDateOf(e: Entity): string
  {
    match First(e.regulations)
    case Some(reg) => reg.publicationDate.GetOr("")
    case None => ""
  }

  function ProgrammeOf(e: Entity): string
  {
    match First(e.regulations)
    case Some(reg) => reg.programme.GetOr(Unknown)
    case None => Unknown
  }

  /** The stripped text of the regulation's first publication URL, when it has non-empty text. */
  function PublicationUrlOf(e: Entity): string
  {
    match First(e.regulations)
    case Some(reg) =>
      (match First(reg.publicationUrls)
       case Some(url) => if url.text.Some? && url.text.value != "" then Strip(url.text.value) else ""
       case None => "")
    case None => ""
  }

  /** The title-cased, stripped country description of the first address, or "Unbekannt". */
  function CountryOf(e: Entity): string
  {
    match First(e.addresses)
    case Some(addr) =>
      var desc := Strip(addr.countryDescription.GetOr(""));
      if desc != "" then Title(desc) else Unknown
    case None => Unknown
  }

  /** The record of one entity. */
  function ToRecord(e: Entity): Record
  {
    Record(ReferenceNumberOf(e), NameOf(e), SubjectTypeOf(e), CountryOf(e),
           PublicationDateOf(e), ProgrammeOf(e), RemarkOf(e), PublicationUrlOf(e))
  }

  /** The loop of `lade_sanktionen`: one record appended per entity. */
  method LadeSanktionen(entities: seq<Entity>) returns (records: seq<Record>)
    ensures |records| == |entities|
    ensures forall i :: 0 <= i < |entities| ==> records[i] == ToRecord(entities[i])
  {
    records := [];
    var i := 0;
    while i < |entities|
      invariant 0 <= i <= |entities|
      invariant |records| == i
      invariant forall k :: 0 <= k < i ==> records[k] == ToRecord(entities[k])
    {
      records := records + [ToRecord(entities[i])];
      i := i + 1;
    }
  }

  // ---------------------------------------------------------------------
  // Per-field rules

  lemma LowerWords()
    ensures Lower("Person") == Lower("person") == "person"
    ensures Lower("Entity") == Lower("entity") == "entity"
    ensures Lower(Unknown) == "unbekannt"
  {
    assert Lower("Person") == "person" by {
      assert forall i :: 0 <= i < 6 ==> Lower("Person")[i] == "person"[i];
    }
    assert Lower("person") == "person" by {
      assert forall i :: 0 <= i < 6 ==> Lower("person")[i] == "person"[i];
    }
    assert Lower("Entity") == "entity" by {
      assert forall i :: 0 <= i < 6 ==> Lower("Entity")[i] == "entity"[i];
    }
    assert Lower("entity") == "entity" by {
      assert forall i :: 0 <= i < 6 ==> Lower("entity")[i] == "entity"[i];
    }
    assert Lower(Unknown) == "unbekannt" by {
      assert forall i :: 0 <= i < 9 ==> Lower(Unknown)[i] == "unbekannt"[i];
    }
  }

  lemma TitleWords()
    ensures Title("person") == "Person" && Title("entity") == "Entity" && Title(Unknown) == Unknown
  {
    assert Title("person") == "Person" by {
      assert forall i :: 0 <= i < 6 ==> Title("person")[i] == "Person"[i];
    }
    assert Title("entity") == "Entity" by {
      assert forall i :: 0 <= i < 6 ==> Title("entity")[i] == "Entity"[i];
    }
    assert Title(Unknown) == Unknown by {
      assert forall i :: 0 <= i < 9 ==> Title(Unknown)[i] == Unknown[i];
    }
  }

  /**
   * The subject-type label: "Person" exactly for the code "person" in any
   * case, "Entity" exactly for "enterprise" and "entity" in any case (the
   * second through title-casing), and otherwise the title-cased code. Every
   * label is in title case.
   */
  lemma SubjectLabelRules(code: string)
    ensures SubjectLabel(code) == "Person" <==> Lower(code) == "person"
    ensures SubjectLabel(code) == "Entity" <==> Lower(code) == "enterprise" || Lower(code) == "entity"
    ensures Lower(code) != "enterprise" ==> SubjectLabel(code) == Title(code)
    ensures Title(SubjectLabel(code)) == SubjectLabel(code)
  {
    LowerWords();
    TitleWords();
    LowerOfTitle(code);
    TitleIdempotent(code);
    if Lower(code) == "person" {
      TitleIgnoresCase(code, "person");
    } else if Lower(code) == "entity" {
      TitleIgnoresCase(code, "entity");
    }
  }

  /** A missing `subjectType` element or `code` attribute gives "Unbekannt". */
  lemma SubjectTypeMissing(e: Entity)
    requires e.subjectTypes == [] || e.subjectTypes[0].code.None?
    ensures SubjectTypeOf(e) == Unknown
  {
    LowerWords();
    TitleWords();
  }

  /**
   * The country is never empty, is in title case and has no surrounding
   * whitespace. A first address with a description that is not blank gives
   * that description, stripped, up to case; the placeholder comes only from
   * a missing address or a blank or missing description, or from a
   * description that is "unbekannt" in some case.
   */
  lemma CountryRules(e: Entity)
    ensures CountryOf(e) != ""
    ensures Title(CountryOf(e)) == CountryOf(e)
    ensures Strip(CountryOf(e)) == CountryOf(e)
    ensures e.addresses != [] && Strip(e.addresses[0].countryDescription.GetOr("")) != "" ==>
      Lower(CountryOf(e)) == Lower(Strip(e.addresses[0].countryDescription.GetOr("")))
    ensures e.addresses == [] || Strip(e.addresses[0].countryDescription.GetOr("")) == "" ==>
      CountryOf(e) == Unknown
    ensures CountryOf(e) != Unknown ==>
      e.addresses != [] && Strip(e.addresses[0].countryDescription.GetOr("")) != ""
  {
    LowerWords();
    TitleWords();
    if e.addresses != [] {
      var desc := Strip(e.addresses[0].countryDescription.GetOr(""));
      if desc != "" {
        TitleIdempotent(desc);
        LowerOfTitle(desc);
        StripShape(e.addresses[0].countryDescription.GetOr(""));
        TitleKeepsSpaces(desc);
        StripTrimmed(Title(desc));
      }
    }
  }

  /**
   * The publication URL has no surrounding whitespace. It is the stripped
   * text of the first regulation's first `publicationUrl` when that text is
   * present and not empty, and "" otherwise.
   */
  lemma PublicationUrlRules(e: Entity)
    ensures Trimmed(PublicationUrlOf(e))
    ensures e.regulations != [] && e.regulations[0].publicationUrls != []
            && e.regulations[0].publicationUrls[0].text.Some? && e.regulations[0].publicationUrls[0].text.value != "" ==>
      PublicationUrlOf(e) == Strip(e.regulations[0].publicationUrls[0].text.value)
    ensures e.regulations == [] || e.regulations[0].publicationUrls == []
            || e.regulations[0].publicationUrls[0].text.None? || e.regulations[0].publicationUrls[0].text == Some("") ==>
      PublicationUrlOf(e) == ""
    ensures PublicationUrlOf(e) != "" ==>
      e.regulations != [] && e.regulations[0].publicationUrls != []
      && e.regulations[0].publicationUrls[0].text.Some?
      && PublicationUrlOf(e) == Strip(e.regulations[0].publicationUrls[0].text.value)
  {
    if e.regulations != [] && e.regulations[0].publicationUrls != [] {
      var t := e.regulations[0].publicationUrls[0].text;
      if t.Some? {
        StripShape(t.value);
      }
    }
  }

  /**
   * The remaining fields: each is read from the first element of its kind
   * when both that element and the attribute or text are present, and is
   * its own default otherwise; later siblings are never read.
   */
  lemma SimpleFieldRules(e: Entity, moreAliases: seq<NameAlias>, moreRegulations: seq<Regulation>)
    ensures e.euReferenceNumber.Some? ==> ReferenceNumberOf(e) == e.euReferenceNumber.value
    ensures e.euReferenceNumber.None? ==> ReferenceNumberOf(e) == Unknown
    ensures e.nameAliases == [] ==> NameOf(e) == Unknown && RemarkOf(e) == ""
    ensures e.nameAliases != [] && e.nameAliases[0].wholeName.Some? ==> NameOf(e) == e.nameAliases[0].wholeName.value
    ensures e.nameAliases != [] && e.nameAliases[0].wholeName.None? ==> NameOf(e) == Unknown
    ensures e.nameAliases != [] && e.nameAliases[0].remarks != [] && e.nameAliases[0].remarks[0].text.Some? ==>
      RemarkOf(e) == e.nameAliases[0].remarks[0].text.value
    ensures e.nameAliases != [] && (e.nameAliases[0].remarks == [] || e.nameAliases[0].remarks[0].text.None?) ==>
      RemarkOf(e) == ""
    ensures e.regulations == [] ==> PublicationDateOf(e) == "" && ProgrammeOf(e) == Unknown
    ensures e.regulations != [] ==> PublicationDateOf(e) == e.regulations[0].publicationDate.GetOr("")
                                    && ProgrammeOf(e) == e.regulations[0].programme.GetOr(Unknown)
    ensures e.nameAliases != [] ==>
      var e' := e.(nameAliases := e.nameAliases + moreAliases);
      NameOf(e') == NameOf(e) && RemarkOf(e') == RemarkOf(e)
    ensures e.regulations != [] ==>
      var e' := e.(regulations := e.regulations + moreRegulations);
      PublicationDateOf(e') == PublicationDateOf(e) && ProgrammeOf(e') == ProgrammeOf(e)
      && PublicationUrlOf(e') == PublicationUrlOf(e)
  {
  }

  /** An entity with nothing in it still yields a complete record, of placeholders. */
  lemma EmptyEntityRecord()
    ensures ToRecord(Entity(None, [], [], [], [])) == Record(Unknown, Unknown, Unknown, Unknown, "", Unknown, "", "")
  {
    LowerWords();
    TitleWords();
  }
}
