/**
 * The page's loading sequence: fetch the export through the feed, parse it,
 * extract the records and stop with a message when something fails or the
 * table is empty. Parsing the bytes as XML is a parameter: `None` stands for
 * a document ElementTree cannot parse, `Some(entities)` for the
 * `sanctionEntity` elements of one it can, in document order.
 */
module App {
  import opened Wrappers
  import opened Text
  import opened Feed
  import opened Extraction
  import opened Query

  datatype LoadError =
    | FeedFailed(cause: FeedError)   // resolving or downloading failed; its message is shown
    | ParseFailed                    // the bytes are not well-formed XML
    | MissingColumn(column: string)  // KeyError while post-processing the table
    | NoData                         // "Keine Daten geladen."

  /**
   * Building the table and filling missing countries, as written: a table
   * built from no rows has no columns at all, so selecting the country column
   * raises a KeyError. Otherwise the fill changes nothing, since no country
   * is missing.
   */
  function FrameAsWritten(records: seq<Record>): (r: Result<seq<Record>, LoadError>)
    ensures r.Success? ==> r.value == records && r.value != []
    ensures r.Failure? ==> r.error == MissingColumn("Land") && records == []
  {
    if records == [] then Failure(MissingColumn("Land")) else Success(records)
  }

  /** The emptiness check that follows the table's construction. */
  function CheckNotEmpty(framed: Result<seq<Record>, LoadError>): Result<seq<Record>, LoadError>
  {
    match framed
    case Success(rows) => if rows == [] then Failure(NoData) else Success(rows)
    case Failure(e) => Failure(e)
  }

  /** As written, the "no data" message can never be reached: an empty document fails earlier. */
  lemma NoDataUnreachableAsWritten(records: seq<Record>)
    ensures CheckNotEmpty(FrameAsWritten(records)) != Failure(NoData)
    ensures records == [] ==> CheckNotEmpty(FrameAsWritten(records)) == Failure(MissingColumn("Land"))
  {
  }

  /**
   * Building the table with its columns fixed, so that an empty table still
   * has a country column, followed by the emptiness check.
   */
  function Frame(records: seq<Record>): (r: Result<seq<Record>, LoadError>)
    ensures r == CheckNotEmpty(Success(records))
    ensures r.Failure? <==> records == []
    ensures r.Failure? ==> r.error == NoData
    ensures r.Success? ==> r.value == records
  {
    if records == [] then Failure(NoData) else Success(records)
  }

  /**
   * The loading sequence: a failure at any stage stops it with that stage's
   * error; otherwise the result is one record per entity, in document order,
   * and never empty.
   */
  method Load(feed: seq<Entry>, download: string -> Result<Bytes, string>, parse: Bytes -> Option<seq<Entity>>)
    returns (r: Result<seq<Record>, LoadError>)
    ensures Resolve(feed).Failure? ==> r == Failure(FeedFailed(NoXmlLink))
    ensures Resolve(feed).Success? ==>
      var got := download(Resolve(feed).value);
      if got.Failure? then r == Failure(FeedFailed(DownloadFailed(got.error)))
      else if parse(got.value).None? then r == Failure(ParseFailed)
      else
        var doc := parse(got.value).value;
        if doc == [] then r == Failure(NoData)
        else r.Success? && |r.value| == |doc| && forall i :: 0 <= i < |doc| ==> r.value[i] == ToRecord(doc[i])
    ensures r.Success? ==> r.value != []
  {
    var bytes := FetchXml(feed, download);
    if bytes.Failure? {
      return Failure(FeedFailed(bytes.error));
    }
    var doc := parse(bytes.value);
    if doc.None? {
      return Failure(ParseFailed);
    }
    var records := LadeSanktionen(doc.value);
    r := Frame(records);
  }

  /**
   * The loading sequence as written: the same stages, but the table is built
   * by `FrameAsWritten`, so an empty document ends in the KeyError and the
   * "no data" stop is never reached.
   */
  method LoadAsWritten(feed: seq<Entry>, download: string -> Result<Bytes, string>, parse: Bytes -> Option<seq<Entity>>)
    returns (r: Result<seq<Record>, LoadError>)
    ensures Resolve(feed).Failure? ==> r == Failure(FeedFailed(NoXmlLink))
    ensures Resolve(feed).Success? ==>
      var got := download(Resolve(feed).value);
      if got.Failure? then r == Failure(FeedFailed(DownloadFailed(got.error)))
      else if parse(got.value).None? then r == Failure(ParseFailed)
      else
        var doc := parse(got.value).value;
        if doc == [] then r == Failure(MissingColumn("Land"))
        else r.Success? && |r.value| == |doc| && forall i :: 0 <= i < |doc| ==> r.value[i] == ToRecord(doc[i])
    ensures r != Failure(NoData)
  {
    var bytes := FetchXml(feed, download);
    if bytes.Failure? {
      return Failure(FeedFailed(bytes.error));
    }
    var doc := parse(bytes.value);
    if doc.None? {
      return Failure(ParseFailed);
    }
    var records := LadeSanktionen(doc.value);
    r := CheckNotEmpty(FrameAsWritten(records));
    NoDataUnreachableAsWritten(records);
  }

  // ---------------------------------------------------------------------
  // An end-to-end example

  /** A person in "germany" without a remark. */
  function Person1(): Entity
  {
    Entity(Some("EU.1.1"), [NameAlias(Some("Max Muster"), [])], [SubjectType(Some("person"))],
           [], [Address(Some("germany"))])
  }

  /** An enterprise without an address. */
  function Enterprise2(): Entity
  {
    Entity(Some("EU.2.2"), [NameAlias(Some("Acme Ltd"), [])], [SubjectType(Some("enterprise"))], [], [])
  }

  /** A person without a name alias, in "france". */
  function Nameless3(): Entity
  {
    Entity(Some("EU.3.3"), [], [SubjectType(Some("person"))], [], [Address(Some("france"))])
  }

  lemma ScenarioPerson()
    ensures ToRecord(Person1()) == Record("EU.1.1", "Max Muster", "Person", "Germany", "", Unknown, "", "")
  {
    LowerWords();
    TitleWords();
    var g := "germany";
    assert Strip(g) == g by { StripTrimmed(g); }
    assert Title(g) == "Germany" by {
      assert forall i :: 0 <= i < 7 ==> Title(g)[i] == "Germany"[i];
    }
  }

  lemma ScenarioEnterprise()
    ensures ToRecord(Enterprise2()) == Record("EU.2.2", "Acme Ltd", "Entity", Unknown, "", Unknown, "", "")
  {
    LowerWords();
    TitleWords();
    assert Lower("enterprise") == "enterprise" by {
      assert forall i :: 0 <= i < 10 ==> Lower("enterprise")[i] == "enterprise"[i];
    }
  }

  lemma ScenarioNameless()
    ensures ToRecord(Nameless3()) == Record("EU.3.3", Unknown, "Person", "France", "", Unknown, "", "")
  {
    LowerWords();
    TitleWords();
    var f := "france";
    assert Strip(f) == f by { StripTrimmed(f); }
    assert Title(f) == "France" by {
      assert forall i :: 0 <= i < 6 ==> Title(f)[i] == "France"[i];
    }
  }

  /**
   * The three records carry "Person", "Germany" and no remark; "Entity" and
   * the placeholder country; the placeholder name. Selecting the country
   * "Germany" leaves exactly the first.
   */
  lemma ThreeEntityScenario()
    ensures
      var rs := [ToRecord(Person1()), ToRecord(Enterprise2()), ToRecord(Nameless3())];
      && rs[0].subjectType == "Person" && rs[0].country == "Germany" && rs[0].remark == ""
      && rs[1].subjectType == "Entity" && rs[1].country == Unknown
      && rs[2].name == Unknown
      && CountryFilter(rs, ["Germany"]) == [rs[0]]
  {
    ScenarioPerson();
    ScenarioEnterprise();
    ScenarioNameless();
    var rs := [ToRecord(Person1()), ToRecord(Enterprise2()), ToRecord(Nameless3())];
    var p := (r: Record) => r.country in ["Germany"];
    assert rs[1..][1..][1..] == [];
    assert Filter(p, rs[1..][1..]) == [] by { assert !p(rs[2]); }
    assert Filter(p, rs[1..]) == [] by { assert !p(rs[1]); }
  }
}
