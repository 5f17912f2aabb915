/**
 * Finding the data file in the syndication feed (`fetch_xml`): the feed's
 * entries are scanned in order, and in each entry its enclosures, for one
 * whose declared type is `application/xml`; its `href` is the URL of the
 * XML export. The feed parser and the HTTP download are not modelled: the
 * parsed entries and the download are parameters.
 */
module Feed {
  import opened Wrappers

  /** An enclosure of a feed entry; either attribute may be missing. */
  datatype Enclosure = Enclosure(mediaType: Option<string>, href: Option<string>)

  /** A feed entry; an entry without enclosures has the empty sequence. */
  datatype Entry = Entry(enclosures: seq<Enclosure>)

  datatype FeedError =
    | NoXmlLink                      // no entry yields a usable XML enclosure
    | DownloadFailed(cause: string)  // the request failed or returned an error status

  type Bytes = seq<bv8>

  const XmlMediaType: string := "application/xml"

  /** The text the application shows for each error. */
  function Message(e: FeedError): string
  {
    match e
    case NoXmlLink => "❌ Kein gültiger XML-Link im Feed gefunden!"
    case DownloadFailed(cause) => "❌ Fehler beim Download der XML-Datei: " + cause
  }

  predicate IsXml(e: Enclosure)
  {
    e.mediaType == Some(XmlMediaType)
  }

  /** Python truthiness of an `href`: present and not the empty string. */
  predicate Usable(href: Option<string>)
  {
    href.Some? && href.value != ""
  }

  /** The index of the first XML-typed enclosure of a list, if there is one. */
  function FirstXml(encs: seq<Enclosure>): (r: Option<nat>)
    ensures r.Some? ==> r.value < |encs| && IsXml(encs[r.value])
    ensures r.Some? ==> forall k :: 0 <= k < r.value ==> !IsXml(encs[k])
    ensures r.None? <==> forall k :: 0 <= k < |encs| ==> !IsXml(encs[k])
  {
    if encs == [] then None
    else if IsXml(encs[0]) then Some(0)
    else match FirstXml(encs[1..])
      case Some(j) => Some(j + 1)
      case None => None
  }

  /**
   * What one entry contributes: the `href` of its first XML-typed enclosure
   * when that is usable. The inner loop stops at the first XML-typed
   * enclosure whatever its `href`, so later enclosures of the same entry are
   * never looked at.
   */
  function EntryUrl(e: Entry): Option<string>
  {
    match FirstXml(e.enclosures)
    case Some(j) => if Usable(e.enclosures[j].href) then Some(e.enclosures[j].href.value) else None
    case None => None
  }

  /** The URL the scan settles on: that of the first entry contributing one. */
  function Resolve(feed: seq<Entry>): Result<string, FeedError>
  {
    if feed == [] then Failure(NoXmlLink)
    else if EntryUrl(feed[0]).Some? then Success(EntryUrl(feed[0]).value)
    else Resolve(feed[1..])
  }

  /** The nested scan of `fetch_xml`, with both of its `break`s. */
  method ResolveXmlUrl(feed: seq<Entry>) returns (r: Result<string, FeedError>)
    ensures r == Resolve(feed)
  {
    var xmlUrl: Option<string> := None;
    var i := 0;
    while i < |feed|
      invariant 0 <= i <= |feed|
      invariant !Usable(xmlUrl)
      invariant Resolve(feed) == Resolve(feed[i..])
    {
      var encs := feed[i].enclosures;
      var j := 0;
      while j < |encs|
        invariant 0 <= j <= |encs|
        invariant forall k :: 0 <= k < j ==> !IsXml(encs[k])
      {
        if encs[j].mediaType == Some(XmlMediaType) {
          xmlUrl := encs[j].href;
          break;
        }
        j := j + 1;
      }
      assert feed[i..][0] == feed[i];
      if Usable(xmlUrl) {
        assert EntryUrl(feed[i]) == Some(xmlUrl.value);
        break;
      }
      assert EntryUrl(feed[i]).None?;
      assert feed[i..][1..] == feed[i + 1..];
      i := i + 1;
    }
    if Usable(xmlUrl) {
      r := Success(xmlUrl.value);
    } else {
      r := Failure(NoXmlLink);
    }
  }

  /**
   * `fetch_xml`: resolve the URL, then download it. `download` stands for the
   * shared HTTP session's GET with its timeout and status check; a failure
   * carries the text of the underlying exception.
   */
  method FetchXml(feed: seq<Entry>, download: string -> Result<Bytes, string>) returns (r: Result<Bytes, FeedError>)
    ensures Resolve(feed).Failure? ==> r == Failure(NoXmlLink)
    ensures Resolve(feed).Success? && download(Resolve(feed).value).Success? ==>
              r == Success(download(Resolve(feed).value).value)
    ensures Resolve(feed).Success? && download(Resolve(feed).value).Failure? ==>
              r == Failure(DownloadFailed(download(Resolve(feed).value).error))
  {
    var url := ResolveXmlUrl(feed);
    if url.Failure? {
      return Failure(NoXmlLink);
    }
    var response := download(url.value);
    if response.Failure? {
      r := Failure(DownloadFailed(response.error));
    } else {
      r := Success(response.value);
    }
  }

  // ---------------------------------------------------------------------
  // What the scan finds

  /** An entry contributes `u` exactly when its first XML-typed enclosure carries `u`, non-empty. */
  lemma EntryUrlAt(e: Entry, u: string)
    ensures EntryUrl(e) == Some(u) <==>
      exists j :: 0 <= j < |e.enclosures| && IsXml(e.enclosures[j])
                  && (forall k :: 0 <= k < j ==> !IsXml(e.enclosures[k]))
                  && e.enclosures[j].href == Some(u) && u != ""
  {
    if exists j :: 0 <= j < |e.enclosures| && IsXml(e.enclosures[j])
                   && (forall k :: 0 <= k < j ==> !IsXml(e.enclosures[k]))
                   && e.enclosures[j].href == Some(u) && u != "" {
      var j :| 0 <= j < |e.enclosures| && IsXml(e.enclosures[j])
               && (forall k :: 0 <= k < j ==> !IsXml(e.enclosures[k]))
               && e.enclosures[j].href == Some(u) && u != "";
      assert FirstXml(e.enclosures) == Some(j);
    }
  }

  /** The first entry that contributes a URL decides the result. */
  lemma {:induction false} ResolveFirstContributing(feed: seq<Entry>, i: nat)
    requires i < |feed| && EntryUrl(feed[i]).Some?
    requires forall k :: 0 <= k < i ==> EntryUrl(feed[k]).None?
    ensures Resolve(feed) == Success(EntryUrl(feed[i]).value)
  {
    if i > 0 {
      assert EntryUrl(feed[0]).None?;
      ResolveFirstContributing(feed[1..], i - 1);
    }
  }

  /** A successful result is contributed by some entry that all earlier entries fail to match. */
  lemma {:induction false} ResolveSound(feed: seq<Entry>)
    ensures Resolve(feed).Failure? ==> Resolve(feed).error == NoXmlLink
    ensures Resolve(feed).Success? ==>
      exists i :: 0 <= i < |feed| && EntryUrl(feed[i]) == Some(Resolve(feed).value)
                  && forall k :: 0 <= k < i ==> EntryUrl(feed[k]).None?
  {
    if feed != [] && EntryUrl(feed[0]).None? {
      ResolveSound(feed[1..]);
      if Resolve(feed).Success? {
        var i :| 0 <= i < |feed[1..]| && EntryUrl(feed[1..][i]) == Some(Resolve(feed).value)
                 && forall k :: 0 <= k < i ==> EntryUrl(feed[1..][k]).None?;
        assert EntryUrl(feed[i + 1]) == Some(Resolve(feed).value);
        assert forall k :: 0 <= k < i + 1 ==> EntryUrl(feed[k]).None? by {
          forall k | 0 <= k < i + 1 ensures EntryUrl(feed[k]).None? {
            if k > 0 { assert feed[k] == feed[1..][k - 1]; }
          }
        }
      }
    }
  }

  /** The scan fails exactly when no entry contributes a URL. */
  lemma {:induction false} ResolveFailsIff(feed: seq<Entry>)
    ensures Resolve(feed).Failure? <==> forall i :: 0 <= i < |feed| ==> EntryUrl(feed[i]).None?
  {
    if feed != [] {
      ResolveFailsIff(feed[1..]);
      assert forall i :: 1 <= i < |feed| ==> feed[i] == feed[1..][i - 1];
    }
  }

  /** A returned URL is never empty and is the `href` of an XML-typed enclosure of the feed. */
  lemma ResolvedUrlIsXmlHref(feed: seq<Entry>)
    requires Resolve(feed).Success?
    ensures Resolve(feed).value != ""
    ensures exists i, j :: 0 <= i < |feed| && 0 <= j < |feed[i].enclosures|
                           && IsXml(feed[i].enclosures[j]) && feed[i].enclosures[j].href == Some(Resolve(feed).value)
  {
    ResolveSound(feed);
    var u := Resolve(feed).value;
    var i :| 0 <= i < |feed| && EntryUrl(feed[i]) == Some(u) && forall k :: 0 <= k < i ==> EntryUrl(feed[k]).None?;
    EntryUrlAt(feed[i], u);
  }

  /**
   * When the first XML-typed enclosure of the whole feed (entries first,
   * then enclosures in order) has a usable `href`, the scan returns it,
   * whatever the later enclosures hold.
   */
  lemma ResolveFirstXmlEnclosure(feed: seq<Entry>, i: nat, j: nat)
    requires i < |feed| && j < |feed[i].enclosures| && IsXml(feed[i].enclosures[j])
    requires Usable(feed[i].enclosures[j].href)
    requires forall k, m :: 0 <= k < i && 0 <= m < |feed[k].enclosures| ==> !IsXml(feed[k].enclosures[m])
    requires forall m :: 0 <= m < j ==> !IsXml(feed[i].enclosures[m])
    ensures Resolve(feed) == Success(feed[i].enclosures[j].href.value)
  {
    forall k | 0 <= k < i ensures EntryUrl(feed[k]).None? {
      assert FirstXml(feed[k].enclosures).None?;
    }
    assert FirstXml(feed[i].enclosures) == Some(j);
    ResolveFirstContributing(feed, i);
  }

  /** Without any XML-typed enclosure the scan fails, and then no URL is ever downloaded. */
  lemma ResolveWithoutXml(feed: seq<Entry>)
    requires forall k, m :: 0 <= k < |feed| && 0 <= m < |feed[k].enclosures| ==> !IsXml(feed[k].enclosures[m])
    ensures Resolve(feed) == Failure(NoXmlLink)
  {
    forall k | 0 <= k < |feed| ensures EntryUrl(feed[k]).None? {
      assert FirstXml(feed[k].enclosures).None?;
    }
    ResolveFailsIff(feed);
    ResolveSound(feed);
  }

  /**
   * An entry whose first XML-typed enclosure has no `href` is given up as a
   * whole: a second XML-typed enclosure of the same entry is not used.
   */
  lemma FirstXmlWithoutHrefSkipsEntry(second: string)
    ensures Resolve([Entry([Enclosure(Some(XmlMediaType), None), Enclosure(Some(XmlMediaType), Some(second))])])
            == Failure(NoXmlLink)
  {
  }
}
