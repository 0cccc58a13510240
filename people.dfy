/** The `Person` record and the `PersonPage` fetcher of core/people.py. The network is a
  * `Site`: for each name, the parsed page at `Url(name)` and the bytes at `ImageUrl(name)`. */
module People {
  import opened Wrappers
  import opened Seqs
  import opened Dicts
  import opened Extract

  type Bytes = seq<bv8>

  const PROFILE_URL := "http://bnu.hiwis.com/People/People_Detail?keyword="
  const IMAGE_URL := "http://bnu.hiwis.com/images/"

  /** The address of a profile page: the fixed prefix, then the name as it is. */
  function Url(name: string): string {
    PROFILE_URL + name
  }

  /** The address of a portrait. */
  function ImageUrl(name: string): string {
    IMAGE_URL + name + ".jpg"
  }

  /** Distinct names have distinct addresses, and no profile address is an image address. */
  lemma UrlsDistinct(a: string, b: string)
    ensures Url(a) == Url(b) <==> a == b
    ensures ImageUrl(a) == ImageUrl(b) <==> a == b
    ensures Url(a) != ImageUrl(b)
  {
    if Url(a) == Url(b) {
      assert a == Url(a)[|PROFILE_URL|..];
    }
    if ImageUrl(a) == ImageUrl(b) {
      assert a == ImageUrl(a)[|IMAGE_URL|..|ImageUrl(a)| - 4];
    }
    assert Url(a)[21] == 'P' && ImageUrl(b)[21] == 'i';
  }

  /** One crawled profile. */
  datatype Person = Person(
    name: string,
    url: string,
    jpg: Bytes,
    relevantPerson: seq<string>,
    introduction: string,
    apartments: seq<string>,
    subjects: seq<string>,
    events: Dict<string, seq<string>>)

  /** What the site serves for one name: the parsed profile page and the portrait bytes. */
  datatype Page = Page(document: Document, image: Bytes)

  type Site = map<string, Page>

  /** What a name the site has no profile for yields: a page without any of the regions. */
  const MISSING := Page(Document(None, None, None, None), [])

  function PageOf(site: Site, name: string): Page {
    if name in site then site[name] else MISSING
  }

  /** `PersonPage(name).data`: the fields are read in the order of the keyword arguments,
    * and the first rule that raises decides the error. */
  function Record(name: string, page: Page): (r: Result<Person, Error>)
    ensures r.Success? <==>
      && RelevantPerson(page.document).Success?
      && Introduction(page.document).Success?
      && Apartments(page.document.body).Success?
      && Subjects(page.document.body).Success?
      && Events(page.document.eventList).Success?
    ensures r.Failure? && RelevantPerson(page.document).Failure? ==>
      r.error == RelevantPerson(page.document).error
    ensures r.Success? ==>
      && r.value.name == name && r.value.url == Url(name) && r.value.jpg == page.image
      && r.value.relevantPerson == RelevantPerson(page.document).value
  {
    var doc := page.document;
    var relevantPerson :- RelevantPerson(doc);
    var introduction :- Introduction(doc);
    var apartments :- Apartments(doc.body);
    var subjects :- Subjects(doc.body);
    var events :- Events(doc.eventList);
    Success(Person(name, Url(name), page.image, relevantPerson, introduction, apartments, subjects, events))
  }

  /** The record the crawl builds for `name`; a name the site does not serve cannot be
    * recorded. */
  function Fetch(site: Site, name: string): (r: Result<Person, Error>)
    ensures name !in site ==> r == Failure(NoRelatedList)
    ensures r.Success? ==> r.value.name == name && r.value.url == Url(name)
  {
    Record(name, PageOf(site, name))
  }

  /** `PersonPage`: a name, its profile address, and the two cached downloads. */
  class PersonPage {
    const site: Site
    const name: string
    const url: string
    var html: Option<Document>
    var jpg: Option<Bytes>
    /** The URLs requested so far, in order. */
    ghost var requests: seq<string>

    /** The caches hold what the site serves, and each URL is requested at most once:
      * exactly when its cache was filled. */
    ghost predicate Valid()
      reads this
    {
      && url == Url(name)
      && (html.Some? ==> html.value == PageOf(site, name).document)
      && (jpg.Some? ==> jpg.value == PageOf(site, name).image)
      && NoDuplicates(requests)
      && (forall u :: u in requests ==> u == url || u == ImageUrl(name))
      && (html.Some? <==> url in requests)
      && (jpg.Some? <==> ImageUrl(name) in requests)
    }

    constructor (site: Site, name: string)
      ensures Valid() && this.site == site && this.name == name && url == Url(name)
      ensures html == None && jpg == None && requests == []
    {
      this.site := site;
      this.name := name;
      url := Url(name);
      html := None;
      jpg := None;
      requests := [];
    }

    /** The `html` property: the parsed page, downloaded on first use. */
    method Html() returns (doc: Document)
      requires Valid()
      modifies this
      ensures Valid() && doc == PageOf(site, name).document && html == Some(doc)
      ensures jpg == old(jpg)
      ensures requests == old(requests) + (if old(html).None? then [url] else [])
    {
      if html.None? {
        UrlsDistinct(name, name);
        requests := requests + [url];
        html := Some(PageOf(site, name).document);
      }
      doc := html.value;
    }

    /** The `jpg` property: the portrait, downloaded on first use. */
    method Jpg() returns (bytes: Bytes)
      requires Valid()
      modifies this
      ensures Valid() && bytes == PageOf(site, name).image && jpg == Some(bytes)
      ensures html == old(html)
      ensures requests == old(requests) + (if old(jpg).None? then [ImageUrl(name)] else [])
    {
      if jpg.None? {
        UrlsDistinct(name, name);
        requests := requests + [ImageUrl(name)];
        jpg := Some(PageOf(site, name).image);
      }
      bytes := jpg.value;
    }

    method RelevantPerson() returns (r: Result<seq<string>, Error>)
      requires Valid()
      modifies this
      ensures Valid() && r == Extract.RelevantPerson(PageOf(site, name).document)
      ensures html.Some? && jpg == old(jpg)
      ensures requests == old(requests) + (if old(html).None? then [url] else [])
    {
      var doc := Html();
      r := Extract.RelevantPerson(doc);
    }

    method Introduction() returns (r: Result<string, Error>)
      requires Valid()
      modifies this
      ensures Valid() && r == Extract.Introduction(PageOf(site, name).document)
      ensures html.Some? && jpg == old(jpg)
      ensures requests == old(requests) + (if old(html).None? then [url] else [])
    {
      var doc := Html();
      r := Extract.Introduction(doc);
    }

    method Apartments() returns (r: Result<seq<string>, Error>)
      requires Valid()
      modifies this
      ensures Valid() && r == Extract.Apartments(PageOf(site, name).document.body)
      ensures html.Some? && jpg == old(jpg)
      ensures requests == old(requests) + (if old(html).None? then [url] else [])
    {
      var doc := Html();
      r := Extract.Apartments(doc.body);
    }

    method Subjects() returns (r: Result<seq<string>, Error>)
      requires Valid()
      modifies this
      ensures Valid() && r == Extract.Subjects(PageOf(site, name).document.body)
      ensures html.Some? && jpg == old(jpg)
      ensures requests == old(requests) + (if old(html).None? then [url] else [])
    {
      var doc := Html();
      r := Extract.Subjects(doc.body);
    }

    /** The `events` property: the grouping loop, then `dict(elements)`. */
    method Events() returns (r: Result<Dict<string, seq<string>>, Error>)
      requires Valid()
      modifies this
      ensures Valid() && r == Extract.Events(PageOf(site, name).document.eventList)
      ensures html.Some? && jpg == old(jpg)
      ensures requests == old(requests) + (if old(html).None? then [url] else [])
    {
      var doc := Html();
      if doc.eventList.None? {
        return Failure(NoEventList);
      }
      var elements := GroupEvents(doc.eventList.value);
      if elements.Failure? {
        return Failure(elements.error);
      }
      r := Success(FromPairs(elements.value));
    }

    /** The `data` property: the record, with each URL downloaded at most once. */
    method Data() returns (r: Result<Person, Error>)
      requires Valid()
      modifies this
      ensures Valid() && r == Record(name, PageOf(site, name))
      ensures html.Some? && jpg.Some?
      ensures requests == old(requests)
        + (if old(jpg).None? then [ImageUrl(name)] else [])
        + (if old(html).None? then [url] else [])
    {
      var bytes := Jpg();
      var relevantPerson :- RelevantPerson();
      var introduction :- Introduction();
      var apartments :- Apartments();
      var subjects :- Subjects();
      var events :- Events();
      r := Success(Person(name, url, bytes, relevantPerson, introduction, apartments, subjects, events));
    }
  }
}
