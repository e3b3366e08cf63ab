/**
 * The page store (class Repo of src/ji/model.py). The directory of page files
 * is the map `pages` from page id to the stored record of page_<id>.json; the
 * working pointer file and the in-memory copy that set_wp keeps equal to it
 * are the one field `wp`; the event time is read from the clock once, when the
 * store is opened, and is a parameter here.
 */
module Store {
  import opened Wrappers
  import opened Records
  import opened Codec

  /** What an existing store directory holds when a command starts. */
  datatype Disk = Disk(pages: map<int, PageRecord>, wp: int)

  class Repo {
    var pages: map<int, PageRecord>
    var wp: int
    const eventTime: string

    /**
     * Repo(): a store directory that does not exist yet is bootstrapped with
     * wp = 0 and an empty page 0; an existing one is opened as it is.
     */
    constructor (eventTime: string, existing: Option<Disk>)
      ensures this.eventTime == eventTime
      ensures existing.None? ==> wp == 0 && pages == map[0 := EncodePage(EmptyPage(0, eventTime))]
      ensures existing.None? ==> GetPage(0) == Success(Some(EmptyPage(0, eventTime)))
      ensures existing.Some? ==> wp == existing.value.wp && pages == existing.value.pages
    {
      this.eventTime := eventTime;
      if existing.None? {
        wp := 0;
        pages := map[0 := EncodePage(EmptyPage(0, eventTime))];
        PageRoundTrip(EmptyPage(0, eventTime));
      } else {
        wp := existing.value.wp;
        pages := existing.value.pages;
      }
    }

    function GetWp(): int
      reads this
    {
      wp
    }

    /** set_wp(id): the pointer reads back as id; no page changes. */
    method SetWp(id: int)
      modifies this
      ensures GetWp() == id
      ensures pages == old(pages)
    {
      wp := id;
    }

    /**
     * get_page(id): absent exactly when no file is stored for id; otherwise the
     * decoded page, or the error that decoding raises.
     */
    function GetPage(id: int): (r: Result<Option<Page>, DecodeError>)
      reads this
      ensures r == Success(None) <==> id !in pages
      ensures r.Success? && r.value.Some? ==> WellKeyed(r.value.value.taskMap)
      ensures id in pages ==> (r.Failure? <==> DecodePage(pages[id]).Failure?)
    {
      if id !in pages then Success(None)
      else
        match DecodePage(pages[id])
        case Failure(e) => Failure(e)
        case Success(p) => Success(Some(p))
    }

    /**
     * write_page(id, page): overwrites the file for id with the page, or with
     * an empty page stamped with the event time when none is given; no other
     * file and not the pointer changes. What was written reads back.
     */
    method WritePage(id: int, page: Option<Page>)
      modifies this
      ensures wp == old(wp)
      ensures pages == old(pages)[id := EncodePage(if page.None? then EmptyPage(id, eventTime) else page.value)]
      ensures page.None? ==> GetPage(id) == Success(Some(EmptyPage(id, eventTime)))
      ensures page.Some? && WellKeyed(page.value.taskMap) ==> GetPage(id) == Success(page)
      ensures forall j :: j != id ==> GetPage(j) == old(GetPage(j))
    {
      var p := if page.None? then EmptyPage(id, eventTime) else page.value;
      pages := pages[id := EncodePage(p)];
      if WellKeyed(p.taskMap) {
        PageRoundTrip(p);
      }
    }

    /** The page a command works on: the one it names, else the working page. */
    function Resolve(p: Option<int>): int
      reads this
    {
      if p.None? then wp else p.value
    }

    /**
     * Entering get_working_page(p): resolves the page id and loads that page.
     * A decoding error is raised here, before the session's finally clause
     * is armed, so such a session writes nothing.
     */
    method OpenWorkingPage(p: Option<int>) returns (cp: int, page: Result<Option<Page>, DecodeError>)
      ensures cp == Resolve(p)
      ensures page == GetPage(cp)
    {
      cp := Resolve(p);
      page := GetPage(cp);
    }

    /**
     * Leaving get_working_page, on every exit path: a page that was loaded is
     * stamped with the event time and written back under the id it was loaded
     * from, whether or not the caller changed it; an absent page writes nothing.
     */
    method CloseWorkingPage(cp: int, page: Option<Page>)
      modifies this
      ensures wp == old(wp)
      ensures page.None? ==> pages == old(pages)
      ensures page.Some? ==> pages == old(pages)[cp := EncodePage(page.value.(lastModified := eventTime))]
      ensures page.Some? && WellKeyed(page.value.taskMap) ==>
        GetPage(cp) == Success(Some(page.value.(lastModified := eventTime)))
      ensures forall j :: j != cp ==> GetPage(j) == old(GetPage(j))
    {
      if page.Some? {
        var stamped := page.value.(lastModified := eventTime);
        WritePage(cp, Some(stamped));
      }
    }
  }
}
