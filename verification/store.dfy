/**
 * The endpoint store (main.go:58-95, 126-137) and the compare-and-persist
 * step of `retrieveAndCompare` (main.go:242-278). The badger database is a
 * map from URL to record; each record carries badger's user-meta byte (the
 * mode flags) and the stored value (the last snapshot).
 */
module Store {
  import opened Wrappers
  import opened Bytes
  import opened Flags
  import opened Normalize
  import opened Differ

  /** The value kept for one URL: its mode byte and its last snapshot. */
  datatype Record = Record(mode: Bits, snapshot: Bytes)

  /** `badger.ErrKeyNotFound`. */
  datatype StoreError = NotFound

  /** The record every add writes: an empty value with the mode byte attached. */
  function Fresh(headersOnly: bool): (r: Record)
    ensures r.snapshot == []
    ensures Has(r.mode, HeadersOnly) == headersOnly
  {
    Record(ModeFor(headersOnly), [])
  }

  /** The store after a batch add: the lines are written in order. */
  function AddAll(records: map<string, Record>, urls: seq<string>, rec: Record): map<string, Record>
    decreases |urls|
  {
    if urls == [] then records
    else AddAll(records, urls[..|urls| - 1], rec)[urls[|urls| - 1] := rec]
  }

  /**
   * A batch add maps every line to the fresh record, whether or not it was
   * tracked before, and leaves every other URL as it was.
   */
  lemma {:induction false} AddAllSpec(records: map<string, Record>, urls: seq<string>, rec: Record)
    ensures AddAll(records, urls, rec).Keys == records.Keys + set u | u in urls
    ensures forall u | u in urls :: AddAll(records, urls, rec)[u] == rec
    ensures forall k | k in records && k !in urls :: AddAll(records, urls, rec)[k] == records[k]
    decreases |urls|
  {
    if urls != [] {
      var init := urls[..|urls| - 1];
      AddAllSpec(records, init, rec);
      assert urls == init + [urls[|urls| - 1]];
    }
  }

  /**
   * The store after the compare step: identical snapshots change nothing; a
   * changed snapshot is written back, with the record's mode byte, only when
   * saving was requested.
   */
  function AfterCompare(records: map<string, Record>, url: string, mode: Bits, bodyOld: Bytes, bodyNew: Bytes, save: bool)
    : (r: map<string, Record>)
    ensures bodyOld == bodyNew || !save ==> r == records
    ensures bodyOld != bodyNew && save ==> url in r && r[url] == Record(mode, bodyNew)
    ensures r.Keys == records.Keys || r.Keys == records.Keys + {url}
    ensures forall k | k in records && k != url :: k in r && r[k] == records[k]
  {
    if bodyOld != bodyNew && save then records[url := Record(mode, bodyNew)] else records
  }

  /**
   * The same step as main.go:269-272 writes it: `tx.Set` stores the new
   * snapshot without re-attaching the mode byte, so the record's user-meta
   * byte becomes 0.
   */
  function AfterCompareAsWritten(records: map<string, Record>, url: string, bodyOld: Bytes, bodyNew: Bytes, save: bool)
    : (r: map<string, Record>)
    ensures bodyOld == bodyNew || !save ==> r == records
    ensures bodyOld != bodyNew && save ==> url in r && r[url] == Record(0, bodyNew)
    ensures r.Keys == records.Keys || r.Keys == records.Keys + {url}
    ensures forall k | k in records && k != url :: k in r && r[k] == records[k]
  {
    if bodyOld != bodyNew && save then records[url := Record(0, bodyNew)] else records
  }

  /**
   * Idempotence: after a pass with saving, the stored record keeps its mode,
   * and a second pass over the same response normalises to exactly the stored
   * snapshot, so it reports no change.
   */
  lemma SecondPassQuiet(records: map<string, Record>, url: string, resp: Response)
    requires url in records
    ensures var rec := records[url];
            var after := AfterCompare(records, url, rec.mode, rec.snapshot, Minified(resp, Has(rec.mode, HeadersOnly)), true);
            && url in after
            && after[url].mode == rec.mode
            && Minified(resp, Has(after[url].mode, HeadersOnly)) == after[url].snapshot
  {
  }

  /**
   * As written, idempotence fails for a headers-only endpoint: after the
   * first saving pass of a freshly added URL, the record has lost its
   * headers-only flag, and the next pass normalises the full response, which
   * never equals the stored headers-only snapshot.
   */
  lemma AsWrittenSecondPassReportsChange(records: map<string, Record>, url: string, resp: Response)
    requires url in records && records[url] == Fresh(true)
    ensures var after := AfterCompareAsWritten(records, url, [], Minified(resp, true), true);
            && url in after
            && !Has(after[url].mode, HeadersOnly)
            && Minified(resp, Has(after[url].mode, HeadersOnly)) != after[url].snapshot
  {
    StartsWithStatusLine(resp, true);
    HeadersOnlyShorter(resp);
  }

  /**
   * A headers-only record never stores body bytes: whatever body the
   * response had, a saving pass leaves the same store, both as written and
   * in the corrected step.
   */
  lemma HeadersOnlyStoresNoBody(records: map<string, Record>, url: string, resp: Response, otherBody: Bytes)
    requires url in records && Has(records[url].mode, HeadersOnly)
    ensures var rec := records[url];
            (AfterCompareAsWritten(records, url, rec.snapshot, Minified(resp, true), true)
             == AfterCompareAsWritten(records, url, rec.snapshot, Minified(resp.(body := otherBody), true), true))
    ensures var rec := records[url];
            (AfterCompare(records, url, rec.mode, rec.snapshot, Minified(resp, true), true)
             == AfterCompare(records, url, rec.mode, rec.snapshot, Minified(resp.(body := otherBody), true), true))
  {
    HeadersOnlyShape(resp, otherBody);
  }

  /** The snapshot store: URL to (mode byte, last snapshot). */
  class EndpointStore {
    var records: map<string, Record>

    constructor ()
      ensures records == map[]
    {
      records := map[];
    }

    /** The number of tracked URLs, as `bucketCount` in main_test.go counts them. */
    function Count(): nat
      reads this
    {
      |records|
    }

    /** `addUrl` for one URL (main.go:84-87): (re)sets the record to an empty snapshot with the mode byte. */
    method AddUrl(url: string, headersOnly: bool)
      modifies this
      ensures records == old(records)[url := Fresh(headersOnly)]
      ensures Count() == old(Count()) + (if url in old(records) then 0 else 1)
    {
      records := records[url := Fresh(headersOnly)];
    }

    /** `addUrl` with `--stdin` (main.go:68-82): one write per input line, in order. */
    method AddUrls(urls: seq<string>, headersOnly: bool)
      modifies this
      ensures records == AddAll(old(records), urls, Fresh(headersOnly))
    {
      for i := 0 to |urls|
        invariant records == AddAll(old(records), urls[..i], Fresh(headersOnly))
      {
        assert urls[..i + 1][..i] == urls[..i];
        records := records[urls[i] := Fresh(headersOnly)];
      }
      assert urls[..|urls|] == urls;
    }

    /** `removeUrl` (main.go:91-95): deleting an absent key is not an error. */
    method RemoveUrl(url: string)
      modifies this
      ensures records == old(records) - {url}
      ensures Count() == old(Count()) - (if url in old(records) then 1 else 0)
    {
      records := records - {url};
    }

    /** `getUrl` (main.go:126-137): the stored snapshot, or NotFound. */
    method GetUrl(url: string) returns (r: Result<Bytes, StoreError>)
      ensures url in records <==> r.Success?
      ensures r.Success? ==> r.value == records[url].snapshot
      ensures r.Failure? ==> r.error == NotFound
    {
      if url in records {
        r := Success(records[url].snapshot);
      } else {
        r := Failure(NotFound);
      }
    }

    /**
     * `retrieveAndCompare` (main.go:242-278) for a record read with `mode` and
     * `bodyOld`; `fetched` is the result of `retrieve`, None when it failed.
     * Returns the diff it renders, if any. The save writes the snapshot
     * as main.go:271 does, without the mode byte.
     */
    method RetrieveAndCompare(url: string, mode: Bits, bodyOld: Bytes, fetched: Option<Response>, save: bool,
                              beautify: bool, beautifier: Beautifier, unified: UnifiedDiff)
      returns (diff: Option<Diff>)
      modifies this
      ensures fetched.None? ==> diff.None? && records == old(records)
      ensures fetched.Some? ==>
        var bodyNew := Minified(fetched.value, Has(mode, HeadersOnly));
        && (diff.Some? <==> bodyOld != bodyNew)
        && (diff.Some? ==> diff.value == HandleDiff(bodyOld, bodyNew, ShouldBeautify(beautify, fetched.value.header), beautifier, unified))
        && records == AfterCompareAsWritten(old(records), url, bodyOld, bodyNew, save)
    {
      if fetched.None? {
        return None;
      }
      var resp := fetched.value;
      var bodyNew := MinifyResponse(resp, Has(mode, HeadersOnly));
      if bodyOld == bodyNew {
        return None;
      }
      var reformat := ShouldBeautify(beautify, resp.header);
      diff := Some(HandleDiff(bodyOld, bodyNew, reformat, beautifier, unified));
      if save {
        records := records[url := Record(0, bodyNew)];
      }
    }
  }

  /** main_test.go TestAdd and TestRemove: 0 URLs, 1 after the add, 0 after the remove. */
  method AddThenRemove(url: string) returns (before: nat, afterAdd: nat, afterRemove: nat)
    ensures before == 0 && afterAdd == 1 && afterRemove == 0
  {
    var store := new EndpointStore();
    before := store.Count();
    store.AddUrl(url, false);
    afterAdd := store.Count();
    store.RemoveUrl(url);
    afterRemove := store.Count();
  }

  /**
   * Add, get, one saving pass, get, delete, get: a fresh URL reads back empty,
   * after the pass it reads back exactly the new snapshot, and after the
   * delete it is not found.
   */
  method Lifecycle(url: string, resp: Response, headersOnly: bool)
    returns (afterAdd: Result<Bytes, StoreError>, afterSave: Result<Bytes, StoreError>, afterDelete: Result<Bytes, StoreError>)
    ensures afterAdd == Success([])
    ensures afterSave == Success(Minified(resp, headersOnly))
    ensures afterDelete == Failure(NotFound)
  {
    var store := new EndpointStore();
    store.AddUrl(url, headersOnly);
    afterAdd := store.GetUrl(url);
    var rec := store.records[url];
    StartsWithStatusLine(resp, headersOnly);
    var _ := store.RetrieveAndCompare(url, rec.mode, rec.snapshot, Some(resp), true, false, t => None, (a, b) => []);
    afterSave := store.GetUrl(url);
    store.RemoveUrl(url);
    afterDelete := store.GetUrl(url);
  }

  /**
   * Two saving passes over an unchanged response: the first reports a change
   * against the fresh record; the second is quiet for a full-mode URL, but
   * reports a change again for a headers-only URL, whose flag the first save
   * dropped.
   */
  method MonitorTwice(url: string, resp: Response, headersOnly: bool, beautifier: Beautifier, unified: UnifiedDiff)
    returns (first: Option<Diff>, second: Option<Diff>)
    ensures first.Some?
    ensures second.None? <==> !headersOnly
  {
    var store := new EndpointStore();
    store.AddUrl(url, headersOnly);
    var rec := store.records[url];
    StartsWithStatusLine(resp, headersOnly);
    first := store.RetrieveAndCompare(url, rec.mode, rec.snapshot, Some(resp), true, true, beautifier, unified);
    rec := store.records[url];
    HeadersOnlyShorter(resp);
    second := store.RetrieveAndCompare(url, rec.mode, rec.snapshot, Some(resp), true, true, beautifier, unified);
  }
}
