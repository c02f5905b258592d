/** `COS::Resource`: a lazy cursor over a paged remote listing. It keeps a buffer of
    classified entries from the most recent page, the per-page directory and file counts,
    and an options hash that carries the continuation fields `context` and `has_more` from
    one page request to the next. */
module Listing {
  import opened Wrappers
  import opened Resources

  /** The options hash (`@more`), keyed by option name. */
  type Options = map<string, Value>

  const ContextKey: string := "context"
  const HasMoreKey: string := "has_more"
  const BucketOptionKey: string := "bucket"

  /** The arguments of one `client.api.list(path, options)` call. */
  datatype Request = Request(path: string, options: Options)

  /** One listing page. A missing field of the reply is Nil. */
  datatype Response = Response(
    infos: seq<RawEntry>,
    dirCount: Value,
    fileCount: Value,
    context: Value,
    hasMore: Value)

  /** `@more[:has_more] == false`: only an explicit false stops fetching; nil, an absent
      key or any other value lets the next page be requested. */
  predicate NoMorePages(options: Options)
  {
    HasMoreKey in options && options[HasMoreKey] == Flag(false)
  }

  /** The request `fetch` sends: the options merged with the bucket's name. */
  function RequestFor(path: string, bucket: Bucket, options: Options): Request
  {
    Request(path, options[BucketOptionKey := Text(bucket.bucketName)])
  }

  /** The options after the given pages were fetched: each fetch overwrites `context`
      and `has_more` with its page's values, so the last page's values are what remain. */
  function CarriedOptions(initial: Options, pages: seq<Response>): Options
  {
    if pages == [] then initial
    else initial[ContextKey := pages[|pages| - 1].context][HasMoreKey := pages[|pages| - 1].hasMore]
  }

  /** All entries of the given pages, page by page, each page in its own order. */
  function AllInfos(pages: seq<Response>): seq<RawEntry>
  {
    if pages == [] then [] else AllInfos(pages[..|pages| - 1]) + pages[|pages| - 1].infos
  }

  lemma AllInfosSnoc(pages: seq<Response>, p: Response)
    ensures AllInfos(pages + [p]) == AllInfos(pages) + p.infos
  {
    assert (pages + [p])[..|pages|] == pages;
  }

  lemma CarriedOptionsSnoc(initial: Options, pages: seq<Response>, p: Response)
    ensures CarriedOptions(initial, pages + [p])
         == CarriedOptions(initial, pages)[ContextKey := p.context][HasMoreKey := p.hasMore]
  {
  }

  /** The last of the given pages had no entries. */
  predicate EndsEmpty(pages: seq<Response>)
  {
    pages != [] && pages[|pages| - 1].infos == []
  }

  /** Every page from index `from` on, except possibly the last, had entries. */
  ghost predicate NonEmptyBefore(pages: seq<Response>, from: nat)
  {
    forall j :: from <= j < |pages| - 1 ==> pages[j].infos != []
  }

  lemma NonEmptyStep(pages: seq<Response>, p: Response, from: nat)
    requires from <= |pages| && NonEmptyBefore(pages, from)
    requires |pages| > from ==> !EndsEmpty(pages)
    ensures NonEmptyBefore(pages + [p], from)
  {
  }

  /** A page is requested only while `has_more` is not false: if none of the pages from
      index `from` on but the last said false, and the options they leave do not say
      false either, one more page keeps that so. */
  lemma MoreStep(initial: Options, pages: seq<Response>, p: Response, from: nat)
    requires from <= |pages|
    requires forall j :: from <= j < |pages| - 1 ==> pages[j].hasMore != Flag(false)
    requires !NoMorePages(CarriedOptions(initial, pages))
    ensures forall j :: from <= j < |pages + [p]| - 1 ==> (pages + [p])[j].hasMore != Flag(false)
  {
  }

  lemma PrefixTrans<T>(a: seq<T>, b: seq<T>, c: seq<T>)
    requires a <= b && b <= c
    ensures a <= c
  {
  }

  lemma ConcatSnoc<T>(a: seq<T>, b: seq<T>, x: T)
    ensures (a + b) + [x] == a + (b + [x])
  {
  }

  class Resource {
    const bucket: Bucket
    const path: string
    /** `bucket.client.api.list`: the remote listing call, a Failure when it raises. */
    const service: Request -> Result<Response, string>
    /** `Util.get_list_path(path, name, flag)`; None stands for the omitted third argument. */
    const listPath: (string, string, Option<bool>) -> string

    var more: Options
    var results: seq<ResourceOperator>
    var dirCount: Value
    var fileCount: Value

    /** The options the cursor was created with. */
    ghost const InitialOptions: Options
    /** Every page received so far, in order. */
    ghost var Pages: seq<Response>
    /** The raw entries behind `results`, position by position. */
    ghost var Buffered: seq<RawEntry>
    /** Every entry that has left the buffer, in order: shifted out by `Next`, or
        discarded by a direct call of `Fetch` on a non-empty buffer. */
    ghost var Consumed: seq<RawEntry>

    /** The path a fetched entry gets: `get_list_path(path, name)` for a directory,
        `get_list_path(path, name, true)` for a file. */
    function EntryPath(e: RawEntry): string
    {
      if e.filesize.None? then listPath(path, e.name, None) else listPath(path, e.name, Some(true))
    }

    /** The request the next `fetch` sends. */
    function PendingRequest(): Request
      reads this
    {
      RequestFor(path, bucket, more)
    }

    /** Each page is the service's reply to the request that carries the options left
        by the pages before it. */
    ghost predicate Chained(pages: seq<Response>)
    {
      pages != [] ==>
        && Chained(pages[..|pages| - 1])
        && service(RequestFor(path, bucket, CarriedOptions(InitialOptions, pages[..|pages| - 1])))
             == Success(pages[|pages| - 1])
    }

    /** The latest page has had at least one of its entries taken out of the buffer. */
    ghost predicate LatestPageDrawn()
      reads this
    {
      Pages != [] && |Buffered| < |Pages[|Pages| - 1].infos|
    }

    ghost predicate Valid()
      reads this
    {
      && |results| == |Buffered|
      && (forall k :: 0 <= k < |results| ==>
            results[k].Classifies(Buffered[k], bucket, EntryPath(Buffered[k])))
      // nothing fetched is lost or repeated: what left the buffer, then the buffer,
      // is every fetched entry in page order
      && Consumed + Buffered == AllInfos(Pages)
      // each fetch overwrote the carried continuation fields
      && more == CarriedOptions(InitialOptions, Pages)
      // each page was the reply to the request carrying the previous page's fields
      && Chained(Pages)
      && (Pages == [] ==> Buffered == [] && dirCount == Number(0) && fileCount == Number(0))
      // the counts and the buffer come from the latest page only
      && (Pages != [] ==>
            var last := Pages[|Pages| - 1];
            && dirCount == last.dirCount && fileCount == last.fileCount
            && |Buffered| <= |last.infos|
            && Buffered == last.infos[|last.infos| - |Buffered|..])
    }

    /** `Resource.new(bucket, path, options)`: an empty buffer and zero counts. */
    constructor (bucket: Bucket, path: string, options: Options,
                 service: Request -> Result<Response, string>,
                 listPath: (string, string, Option<bool>) -> string)
      ensures Valid()
      ensures this.bucket == bucket && this.path == path
      ensures this.service == service && this.listPath == listPath
      ensures more == options && results == []
      ensures dirCount == Number(0) && fileCount == Number(0)
      ensures InitialOptions == options && Pages == [] && Buffered == [] && Consumed == []
    {
      this.bucket := bucket;
      this.path := path;
      this.service := service;
      this.listPath := listPath;
      more := options;
      results := [];
      dirCount := Number(0);
      fileCount := Number(0);
      InitialOptions := options;
      Pages := [];
      Buffered := [];
      Consumed := [];
    }

    /** The `map` in `fetch`: one new resource per entry, in order, each classified by
        whether the entry has a size. */
    method Classify(infos: seq<RawEntry>) returns (batch: seq<ResourceOperator>)
      ensures |batch| == |infos|
      ensures forall k :: 0 <= k < |batch| ==> fresh(batch[k])
      ensures forall k, m :: 0 <= k < m < |batch| ==> batch[k] != batch[m]
      ensures forall k :: 0 <= k < |batch| ==>
                batch[k].Classifies(infos[k], bucket, EntryPath(infos[k]))
      ensures forall k :: 0 <= k < |batch| ==>
                batch[k].mtime == infos[k].mtime && batch[k].bizAttr == infos[k].bizAttr
    {
      batch := [];
      var i := 0;
      while i < |infos|
        invariant 0 <= i <= |infos| && |batch| == i
        invariant forall k :: 0 <= k < i ==> fresh(batch[k])
        invariant forall k, m :: 0 <= k < m < i ==> batch[k] != batch[m]
        invariant forall k :: 0 <= k < i ==>
                    batch[k].Classifies(infos[k], bucket, EntryPath(infos[k]))
        invariant forall k :: 0 <= k < i ==>
                    batch[k].mtime == infos[k].mtime && batch[k].bizAttr == infos[k].bizAttr
      {
        var o := new ResourceOperator.FromEntry(infos[i], bucket, EntryPath(infos[i]));
        batch := batch + [o];
        i := i + 1;
      }
    }

    /** `fetch`: requests a page with the carried options and the bucket's name. On a
        reply it REPLACES the buffer with the page's classified entries, the counts with
        the page's counts, and the carried `context` and `has_more` with the page's; a
        raised error leaves everything as it was. */
    method Fetch() returns (outcome: Outcome<string>)
      requires Valid()
      modifies this
      ensures Valid()
      ensures service(old(PendingRequest())).Failure? ==>
        outcome == Fail(service(old(PendingRequest())).error) && unchanged(this)
      ensures service(old(PendingRequest())).Success? ==>
        var page := service(old(PendingRequest())).value;
        && outcome == Pass
        && Pages == old(Pages) + [page]
        && Buffered == page.infos
        && (forall k :: 0 <= k < |results| ==> fresh(results[k]))
        && (forall k, m :: 0 <= k < m < |results| ==> results[k] != results[m])
        && (forall k :: 0 <= k < |results| ==>
              results[k].mtime == page.infos[k].mtime && results[k].bizAttr == page.infos[k].bizAttr)
        && dirCount == page.dirCount && fileCount == page.fileCount
        && more == old(more)[ContextKey := page.context][HasMoreKey := page.hasMore]
        && Consumed == old(Consumed) + old(Buffered)
    {
      var resp := service(PendingRequest());
      if resp.Failure? {
        return Fail(resp.error);
      }
      var page := resp.value;
      var batch := Classify(page.infos);
      assert page.infos[|page.infos| - |page.infos|..] == page.infos;
      AllInfosSnoc(Pages, page);
      CarriedOptionsSnoc(InitialOptions, Pages, page);
      assert (Pages + [page])[..|Pages|] == Pages;
      results := batch;
      dirCount := page.dirCount;
      fileCount := page.fileCount;
      more := more[ContextKey := page.context];
      more := more[HasMoreKey := page.hasMore];
      Consumed := Consumed + Buffered;
      Buffered := page.infos;
      Pages := Pages + [page];
      outcome := Pass;
    }

    /** `@results.shift` on a non-empty buffer: removes and returns the first resource;
        its entry is the next one consumed. */
    method Shift() returns (head: ResourceOperator)
      requires Valid() && results != []
      modifies this
      ensures Valid()
      ensures head == old(results)[0] && results == old(results)[1..]
      ensures Consumed == old(Consumed) + [old(Buffered)[0]] && Buffered == old(Buffered)[1..]
      ensures head.Classifies(old(Buffered)[0], bucket, EntryPath(old(Buffered)[0]))
      ensures Pages == old(Pages) && more == old(more)
      ensures dirCount == old(dirCount) && fileCount == old(fileCount)
      // the resource comes from the latest page, which has now had an entry taken
      ensures LatestPageDrawn()
    {
      head := results[0];
      assert head.Classifies(Buffered[0], bucket, EntryPath(Buffered[0]));
      assert Consumed + [Buffered[0]] + Buffered[1..] == Consumed + Buffered;
      ghost var last := Pages[|Pages| - 1];
      assert Buffered[1..] == last.infos[|last.infos| - |Buffered| + 1..];
      results := results[1..];
      Consumed := Consumed + [Buffered[0]];
      Buffered := Buffered[1..];
      assert more == old(more) && Pages == old(Pages);
    }

    /** One round of the loop in `next`: when the buffer is empty it fetches a page,
        unless `has_more` is false (`fetch_more`); then it shifts the first buffered
        resource out, or reports the end of the iteration when there is none. */
    method Next() returns (r: Result<Option<ResourceOperator>, string>)
      requires Valid()
      modifies this
      ensures Valid()
      // a page is requested only when the buffer is empty and has_more is not false
      ensures old(results) != [] || NoMorePages(old(more)) ==> Pages == old(Pages)
      ensures old(results) == [] && !NoMorePages(old(more)) &&
              service(old(PendingRequest())).Success? ==>
                Pages == old(Pages) + [service(old(PendingRequest())).value]
      // a failed request is reported and changes nothing
      ensures r.Failure? <==>
        old(results) == [] && !NoMorePages(old(more)) && service(old(PendingRequest())).Failure?
      ensures r.Failure? ==> r.error == service(old(PendingRequest())).error && unchanged(this)
      // the iteration ends when the buffer is still empty after the fetch attempt, which
      // includes an empty page whatever its has_more says
      ensures r == Success(None) <==>
        && old(results) == []
        && (|| NoMorePages(old(more))
            || (service(old(PendingRequest())).Success? &&
                service(old(PendingRequest())).value.infos == []))
      ensures r == Success(None) ==> results == [] && Consumed == old(Consumed)
      ensures r == Success(None) ==>
        NoMorePages(more) || (|Pages| > |old(Pages)| && EndsEmpty(Pages))
      // at most one page is added, and a round that delivers never added an empty one
      ensures Pages == old(Pages) || Pages == old(Pages) + [Pages[|Pages| - 1]]
      ensures r.Success? && r.value.Some? && Pages != old(Pages) ==> !EndsEmpty(Pages)
      // otherwise exactly the next entry in page order is delivered, once
      ensures r.Success? && r.value.Some? ==>
        && |Consumed| == |old(Consumed)| + 1
        && Consumed == old(Consumed) + [Consumed[|old(Consumed)|]]
        && r.value.value.Classifies(Consumed[|old(Consumed)|], bucket,
                                   EntryPath(Consumed[|old(Consumed)|]))
      ensures old(results) != [] ==>
        r == Success(Some(old(results)[0])) && results == old(results)[1..]
      // a delivered resource comes from the latest page, which has had an entry taken
      ensures r.Success? && r.value.Some? ==> LatestPageDrawn()
      // a fetched buffer is new, its resources are distinct, and the one delivered
      // from it has left it
      ensures Pages != old(Pages) ==> forall k :: 0 <= k < |results| ==> fresh(results[k])
      ensures Pages != old(Pages) ==> forall k, m :: 0 <= k < m < |results| ==> results[k] != results[m]
      ensures Pages != old(Pages) && r.Success? && r.value.Some? ==> r.value.value !in results
      // a resource fetched in this round is new and carries its entry's mtime and biz_attr
      ensures old(results) == [] && r.Success? && r.value.Some? ==>
        && fresh(r.value.value)
        && r.value.value.mtime == Consumed[|old(Consumed)|].mtime
        && r.value.value.bizAttr == Consumed[|old(Consumed)|].bizAttr
    {
      if results == [] && !NoMorePages(more) {
        var fetched := Fetch();
        if fetched.Fail? {
          return Failure(fetched.error);
        }
      }
      if results == [] {
        return Success(None);
      }
      var head := Shift();
      return Success(Some(head));
    }

    /** Appending a delivered resource with its entry keeps the two lists in step. */
    lemma DeliveredSnoc(yielded: seq<ResourceOperator>, entries: seq<RawEntry>,
                        o: ResourceOperator, e: RawEntry)
      requires |yielded| == |entries|
      requires forall k :: 0 <= k < |yielded| ==>
                 yielded[k].Classifies(entries[k], bucket, EntryPath(entries[k]))
      requires o.Classifies(e, bucket, EntryPath(e))
      ensures forall k :: 0 <= k < |yielded + [o]| ==>
                (yielded + [o])[k].Classifies((entries + [e])[k], bucket, EntryPath((entries + [e])[k]))
    {
    }

    /** One pass of the loop in `next` together with a block that collects what it is
        given: `Next`, then the resource it gives, if any, appended to what was collected.
        `stop` says that the loop ends here, on an error or because nothing could be
        shifted. */
    method Round(yielded: seq<ResourceOperator>, ghost entries: seq<RawEntry>, ghost start: nat)
      returns (collected: seq<ResourceOperator>, ghost taken: seq<RawEntry>,
               outcome: Outcome<string>, stop: bool)
      requires Valid()
      requires |yielded| == |entries|
      requires forall k :: 0 <= k < |yielded| ==>
                 yielded[k].Classifies(entries[k], bucket, EntryPath(entries[k]))
      requires start <= |Pages| && NonEmptyBefore(Pages, start)
      requires |Pages| > start ==> !EndsEmpty(Pages)
      requires forall j :: start <= j < |Pages| - 1 ==> Pages[j].hasMore != Flag(false)
      modifies this
      ensures Valid()
      ensures |collected| == |taken|
      ensures forall k :: 0 <= k < |collected| ==>
                collected[k].Classifies(taken[k], bucket, EntryPath(taken[k]))
      ensures old(Pages) <= Pages
      ensures stop ==>
        collected == yielded && taken == entries && Consumed == old(Consumed) && results == old(results)
      ensures !stop ==>
        && outcome.Pass? && |collected| == |yielded| + 1 && collected[..|yielded|] == yielded
        && taken == entries + [taken[|entries|]]
        && Consumed == old(Consumed) + [taken[|entries|]]
        && LatestPageDrawn()
      // no empty page is passed over
      ensures NonEmptyBefore(Pages, start)
      // a page is fetched only while has_more is not false
      ensures Pages != old(Pages) ==> !NoMorePages(old(more))
      ensures forall j :: start <= j < |Pages| - 1 ==> Pages[j].hasMore != Flag(false)
      ensures !stop && |Pages| > start ==> !EndsEmpty(Pages)
      ensures outcome.Fail? && |Pages| > start ==> !EndsEmpty(Pages)
      ensures stop && outcome.Pass? ==>
        && results == [] && Consumed == AllInfos(Pages)
        && (NoMorePages(more) || (|Pages| > |old(Pages)| && EndsEmpty(Pages)))
      ensures outcome.Fail? ==>
        && stop && results == [] && !NoMorePages(more)
        && service(PendingRequest()) == Failure(outcome.error)
      // the resource comes from the buffer, or from a page fetched in this pass
      ensures old(results) != [] ==>
        && !stop && Pages == old(Pages)
        && collected[|yielded|] == old(results)[0] && results == old(results)[1..]
      ensures !stop && old(results) == [] ==> Pages != old(Pages)
    {
      var r := Next();
      if Pages != old(Pages) {
        NonEmptyStep(old(Pages), Pages[|Pages| - 1], start);
        MoreStep(InitialOptions, old(Pages), Pages[|Pages| - 1], start);
      }
      if r.Failure? {
        return yielded, entries, Fail(r.error), true;
      }
      if r.value.None? {
        assert Buffered == [] && Consumed + Buffered == Consumed;
        return yielded, entries, Pass, true;
      }
      var o := r.value.value;
      ghost var e := Consumed[|old(Consumed)|];
      DeliveredSnoc(yielded, entries, o, e);
      collected, taken, outcome, stop := yielded + [o], entries + [e], Pass, false;
    }

    /** `Round` with the loop's invariant carried from one pass to the next: `origin`,
        `initial` and `initialResults` are what had been consumed, fetched and buffered
        before the first pass. Until a page is fetched, the buffered resources themselves
        are delivered. */
    method Advance(yielded: seq<ResourceOperator>, ghost entries: seq<RawEntry>,
                   ghost origin: seq<RawEntry>, ghost initial: seq<Response>,
                   ghost initialResults: seq<ResourceOperator>)
      returns (collected: seq<ResourceOperator>, ghost taken: seq<RawEntry>,
               outcome: Outcome<string>, stop: bool)
      requires Valid()
      requires |yielded| == |entries| && Consumed == origin + entries
      requires forall k :: 0 <= k < |yielded| ==>
                 yielded[k].Classifies(entries[k], bucket, EntryPath(entries[k]))
      requires initial <= Pages && NonEmptyBefore(Pages, |initial|)
      requires |Pages| > |initial| ==> !EndsEmpty(Pages)
      requires forall j :: |initial| <= j < |Pages| - 1 ==> Pages[j].hasMore != Flag(false)
      requires |Pages| > |initial| ==> !NoMorePages(CarriedOptions(InitialOptions, initial))
      requires forall k :: 0 <= k < |yielded| && k < |initialResults| ==>
                 yielded[k] == initialResults[k]
      requires Pages == initial ==>
                 |yielded| <= |initialResults| && results == initialResults[|yielded|..]
      requires Pages != initial ==> |initialResults| <= |yielded|
      modifies this
      ensures Valid()
      ensures |collected| == |taken| && Consumed == origin + taken
      ensures forall k :: 0 <= k < |collected| ==>
                collected[k].Classifies(taken[k], bucket, EntryPath(taken[k]))
      ensures stop ==> collected == yielded && results == old(results)
      ensures !stop ==>
        && outcome.Pass? && |collected| == |yielded| + 1 && collected[..|yielded|] == yielded
        && LatestPageDrawn()
      ensures initial <= Pages && NonEmptyBefore(Pages, |initial|)
      // pages were fetched only while has_more was not false
      ensures forall j :: |initial| <= j < |Pages| - 1 ==> Pages[j].hasMore != Flag(false)
      ensures |Pages| > |initial| ==> !NoMorePages(CarriedOptions(InitialOptions, initial))
      ensures !stop && |Pages| > |initial| ==> !EndsEmpty(Pages)
      ensures outcome.Fail? && |Pages| > |initial| ==> !EndsEmpty(Pages)
      ensures stop && outcome.Pass? ==>
        && results == [] && Consumed == AllInfos(Pages)
        && (NoMorePages(more) || (|Pages| > |initial| && EndsEmpty(Pages)))
      ensures outcome.Fail? ==>
        && stop && results == [] && !NoMorePages(more)
        && service(PendingRequest()) == Failure(outcome.error)
      ensures forall k :: 0 <= k < |collected| && k < |initialResults| ==>
                collected[k] == initialResults[k]
      ensures Pages == initial ==>
                |collected| <= |initialResults| && results == initialResults[|collected|..]
      ensures Pages != initial ==> |initialResults| <= |collected|
    {
      ghost var pages := Pages;
      collected, taken, outcome, stop := Round(yielded, entries, |initial|);
      PrefixTrans(initial, pages, Pages);
      if !stop {
        ConcatSnoc(origin, entries, taken[|entries|]);
        if pages == initial && old(results) != [] {
          assert initialResults[|yielded|..][1..] == initialResults[|yielded| + 1..];
        }
      }
    }

    /** The loop of `next` run with a block that collects what it is given and breaks
        after `limit` resources. It ends early, with an empty buffer, the first time no
        resource can be shifted, which happens only when `has_more` is false or a page
        it fetched was empty; once it has yielded `limit` resources it fetches no
        further page.
        Every resource it yields is the next fetched entry in page order, each exactly
        once: first the buffered resources themselves, then those of the pages it
        fetches. A Ruby block runs only after a first round, so the source always has
        limit >= 1; a limit of 0 here runs no round at all. */
    method Each(limit: nat)
      returns (yielded: seq<ResourceOperator>, outcome: Outcome<string>,
               ghost entries: seq<RawEntry>)
      requires Valid()
      modifies this
      ensures Valid()
      ensures |yielded| == |entries| <= limit
      ensures Consumed == old(Consumed) + entries
      ensures forall k :: 0 <= k < |yielded| ==>
                yielded[k].Classifies(entries[k], bucket, EntryPath(entries[k]))
      // the buffered resources are yielded themselves, before any fetched one
      ensures forall k :: 0 <= k < |yielded| && k < |old(results)| ==> yielded[k] == old(results)[k]
      ensures outcome.Pass? && |yielded| < limit ==>
                results == [] && Consumed == AllInfos(Pages)
      // pages are only added, and an early stop without an error happens only when
      // has_more is false or a page fetched here was empty
      ensures old(Pages) <= Pages
      ensures outcome.Pass? && |yielded| < limit ==>
                NoMorePages(more) || (|Pages| > |old(Pages)| && EndsEmpty(Pages))
      // after the last resource taken nothing more is fetched
      ensures outcome.Pass? && |yielded| == limit ==>
                Pages == old(Pages) || LatestPageDrawn()
      // no empty page is passed over: only the last page fetched may be empty, and
      // an empty one ends the loop without an error
      ensures NonEmptyBefore(Pages, |old(Pages)|)
      // pages are fetched only while has_more is not false: none once it was false
      // when the call began, and none after a page that said false
      ensures |Pages| > |old(Pages)| ==> !NoMorePages(old(more))
      ensures forall j :: |old(Pages)| <= j < |Pages| - 1 ==> Pages[j].hasMore != Flag(false)
      ensures outcome.Fail? && |Pages| > |old(Pages)| ==> !EndsEmpty(Pages)
      // an error is the service's failure on the request for the next page
      ensures outcome.Fail? ==>
                && |yielded| < limit && results == [] && !NoMorePages(more)
                && service(PendingRequest()) == Failure(outcome.error)
    {
      yielded, outcome, entries := [], Pass, [];
      var done := false;
      while |yielded| < limit && !done
        invariant Valid()
        invariant |yielded| == |entries| <= limit
        invariant Consumed == old(Consumed) + entries
        invariant forall k :: 0 <= k < |yielded| ==>
                    yielded[k].Classifies(entries[k], bucket, EntryPath(entries[k]))
        invariant forall k :: 0 <= k < |yielded| && k < |old(results)| ==>
                    yielded[k] == old(results)[k]
        invariant Pages == old(Pages) ==>
                    |yielded| <= |old(results)| && results == old(results)[|yielded|..]
        invariant Pages != old(Pages) ==> |old(results)| <= |yielded|
        invariant !done ==> outcome.Pass?
        invariant done ==> |yielded| < limit
        invariant done && outcome.Pass? ==>
                    && results == [] && Consumed == AllInfos(Pages)
                    && (NoMorePages(more) || (|Pages| > |old(Pages)| && EndsEmpty(Pages)))
        invariant !done ==> Pages == old(Pages) || LatestPageDrawn()
        invariant old(Pages) <= Pages
        invariant NonEmptyBefore(Pages, |old(Pages)|)
        invariant |Pages| > |old(Pages)| ==> !NoMorePages(old(more))
        invariant forall j :: |old(Pages)| <= j < |Pages| - 1 ==> Pages[j].hasMore != Flag(false)
        invariant !done && |Pages| > |old(Pages)| ==> !EndsEmpty(Pages)
        invariant outcome.Fail? && |Pages| > |old(Pages)| ==> !EndsEmpty(Pages)
        invariant outcome.Fail? ==>
                    results == [] && !NoMorePages(more) && service(PendingRequest()) == Failure(outcome.error)
        decreases limit - |yielded|, !done
      {
        yielded, entries, outcome, done :=
          Advance(yielded, entries, old(Consumed), old(Pages), old(results));
      }
    }
  }
}
