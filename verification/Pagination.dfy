/** `GET /v1/files`: one request over either backend, and the walk of a client that follows
    `nextCursor` while the store may change between its requests. */
module Pagination {
  import opened Strings
  import opened Order
  import opened Paths
  import opened Keys
  import opened Listing
  import FsList
  import S3List

  datatype StorageType = FS | S3

  datatype ListQuery = ListQuery(storage: StorageType, limit: Option<nat>, startAfter: Option<string>)

  datatype ListResponse = ListResponse(data: seq<FileEntry>, count: nat, nextCursor: Option<string>)

  datatype RouteError =
    | BackendNotConfigured
    | ListLimitTooLarge(cap: nat)
    | InvalidCursor(fault: PathFault)
    | BackendFailed(error: FsList.ListError)

  // Zero stands for the default, so that no page is empty by request.
  function EffectiveLimit(limit: Option<nat>): (r: Result<nat, RouteError>)
    ensures r.Ok? ==> 1 <= r.value <= MAX_LIST_LIMIT
  {
    if limit == None || limit == Some(0) then Ok(DEFAULT_LIST_LIMIT)
    else if limit.value > MAX_LIST_LIMIT then Err(ListLimitTooLarge(MAX_LIST_LIMIT))
    else Ok(limit.value)
  }

  function Respond(files: seq<FileEntry>, limit: nat): ListResponse {
    var count := |files|;
    ListResponse(files, count, if count == limit && count > 0 then Some(files[count - 1].name) else None)
  }

  /** The answer to one request when the store lists as `listing`. */
  function Answer(listing: seq<FileEntry>, limit: Option<nat>, startAfter: Option<string>): Result<ListResponse,
                  RouteError> {
    match EffectiveLimit(limit)
    case Err(e) => Err(e)
    case Ok(n) =>
      if startAfter.Some? && !Accepted(startAfter.value) then Err(InvalidCursor(ValidatePath(startAfter.value).error))
      else Ok(Respond(Page(listing, startAfter, n), n))
  }

  // What a client gets that names this limit: no limit and zero stand for pages of 1000.
  predicate AsksForPagesOf(limit: Option<nat>, n: nat) {
    || (limit == Some(n) && 1 <= n <= 10_000)
    || ((limit == None || limit == Some(0)) && n == 1000)
  }

  lemma LimitIsExact(limit: Option<nat>, n: nat)
    ensures EffectiveLimit(limit) == Ok(n) <==> AsksForPagesOf(limit, n)
    ensures limit.Some? && limit.value > 10_000 ==> EffectiveLimit(limit) == Err(ListLimitTooLarge(10_000))
  {
  }

  /** Which requests are refused, and as what: a limit above 10000 first, then a cursor that the validator
      refuses. */
  lemma RefusalIsExact(listing: seq<FileEntry>, limit: Option<nat>, startAfter: Option<string>)
    ensures
      var answer := Answer(listing, limit, startAfter);
      var tooLarge := limit.Some? && limit.value > 10_000;
      && (tooLarge ==> answer == Err(ListLimitTooLarge(10_000)))
      && (!tooLarge && startAfter.Some? && !Accepted(startAfter.value) ==>
            answer == Err(InvalidCursor(ValidatePath(startAfter.value).error)))
      && (!tooLarge && (startAfter.Some? ==> Accepted(startAfter.value)) ==> answer.Ok?)
  {
    if !(limit.Some? && limit.value > 10_000) {
      LimitIsExact(limit, if limit == None || limit == Some(0) then 1000 else limit.value);
    }
  }

  /** A request that is not refused is answered with a page of the size the client asked for, and with a
      cursor, the last name on it, if and only if the page is full. */
  lemma AnswerIsExact(listing: seq<FileEntry>, limit: Option<nat>, n: nat, startAfter: Option<string>)
    requires NameOrder(listing) && AsksForPagesOf(limit, n) && (startAfter.Some? ==> Accepted(startAfter.value))
    ensures Answer(listing, limit, startAfter).Ok?
    ensures
      var page := Answer(listing, limit, startAfter).value;
      && (exists k :: IsPageAt(page.data, listing, startAfter, n, k)) && page.count == |page.data|
      && (page.nextCursor.Some? <==> |page.data| == n)
      && (page.nextCursor.Some? ==> page.data != [] && page.nextCursor.value == page.data[|page.data| - 1].name)
  {
    LimitIsExact(limit, n);
    var k := AfterIsTail(listing, startAfter);
    assert IsPageAt(Page(listing, startAfter, n), listing, startAfter, n, k);
  }

  // The entries from `k` on are those behind the cursor, and the page holds the first `n` of them, or all.
  ghost predicate IsPageAt(page: seq<FileEntry>, listing: seq<FileEntry>, cursor: Option<string>, n: nat, k: nat) {
    && k <= |listing|
    && (forall i :: 0 <= i < |listing| ==> (k <= i <==> cursor.None? || Less(cursor.value, listing[i].name)))
    && page == if |listing| - k < n then listing[k..] else listing[k..k + n]
  }

  // ---------- the handler ----------

  datatype Bucket = Bucket(server: S3List.Request -> S3List.Response, path: string)

  // What a query asks of the bucket.
  function SearchOf(s3: Bucket, q: ListQuery): S3List.Search
    requires EffectiveLimit(q.limit).Ok?
  {
    S3List.Search(s3.server, s3.path, S3List.FirstRequest(s3.path, q.startAfter), EffectiveLimit(q.limit).value)
  }

  // What is wrong with a query itself.
  function Refusal(q: ListQuery): Option<RouteError> {
    match EffectiveLimit(q.limit)
    case Err(e) => Some(e)
    case Ok(_) =>
      if q.startAfter.Some? && !Accepted(q.startAfter.value)
      then Some(InvalidCursor(ValidatePath(q.startAfter.value).error)) else None
  }

  method ListFiles(q: ListQuery, dir: seq<FsList.DirStep>, s3: Option<Bucket>,
                   ghost place: map<string, nat>, ghost bound: nat)
    returns (r: Result<ListResponse, RouteError>)
    requires s3.Some? ==>
               S3List.Progresses(s3.value.server, S3List.FirstRequest(s3.value.path, q.startAfter), place, bound)
    ensures q.storage.FS? ==>
              var answer := Answer(SortByName(FsList.FilesOf(dir)), q.limit, q.startAfter);
              r == if answer.Ok? && FsList.Fault in dir then Err(BackendFailed(FsList.IoError)) else answer
    ensures q.storage.S3? && s3.None? ==> r == Err(BackendNotConfigured)
    ensures q.storage.S3? && s3.Some? ==> AnswersFromBucket(s3.value, q, r)
  {
    if q.storage.S3? && s3.None? {
      return Err(BackendNotConfigured);
    }
    var limit := EffectiveLimit(q.limit);
    if limit.Err? {
      return Err(limit.error);
    }
    if q.startAfter.Some? {
      var valid := ValidatePath(q.startAfter.value);
      if valid.Err? {
        return Err(InvalidCursor(valid.error));
      }
    }
    var opts := ListOptions(Some(limit.value), q.startAfter);
    var files;
    if q.storage.FS? {
      files := FsList.List(dir, opts);
    } else {
      files := S3List.List(s3.value.server, s3.value.path, opts, place, bound);
    }
    if files.Err? {
      return Err(BackendFailed(files.error));
    }
    r := Ok(Respond(files.value, limit.value));
  }

  // The refusal of the query, or the error of the first request that fails, or the page that the bucket gave.
  ghost predicate AnswersFromBucket(s3: Bucket, q: ListQuery, r: Result<ListResponse, RouteError>) {
    match Refusal(q)
    case Some(e) => r == Err(e)
    case None =>
      var s := SearchOf(s3, q);
      if S3List.Fails(s) then r == Err(BackendFailed(FsList.UpstreamError))
      else r.Ok? && S3List.Returns(s, r.value.data) && r.value == Respond(r.value.data, s.limit)
  }

  /** From a bucket at rest, in whatever pages the server hands it out, the handler answers as a store with
      the bucket's listing does, unless a request fails. */
  lemma BucketAtRestAnswers(s3: Bucket, q: ListQuery, r: Result<ListResponse, RouteError>,
                            bucket: seq<S3List.S3Object>, place: map<string, nat>)
    requires AnswersFromBucket(s3, q, r)
    requires
      var first := S3List.FirstRequest(s3.path, q.startAfter);
      S3List.Serves(s3.server, S3List.Matching(bucket, first), first, place)
    ensures
      var answer := Answer(S3List.EntriesOf(bucket, s3.path), q.limit, q.startAfter);
      r == if answer.Ok? && S3List.Fails(SearchOf(s3, q)) then Err(BackendFailed(FsList.UpstreamError)) else answer
  {
    if Refusal(q).None? && r.Ok? {
      var opts := ListOptions(Some(EffectiveLimit(q.limit).value), q.startAfter);
      S3List.ReturnsThePage(s3.server, s3.path, opts, bucket, place, r.value.data);
    }
  }

  // ---------- the two backends agree ----------

  // An entry without its time, which the two backends keep in formats of their own.
  function Undated(e: FileEntry): FileEntry {
    e.(lastModified := None)
  }

  function UndatedAll(es: seq<FileEntry>): (r: seq<FileEntry>)
    ensures |r| == |es| && forall i :: 0 <= i < |es| ==> r[i] == Undated(es[i])
  {
    seq(|es|, i requires 0 <= i < |es| => Undated(es[i]))
  }

  lemma {:induction false} UndatedAfter(es: seq<FileEntry>, cursor: Option<string>)
    ensures UndatedAll(After(es, cursor)) == After(UndatedAll(es), cursor)
  {
    if es != [] {
      UndatedAfter(es[1..], cursor);
      assert UndatedAll(es)[1..] == UndatedAll(es[1..]);
      UndatedConcat([es[0]], After(es[1..], cursor));
      assert UndatedAll([es[0]]) == [Undated(es[0])];
      AfterStep(es, cursor);
      AfterStep(UndatedAll(es), cursor);
    }
  }

  lemma UndatedConcat(a: seq<FileEntry>, b: seq<FileEntry>)
    ensures UndatedAll(a + b) == UndatedAll(a) + UndatedAll(b)
  {
  }

  lemma UndatedPage(es: seq<FileEntry>, cursor: Option<string>, limit: nat)
    ensures UndatedAll(Page(es, cursor, limit)) == Page(UndatedAll(es), cursor, limit)
  {
    UndatedAfter(es, cursor);
  }

  // The same names, with the same sizes.
  ghost predicate SameFiles(a: seq<FileEntry>, b: seq<FileEntry>) {
    && (forall e :: e in a ==> exists f :: f in b && Undated(f) == Undated(e))
    && (forall f :: f in b ==> exists e :: e in a && Undated(e) == Undated(f))
  }

  /** Holding the same root-level files, a directory and a bucket answer every request with the same
      names and sizes, in the same order, under the same cursor. */
  lemma BackendsAgree(dir: seq<FsList.DirStep>, bucket: seq<S3List.S3Object>, bucketPath: string,
                      cursor: Option<string>, limit: nat)
    requires FsList.NamesOnce(dir) && S3List.KeyOrdered(bucket)
    requires SameFiles(FsList.FilesOf(dir), S3List.EntriesOf(bucket, bucketPath))
    ensures UndatedAll(Page(SortByName(FsList.FilesOf(dir)), cursor, limit))
            == UndatedAll(Page(S3List.EntriesOf(bucket, bucketPath), cursor, limit))
  {
    FsList.FilesAreDistinct(dir);
    SortOrders(FsList.FilesOf(dir));
    S3List.ListingOfBucket(bucket, bucketPath);
    var a, b := SortByName(FsList.FilesOf(dir)), S3List.EntriesOf(bucket, bucketPath);
    UndatedMembers(a, b);
    UndatedMembers(b, a);
    OrderIsUnique(UndatedAll(a), UndatedAll(b));
    UndatedPage(a, cursor, limit);
    UndatedPage(b, cursor, limit);
  }

  lemma UndatedMembers(a: seq<FileEntry>, b: seq<FileEntry>)
    requires forall e :: e in a ==> exists f :: f in b && Undated(f) == Undated(e)
    ensures forall u :: u in UndatedAll(a) ==> u in UndatedAll(b)
  {
    forall u | u in UndatedAll(a)
      ensures u in UndatedAll(b)
    {
      var i :| 0 <= i < |a| && UndatedAll(a)[i] == u;
      assert a[i] in a;
      var f :| f in b && Undated(f) == Undated(a[i]);
      var j :| 0 <= j < |b| && b[j] == f;
      assert UndatedAll(b)[j] == u;
    }
  }

  // ---------- a client's walk ----------

  datatype WalkEnd = Complete | Refused(error: RouteError) | Unfinished

  // One page for every request, an empty one for a refused request.
  datatype Walk = Walk(pages: seq<seq<FileEntry>>, end: WalkEnd)

  function Flatten(pages: seq<seq<FileEntry>>): seq<FileEntry> {
    if pages == [] then [] else pages[0] + Flatten(pages[1..])
  }

  function Entries(w: Walk): seq<FileEntry> {
    Flatten(w.pages)
  }

  lemma FlattenCons(page: seq<FileEntry>, rest: seq<seq<FileEntry>>)
    ensures Flatten([page] + rest) == page + Flatten(rest)
  {
    assert ([page] + rest)[1..] == rest;
  }

  lemma FlattenOne(page: seq<FileEntry>)
    ensures Flatten([page]) == page
  {
    assert [page] + [] == [page];
    FlattenCons(page, []);
  }

  /** Following `nextCursor` from `cursor` on. `stores[i]` is the listing the store has at request `i`;
      the walk is unfinished when it would ask more often than that. */
  function WalkFrom(stores: seq<seq<FileEntry>>, limit: Option<nat>, cursor: Option<string>): Walk {
    if stores == [] then Walk([], Unfinished)
    else
      match Answer(stores[0], limit, cursor)
      case Err(e) => Walk([[]], Refused(e))
      case Ok(page) =>
        if page.nextCursor.None? then Walk([page.data], Complete)
        else
          var rest := WalkFrom(stores[1..], limit, page.nextCursor);
          Walk([page.data] + rest.pages, rest.end)
  }

  // The two ways an answered request continues.
  lemma WalkUnfolds(stores: seq<seq<FileEntry>>, limit: Option<nat>, cursor: Option<string>)
    requires stores != [] && Answer(stores[0], limit, cursor).Ok?
    ensures
      var page := Answer(stores[0], limit, cursor).value;
      var w := WalkFrom(stores, limit, cursor);
      if page.nextCursor.None? then w == Walk([page.data], Complete) && Entries(w) == page.data
      else
        var rest := WalkFrom(stores[1..], limit, page.nextCursor);
        w == Walk([page.data] + rest.pages, rest.end) && Entries(w) == page.data + Entries(rest)
  {
    var page := Answer(stores[0], limit, cursor).value;
    if page.nextCursor.None? {
      FlattenOne(page.data);
    } else {
      FlattenCons(page.data, WalkFrom(stores[1..], limit, page.nextCursor).pages);
    }
  }

  lemma PageReachesCursor(es: seq<FileEntry>, cursor: Option<string>, limit: nat, name: string)
    requires NameOrder(es) && limit >= 1 && HasName(es, name) && IsAfter(cursor, name)
    ensures
      var page := Respond(Page(es, cursor, limit), limit);
      HasName(page.data, name) || (page.nextCursor.Some? && Less(page.nextCursor.value, name))
  {
    var tail, j := BehindCursor(es, cursor, name);
    TakeReaches(tail, j, limit);
  }

  lemma BehindCursor(es: seq<FileEntry>, cursor: Option<string>, name: string)
    returns (tail: seq<FileEntry>, j: nat)
    requires NameOrder(es) && HasName(es, name) && IsAfter(cursor, name)
    ensures After(es, cursor) == tail && NameOrder(tail) && j < |tail| && tail[j].name == name
  {
    var k := AfterIsTail(es, cursor);
    var i :| 0 <= i < |es| && es[i].name == name;
    tail, j := es[k..], i - k;
  }

  lemma TakeReaches(tail: seq<FileEntry>, j: nat, limit: nat)
    requires NameOrder(tail) && j < |tail| && limit >= 1
    ensures
      var page := Respond(Take(tail, limit), limit);
      HasName(page.data, tail[j].name) || (page.nextCursor.Some? && Less(page.nextCursor.value, tail[j].name))
  {
    var page := Take(tail, limit);
    if j < |page| {
      assert page[j].name == tail[j].name;
    }
  }

  lemma OrderedConcat(a: seq<FileEntry>, b: seq<FileEntry>)
    requires NameOrder(a) && NameOrder(b) && a != []
    requires forall e :: e in b ==> Less(a[|a| - 1].name, e.name)
    ensures NameOrder(a + b)
  {
    forall i, j | 0 <= i < |a| && 0 <= j < |b|
      ensures Less(a[i].name, b[j].name)
    {
      assert b[j] in b;
      if i < |a| - 1 {
        Transitive(a[i].name, a[|a| - 1].name, b[j].name);
      }
    }
  }

  // What an answered request reports: a piece of the listing, and its end when there may be more.
  lemma PageOfAnswer(listing: seq<FileEntry>, limit: Option<nat>, cursor: Option<string>)
    requires NameOrder(listing) && Answer(listing, limit, cursor).Ok?
    ensures
      var page := Answer(listing, limit, cursor).value;
      && NameOrder(page.data)
      && (forall e :: e in page.data ==> e in listing && IsAfter(cursor, e.name))
      && (page.nextCursor.Some? ==>
            && page.data != [] && page.data[|page.data| - 1].name == page.nextCursor.value
            && IsAfter(cursor, page.nextCursor.value))
  {
    PageIsOrdered(listing, cursor, EffectiveLimit(limit).value);
    var page := Answer(listing, limit, cursor).value;
    if page.nextCursor.Some? {
      assert page.data[|page.data| - 1] in page.data;
    }
  }

  // Every page holds what its store held at its request.
  ghost predicate PagesFrom(pages: seq<seq<FileEntry>>, stores: seq<seq<FileEntry>>) {
    && |pages| <= |stores|
    && forall i :: 0 <= i < |pages| ==> forall e :: e in pages[i] ==> e in stores[i]
  }

  /** However the store changes between requests, a walk never goes back: its names strictly increase,
      so none comes twice, and each was in the store at the request that reported it. */
  lemma {:induction false} WalkIncreases(stores: seq<seq<FileEntry>>, limit: Option<nat>, cursor: Option<string>)
    requires forall i :: 0 <= i < |stores| ==> NameOrder(stores[i])
    ensures
      var w := WalkFrom(stores, limit, cursor);
      && PagesFrom(w.pages, stores)
      && NameOrder(Entries(w))
      && forall e :: e in Entries(w) ==> IsAfter(cursor, e.name)
  {
    if stores != [] {
      if Answer(stores[0], limit, cursor).Ok? {
        var page := Answer(stores[0], limit, cursor).value;
        PageOfAnswer(stores[0], limit, cursor);
        WalkUnfolds(stores, limit, cursor);
        if page.nextCursor.Some? {
          WalkIncreases(stores[1..], limit, page.nextCursor);
          PageBefore(page.data, WalkFrom(stores[1..], limit, page.nextCursor), stores, cursor, page.nextCursor.value);
        }
      } else {
        FlattenOne([]);
      }
    }
  }

  // A page, and a walk from its last name on.
  lemma PageBefore(page: seq<FileEntry>, rest: Walk, stores: seq<seq<FileEntry>>, cursor: Option<string>, last: string)
    requires page != [] && page[|page| - 1].name == last && NameOrder(page) && IsAfter(cursor, last)
    requires stores != [] && forall e :: e in page ==> e in stores[0] && IsAfter(cursor, e.name)
    requires PagesFrom(rest.pages, stores[1..]) && NameOrder(Entries(rest))
    requires forall e :: e in Entries(rest) ==> Less(last, e.name)
    ensures PagesFrom([page] + rest.pages, stores) && NameOrder(page + Entries(rest))
    ensures forall e :: e in page + Entries(rest) ==> IsAfter(cursor, e.name)
  {
    OrderedConcat(page, Entries(rest));
    PagesFromStep(page, rest.pages, stores);
    BehindBoth(page, Entries(rest), cursor, last);
  }

  lemma PagesFromStep(page: seq<FileEntry>, rest: seq<seq<FileEntry>>, stores: seq<seq<FileEntry>>)
    requires stores != [] && PagesFrom(rest, stores[1..]) && forall e :: e in page ==> e in stores[0]
    ensures PagesFrom([page] + rest, stores)
  {
    var pages := [page] + rest;
    forall i | 1 <= i < |pages|
      ensures forall e :: e in pages[i] ==> e in stores[i]
    {
      assert pages[i] == rest[i - 1] && stores[i] == stores[1..][i - 1];
    }
  }

  lemma BehindBoth(a: seq<FileEntry>, b: seq<FileEntry>, cursor: Option<string>, last: string)
    requires IsAfter(cursor, last)
    requires forall e :: e in a ==> IsAfter(cursor, e.name)
    requires forall e :: e in b ==> Less(last, e.name)
    ensures forall e :: e in a + b ==> IsAfter(cursor, e.name)
  {
    forall e | e in b
      ensures IsAfter(cursor, e.name)
    {
      if cursor.Some? {
        Transitive(cursor.value, last, e.name);
      }
    }
  }

  /** A completed walk misses nothing that stayed: a name in the store at every request is reported,
      and by `WalkIncreases` once. */
  lemma {:induction false} WalkMissesNothing(stores: seq<seq<FileEntry>>, limit: Option<nat>,
                                             cursor: Option<string>, name: string)
    requires forall i :: 0 <= i < |stores| ==> NameOrder(stores[i])
    requires WalkFrom(stores, limit, cursor).end == Complete
    requires forall i :: 0 <= i < |WalkFrom(stores, limit, cursor).pages| <= |stores| ==> HasName(stores[i], name)
    requires IsAfter(cursor, name)
    ensures HasName(Entries(WalkFrom(stores, limit, cursor)), name)
  {
    WalkIncreases(stores, limit, cursor);
    WalkUnfolds(stores, limit, cursor);
    var page := Answer(stores[0], limit, cursor).value;
    PageReachesCursor(stores[0], cursor, EffectiveLimit(limit).value, name);
    if page.nextCursor.Some? {
      var rest := WalkFrom(stores[1..], limit, page.nextCursor);
      if !HasName(page.data, name) {
        WalkIncreases(stores[1..], limit, page.nextCursor);
        assert forall i :: 0 <= i < |rest.pages| ==> stores[1..][i] == stores[i + 1];
        WalkMissesNothing(stores[1..], limit, page.nextCursor, name);
      }
      HasNameInConcat(page.data, Entries(rest), name);
    }
  }

  lemma HasNameInConcat(a: seq<FileEntry>, b: seq<FileEntry>, name: string)
    requires HasName(a, name) || HasName(b, name)
    ensures HasName(a + b, name)
  {
    if i :| 0 <= i < |a| && a[i].name == name {
      assert (a + b)[i].name == name;
    } else {
      var j :| 0 <= j < |b| && b[j].name == name;
      assert (a + b)[|a| + j].name == name;
    }
  }

  // ---------- a walk over a store at rest ----------

  ghost predicate AtRest(stores: seq<seq<FileEntry>>, es: seq<FileEntry>) {
    forall i :: 0 <= i < |stores| ==> stores[i] == es
  }

  // Reading pages of `n` entries from position `at`, entry `i` is the last of a full page.
  predicate FillsPage(i: nat, at: nat, n: nat)
    requires n >= 1 && at <= i
  {
    (i + 1 - at) % n == 0
  }

  ghost predicate PageEndsAccepted(es: seq<FileEntry>, at: nat, n: nat)
    requires n >= 1
  {
    forall i :: at <= i < |es| && FillsPage(i, at, n) ==> Accepted(es[i].name)
  }

  lemma OnePageFurther(x: nat, n: nat)
    requires n >= 1
    ensures x < n ==> x / n == 0 && x % n == x
    ensures x >= n ==> x / n == (x - n) / n + 1 && x % n == (x - n) % n
  {
    if x >= n {
      var q, r := (x - n) / n, (x - n) % n;
      assert x == n * (q + 1) + r by {
        assert n * (q + 1) == n * q + n;
      }
      Quotient(x, n, q + 1, r);
    }
  }

  lemma Quotient(x: nat, n: nat, q: nat, r: nat)
    requires n >= 1 && x == n * q + r && r < n
    ensures x / n == q && x % n == r
  {
    var d := x / n - q;
    assert n * d == r - x % n;
    assert d >= 1 ==> n * d >= n;
    assert d <= -1 ==> n * d <= 0 - n;
  }

  lemma PageEndsStep(es: seq<FileEntry>, at: nat, n: nat)
    requires n >= 1 && at <= |es|
    ensures |es| - at < n ==> PageEndsAccepted(es, at, n)
    ensures |es| - at >= n ==>
              (PageEndsAccepted(es, at, n) <==> Accepted(es[at + n - 1].name) && PageEndsAccepted(es, at + n, n))
  {
    forall i: nat | at <= i
      ensures i < at + n - 1 ==> !FillsPage(i, at, n)
      ensures i == at + n - 1 ==> FillsPage(i, at, n)
      ensures i >= at + n ==> (FillsPage(i, at, n) <==> FillsPage(i, at + n, n))
    {
      OnePageFurther(i + 1 - at, n);
      OnePageFurther(0, n);
    }
  }

  function FullPages(left: nat, n: nat): nat
    requires n >= 1
  {
    if left < n then 0 else 1 + FullPages(left - n, n)
  }

  lemma {:induction false} FullPagesIsQuotient(left: nat, n: nat)
    requires n >= 1
    ensures FullPages(left, n) == left / n
    decreases left
  {
    OnePageFurther(left, n);
    if left >= n {
      FullPagesIsQuotient(left - n, n);
    }
  }

  // What a walk from position `at` comes to.
  ghost predicate WalksThrough(w: Walk, es: seq<FileEntry>, at: nat, n: nat)
    requires n >= 1 && at <= |es|
  {
    && (w.end == Complete <==> PageEndsAccepted(es, at, n))
    && (w.end == Complete ==> Entries(w) == es[at..] && |w.pages| == FullPages(|es| - at, n) + 1)
  }

  lemma WalksThroughStep(w: Walk, rest: Walk, es: seq<FileEntry>, at: nat, n: nat)
    requires n >= 1 && at + n <= |es|
    requires w == Walk([es[at..at + n]] + rest.pages, rest.end)
    requires if Accepted(es[at + n - 1].name) then WalksThrough(rest, es, at + n, n) else rest.end != Complete
    ensures WalksThrough(w, es, at, n)
  {
    PageEndsStep(es, at, n);
    FlattenCons(es[at..at + n], rest.pages);
    assert es[at..] == es[at..at + n] + es[at + n..];
  }

  lemma {:induction false} WalkAtRestFrom(stores: seq<seq<FileEntry>>, es: seq<FileEntry>, limit: Option<nat>,
                                          n: nat, at: nat, cursor: Option<string>)
    requires NameOrder(es) && AtRest(stores, es) && EffectiveLimit(limit) == Ok(n) && at <= |es|
    requires cursor == if at == 0 then None else Some(es[at - 1].name)
    requires cursor.Some? ==> Accepted(cursor.value)
    requires |stores| > FullPages(|es| - at, n)
    ensures WalksThrough(WalkFrom(stores, limit, cursor), es, at, n)
  {
    if |es| - at < n {
      LastPageAtRest(stores, es, limit, n, at, cursor);
    } else {
      var last := es[at + n - 1].name;
      TailAtRest(stores, es);
      if Accepted(last) {
        WalkAtRestFrom(stores[1..], es, limit, n, at + n, Some(last));
      } else {
        RefusedCursor(stores[1..], limit, last);
      }
      FullPageAtRest(stores, es, limit, n, at, cursor);
    }
  }

  lemma TailAtRest(stores: seq<seq<FileEntry>>, es: seq<FileEntry>)
    requires AtRest(stores, es) && stores != []
    ensures AtRest(stores[1..], es)
  {
  }

  lemma FullPageAtRest(stores: seq<seq<FileEntry>>, es: seq<FileEntry>, limit: Option<nat>, n: nat, at: nat,
                       cursor: Option<string>)
    requires NameOrder(es) && AtRest(stores, es) && stores != [] && EffectiveLimit(limit) == Ok(n) && at + n <= |es|
    requires cursor == if at == 0 then None else Some(es[at - 1].name)
    requires cursor.Some? ==> Accepted(cursor.value)
    requires
      var last := es[at + n - 1].name;
      var rest := WalkFrom(stores[1..], limit, Some(last));
      if Accepted(last) then WalksThrough(rest, es, at + n, n) else rest.end != Complete
    ensures WalksThrough(WalkFrom(stores, limit, cursor), es, at, n)
  {
    StepAtRest(stores, es, limit, n, at, cursor);
    var rest := WalkFrom(stores[1..], limit, Some(es[at + n - 1].name));
    WalksThroughStep(WalkFrom(stores, limit, cursor), rest, es, at, n);
  }

  lemma LastPageAtRest(stores: seq<seq<FileEntry>>, es: seq<FileEntry>, limit: Option<nat>, n: nat, at: nat,
                       cursor: Option<string>)
    requires NameOrder(es) && AtRest(stores, es) && stores != []
    requires EffectiveLimit(limit) == Ok(n) && at <= |es| < at + n
    requires cursor == if at == 0 then None else Some(es[at - 1].name)
    requires cursor.Some? ==> Accepted(cursor.value)
    ensures WalksThrough(WalkFrom(stores, limit, cursor), es, at, n)
  {
    StepAtRest(stores, es, limit, n, at, cursor);
    FlattenOne(es[at..]);
    PageEndsStep(es, at, n);
  }

  // One request of a walk over a store at rest.
  lemma StepAtRest(stores: seq<seq<FileEntry>>, es: seq<FileEntry>, limit: Option<nat>, n: nat, at: nat,
                   cursor: Option<string>)
    requires NameOrder(es) && AtRest(stores, es) && stores != [] && EffectiveLimit(limit) == Ok(n) && at <= |es|
    requires cursor == if at == 0 then None else Some(es[at - 1].name)
    requires cursor.Some? ==> Accepted(cursor.value)
    ensures |es| - at < n ==> WalkFrom(stores, limit, cursor) == Walk([es[at..]], Complete)
    ensures |es| - at >= n ==>
              var rest := WalkFrom(stores[1..], limit, Some(es[at + n - 1].name));
              WalkFrom(stores, limit, cursor) == Walk([es[at..at + n]] + rest.pages, rest.end)
  {
    AnswerAtRest(es, limit, n, at, cursor);
  }

  lemma RefusedCursor(stores: seq<seq<FileEntry>>, limit: Option<nat>, name: string)
    requires !Accepted(name)
    ensures WalkFrom(stores, limit, Some(name)).end != Complete
  {
  }

  lemma AnswerAtRest(es: seq<FileEntry>, limit: Option<nat>, n: nat, at: nat, cursor: Option<string>)
    requires NameOrder(es) && EffectiveLimit(limit) == Ok(n) && at <= |es|
    requires cursor == if at == 0 then None else Some(es[at - 1].name)
    requires cursor.Some? ==> Accepted(cursor.value)
    ensures Answer(es, limit, cursor) == Ok(
              if |es| - at < n then ListResponse(es[at..], |es| - at, None)
              else ListResponse(es[at..at + n], n, Some(es[at + n - 1].name)))
  {
    AfterPosition(es, at, cursor);
    RespondFrom(es, at, n);
  }

  lemma RespondFrom(es: seq<FileEntry>, at: nat, n: nat)
    requires n >= 1 && at <= |es|
    ensures Respond(Take(es[at..], n), n) ==
              if |es| - at < n then ListResponse(es[at..], |es| - at, None)
              else ListResponse(es[at..at + n], n, Some(es[at + n - 1].name))
  {
    if |es| - at >= n {
      assert Take(es[at..], n) == es[at..at + n];
    }
  }

  lemma AfterPosition(es: seq<FileEntry>, at: nat, cursor: Option<string>)
    requires NameOrder(es) && at <= |es|
    requires cursor == if at == 0 then None else Some(es[at - 1].name)
    ensures After(es, cursor) == es[at..]
  {
    if at == 0 {
      AfterNothing(es);
    } else {
      AfterNameAt(es, at - 1);
    }
  }

  /** Over a store at rest a walk with pages of `n` completes if and only if every name that ends a full
      page is one the path validator accepts; then it reports exactly the listing, in as many requests as
      there are full pages and one more. */
  lemma WalkAtRest(stores: seq<seq<FileEntry>>, es: seq<FileEntry>, limit: Option<nat>, n: nat)
    requires NameOrder(es) && AtRest(stores, es) && AsksForPagesOf(limit, n) && |stores| > |es| / n
    ensures
      var w := WalkFrom(stores, limit, None);
      && (w.end == Complete <==> PageEndsAccepted(es, 0, n))
      && (w.end == Complete ==> Entries(w) == es && |w.pages| == |es| / n + 1)
  {
    LimitIsExact(limit, n);
    FullPagesIsQuotient(|es|, n);
    WalkAtRestFrom(stores, es, limit, n, 0, None);
  }

  // A full page that ends in a refused name is as far as a walk comes.
  lemma RefusedNameEndsTheWalk(stores: seq<seq<FileEntry>>, es: seq<FileEntry>, limit: Option<nat>, n: nat)
    requires NameOrder(es) && AtRest(stores, es) && AsksForPagesOf(limit, n)
    requires |es| == n && |stores| > |es| / n && !Accepted(es[n - 1].name)
    ensures WalkFrom(stores, limit, None).end != Complete
  {
    OnePageFurther(n, n);
    OnePageFurther(0, n);
    assert FillsPage(n - 1, 0, n);
    WalkAtRest(stores, es, limit, n);
  }

  /** Where the one file is `a b.txt` and pages hold one name, no client comes to the end: the page ends in
      a name that the validator refuses as a cursor. */
  lemma SpaceEndsTheWalk(stores: seq<seq<FileEntry>>, es: seq<FileEntry>, limit: Option<nat>)
    requires limit == Some(1) && |es| == 1 && es[0].name == "a b.txt"
    requires AtRest(stores, es) && |stores| > 1
    ensures WalkFrom(stores, limit, None).end != Complete
  {
    SpaceIsRefused(es[0].name);
    RefusedNameEndsTheWalk(stores, es, limit, limit.value);
  }

  lemma SpaceIsRefused(name: string)
    requires name == "a b.txt"
    ensures !Accepted(name)
  {
    assert name[1] in name && !AllowedByte(name[1]);
  }
}
