/** The listing of the S3 backend: pages of keys requested one after another until enough names are
    found or the server has no more. */
module S3List {
  import opened Strings
  import opened Order
  import opened Keys
  import opened Listing
  import opened FsList

  // ---------- the server ----------

  datatype S3Object = S3Object(key: Option<string>, size: Option<int>, lastModified: Option<string>)

  datatype Request = Request(prefix: Option<string>, startAfter: Option<string>, token: Option<string>)

  datatype Response =
    | Reply(contents: seq<S3Object>, truncated: Option<bool>, nextToken: Option<string>)
    | Failure

  ghost predicate KeyOrdered(bucket: seq<S3Object>) {
    && (forall i :: 0 <= i < |bucket| ==> bucket[i].key.Some?)
    && forall i, j :: 0 <= i < j < |bucket| ==> Less(bucket[i].key.value, bucket[j].key.value)
  }

  predicate Matches(obj: S3Object, req: Request) {
    && obj.key.Some?
    && (req.prefix.Some? ==> req.prefix.value <= obj.key.value)
    && (req.startAfter.Some? ==> Less(req.startAfter.value, obj.key.value))
  }

  // The objects of a bucket that a listing request speaks of.
  function Matching(bucket: seq<S3Object>, req: Request): seq<S3Object> {
    if bucket == [] then []
    else (if Matches(bucket[0], req) then [bucket[0]] else []) + Matching(bucket[1..], req)
  }

  /** A reply that continues the listing `all` at `from`: it breaks off where it likes, but a truncated
      reply makes progress and carries a token for its end, and another runs to the end of `all`. */
  ghost predicate ContinuesAt(resp: Response, all: seq<S3Object>, from: nat, place: map<string, nat>) {
    resp.Reply? ==>
      var end := from + |resp.contents|;
      && end <= |all| && resp.contents == all[from..end]
      && if resp.truncated == Some(true)
         then from < end && resp.nextToken.Some? && resp.nextToken.value in place && place[resp.nextToken.value] == end
         else end == |all|
  }

  // Any server that pages through `all`: `place` says where its opaque tokens resume.
  ghost predicate Serves(server: Request -> Response, all: seq<S3Object>, first: Request, place: map<string, nat>) {
    && ContinuesAt(server(first), all, 0, place)
    && forall t :: t in place ==>
         place[t] <= |all| && ContinuesAt(server(Request(first.prefix, None, Some(t))), all, place[t], place)
  }

  function FirstRequest(bucketPath: string, cursor: Option<string>): Request {
    Request(PrefixArg(bucketPath), StartAfterKey(bucketPath, cursor), None)
  }

  // A server that pages through what a listing asks of a bucket at rest.
  ghost predicate ServesBucket(server: Request -> Response, bucketPath: string, opts: ListOptions,
                               bucket: seq<S3Object>, place: map<string, nat>) {
    var first := FirstRequest(bucketPath, opts.startAfter);
    Serves(server, Matching(bucket, first), first, place)
  }

  // ---------- the backend ----------

  function NameOf(obj: S3Object, bucketPath: string): Option<string> {
    if obj.key.None? then None
    else
      var name := StripPrefix(bucketPath, obj.key.value);
      if name.None? || name.value == "" || '/' in name.value then None else name
  }

  function EntryOfObject(obj: S3Object, name: string): FileEntry {
    var size := if obj.size.Some? then obj.size.value else 0;
    FileEntry(name, if size < 0 then 0 else size, obj.lastModified)
  }

  // The root-level entries among some objects, in their order.
  function EntriesOf(objs: seq<S3Object>, bucketPath: string): seq<FileEntry> {
    if objs == [] then []
    else
      var n := |objs| - 1;
      var name := NameOf(objs[n], bucketPath);
      EntriesOf(objs[..n], bucketPath) + if name.Some? then [EntryOfObject(objs[n], name.value)] else []
  }

  // ---------- the turns of the loop ----------

  // What a listing is asked of, and for.
  datatype Search = Search(server: Request -> Response, bucketPath: string, first: Request, limit: nat)

  /** Where the loop stands: about to send a request, behind those it has `asked`, which were answered with
      these `pages`; at its end; or before a request that failed. */
  datatype Turn =
    | Asking(req: Request, asked: seq<Request>, pages: seq<seq<S3Object>>)
    | Ended(asked: seq<Request>, pages: seq<seq<S3Object>>)
    | Broken

  function Objects(pages: seq<seq<S3Object>>): seq<S3Object> {
    if pages == [] then [] else Objects(pages[..|pages| - 1]) + pages[|pages| - 1]
  }

  // The entries on the pages.
  function OnPages(s: Search, pages: seq<seq<S3Object>>): seq<FileEntry> {
    EntriesOf(Objects(pages), s.bucketPath)
  }

  function NextTurn(s: Search, t: Turn): Turn {
    if !t.Asking? then t
    else
      var resp := s.server(t.req);
      if resp.Failure? then Broken else WithReply(s, t, resp)
  }

  function WithReply(s: Search, t: Turn, resp: Response): Turn
    requires t.Asking? && resp.Reply?
  {
    var asked, pages := t.asked + [t.req], t.pages + [resp.contents];
    if |OnPages(s, pages)| < s.limit && resp.truncated == Some(true) && resp.nextToken.Some?
    then Asking(Request(t.req.prefix, None, resp.nextToken), asked, pages)
    else Ended(asked, pages)
  }

  function Turns(s: Search, k: nat): Turn {
    if k == 0 then Asking(s.first, [], []) else NextTurn(s, Turns(s, k - 1))
  }

  /** The server fails a request that the listing comes to before it has enough. */
  ghost predicate Fails(s: Search) {
    exists k: nat :: Turns(s, k) == Broken
  }

  // The test for the limit follows a push, so a limit of zero lets one entry through.
  function Cap(limit: nat): nat {
    if limit == 0 then 1 else limit
  }

  /** The listing comes to its end with these entries. */
  ghost predicate Returns(s: Search, es: seq<FileEntry>) {
    exists k: nat :: Turns(s, k).Ended? && es == Take(OnPages(s, Turns(s, k).pages), Cap(s.limit))
  }

  lemma {:induction false} TurnsStay(s: Search, j: nat, k: nat)
    requires j <= k && !Turns(s, j).Asking?
    ensures Turns(s, k) == Turns(s, j)
  {
    if j < k {
      TurnsStay(s, j, k - 1);
    }
  }

  /** A listing fails or returns one page of entries, and not both. */
  lemma OneOutcome(s: Search, a: seq<FileEntry>, b: seq<FileEntry>)
    requires Returns(s, a)
    ensures !Fails(s) && (Returns(s, b) ==> a == b)
  {
    var j: nat :| Turns(s, j).Ended? && a == Take(OnPages(s, Turns(s, j).pages), Cap(s.limit));
    forall k: nat
      ensures Turns(s, k) != Broken && (Turns(s, k).Ended? ==> Turns(s, k) == Turns(s, j))
    {
      if j <= k {
        TurnsStay(s, j, k);
      } else if !Turns(s, k).Asking? {
        TurnsStay(s, k, j);
      }
    }
  }

  // ---------- the loop ----------

  ghost predicate MovesOn(resp: Response, at: nat, place: map<string, nat>, bound: nat) {
    resp.Reply? && resp.truncated == Some(true) && resp.nextToken.Some? ==>
      resp.nextToken.value in place && at < place[resp.nextToken.value] <= bound
  }

  /** Every token stands further on than the one before, up to some bound. From a server that hands out new
      tokens for ever the loop need not end. */
  ghost predicate Progresses(server: Request -> Response, first: Request, place: map<string, nat>, bound: nat) {
    && MovesOn(server(first), 0, place, bound)
    && forall t :: t in place ==> MovesOn(server(Request(first.prefix, None, Some(t))), place[t], place, bound)
  }

  method List(server: Request -> Response, bucketPath: string, opts: ListOptions,
              ghost place: map<string, nat>, ghost bound: nat)
    returns (r: Result<seq<FileEntry>, ListError>)
    requires Progresses(server, FirstRequest(bucketPath, opts.startAfter), place, bound)
    ensures
      var s := Search(server, bucketPath, FirstRequest(bucketPath, opts.startAfter), LimitOf(opts));
      if r.Err? then r.error == UpstreamError && Fails(s) else !Fails(s) && Returns(s, r.value)
    ensures r.Ok? && LimitOf(opts) >= 1 ==>
              forall bucket, p :: ServesBucket(server, bucketPath, opts, bucket, p) ==>
                r.value == Page(EntriesOf(bucket, bucketPath), opts.startAfter, LimitOf(opts))
  {
    r := FollowTokens(server, bucketPath, PrefixArg(bucketPath), StartAfterKey(bucketPath, opts.startAfter),
                      LimitOf(opts), place, bound);
    if r.Ok? {
      forall bucket, p | ServesBucket(server, bucketPath, opts, bucket, p)
        ensures LimitOf(opts) >= 1 ==>
                  r.value == Page(EntriesOf(bucket, bucketPath), opts.startAfter, LimitOf(opts))
      {
        ReturnsThePage(server, bucketPath, opts, bucket, p, r.value);
      }
    }
  }

  // A request resumes at its token, the first one behind the cursor.
  function Ask(prefixArg: Option<string>, startAfterKey: Option<string>, token: Option<string>): Request {
    Request(prefixArg, if token.Some? then None else startAfterKey, token)
  }

  // The request loop.
  method FollowTokens(server: Request -> Response, bucketPath: string, prefixArg: Option<string>,
                      startAfterKey: Option<string>, limit: nat, ghost place: map<string, nat>, ghost bound: nat)
    returns (r: Result<seq<FileEntry>, ListError>)
    requires Progresses(server, Request(prefixArg, startAfterKey, None), place, bound)
    ensures
      var s := Search(server, bucketPath, Request(prefixArg, startAfterKey, None), limit);
      if r.Err? then r.error == UpstreamError && Fails(s) else !Fails(s) && Returns(s, r.value)
  {
    ghost var s := Search(server, bucketPath, Request(prefixArg, startAfterKey, None), limit);
    var out: seq<FileEntry> := [];
    var continuationToken: Option<string> := None;
    ghost var k, at := 0, 0;
    while true
      invariant Stands(s, k, Ask(prefixArg, startAfterKey, continuationToken), out)
      invariant StandsAt(continuationToken, place, bound, at)
      decreases bound - at
    {
      var req := Ask(prefixArg, startAfterKey, continuationToken);
      var resp := server(req);
      if resp.Failure? {
        assert Turns(s, k + 1) == Broken;
        return Err(UpstreamError);
      }
      ghost var before := out;
      out := Collect(resp.contents, bucketPath, limit, out);
      AfterReply(s, k, req, resp, before, out);
      if |out| >= limit || resp.truncated != Some(true) {
        return Ok(out);
      }
      MoveOn(server, prefixArg, startAfterKey, continuationToken, place, bound, at);
      continuationToken := resp.nextToken;
      if continuationToken.None? {
        break;
      }
      k, at := k + 1, place[continuationToken.value];
    }
    r := Ok(out);
  }

  // The loop is about to send `req`, with all entries of the pages so far at hand.
  ghost predicate Stands(s: Search, k: nat, req: Request, out: seq<FileEntry>) {
    var t := Turns(s, k);
    t.Asking? && t.req == req && out == OnPages(s, t.pages) && |out| < Cap(s.limit)
  }

  ghost predicate StandsAt(token: Option<string>, place: map<string, nat>, bound: nat, at: nat) {
    at <= bound && if token.None? then at == 0 else token.value in place && place[token.value] == at
  }

  lemma MoveOn(server: Request -> Response, prefixArg: Option<string>, startAfterKey: Option<string>,
               token: Option<string>, place: map<string, nat>, bound: nat, at: nat)
    requires Progresses(server, Request(prefixArg, startAfterKey, None), place, bound)
    requires StandsAt(token, place, bound, at)
    ensures MovesOn(server(Ask(prefixArg, startAfterKey, token)), at, place, bound)
  {
  }

  // One turn: the loop asks on with all entries so far, or has what it returns.
  lemma AfterReply(s: Search, k: nat, req: Request, resp: Response, before: seq<FileEntry>, out: seq<FileEntry>)
    requires Stands(s, k, req, before) && resp == s.server(req) && resp.Reply?
    requires out == Take(before + EntriesOf(resp.contents, s.bucketPath), Cap(s.limit))
    ensures
      if |out| < s.limit && resp.truncated == Some(true) && resp.nextToken.Some?
      then Stands(s, k + 1, Request(req.prefix, None, resp.nextToken), out)
      else Returns(s, out) && !Fails(s)
  {
    var t := Turns(s, k);
    PageAdded(s, t.pages, resp.contents);
    assert Turns(s, k + 1) == WithReply(s, t, resp);
    if Turns(s, k + 1).Ended? {
      assert Returns(s, out);
      OneOutcome(s, out, out);
    }
  }

  lemma PageAdded(s: Search, pages: seq<seq<S3Object>>, page: seq<S3Object>)
    ensures Objects(pages + [page]) == Objects(pages) + page
    ensures OnPages(s, pages + [page]) == OnPages(s, pages) + EntriesOf(page, s.bucketPath)
  {
    assert (pages + [page])[..|pages + [page]| - 1] == pages;
    EntriesConcat(Objects(pages), page, s.bucketPath);
  }

  // One page's worth of the loop: collects names until `limit` is reached. The test follows the push.
  method Collect(contents: seq<S3Object>, bucketPath: string, limit: nat, found: seq<FileEntry>)
    returns (out: seq<FileEntry>)
    requires |found| < Cap(limit)
    ensures out == Take(found + EntriesOf(contents, bucketPath), Cap(limit))
  {
    out := found;
    var i := 0;
    while i < |contents|
      invariant i <= |contents| && out == found + EntriesOf(contents[..i], bucketPath)
      invariant |out| < Cap(limit)
    {
      var name := NameOf(contents[i], bucketPath);
      EntriesStep(contents, bucketPath, i);
      i := i + 1;
      if name.None? {
        continue;
      }
      Associative(found, EntriesOf(contents[..i - 1], bucketPath), [EntryOfObject(contents[i - 1], name.value)]);
      out := out + [EntryOfObject(contents[i - 1], name.value)];
      if |out| >= limit {
        EntriesGrow(contents, bucketPath, i);
        CutAt(found, EntriesOf(contents[..i], bucketPath), EntriesOf(contents, bucketPath), Cap(limit));
        return;
      }
    }
    assert contents[..i] == contents;
  }

  lemma CutAt(found: seq<FileEntry>, some: seq<FileEntry>, all: seq<FileEntry>, cap: nat)
    requires some <= all && |found + some| == cap
    ensures found + some == Take(found + all, cap)
  {
  }

  lemma EntriesStep(objs: seq<S3Object>, bucketPath: string, i: nat)
    requires i < |objs|
    ensures
      var name := NameOf(objs[i], bucketPath);
      && (name.None? ==> EntriesOf(objs[..i + 1], bucketPath) == EntriesOf(objs[..i], bucketPath))
      && (name.Some? ==>
            EntriesOf(objs[..i + 1], bucketPath)
            == EntriesOf(objs[..i], bucketPath) + [EntryOfObject(objs[i], name.value)])
  {
    assert objs[..i + 1][..i] == objs[..i];
  }

  lemma {:induction false} EntriesConcat(a: seq<S3Object>, b: seq<S3Object>, bucketPath: string)
    ensures EntriesOf(a + b, bucketPath) == EntriesOf(a, bucketPath) + EntriesOf(b, bucketPath)
  {
    if b == [] {
      assert a + b == a;
    } else {
      var n := |b| - 1;
      EntriesConcat(a, b[..n], bucketPath);
      assert (a + b)[..|a + b| - 1] == a + b[..n];
    }
  }

  lemma {:induction false} EntriesGrow(objs: seq<S3Object>, bucketPath: string, k: nat)
    requires k <= |objs|
    ensures EntriesOf(objs[..k], bucketPath) <= EntriesOf(objs, bucketPath)
  {
    if k == |objs| {
      assert objs[..k] == objs;
    } else {
      var n := |objs| - 1;
      EntriesGrow(objs[..n], bucketPath, k);
      assert objs[..n][..k] == objs[..k];
    }
  }

  // ---------- a bucket at rest ----------

  // The loop has the objects of `all` before a place, and resumes there.
  ghost predicate AtPlace(t: Turn, all: seq<S3Object>, first: Request, place: map<string, nat>, from: nat) {
    && t.Asking? && from <= |all| && Objects(t.pages) == all[..from]
    && if t.asked == [] then from == 0 && t.req == first
       else t.req.token.Some? && t.req == Request(first.prefix, None, t.req.token)
            && t.req.token.value in place && place[t.req.token.value] == from
  }

  ghost predicate HasAll(s: Search, t: Turn, all: seq<S3Object>) {
    t.Ended? && Take(OnPages(s, t.pages), s.limit) == Take(EntriesOf(all, s.bucketPath), s.limit)
  }

  lemma {:induction false} TurnsAtRest(s: Search, all: seq<S3Object>, place: map<string, nat>, k: nat)
    requires Serves(s.server, all, s.first, place)
    ensures
      var t := Turns(s, k);
      t == Broken || HasAll(s, t, all) || exists from :: AtPlace(t, all, s.first, place, from)
  {
    if k == 0 {
      assert all[..0] == [];
      assert AtPlace(Turns(s, 0), all, s.first, place, 0);
    } else {
      TurnsAtRest(s, all, place, k - 1);
      var t := Turns(s, k - 1);
      if t.Asking? && s.server(t.req).Reply? {
        var from :| AtPlace(t, all, s.first, place, from);
        ReplyContinues(s, t, all, place, from);
        ReplyAtRest(s, t, all, place, from, s.server(t.req));
      }
    }
  }

  lemma ReplyContinues(s: Search, t: Turn, all: seq<S3Object>, place: map<string, nat>, from: nat)
    requires Serves(s.server, all, s.first, place) && AtPlace(t, all, s.first, place, from)
    ensures ContinuesAt(s.server(t.req), all, from, place)
  {
  }

  lemma ReplyAtRest(s: Search, t: Turn, all: seq<S3Object>, place: map<string, nat>, from: nat, resp: Response)
    requires AtPlace(t, all, s.first, place, from) && resp.Reply? && ContinuesAt(resp, all, from, place)
    ensures
      var t' := WithReply(s, t, resp);
      HasAll(s, t', all) || AtPlace(t', all, s.first, place, from + |resp.contents|)
  {
    var end := from + |resp.contents|;
    SlicesJoin(all, from, end);
    PageAdded(s, t.pages, resp.contents);
    EnoughOrAll(s, t.pages + [resp.contents], all, end);
  }

  lemma SlicesJoin<T>(all: seq<T>, from: nat, end: nat)
    requires from <= end <= |all|
    ensures all[..from] + all[from..end] == all[..end]
  {
  }

  lemma EnoughOrAll(s: Search, pages: seq<seq<S3Object>>, all: seq<S3Object>, end: nat)
    requires end <= |all| && Objects(pages) == all[..end]
    ensures |OnPages(s, pages)| >= s.limit || end == |all| ==>
              Take(OnPages(s, pages), s.limit) == Take(EntriesOf(all, s.bucketPath), s.limit)
  {
    EntriesGrow(all, s.bucketPath, end);
    assert end == |all| ==> all[..end] == all;
  }

  lemma RestProgresses(server: Request -> Response, all: seq<S3Object>, first: Request, place: map<string, nat>)
    requires Serves(server, all, first, place)
    ensures Progresses(server, first, place, |all|)
  {
  }

  /** From a bucket at rest, split into pages as the server likes, a listing returns the first `limit`
      entries behind the cursor; for limit zero what the first reply holds, cut to one. */
  lemma ReturnsThePage(server: Request -> Response, bucketPath: string, opts: ListOptions,
                       bucket: seq<S3Object>, place: map<string, nat>, es: seq<FileEntry>)
    requires ServesBucket(server, bucketPath, opts, bucket, place)
    requires Returns(Search(server, bucketPath, FirstRequest(bucketPath, opts.startAfter), LimitOf(opts)), es)
    ensures LimitOf(opts) >= 1 ==> es == Page(EntriesOf(bucket, bucketPath), opts.startAfter, LimitOf(opts))
    ensures LimitOf(opts) == 0 ==>
              var reply := server(FirstRequest(bucketPath, opts.startAfter));
              reply.Reply? && es == Take(EntriesOf(reply.contents, bucketPath), 1)
  {
    var first := FirstRequest(bucketPath, opts.startAfter);
    var s := Search(server, bucketPath, first, LimitOf(opts));
    var k: nat :| Turns(s, k).Ended? && es == Take(OnPages(s, Turns(s, k).pages), Cap(s.limit));
    TurnsAtRest(s, Matching(bucket, first), place, k);
    EntriesAreAfter(bucket, bucketPath, opts.startAfter);
    if s.limit == 0 {
      OneReplyForNone(s, k);
    }
  }

  lemma OneReplyForNone(s: Search, k: nat)
    requires s.limit == 0 && Turns(s, k).Ended?
    ensures s.server(s.first).Reply?
    ensures OnPages(s, Turns(s, k).pages) == EntriesOf(s.server(s.first).contents, s.bucketPath)
  {
    assert Turns(s, 0) == Asking(s.first, [], []);
    assert Turns(s, 1) == NextTurn(s, Turns(s, 0));
    TurnsStay(s, 1, if k == 0 then 1 else k);
    PageAdded(s, [], s.server(s.first).contents);
  }

  // The objects the first request matches are the visible ones behind the cursor, and some invisible.
  lemma {:induction false} EntriesAreAfter(bucket: seq<S3Object>, bucketPath: string, cursor: Option<string>)
    ensures EntriesOf(Matching(bucket, FirstRequest(bucketPath, cursor)), bucketPath)
            == After(EntriesOf(bucket, bucketPath), cursor)
  {
    if bucket != [] {
      var n := |bucket| - 1;
      var req := FirstRequest(bucketPath, cursor);
      EntriesAreAfter(bucket[..n], bucketPath, cursor);
      assert bucket == bucket[..n] + [bucket[n]];
      MatchingConcat(bucket[..n], [bucket[n]], req);
      EntriesConcat(Matching(bucket[..n], req), Matching([bucket[n]], req), bucketPath);
      EntriesConcat(bucket[..n], [bucket[n]], bucketPath);
      AfterConcat(EntriesOf(bucket[..n], bucketPath), EntriesOf([bucket[n]], bucketPath), cursor);
      OneEntryAfter(bucket[n], bucketPath, cursor);
    }
  }

  lemma OneEntryAfter(obj: S3Object, bucketPath: string, cursor: Option<string>)
    ensures EntriesOf(Matching([obj], FirstRequest(bucketPath, cursor)), bucketPath)
            == After(EntriesOf([obj], bucketPath), cursor)
  {
    var m := Matching([obj], FirstRequest(bucketPath, cursor));
    assert Matching([obj][1..], FirstRequest(bucketPath, cursor)) == [];
    assert [obj][..0] == [];
    if NameOf(obj, bucketPath).Some? {
      MatchOfVisible(obj, bucketPath, cursor);
      var e := EntryOfObject(obj, NameOf(obj, bucketPath).value);
      assert EntriesOf([obj], bucketPath) == [e];
      assert After([e], cursor) == if IsAfter(cursor, e.name) then [e] else [];
    }
  }

  lemma {:induction false} MatchingConcat(a: seq<S3Object>, b: seq<S3Object>, req: Request)
    ensures Matching(a + b, req) == Matching(a, req) + Matching(b, req)
  {
    if a == [] {
      assert a + b == b;
    } else {
      MatchingConcat(a[1..], b, req);
      assert (a + b)[0] == a[0] && (a + b)[1..] == a[1..] + b;
      Associative(if Matches(a[0], req) then [a[0]] else [], Matching(a[1..], req), Matching(b, req));
    }
  }

  lemma MatchOfVisible(obj: S3Object, bucketPath: string, cursor: Option<string>)
    requires NameOf(obj, bucketPath).Some?
    ensures Matches(obj, FirstRequest(bucketPath, cursor)) <==> IsAfter(cursor, NameOf(obj, bucketPath).value)
  {
    var name := NameOf(obj, bucketPath).value;
    StripIsInverse(bucketPath, obj.key.value, name);
    if cursor.Some? {
      StartAfterSelects(bucketPath, cursor.value, name);
    }
  }

  // ---------- the listing behind the pages ----------

  // The object is listed as this entry.
  predicate ListedAs(obj: S3Object, bucketPath: string, e: FileEntry) {
    NameOf(obj, bucketPath) == Some(e.name) && EntryOfObject(obj, e.name) == e
  }

  ghost predicate Among(objs: seq<S3Object>, bucketPath: string, e: FileEntry) {
    exists i :: 0 <= i < |objs| && ListedAs(objs[i], bucketPath, e)
  }

  lemma AmongStep(objs: seq<S3Object>, bucketPath: string, e: FileEntry)
    requires objs != []
    ensures
      var n := |objs| - 1;
      Among(objs, bucketPath, e) <==> Among(objs[..n], bucketPath, e) || ListedAs(objs[n], bucketPath, e)
  {
    var n := |objs| - 1;
    if i :| 0 <= i < n && ListedAs(objs[i], bucketPath, e) {
      assert ListedAs(objs[..n][i], bucketPath, e);
    }
    if i :| 0 <= i < n && ListedAs(objs[..n][i], bucketPath, e) {
      assert ListedAs(objs[i], bucketPath, e);
    }
  }

  /** The entries are those the objects give, no more and no fewer. */
  lemma {:induction false} EntriesComeFromObjects(objs: seq<S3Object>, bucketPath: string)
    ensures forall e :: e in EntriesOf(objs, bucketPath) <==> Among(objs, bucketPath, e)
  {
    if objs != [] {
      EntriesComeFromObjects(objs[..|objs| - 1], bucketPath);
      forall e
        ensures e in EntriesOf(objs, bucketPath) <==> Among(objs, bucketPath, e)
      {
        AmongStep(objs, bucketPath, e);
      }
    }
  }

  /** The listing behind the pages: under whatever prefix, key order leaves the names in name order. */
  lemma {:induction false} ListingOfBucket(bucket: seq<S3Object>, bucketPath: string)
    requires KeyOrdered(bucket)
    ensures NameOrder(EntriesOf(bucket, bucketPath))
  {
    if bucket != [] {
      var n := |bucket| - 1;
      ListingOfBucket(bucket[..n], bucketPath);
      EntriesComeFromObjects(bucket[..n], bucketPath);
      var before := EntriesOf(bucket[..n], bucketPath);
      var name := NameOf(bucket[n], bucketPath);
      if name.Some? {
        forall k | 0 <= k < |before|
          ensures Less(before[k].name, name.value)
        {
          assert before[k] in before;
          var i :| 0 <= i < n && ListedAs(bucket[..n][i], bucketPath, before[k]);
          assert bucket[i] == bucket[..n][i];
          StripIsInverse(bucketPath, bucket[i].key.value, before[k].name);
          StripIsInverse(bucketPath, bucket[n].key.value, name.value);
          KeyOrder(bucketPath, before[k].name, name.value);
        }
      }
    }
  }

  /** The first request asks for exactly the keys of paths below the bucket path, behind the cursor. */
  lemma FirstRequestIsExact(obj: S3Object, bucketPath: string, cursor: Option<string>)
    ensures Matches(obj, FirstRequest(bucketPath, cursor)) <==>
              exists path :: obj.key == Some(Key(bucketPath, path)) && (cursor.Some? ==> Less(cursor.value, path))
    ensures FirstRequest(bucketPath, cursor).token.None?
  {
    if obj.key.Some? {
      var key := obj.key.value;
      var path := StripPrefix(bucketPath, key);
      if path.Some? {
        StripIsInverse(bucketPath, key, path.value);
        if cursor.Some? {
          StartAfterSelects(bucketPath, cursor.value, path.value);
        }
      }
      forall p | key == Key(bucketPath, p)
        ensures path == Some(p)
      {
        StripIsInverse(bucketPath, key, p);
      }
    }
  }

  // The object is a file of this entry right below the prefix. A missing size and a negative one read as zero.
  ghost predicate HoldsFile(obj: S3Object, bucketPath: string, e: FileEntry) {
    && obj.key == Some(Key(bucketPath, e.name)) && e.name != "" && '/' !in e.name
    && (obj.size.Some? && obj.size.value >= 0 ==> e.size == obj.size.value)
    && (obj.size.None? || obj.size.value < 0 ==> e.size == 0)
    && e.lastModified == obj.lastModified
  }

  lemma ListedHoldsFile(obj: S3Object, bucketPath: string, e: FileEntry)
    ensures ListedAs(obj, bucketPath, e) <==> HoldsFile(obj, bucketPath, e)
  {
    if obj.key.Some? {
      StripIsInverse(bucketPath, obj.key.value, e.name);
    }
  }

  /** The entries of a bucket are those of the objects right below the prefix, with their sizes and times. */
  lemma ListingIsExact(bucket: seq<S3Object>, bucketPath: string)
    ensures forall e :: e in EntriesOf(bucket, bucketPath) <==>
              exists i :: 0 <= i < |bucket| && HoldsFile(bucket[i], bucketPath, e)
  {
    EntriesComeFromObjects(bucket, bucketPath);
    forall e
      ensures e in EntriesOf(bucket, bucketPath) <==>
                exists i :: 0 <= i < |bucket| && HoldsFile(bucket[i], bucketPath, e)
    {
      forall i | 0 <= i < |bucket|
        ensures ListedAs(bucket[i], bucketPath, e) <==> HoldsFile(bucket[i], bucketPath, e)
      {
        ListedHoldsFile(bucket[i], bucketPath, e);
      }
      assert e in EntriesOf(bucket, bucketPath) <==> Among(bucket, bucketPath, e);
    }
  }
}
