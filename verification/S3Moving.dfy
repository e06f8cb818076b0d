/** One listing from a bucket that changes between the requests of its loop. */
module S3Moving {
  import opened Strings
  import opened Order
  import opened Keys
  import opened Listing
  import opened S3List

  // ---------- a server whose bucket changes ----------

  // The key behind which a request resumes, where `resume` says what key a token stands for.
  function ResumeKey(req: Request, resume: string -> string): Option<string> {
    if req.token.Some? then Some(resume(req.token.value)) else req.startAfter
  }

  // The objects of the bucket that the request is about.
  function Visible(bucket: seq<S3Object>, req: Request, resume: string -> string): seq<S3Object> {
    Matching(bucket, Request(req.prefix, ResumeKey(req, resume), None))
  }

  function LastKey(objs: seq<S3Object>): string
    requires KeyOrdered(objs) && objs != []
  {
    objs[|objs| - 1].key.value
  }

  /** A reply from the bucket as it is at this request: it breaks off where it likes, a truncated one with
      a token that stands for its last key. */
  ghost predicate RepliesFrom(bucket: seq<S3Object>, req: Request, resp: Response, resume: string -> string) {
    resp.Reply? ==>
      && KeyOrdered(bucket) && KeyOrdered(resp.contents) && resp.contents <= Visible(bucket, req, resume)
      && if resp.truncated == Some(true)
         then resp.nextToken.Some? ==> resp.contents != [] && resume(resp.nextToken.value) == LastKey(resp.contents)
         else resp.contents == Visible(bucket, req, resume)
  }

  // Request `i` of the loop meets the bucket `buckets(i)`.
  ghost predicate Met(s: Search, asked: seq<Request>, buckets: nat -> seq<S3Object>, resume: string -> string) {
    forall i :: 0 <= i < |asked| ==> RepliesFrom(buckets(i), asked[i], s.server(asked[i]), resume)
  }

  // ---------- one page ----------

  ghost predicate HasKey(objs: seq<S3Object>, key: string) {
    exists i :: 0 <= i < |objs| && objs[i].key == Some(key)
  }

  predicate Wanted(req: Request, key: string) {
    && (req.prefix.Some? ==> req.prefix.value <= key)
    && (req.startAfter.Some? ==> Less(req.startAfter.value, key))
  }

  lemma {:induction false} MatchingSelects(bucket: seq<S3Object>, req: Request)
    ensures forall o :: o in Matching(bucket, req) <==> o in bucket && Matches(o, req)
  {
    if bucket != [] {
      MatchingSelects(bucket[1..], req);
      assert bucket == [bucket[0]] + bucket[1..];
    }
  }

  lemma {:induction false} MatchingIsOrdered(bucket: seq<S3Object>, req: Request)
    requires KeyOrdered(bucket)
    ensures KeyOrdered(Matching(bucket, req))
  {
    if bucket != [] {
      MatchingIsOrdered(bucket[1..], req);
      MatchingSelects(bucket[1..], req);
      var rest := Matching(bucket[1..], req);
      forall i | 0 <= i < |rest|
        ensures Less(bucket[0].key.value, rest[i].key.value)
      {
        assert rest[i] in rest;
        var j :| 0 <= j < |bucket[1..]| && bucket[1..][j] == rest[i];
        assert bucket[j + 1] == rest[i];
      }
    }
  }

  lemma WantedIsMatching(bucket: seq<S3Object>, req: Request, key: string)
    requires HasKey(bucket, key) && Wanted(req, key)
    ensures HasKey(Matching(bucket, req), key)
  {
    MatchingSelects(bucket, req);
    var i :| 0 <= i < |bucket| && bucket[i].key == Some(key);
    assert bucket[i] in bucket;
    var j :| 0 <= j < |Matching(bucket, req)| && Matching(bucket, req)[j] == bucket[i];
  }

  // A page skips no key on its way to its last.
  lemma PageSkipsNothing(visible: seq<S3Object>, page: seq<S3Object>, key: string)
    requires KeyOrdered(visible) && KeyOrdered(page) && page <= visible && HasKey(visible, key)
    ensures HasKey(page, key) || (page != visible && (page != [] ==> Less(LastKey(page), key)))
  {
    var i :| 0 <= i < |visible| && visible[i].key == Some(key);
    if i < |page| {
      assert page[i].key == Some(key);
    } else if page != [] {
      assert Less(visible[|page| - 1].key.value, visible[i].key.value);
    }
  }

  // ---------- what the pages of a loop are ----------

  // The key behind which the loop has read everything.
  function Reached(s: Search, objs: seq<S3Object>): Option<string>
    requires KeyOrdered(objs)
  {
    if objs == [] then s.first.startAfter else Some(LastKey(objs))
  }

  predicate Behind(at: Option<string>, key: string) {
    at.Some? ==> Less(at.value, key)
  }

  ghost predicate PagesStand(s: Search, pages: seq<seq<S3Object>>, buckets: nat -> seq<S3Object>) {
    KeyOrdered(Objects(pages)) && AllMatch(s, Objects(pages)) && AreFrom(pages, buckets)
  }

  ghost predicate KeptAll(pages: seq<seq<S3Object>>, buckets: nat -> seq<S3Object>, key: string) {
    forall i :: 0 <= i < |pages| ==> HasKey(buckets(i), key)
  }

  // A key that stayed is on the pages or behind the last of them.
  ghost predicate NoneMissed(s: Search, pages: seq<seq<S3Object>>, buckets: nat -> seq<S3Object>)
    requires KeyOrdered(Objects(pages))
  {
    forall key :: Wanted(s.first, key) && KeptAll(pages, buckets, key) ==>
      HasKey(Objects(pages), key) || Behind(Reached(s, Objects(pages)), key)
  }

  // The loop has read up to where its next request resumes.
  ghost predicate Resuming(s: Search, t: Turn, resume: string -> string)
    requires t.Asking? && KeyOrdered(Objects(t.pages))
  {
    && |t.asked| == |t.pages| && t.req.prefix == s.first.prefix
    && ResumeKey(t.req, resume) == Reached(s, Objects(t.pages))
  }

  // The last reply said that nothing is left.
  predicate NothingLeft(s: Search, t: Turn) {
    t.Ended? && t.asked != [] &&
    var last := s.server(t.asked[|t.asked| - 1]);
    last.Reply? && last.truncated != Some(true)
  }

  ghost predicate Keeps(s: Search, t: Turn, buckets: nat -> seq<S3Object>, resume: string -> string) {
    t.Broken? ||
    (&& PagesStand(s, t.pages, buckets) && NoneMissed(s, t.pages, buckets)
     && (t.Asking? ==> Resuming(s, t, resume))
     && (NothingLeft(s, t) ==>
           forall key :: Wanted(s.first, key) && KeptAll(t.pages, buckets, key) ==> HasKey(Objects(t.pages), key)))
  }

  // ---------- one more page ----------

  // A page of the objects behind `at` that have the prefix, from a bucket as it is now.
  ghost predicate PageBehind(page: seq<S3Object>, bucket: seq<S3Object>, prefix: Option<string>, at: Option<string>) {
    KeyOrdered(bucket) && KeyOrdered(page) && page <= Matching(bucket, Request(prefix, at, None))
  }

  lemma PageHolds(page: seq<S3Object>, bucket: seq<S3Object>, prefix: Option<string>, at: Option<string>)
    requires PageBehind(page, bucket, prefix, at)
    ensures forall o :: o in page ==> o in bucket && Matches(o, Request(prefix, at, None))
  {
    MatchingSelects(bucket, Request(prefix, at, None));
  }

  lemma JoinIsOrdered(objs: seq<S3Object>, page: seq<S3Object>)
    requires KeyOrdered(objs) && KeyOrdered(page)
    requires objs != [] ==> forall o :: o in page ==> Less(LastKey(objs), o.key.value)
    ensures KeyOrdered(objs + page)
    ensures page != [] ==> LastKey(objs + page) == LastKey(page)
    ensures page == [] ==> objs + page == objs
  {
    forall i, j | 0 <= i < |objs| && 0 <= j < |page|
      ensures Less(objs[i].key.value, page[j].key.value)
    {
      assert page[j] in page;
      if i < |objs| - 1 {
        Transitive(objs[i].key.value, LastKey(objs), page[j].key.value);
      }
    }
  }

  lemma BehindReached(s: Search, objs: seq<S3Object>, o: S3Object)
    requires KeyOrdered(objs) && Matches(o, Request(s.first.prefix, Reached(s, objs), None))
    requires AllMatch(s, objs)
    ensures Matches(o, Request(s.first.prefix, s.first.startAfter, None))
  {
    if objs != [] && s.first.startAfter.Some? {
      assert objs[|objs| - 1] in objs;
      Transitive(s.first.startAfter.value, LastKey(objs), o.key.value);
    }
  }

  lemma PageStands(s: Search, pages: seq<seq<S3Object>>, page: seq<S3Object>, buckets: nat -> seq<S3Object>)
    requires PagesStand(s, pages, buckets)
    requires PageBehind(page, buckets(|pages|), s.first.prefix, Reached(s, Objects(pages)))
    ensures PagesStand(s, pages + [page], buckets) && Objects(pages + [page]) == Objects(pages) + page
    ensures page != [] ==> Reached(s, Objects(pages) + page) == Some(LastKey(page))
    ensures page == [] ==> Reached(s, Objects(pages) + page) == Reached(s, Objects(pages))
  {
    PageAdded(s, pages, page);
    JoinStands(s, Objects(pages), page, buckets(|pages|));
    PagesAreFrom(pages, page, buckets);
  }

  ghost predicate AllMatch(s: Search, objs: seq<S3Object>) {
    forall o :: o in objs ==> Matches(o, Request(s.first.prefix, s.first.startAfter, None))
  }

  lemma JoinStands(s: Search, objs: seq<S3Object>, page: seq<S3Object>, bucket: seq<S3Object>)
    requires KeyOrdered(objs) && AllMatch(s, objs)
    requires PageBehind(page, bucket, s.first.prefix, Reached(s, objs))
    ensures KeyOrdered(objs + page) && AllMatch(s, objs + page)
    ensures forall o :: o in page ==> o in bucket
    ensures page != [] ==> Reached(s, objs + page) == Some(LastKey(page))
    ensures page == [] ==> Reached(s, objs + page) == Reached(s, objs)
  {
    PageHolds(page, bucket, s.first.prefix, Reached(s, objs));
    JoinIsOrdered(objs, page);
    forall o | o in page
      ensures Matches(o, Request(s.first.prefix, s.first.startAfter, None))
    {
      BehindReached(s, objs, o);
    }
  }

  ghost predicate AreFrom(pages: seq<seq<S3Object>>, buckets: nat -> seq<S3Object>) {
    forall i :: 0 <= i < |pages| ==> forall o :: o in pages[i] ==> o in buckets(i)
  }

  lemma PagesAreFrom(pages: seq<seq<S3Object>>, page: seq<S3Object>, buckets: nat -> seq<S3Object>)
    requires AreFrom(pages, buckets) && forall o :: o in page ==> o in buckets(|pages|)
    ensures AreFrom(pages + [page], buckets)
  {
    var longer := pages + [page];
    forall i | 0 <= i < |longer|
      ensures forall o :: o in longer[i] ==> o in buckets(i)
    {
      assert longer[i] == if i < |pages| then pages[i] else page;
    }
  }

  lemma KeyInJoin(objs: seq<S3Object>, page: seq<S3Object>, key: string)
    requires HasKey(objs, key) || HasKey(page, key)
    ensures HasKey(objs + page, key)
  {
    if i :| 0 <= i < |objs| && objs[i].key == Some(key) {
      assert (objs + page)[i].key == Some(key);
    } else {
      var j :| 0 <= j < |page| && page[j].key == Some(key);
      assert (objs + page)[|objs| + j].key == Some(key);
    }
  }

  // A key that stayed is on the new page too, or before it, or behind it; behind it only if the page breaks off.
  lemma PageMissesNone(s: Search, objs: seq<S3Object>, page: seq<S3Object>, bucket: seq<S3Object>, key: string)
    requires KeyOrdered(objs) && PageBehind(page, bucket, s.first.prefix, Reached(s, objs))
    requires Wanted(s.first, key) && HasKey(bucket, key)
    requires HasKey(objs, key) || Behind(Reached(s, objs), key)
    ensures
      || HasKey(objs + page, key)
      || (&& page != Matching(bucket, Request(s.first.prefix, Reached(s, objs), None))
          && Behind(if page == [] then Reached(s, objs) else Some(LastKey(page)), key))
  {
    var req := Request(s.first.prefix, Reached(s, objs), None);
    if HasKey(objs, key) {
      KeyInJoin(objs, page, key);
    } else {
      WantedIsMatching(bucket, req, key);
      MatchingIsOrdered(bucket, req);
      PageSkipsNothing(Matching(bucket, req), page, key);
      if HasKey(page, key) {
        KeyInJoin(objs, page, key);
      }
    }
  }

  lemma PagesMissNone(s: Search, pages: seq<seq<S3Object>>, page: seq<S3Object>, buckets: nat -> seq<S3Object>,
                      key: string)
    requires PagesStand(s, pages, buckets) && NoneMissed(s, pages, buckets)
    requires PageBehind(page, buckets(|pages|), s.first.prefix, Reached(s, Objects(pages)))
    requires Wanted(s.first, key) && KeptAll(pages + [page], buckets, key)
    ensures PagesStand(s, pages + [page], buckets)
    ensures HasKey(Objects(pages + [page]), key) || Behind(Reached(s, Objects(pages + [page])), key)
    ensures page == Matching(buckets(|pages|), Request(s.first.prefix, Reached(s, Objects(pages)), None)) ==>
              HasKey(Objects(pages + [page]), key)
  {
    PageStands(s, pages, page, buckets);
    assert KeptAll(pages, buckets, key);
    PageMissesNone(s, Objects(pages), page, buckets(|pages|), key);
  }

  lemma ReplyKeeps(s: Search, t: Turn, buckets: nat -> seq<S3Object>, resume: string -> string, resp: Response)
    requires t.Asking? && Keeps(s, t, buckets, resume)
    requires resp == s.server(t.req) && resp.Reply? && RepliesFrom(buckets(|t.pages|), t.req, resp, resume)
    ensures Keeps(s, WithReply(s, t, resp), buckets, resume)
  {
    var pages := t.pages + [resp.contents];
    PageStands(s, t.pages, resp.contents, buckets);
    forall key | Wanted(s.first, key) && KeptAll(pages, buckets, key)
      ensures HasKey(Objects(pages), key) || Behind(Reached(s, Objects(pages)), key)
      ensures resp.truncated != Some(true) ==> HasKey(Objects(pages), key)
    {
      PagesMissNone(s, t.pages, resp.contents, buckets, key);
    }
  }

  // As long as the requests met the buckets.
  ghost predicate KeepsWhileMet(s: Search, t: Turn, buckets: nat -> seq<S3Object>, resume: string -> string) {
    !t.Broken? && Met(s, t.asked, buckets, resume) ==> Keeps(s, t, buckets, resume)
  }

  lemma TurnKeeps(s: Search, t: Turn, buckets: nat -> seq<S3Object>, resume: string -> string)
    requires KeepsWhileMet(s, t, buckets, resume)
    ensures KeepsWhileMet(s, NextTurn(s, t), buckets, resume)
  {
    var t' := NextTurn(s, t);
    if t.Asking? && !t'.Broken? && Met(s, t'.asked, buckets, resume) {
      MetBefore(s, t.asked, t.req, buckets, resume);
      ReplyKeeps(s, t, buckets, resume, s.server(t.req));
    }
  }

  lemma {:induction false} TurnsKeep(s: Search, k: nat, buckets: nat -> seq<S3Object>, resume: string -> string)
    requires s.first.token.None?
    ensures KeepsWhileMet(s, Turns(s, k), buckets, resume)
  {
    if k == 0 {
      BeginKeeps(s, buckets, resume);
    } else {
      TurnsKeep(s, k - 1, buckets, resume);
      TurnKeeps(s, Turns(s, k - 1), buckets, resume);
    }
  }

  lemma BeginKeeps(s: Search, buckets: nat -> seq<S3Object>, resume: string -> string)
    requires s.first.token.None?
    ensures Keeps(s, Asking(s.first, [], []), buckets, resume)
  {
    assert Objects([]) == [];
  }

  lemma MetBefore(s: Search, asked: seq<Request>, req: Request, buckets: nat -> seq<S3Object>, resume: string -> string)
    requires Met(s, asked + [req], buckets, resume)
    ensures Met(s, asked, buckets, resume) && RepliesFrom(buckets(|asked|), req, s.server(req), resume)
  {
    assert forall i :: 0 <= i < |asked| ==> (asked + [req])[i] == asked[i];
    assert (asked + [req])[|asked|] == req;
  }

  // ---------- what one listing returns ----------

  lemma KeyOfName(objs: seq<S3Object>, bucketPath: string, name: string)
    ensures HasName(EntriesOf(objs, bucketPath), name) <==>
              name != "" && '/' !in name && HasKey(objs, Key(bucketPath, name))
  {
    var es := EntriesOf(objs, bucketPath);
    EntriesComeFromObjects(objs, bucketPath);
    if i :| 0 <= i < |es| && es[i].name == name {
      assert es[i] in es;
      var j :| 0 <= j < |objs| && ListedAs(objs[j], bucketPath, es[i]);
      StripIsInverse(bucketPath, objs[j].key.value, name);
      assert objs[j].key == Some(Key(bucketPath, name));
    }
    if name != "" && '/' !in name && HasKey(objs, Key(bucketPath, name)) {
      var j :| 0 <= j < |objs| && objs[j].key == Some(Key(bucketPath, name));
      StripIsInverse(bucketPath, objs[j].key.value, name);
      var e := EntryOfObject(objs[j], name);
      assert ListedAs(objs[j], bucketPath, e);
      assert Among(objs, bucketPath, e);
      var i :| 0 <= i < |es| && es[i] == e;
    }
  }

  lemma WantedName(bucketPath: string, cursor: Option<string>, name: string)
    ensures IsAfter(cursor, name) <==> Wanted(FirstRequest(bucketPath, cursor), Key(bucketPath, name))
  {
    if cursor.Some? {
      StartAfterSelects(bucketPath, cursor.value, name);
    }
  }

  lemma NameOfEntry(objs: seq<S3Object>, bucketPath: string, e: FileEntry)
    requires e in EntriesOf(objs, bucketPath)
    ensures HasKey(objs, Key(bucketPath, e.name))
  {
    var es := EntriesOf(objs, bucketPath);
    var i :| 0 <= i < |es| && es[i] == e;
    KeyOfName(objs, bucketPath, e.name);
  }

  // The entry comes from some page and was in the bucket that the page was read from.
  ghost predicate Reported(s: Search, pages: seq<seq<S3Object>>, buckets: nat -> seq<S3Object>, e: FileEntry) {
    exists i :: 0 <= i < |pages| &&
      e in EntriesOf(pages[i], s.bucketPath) && e in EntriesOf(buckets(i), s.bucketPath)
  }

  lemma {:induction false} EntriesAreReported(s: Search, pages: seq<seq<S3Object>>, buckets: nat -> seq<S3Object>,
                                              e: FileEntry)
    requires AreFrom(pages, buckets)
    requires e in OnPages(s, pages)
    ensures Reported(s, pages, buckets, e)
  {
    if pages != [] {
      var n := |pages| - 1;
      var front, page := pages[..n], pages[n];
      assert pages == front + [page];
      PageAdded(s, front, page);
      if e in EntriesOf(page, s.bucketPath) {
        SameObjectSameEntry(page, buckets(n), s.bucketPath, e);
      } else {
        EntriesAreReported(s, front, buckets, e);
        var i :| 0 <= i < |front| &&
          e in EntriesOf(front[i], s.bucketPath) && e in EntriesOf(buckets(i), s.bucketPath);
        assert pages[i] == front[i];
      }
    }
  }

  lemma SameObjectSameEntry(page: seq<S3Object>, bucket: seq<S3Object>, bucketPath: string, e: FileEntry)
    requires forall o :: o in page ==> o in bucket
    requires e in EntriesOf(page, bucketPath)
    ensures e in EntriesOf(bucket, bucketPath)
  {
    EntriesComeFromObjects(page, bucketPath);
    EntriesComeFromObjects(bucket, bucketPath);
    var i :| 0 <= i < |page| && ListedAs(page[i], bucketPath, e);
    assert page[i] in bucket;
    var j :| 0 <= j < |bucket| && bucket[j] == page[i];
    assert ListedAs(bucket[j], bucketPath, e);
  }

  // A name that every request of the loop met.
  ghost predicate Stayed(s: Search, t: Turn, buckets: nat -> seq<S3Object>, name: string)
    requires t.Ended?
  {
    forall i :: 0 <= i < |t.pages| ==> HasName(EntriesOf(buckets(i), s.bucketPath), name)
  }

  lemma {:induction false} EndedHasPages(s: Search, k: nat)
    ensures Turns(s, k).Ended? ==> Turns(s, k).pages != []
  {
    if k > 0 {
      EndedHasPages(s, k - 1);
    }
  }

  // What the name comes to on the pages.
  lemma StayedName(s: Search, t: Turn, buckets: nat -> seq<S3Object>, resume: string -> string,
                   cursor: Option<string>, name: string)
    requires t.Ended? && t.pages != [] && Keeps(s, t, buckets, resume)
    requires s.first == FirstRequest(s.bucketPath, cursor) && IsAfter(cursor, name) && Stayed(s, t, buckets, name)
    ensures KeyOrdered(Objects(t.pages))
    ensures
      var objs := Objects(t.pages);
      HasName(OnPages(s, t.pages), name) ||
      (!NothingLeft(s, t) && (objs != [] ==> Less(LastKey(objs), Key(s.bucketPath, name))))
  {
    var key := Key(s.bucketPath, name);
    forall i | 0 <= i < |t.pages|
      ensures HasKey(buckets(i), key) && name != "" && '/' !in name
    {
      KeyOfName(buckets(i), s.bucketPath, name);
    }
    assert KeptAll(t.pages, buckets, key);
    WantedName(s.bucketPath, cursor, name);
    KeyOfName(Objects(t.pages), s.bucketPath, name);
    assert HasKey(buckets(0), key);
  }

  // Entries whose names come before a key that lies behind all objects.
  lemma BeforeLastKey(objs: seq<S3Object>, bucketPath: string, e: FileEntry, name: string)
    requires KeyOrdered(objs) && e in EntriesOf(objs, bucketPath)
    requires objs != [] ==> Less(LastKey(objs), Key(bucketPath, name))
    ensures Less(e.name, name)
  {
    NameOfEntry(objs, bucketPath, e);
    var i :| 0 <= i < |objs| && objs[i].key == Some(Key(bucketPath, e.name));
    if i < |objs| - 1 {
      Transitive(objs[i].key.value, LastKey(objs), Key(bucketPath, name));
    }
    KeyOrder(bucketPath, e.name, name);
  }

  lemma InTheCut(found: seq<FileEntry>, es: seq<FileEntry>, name: string)
    requires NameOrder(found) && es <= found && HasName(found, name)
    requires es == found || (es != [] && !Less(es[|es| - 1].name, name))
    ensures HasName(es, name)
  {
    var i :| 0 <= i < |found| && found[i].name == name;
    assert i < |es|;
    assert es[i].name == name;
  }

  /** Whatever changes in the bucket while it is listed: the names of the answer strictly increase behind
      the cursor, and each entry was in the bucket at the request that returned it. */
  lemma MovingAnswerIsSound(s: Search, k: nat, buckets: nat -> seq<S3Object>, resume: string -> string,
                            cursor: Option<string>, es: seq<FileEntry>)
    requires s.first == FirstRequest(s.bucketPath, cursor)
    requires Turns(s, k).Ended? && Met(s, Turns(s, k).asked, buckets, resume)
    requires es == Take(OnPages(s, Turns(s, k).pages), Cap(s.limit))
    ensures NameOrder(es)
    ensures forall e :: e in es ==> IsAfter(cursor, e.name) && Reported(s, Turns(s, k).pages, buckets, e)
  {
    var pages := Turns(s, k).pages;
    TurnsKeep(s, k, buckets, resume);
    ListingOfBucket(Objects(pages), s.bucketPath);
    forall e | e in es
      ensures IsAfter(cursor, e.name) && Reported(s, pages, buckets, e)
    {
      assert e in OnPages(s, pages);
      EntriesAreReported(s, pages, buckets, e);
      EntryIsWanted(s, pages, buckets, cursor, e);
    }
  }

  lemma EntryIsWanted(s: Search, pages: seq<seq<S3Object>>, buckets: nat -> seq<S3Object>, cursor: Option<string>,
                      e: FileEntry)
    requires s.first == FirstRequest(s.bucketPath, cursor) && PagesStand(s, pages, buckets)
    requires e in OnPages(s, pages)
    ensures IsAfter(cursor, e.name)
  {
    NameOfEntry(Objects(pages), s.bucketPath, e);
    var objs := Objects(pages);
    var i :| 0 <= i < |objs| && objs[i].key == Some(Key(s.bucketPath, e.name));
    assert objs[i] in objs;
    WantedName(s.bucketPath, cursor, e.name);
  }

  /** And it misses none that stayed: a name behind the cursor that was in the bucket at every request is
      in the answer, up to the last name there, and wholly when the answer is not full and the last reply
      said that nothing is left. */
  lemma MovingAnswerMissesNothing(s: Search, k: nat, buckets: nat -> seq<S3Object>, resume: string -> string,
                                  cursor: Option<string>, es: seq<FileEntry>, name: string)
    requires s.first == FirstRequest(s.bucketPath, cursor)
    requires Turns(s, k).Ended? && Met(s, Turns(s, k).asked, buckets, resume)
    requires es == Take(OnPages(s, Turns(s, k).pages), Cap(s.limit))
    requires IsAfter(cursor, name) && Stayed(s, Turns(s, k), buckets, name)
    requires || (|es| < s.limit && NothingLeft(s, Turns(s, k)))
             || (es != [] && !Less(es[|es| - 1].name, name))
    ensures HasName(es, name)
  {
    var t := Turns(s, k);
    EndedHasPages(s, k);
    TurnsKeep(s, k, buckets, resume);
    StayedName(s, t, buckets, resume, cursor, name);
    ListingOfBucket(Objects(t.pages), s.bucketPath);
    if !HasName(OnPages(s, t.pages), name) {
      var last := es[|es| - 1];
      assert last in OnPages(s, t.pages);
      BeforeLastKey(Objects(t.pages), s.bucketPath, last, name);
    }
    InTheCut(OnPages(s, t.pages), es, name);
  }
}
