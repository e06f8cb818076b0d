/** What a listing is, whichever backend answers: one page of the root-level files in name order. */
module Listing {
  import opened Strings
  import opened Order

  const DEFAULT_LIST_LIMIT: nat := 1000
  const MAX_LIST_LIMIT: nat := 10_000

  datatype FileEntry = FileEntry(name: string, size: nat, lastModified: Option<string>)

  datatype ListOptions = ListOptions(limit: Option<nat>, startAfter: Option<string>)

  function LimitOf(opts: ListOptions): nat {
    if opts.limit.Some? then opts.limit.value else DEFAULT_LIST_LIMIT
  }

  // ---------- the specification ----------

  ghost predicate NameOrder(es: seq<FileEntry>) {
    forall i, j :: 0 <= i < j < |es| ==> Less(es[i].name, es[j].name)
  }

  ghost predicate HasName(es: seq<FileEntry>, name: string) {
    exists i :: 0 <= i < |es| && es[i].name == name
  }

  predicate IsAfter(cursor: Option<string>, name: string) {
    cursor.Some? ==> Less(cursor.value, name)
  }

  // The entries whose name is strictly greater than the cursor.
  function After(es: seq<FileEntry>, cursor: Option<string>): seq<FileEntry> {
    if es == [] then []
    else (if IsAfter(cursor, es[0].name) then [es[0]] else []) + After(es[1..], cursor)
  }

  function Take<T>(s: seq<T>, n: nat): seq<T> {
    if n < |s| then s[..n] else s
  }

  /** The page a client asks for: the first `limit` entries behind the cursor. */
  function Page(es: seq<FileEntry>, cursor: Option<string>, limit: nat): seq<FileEntry> {
    Take(After(es, cursor), limit)
  }

  // ---------- its laws ----------

  lemma {:induction false} AfterConcat(a: seq<FileEntry>, b: seq<FileEntry>, cursor: Option<string>)
    ensures After(a + b, cursor) == After(a, cursor) + After(b, cursor)
  {
    if a == [] {
      assert a + b == b;
    } else {
      AfterConcat(a[1..], b, cursor);
      assert (a + b)[0] == a[0] && (a + b)[1..] == a[1..] + b;
      Associative(if IsAfter(cursor, a[0].name) then [a[0]] else [], After(a[1..], cursor), After(b, cursor));
    }
  }

  lemma {:induction false} AfterSelects(es: seq<FileEntry>, cursor: Option<string>)
    ensures forall e :: e in After(es, cursor) <==> e in es && IsAfter(cursor, e.name)
  {
    if es != [] {
      AfterSelects(es[1..], cursor);
      assert es == [es[0]] + es[1..];
    }
  }

  lemma {:induction false} AfterNothing(es: seq<FileEntry>)
    ensures After(es, None) == es
  {
    if es != [] {
      AfterNothing(es[1..]);
    }
  }

  lemma AfterStep(es: seq<FileEntry>, cursor: Option<string>)
    requires es != []
    ensures IsAfter(cursor, es[0].name) ==> After(es, cursor) == [es[0]] + After(es[1..], cursor)
    ensures !IsAfter(cursor, es[0].name) ==> After(es, cursor) == After(es[1..], cursor)
  {
  }

  lemma {:induction false} AllAfter(es: seq<FileEntry>, cursor: Option<string>)
    requires forall e :: e in es ==> IsAfter(cursor, e.name)
    ensures After(es, cursor) == es
  {
    if es != [] {
      AllAfter(es[1..], cursor);
    }
  }

  // In name order, what lies behind a cursor is a tail of the listing.
  lemma {:induction false} AfterIsTail(es: seq<FileEntry>, cursor: Option<string>) returns (k: nat)
    requires NameOrder(es)
    ensures k <= |es| && After(es, cursor) == es[k..]
    ensures forall i :: 0 <= i < |es| ==> (IsAfter(cursor, es[i].name) <==> k <= i)
  {
    if es == [] {
      k := 0;
    } else if IsAfter(cursor, es[0].name) {
      k := 0;
      FirstAfterAllAfter(es, cursor);
      AllAfter(es, cursor);
    } else {
      var n := AfterIsTail(es[1..], cursor);
      k := n + 1;
      assert forall i :: 1 <= i < |es| ==> es[i] == es[1..][i - 1];
      assert es[1..][n..] == es[k..];
    }
  }

  lemma FirstAfterAllAfter(es: seq<FileEntry>, cursor: Option<string>)
    requires NameOrder(es) && es != [] && IsAfter(cursor, es[0].name)
    ensures forall i :: 0 <= i < |es| ==> IsAfter(cursor, es[i].name)
  {
    forall i | 1 <= i < |es|
      ensures IsAfter(cursor, es[i].name)
    {
      if cursor.Some? {
        Transitive(cursor.value, es[0].name, es[i].name);
      }
    }
  }

  // Resuming behind the name at `k` leaves the entries that follow it.
  lemma AfterNameAt(es: seq<FileEntry>, k: nat)
    requires NameOrder(es) && k < |es|
    ensures After(es, Some(es[k].name)) == es[k + 1..]
  {
    var n := AfterIsTail(es, Some(es[k].name));
    Irreflexive(es[k].name);
    if k + 1 < |es| {
      assert IsAfter(Some(es[k].name), es[k + 1].name);
    }
    assert n == k + 1;
  }

  lemma PageIsOrdered(es: seq<FileEntry>, cursor: Option<string>, limit: nat)
    requires NameOrder(es)
    ensures NameOrder(Page(es, cursor, limit))
    ensures forall e :: e in Page(es, cursor, limit) ==> e in es && IsAfter(cursor, e.name)
  {
    var k := AfterIsTail(es, cursor);
  }

  /** Name order has one arrangement: ordered sequences with the same entries are equal. */
  lemma {:induction false} OrderIsUnique(a: seq<FileEntry>, b: seq<FileEntry>)
    requires NameOrder(a) && NameOrder(b)
    requires forall e :: e in a <==> e in b
    ensures a == b
  {
    assert (a == [] || a[0] in a) && (b == [] || b[0] in b);
    if a != [] && b != [] {
      FirstIsShared(a, b);
      FirstIsShared(b, a);
      if a[0] != b[0] {
        Transitive(a[0].name, b[0].name, a[0].name);
        Irreflexive(a[0].name);
      }
      NotInTail(a);
      NotInTail(b);
      assert a == [a[0]] + a[1..] && b == [b[0]] + b[1..];
      assert forall e :: e in a[1..] <==> e in a && e != a[0];
      assert forall e :: e in b[1..] <==> e in b && e != b[0];
      OrderIsUnique(a[1..], b[1..]);
    }
  }

  lemma FirstIsShared(a: seq<FileEntry>, b: seq<FileEntry>)
    requires a != [] && NameOrder(b) && a[0] in b
    ensures b[0] == a[0] || Less(b[0].name, a[0].name)
  {
    var i :| 0 <= i < |b| && b[i] == a[0];
  }

  lemma NotInTail(a: seq<FileEntry>)
    requires a != [] && NameOrder(a)
    ensures a[0] !in a[1..]
  {
    Irreflexive(a[0].name);
  }

  // ---------- sorting ----------

  function Insert(e: FileEntry, es: seq<FileEntry>): seq<FileEntry> {
    if es == [] || !Less(es[0].name, e.name) then [e] + es else [es[0]] + Insert(e, es[1..])
  }

  function SortByName(es: seq<FileEntry>): seq<FileEntry> {
    if es == [] then [] else Insert(es[0], SortByName(es[1..]))
  }

  ghost predicate DistinctNames(es: seq<FileEntry>) {
    forall i, j :: 0 <= i < j < |es| ==> es[i].name != es[j].name
  }

  lemma {:induction false} InsertOrders(e: FileEntry, es: seq<FileEntry>)
    requires NameOrder(es) && forall x :: x in es ==> x.name != e.name
    ensures NameOrder(Insert(e, es))
    ensures forall x :: x in Insert(e, es) <==> x == e || x in es
  {
    if es != [] {
      Total(es[0].name, e.name);
      if Less(es[0].name, e.name) {
        InsertOrders(e, es[1..]);
        assert es == [es[0]] + es[1..];
        var rest := Insert(e, es[1..]);
        forall i | 0 <= i < |rest|
          ensures Less(es[0].name, rest[i].name)
        {
          assert rest[i] in rest;
        }
      } else {
        forall i | 0 <= i < |es|
          ensures Less(e.name, es[i].name)
        {
          if i > 0 {
            Transitive(e.name, es[0].name, es[i].name);
          }
        }
      }
    }
  }

  /** Sorting distinct names puts the same entries into name order. */
  lemma {:induction false} SortOrders(es: seq<FileEntry>)
    requires DistinctNames(es)
    ensures NameOrder(SortByName(es))
    ensures forall x :: x in SortByName(es) <==> x in es
  {
    if es != [] {
      SortOrders(es[1..]);
      InsertOrders(es[0], SortByName(es[1..]));
      assert es == [es[0]] + es[1..];
    }
  }
}
