/** The order of names. Rust compares strings, and S3 lists keys, in the byte order of their UTF-8
    form; on Unicode scalar values that is the order of code points, the order of Dafny's `char`. */
module Order {

  predicate Less(a: string, b: string) {
    if a == [] then b != []
    else b != [] && (a[0] < b[0] || (a[0] == b[0] && Less(a[1..], b[1..])))
  }

  lemma {:induction false} Irreflexive(a: string)
    ensures !Less(a, a)
  {
    if a != [] {
      Irreflexive(a[1..]);
    }
  }

  lemma {:induction false} Transitive(a: string, b: string, c: string)
    requires Less(a, b) && Less(b, c)
    ensures Less(a, c)
  {
    if a != [] && a[0] == b[0] == c[0] {
      Transitive(a[1..], b[1..], c[1..]);
    }
  }

  lemma {:induction false} Total(a: string, b: string)
    ensures Less(a, b) || a == b || Less(b, a)
  {
    if a != [] && b != [] && a[0] == b[0] {
      Total(a[1..], b[1..]);
      if a[1..] == b[1..] {
        assert a == [a[0]] + a[1..] && b == [b[0]] + b[1..];
      }
    }
  }

  // A common prefix takes no part in a comparison.
  lemma {:induction false} CommonPrefix(p: string, a: string, b: string)
    ensures Less(p + a, p + b) <==> Less(a, b)
  {
    if p == [] {
      assert p + a == a && p + b == b;
    } else {
      CommonPrefix(p[1..], a, b);
      assert (p + a)[1..] == p[1..] + a && (p + b)[1..] == p[1..] + b;
    }
  }

  // Between prefixes of equal length, an earlier difference settles the comparison.
  lemma {:induction false} EarlierDifference(a: string, x: string, b: string, y: string)
    requires |a| == |b| && Less(a, b)
    ensures Less(a + x, b + y)
  {
    assert (a + x)[1..] == a[1..] + x && (b + y)[1..] == b[1..] + y;
    if a[0] == b[0] {
      EarlierDifference(a[1..], x, b[1..], y);
    }
  }

  // The strings part at `k`, where one of them may end.
  ghost predicate PartAt(a: string, b: string, k: nat) {
    k <= |a| && k <= |b| && a[..k] == b[..k]
  }

  /** Less is the lexicographic order: at the first difference the smaller code point comes first, and a
      string comes after its own beginnings. */
  lemma {:induction false} LessIsLexicographic(a: string, b: string)
    ensures Less(a, b) <==>
              exists k: nat :: PartAt(a, b, k) && k < |b| && (k == |a| || (k < |a| && a[k] as int < b[k] as int))
  {
    PartsShareTheFirst(a, b);
    if a == [] || b == [] || a[0] != b[0] {
      assert PartAt(a, b, 0);
    } else {
      LessIsLexicographic(a[1..], b[1..]);
      PartStep(a, b);
    }
  }

  lemma PartsShareTheFirst(a: string, b: string)
    ensures forall k: nat :: PartAt(a, b, k) && k > 0 ==> a != [] && b != [] && a[0] == b[0]
  {
    forall k: nat | PartAt(a, b, k) && k > 0
      ensures a != [] && b != [] && a[0] == b[0]
    {
      assert a[..k][0] == a[0] && b[..k][0] == b[0];
    }
  }

  lemma PartStep(a: string, b: string)
    requires a != [] && b != [] && a[0] == b[0]
    ensures forall k: nat :: PartAt(a, b, k + 1) <==> PartAt(a[1..], b[1..], k)
    ensures PartAt(a, b, 0)
  {
    forall k: nat
      ensures PartAt(a, b, k + 1) <==> PartAt(a[1..], b[1..], k)
    {
      if k < |a| && k < |b| {
        assert a[..k + 1] == [a[0]] + a[1..][..k] && b[..k + 1] == [b[0]] + b[1..][..k];
        assert a[1..][..k] == a[..k + 1][1..] && b[1..][..k] == b[..k + 1][1..];
      }
    }
  }
}
