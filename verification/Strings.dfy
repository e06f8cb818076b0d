/** Options, results, and the splitting of strings. */
module Strings {

  datatype Option<+T> = None | Some(value: T)

  datatype Result<+T, +E> = Ok(value: T) | Err(error: E)

  lemma Associative<T>(x: seq<T>, y: seq<T>, z: seq<T>)
    ensures (x + y) + z == x + (y + z)
  {
  }

  // Rust's `split`: one more part than there are separators, parts possibly empty.
  function Split(s: string, separator: char): (parts: seq<string>)
    ensures |parts| >= 1
  {
    if s == [] then [""]
    else
      var rest := Split(s[1..], separator);
      if s[0] == separator then [""] + rest else [[s[0]] + rest[0]] + rest[1..]
  }

  lemma {:induction false} SplitAtSeparator(a: string, separator: char, b: string)
    ensures Split(a + [separator] + b, separator) == Split(a, separator) + Split(b, separator)
  {
    var s := a + [separator] + b;
    if a == [] {
      assert s[0] == separator && s[1..] == b;
    } else {
      assert s[0] == a[0] && s[1..] == a[1..] + [separator] + b;
      SplitAtSeparator(a[1..], separator, b);
      var x, y := Split(a[1..], separator), Split(b, separator);
      assert (x + y)[0] == x[0] && (x + y)[1..] == x[1..] + y;
      if a[0] == separator {
        Associative([""], x, y);
      } else {
        Associative([[a[0]] + x[0]], x[1..], y);
      }
    }
  }

  lemma {:induction false} SplitWithoutSeparator(s: string, separator: char)
    requires separator !in s
    ensures Split(s, separator) == [s]
  {
    if s != [] {
      SplitWithoutSeparator(s[1..], separator);
      assert s == [s[0]] + s[1..];
    }
  }

  predicate AllChars(s: string, ok: char -> bool) {
    forall c :: c in s ==> ok(c)
  }

  // The parts are made of the characters of the string.
  lemma {:induction false} SplitKeepsChars(s: string, separator: char, ok: char -> bool)
    requires ok(separator)
    ensures AllChars(s, ok) <==> forall p :: p in Split(s, separator) ==> AllChars(p, ok)
  {
    if s != [] {
      SplitKeepsChars(s[1..], separator, ok);
      var rest := Split(s[1..], separator);
      assert AllChars(s, ok) <==> ok(s[0]) && AllChars(s[1..], ok) by {
        assert s == [s[0]] + s[1..];
      }
      if s[0] == separator {
        assert forall p :: p in Split(s, separator) <==> p == "" || p in rest;
      } else {
        var first := [s[0]] + rest[0];
        assert AllChars(first, ok) <==> ok(s[0]) && AllChars(rest[0], ok);
        assert rest == [rest[0]] + rest[1..];
        assert forall p :: p in Split(s, separator) <==> p == first || p in rest[1..];
        assert forall p :: p in rest <==> p == rest[0] || p in rest[1..];
      }
    }
  }
}
