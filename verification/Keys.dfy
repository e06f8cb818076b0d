/** The mapping between user-facing paths and the object keys under a configured bucket path. */
module Keys {
  import opened Strings
  import opened Order

  predicate EndsWithSlash(s: string) {
    s != "" && s[|s| - 1] == '/'
  }

  function Key(bucketPath: string, path: string): string {
    if bucketPath == "" then path
    else if EndsWithSlash(bucketPath) then bucketPath + path
    else bucketPath + "/" + path
  }

  // The prefix a listing asks for; none for an empty bucket path.
  function PrefixArg(bucketPath: string): Option<string> {
    if bucketPath == "" then None
    else if EndsWithSlash(bucketPath) then Some(bucketPath)
    else Some(bucketPath + "/")
  }

  function StripPrefix(bucketPath: string, key: string): Option<string> {
    if bucketPath == "" then Some(key)
    else
      var prefix := if EndsWithSlash(bucketPath) then bucketPath else bucketPath + "/";
      if prefix <= key then Some(key[|prefix|..]) else None
  }

  // The key a listing resumes after.
  function StartAfterKey(bucketPath: string, cursor: Option<string>): Option<string> {
    match cursor
    case None => None
    case Some(name) =>
      match PrefixArg(bucketPath)
      case Some(p) => Some(p + name)
      case None => Some(name)
  }

  // Stripping undoes `Key` and nothing else: a key has a name exactly when it is the key of that name. So
  // no two paths share a key.
  lemma StripIsInverse(bucketPath: string, key: string, path: string)
    ensures StripPrefix(bucketPath, key) == Some(path) <==> key == Key(bucketPath, path)
  {
    if bucketPath != "" {
      var prefix := if EndsWithSlash(bucketPath) then bucketPath else bucketPath + "/";
      assert Key(bucketPath, path) == prefix + path;
      assert prefix <= key ==> key == prefix + key[|prefix|..];
    }
  }

  /** Keys compare as the paths they stand for. */
  lemma KeyOrder(bucketPath: string, a: string, b: string)
    ensures Less(Key(bucketPath, a), Key(bucketPath, b)) <==> Less(a, b)
  {
    if bucketPath != "" {
      var prefix := if EndsWithSlash(bucketPath) then bucketPath else bucketPath + "/";
      CommonPrefix(prefix, a, b);
      assert Key(bucketPath, a) == prefix + a && Key(bucketPath, b) == prefix + b;
    }
  }

  /** The key a listing resumes after selects the names after the cursor. */
  lemma StartAfterSelects(bucketPath: string, cursor: string, name: string)
    ensures StartAfterKey(bucketPath, Some(cursor)).Some?
    ensures Less(StartAfterKey(bucketPath, Some(cursor)).value, Key(bucketPath, name)) <==> Less(cursor, name)
  {
    KeyOrder(bucketPath, cursor, name);
    assert StartAfterKey(bucketPath, Some(cursor)) == Some(Key(bucketPath, cursor));
  }

  /** A key is the bucket path and the path with one slash between them: a bucket path that ends in a slash
      gets no second one, an empty one none at all. */
  lemma KeySegments(bucketPath: string, path: string)
    ensures Key("", path) == path
    ensures bucketPath != "" && bucketPath[|bucketPath| - 1] != '/' ==>
              && Split(Key(bucketPath, path), '/') == Split(bucketPath, '/') + Split(path, '/')
              && Key(bucketPath + ['/'], path) == Key(bucketPath, path)
  {
    if bucketPath != "" && bucketPath[|bucketPath| - 1] != '/' {
      SplitAtSeparator(bucketPath, '/', path);
      assert Key(bucketPath, path) == bucketPath + ['/'] + path;
      assert EndsWithSlash(bucketPath + ['/']);
    }
  }
}
