/** User-supplied paths: the validator in front of both backends, and the resolution of a path under
    the root of the filesystem backend. */
module Paths {
  import opened Strings

  datatype PathFault = EmptyPath | NullByte | BadCharacter | Traversal | EscapesRoot | SymbolicLink

  // ---------- the validator ----------

  predicate AllowedByte(c: char) {
    'a' <= c <= 'z' || 'A' <= c <= 'Z' || '0' <= c <= '9' || c in "-._/"
  }

  predicate IsTraversal(path: string) {
    exists segment :: segment in Split(path, '/') && (segment == ".." || segment == ".")
  }

  function ValidatePath(path: string): Result<(), PathFault> {
    if path == "" then Err(EmptyPath)
    else if '\0' in path then Err(NullByte)
    else if !(forall c :: c in path ==> AllowedByte(c)) then Err(BadCharacter)
    else if IsTraversal(path) then Err(Traversal)
    else Ok(())
  }

  predicate Accepted(path: string) {
    ValidatePath(path).Ok?
  }

  // A segment that names a file or directory, or the empty segment of a redundant slash.
  predicate SafeSegment(segment: string) {
    AllChars(segment, AllowedByte) && segment != "." && segment != ".."
  }

  /** The validator accepts segment by segment. Redundant slashes pass. */
  lemma AcceptedBySegments(path: string)
    ensures Accepted(path) <==> path != "" && forall p :: p in Split(path, '/') ==> SafeSegment(p)
  {
    SplitKeepsChars(path, '/', AllowedByte);
    var parts := Split(path, '/');
    if path != "" && forall p :: p in parts ==> SafeSegment(p) {
      assert AllChars(path, AllowedByte);
      assert !AllowedByte('\0');
    }
  }

  /** The characters the validator lets through are the letters and digits of ASCII and `-`, `.`, `/`
      and `_`; beyond them it asks that no segment be `.` or `..`. */
  lemma AcceptedByCharacters(path: string)
    ensures Accepted(path) <==>
              && path != ""
              && (forall i :: 0 <= i < |path| ==>
                    var n := path[i] as int;
                    48 <= n <= 57 || 65 <= n <= 90 || 97 <= n <= 122 || n == 45 || n == 46 || n == 47 || n == 95)
              && "." !in Split(path, '/') && ".." !in Split(path, '/')
  {
    AllowedByCode(path);
    if Accepted(path) {
      assert !IsTraversal(path);
    } else if path != "" && "." !in Split(path, '/') && ".." !in Split(path, '/') {
      assert !AllowedByte('\0');
      assert exists c :: c in path && !AllowedByte(c);
    }
  }

  lemma AllowedByCode(path: string)
    ensures (forall c :: c in path ==> AllowedByte(c)) <==>
              forall i :: 0 <= i < |path| ==>
                var n := path[i] as int;
                48 <= n <= 57 || 65 <= n <= 90 || 97 <= n <= 122 || n == 45 || n == 46 || n == 47 || n == 95
  {
    forall i | 0 <= i < |path|
      ensures
        var n := path[i] as int;
        AllowedByte(path[i]) <==>
          48 <= n <= 57 || 65 <= n <= 90 || 97 <= n <= 122 || n == 45 || n == 46 || n == 47 || n == 95
    {
      AllowedCode(path[i]);
    }
    assert forall i :: 0 <= i < |path| ==> path[i] in path;
  }

  lemma AllowedCode(c: char)
    ensures
      var n := c as int;
      AllowedByte(c) <==>
        48 <= n <= 57 || 65 <= n <= 90 || 97 <= n <= 122 || n == 45 || n == 46 || n == 47 || n == 95
  {
  }

  /** Which fault is reported when a path has several: no path at all, then a null byte, then another
      character outside the alphabet, then a segment `.` or `..`. */
  lemma FaultIsExact(path: string)
    ensures ValidatePath(path) == Err(EmptyPath) <==> path == ""
    ensures ValidatePath(path) == Err(NullByte) <==> exists i :: 0 <= i < |path| && path[i] as int == 0
    ensures ValidatePath(path) == Err(Traversal) <==>
              && (forall c :: c in path ==> AllowedByte(c))
              && ("." in Split(path, '/') || ".." in Split(path, '/'))
    ensures ValidatePath(path).Err? ==> ValidatePath(path).error in {EmptyPath, NullByte, BadCharacter, Traversal}
  {
    assert !AllowedByte('\0');
    assert Split("", '/') == [""];
    assert forall i :: 0 <= i < |path| ==> path[i] in path;
    if i :| 0 <= i < |path| && path[i] as int == 0 {
      assert path[i] == '\0';
    }
    if '\0' in path {
      var i :| 0 <= i < |path| && path[i] == '\0';
      assert path[i] as int == 0;
    }
  }

  /** Accepted paths are closed under joining with a slash, and under nothing less. */
  lemma AcceptedJoin(a: string, b: string)
    requires a != "" && b != ""
    ensures Accepted(a + "/" + b) <==> Accepted(a) && Accepted(b)
  {
    AcceptedBySegments(a);
    AcceptedBySegments(b);
    AcceptedBySegments(a + "/" + b);
    SplitAtSeparator(a, '/', b);
    var x, y := Split(a, '/'), Split(b, '/');
    assert forall p :: p in x + y <==> p in x || p in y;
  }

  /** A doubled slash, or a leading one, changes nothing for the validator. */
  lemma RedundantSlashesPass(a: string, b: string)
    ensures Accepted(a + ['/'] + (['/'] + b)) <==> Accepted(a + ['/'] + b)
    ensures b != "" ==> (Accepted(['/'] + b) <==> Accepted(b))
  {
    var slashed := ['/'] + b;
    AcceptedBySegments(a + ['/'] + slashed);
    AcceptedBySegments(a + ['/'] + b);
    AcceptedBySegments(slashed);
    AcceptedBySegments(b);
    SplitAtSeparator(a, '/', slashed);
    SplitAtSeparator(a, '/', b);
    assert Split(slashed, '/') == [""] + Split(b, '/');
    assert SafeSegment("");
  }

  lemma DoubledSlashIsAccepted(path: string)
    requires path == "a//b" || path == "/a"
    ensures Accepted(path)
  {
    var plain := "a";
    assert plain == ['a'];
    LetterIsAccepted(plain);
    LetterIsAccepted("b");
    if path == "/a" {
      RedundantSlashesPass("", plain);
      assert path == ['/'] + plain;
    } else {
      RedundantSlashesPass(plain, "b");
      AcceptedJoin(plain, "b");
      assert path == plain + ['/'] + (['/'] + "b");
    }
  }

  lemma LetterIsAccepted(path: string)
    requires |path| == 1 && 'a' <= path[0] <= 'z'
    ensures Accepted(path)
  {
    AcceptedBySegments(path);
    SplitWithoutSeparator(path, '/');
  }

  // ---------- components of a path ----------

  datatype Component = Root | Dot | Up | Name(name: string)

  function Plain(segments: seq<string>): seq<Component> {
    if segments == [] then [] else PlainSegment(segments[0]) + Plain(segments[1..])
  }

  function PlainSegment(segment: string): seq<Component> {
    match segment
    case "" => []
    case "." => []
    case ".." => [Up]
    case name => [Name(name)]
  }

  predicate Absolute(path: string) {
    path != "" && path[0] == '/'
  }

  // How Rust reads a path: repeated slashes and `.` vanish, except a `.` that leads a relative path.
  function Components(path: string): seq<Component> {
    Lead(path) + Plain(Split(path, '/'))
  }

  function Lead(path: string): seq<Component> {
    if Absolute(path) then [Root] else if Split(path, '/')[0] == "." then [Dot] else []
  }

  function Join(root: string, path: string): string {
    if Absolute(path) then path
    else if root == "" || root[|root| - 1] == '/' then root + path
    else root + "/" + path
  }

  function Parent(c: seq<Component>): Option<seq<Component>> {
    if c == [] || c[|c| - 1] == Root then None else Some(c[..|c| - 1])
  }

  function Ancestors(c: seq<Component>): seq<seq<Component>> {
    [c] + if Parent(c).None? then [] else Ancestors(c[..|c| - 1])
  }

  predicate Rooted(c: seq<Component>) {
    c != [] && c[0] == Root
  }

  ghost predicate RootOnlyFirst(c: seq<Component>) {
    forall i :: 1 <= i < |c| ==> c[i] != Root
  }

  lemma {:induction false} AncestorsArePrefixes(c: seq<Component>, a: seq<Component>)
    requires RootOnlyFirst(c)
    ensures a in Ancestors(c) <==> a <= c && (Rooted(c) ==> a != [])
  {
    if Parent(c).Some? {
      var front := c[..|c| - 1];
      AncestorsArePrefixes(front, a);
      assert a <= c && a != c ==> a <= front;
    } else if c != [] {
      assert c == [Root];
      assert a <= c && a != [] ==> a == c;
    }
  }

  // ---------- resolution under a root ----------

  // What the metadata call says of the joined path.
  datatype Stat = Link | Plainly | Missing | StatFails

  datatype ResolveError = BadPath(fault: PathFault) | StatError

  // `canonical` is the root with its links resolved, when the system can tell.
  function Resolve(root: string, canonical: Option<string>, path: string, stat: Stat): Result<string, ResolveError> {
    var joined := Join(root, path);
    var canonicalRoot := if canonical.Some? then canonical.value else root;
    var ancestors := Ancestors(Components(joined));
    if Components(canonicalRoot) !in ancestors && Components(root) !in ancestors then Err(BadPath(EscapesRoot))
    else
      match stat
      case Link => Err(BadPath(SymbolicLink))
      case StatFails => Err(StatError)
      case Plainly => Ok(joined)
      case Missing => Ok(joined)
  }

  // ---------- lexical normal form ----------

  function Walked(walked: seq<Component>, c: Component): seq<Component> {
    match c
    case Root => [Root]
    case Dot => walked
    case Name(_) => walked + [c]
    case Up =>
      if walked == [] || walked[|walked| - 1] == Up then walked + [Up]
      else if walked[|walked| - 1] == Root then walked
      else walked[..|walked| - 1]
  }

  /** Where a path leads once each `..` has taken back the name before it. */
  function NormalForm(c: seq<Component>): seq<Component> {
    if c == [] then [] else Walked(NormalForm(c[..|c| - 1]), c[|c| - 1])
  }

  predicate AllNames(c: seq<Component>) {
    forall x :: x in c ==> x.Name?
  }

  lemma {:induction false} NormalFormOfNames(c: seq<Component>, names: seq<Component>)
    requires AllNames(names)
    ensures NormalForm(c + names) == NormalForm(c) + names
  {
    if names == [] {
      assert c + names == c;
    } else {
      var n := |names| - 1;
      NormalFormOfNames(c, names[..n]);
      NormalFormStep(c, names);
      assert names[n] in names;
      Associative(NormalForm(c), names[..n], [names[n]]);
      assert names == names[..n] + [names[n]];
    }
  }

  lemma {:induction false} PlainConcat(a: seq<string>, b: seq<string>)
    ensures Plain(a + b) == Plain(a) + Plain(b)
  {
    if a == [] {
      assert a + b == b;
    } else {
      PlainConcat(a[1..], b);
      assert (a + b)[0] == a[0] && (a + b)[1..] == a[1..] + b;
      Associative(PlainSegment(a[0]), Plain(a[1..]), Plain(b));
    }
  }

  lemma {:induction false} PlainHasNoRoot(segments: seq<string>)
    ensures Root !in Plain(segments)
    ensures ".." !in segments ==> AllNames(Plain(segments))
  {
    if segments != [] {
      PlainHasNoRoot(segments[1..]);
      assert segments == [segments[0]] + segments[1..];
    }
  }

  lemma ComponentsRootOnlyFirst(path: string)
    ensures RootOnlyFirst(Components(path)) && (Rooted(Components(path)) <==> Absolute(path))
  {
    PlainHasNoRoot(Split(path, '/'));
  }

  // Joining a relative path appends its segments, whatever they are.
  lemma JoinComponents(root: string, path: string)
    requires !Absolute(path) && root != ""
    ensures Components(Join(root, path)) == Components(root) + Plain(Split(path, '/'))
  {
    var n := |root| - 1;
    if root[n] == '/' {
      JoinAfterSlash(root[..n], root, path, Join(root, path));
    } else {
      SlashComponents(root, path, Join(root, path));
    }
  }

  lemma JoinAfterSlash(stem: string, root: string, path: string, joined: string)
    requires root == stem + ['/'] && joined == root + path
    ensures Components(joined) == Components(root) + Plain(Split(path, '/'))
  {
    SlashComponents(stem, path, joined);
    ClosingSlash(stem, root);
  }

  lemma ClosingSlash(stem: string, root: string)
    requires root == stem + ['/']
    ensures Components(root) == Base(stem)
  {
    EmptySegment();
    SlashComponents(stem, "", root);
    NothingAppended(Base(stem));
  }

  lemma NothingAppended<T>(s: seq<T>)
    ensures s + [] == s
  {
  }

  // What a string contributes to a path when a slash follows it.
  function Base(stem: string): seq<Component> {
    if stem == "" then [Root] else Components(stem)
  }

  lemma EmptySegment()
    ensures Split("", '/') == [""] && Plain([""]) == [] && Components("") == []
  {
    assert Plain([""]) == PlainSegment("") + Plain([""][1..]);
  }

  lemma SlashComponents(stem: string, path: string, joined: string)
    requires joined == stem + ['/'] + path
    ensures Components(joined) == Base(stem) + Plain(Split(path, '/'))
  {
    SplitAtSeparator(stem, '/', path);
    PlainConcat(Split(stem, '/'), Split(path, '/'));
    LeadOfJoined(stem, path, joined);
    Associative(Lead(joined), Plain(Split(stem, '/')), Plain(Split(path, '/')));
    EmptySegment();
  }

  /** How Rust reads one more segment: an empty one and `.` are no step, `..` is a step up, anything else a
      name. */
  lemma ComponentsOfSegment(stem: string, segment: string)
    requires stem != "" && '/' !in segment
    ensures Components(stem + ['/'] + segment) == Components(stem) +
              if segment == "" || segment == "." then [] else if segment == ".." then [Up] else [Name(segment)]
  {
    SlashComponents(stem, segment, stem + ['/'] + segment);
    SplitWithoutSeparator(segment, '/');
    OneSegment(segment);
  }

  /** And the first one: a `.` there stays, and a slash before it is the root. */
  lemma ComponentsOfFirst(segment: string)
    requires '/' !in segment
    ensures Components(segment) ==
              if segment == "" then [] else if segment == "." then [Dot] else if segment == ".." then [Up]
              else [Name(segment)]
    ensures Components(['/'] + segment) == [Root] +
              if segment == "" || segment == "." then [] else if segment == ".." then [Up] else [Name(segment)]
  {
    SplitWithoutSeparator(segment, '/');
    OneSegment(segment);
    SlashComponents("", segment, ['/'] + segment);
  }

  lemma LeadOfJoined(stem: string, path: string, joined: string)
    requires joined == stem + ['/'] + path
    ensures Lead(joined) == if stem == "" then [Root] else Lead(stem)
  {
    if stem == "" {
      assert joined[0] == '/';
    } else {
      assert joined[0] == stem[0];
      SplitAtSeparator(stem, '/', path);
    }
  }

  lemma AcceptedComponents(path: string)
    requires Accepted(path)
    ensures AllNames(Plain(Split(path, '/')))
    ensures Components(path) == (if Absolute(path) then [Root] else []) + Plain(Split(path, '/'))
  {
    AcceptedBySegments(path);
    PlainHasNoRoot(Split(path, '/'));
    assert Split(path, '/')[0] in Split(path, '/');
  }

  // ---------- containment ----------

  /** The path leads to `names`, reckoned from `base`. */
  ghost predicate Beneath(base: string, joined: string, names: seq<Component>) {
    && AllNames(names)
    && Components(joined) == Components(base) + names
    && NormalForm(Components(joined)) == NormalForm(Components(base)) + names
  }

  ghost predicate Contained(root: string, canonical: Option<string>, joined: string) {
    || (exists names :: Beneath(root, joined, names))
    || (canonical.Some? && exists names :: Beneath(canonical.value, joined, names))
  }

  lemma JoinOfAccepted(root: string, path: string)
    requires Accepted(path)
    ensures
      var names := Plain(Split(path, '/'));
      AllNames(names) && Components(Join(root, path)) == (if Absolute(path) then [Root] else Components(root)) + names
  {
    AcceptedComponents(path);
    if !Absolute(path) {
      if root == "" {
        assert root + path == path && Components(root) == [];
      } else {
        JoinComponents(root, path);
      }
    }
  }

  // Names follow any base that is an ancestor of the joined path.
  lemma BeneathAncestor(root: string, path: string, base: string)
    requires Accepted(path)
    requires Components(base) in Ancestors(Components(Join(root, path)))
    requires Absolute(path) || base == root
    ensures exists names :: Beneath(base, Join(root, path), names)
  {
    var joined, b := Components(Join(root, path)), Components(base);
    JoinOfAccepted(root, path);
    ComponentsRootOnlyFirst(Join(root, path));
    AncestorsArePrefixes(joined, b);
    var names := RestIsNames(if Absolute(path) then [Root] else Components(root), Plain(Split(path, '/')), b);
    NormalFormOfNames(b, names);
    assert Beneath(base, Join(root, path), names);
  }

  lemma RestIsNames(start: seq<Component>, names: seq<Component>, b: seq<Component>) returns (rest: seq<Component>)
    requires AllNames(names) && b <= start + names && (b == start || (start == [Root] && b != []))
    ensures AllNames(rest) && start + names == b + rest
  {
    rest := (start + names)[|b|..];
    assert forall x :: x in rest ==> x in names;
  }

  /** An accepted path that resolves leads to a place under the root, or under the canonical root:
      the names below it, and no step upwards. */
  lemma ResolveIsContained(root: string, canonical: Option<string>, path: string, stat: Stat)
    requires Accepted(path) && Resolve(root, canonical, path, stat).Ok?
    ensures Resolve(root, canonical, path, stat).value == Join(root, path)
    ensures Contained(root, canonical, Join(root, path))
  {
    if !Absolute(path) {
      RelativeJoinHasRoot(root, path);
      BeneathAncestor(root, path, root);
    } else if Components(root) in Ancestors(Components(Join(root, path))) {
      BeneathAncestor(root, path, root);
    } else {
      BeneathAncestor(root, path, canonical.value);
    }
  }

  lemma RelativeJoinHasRoot(root: string, path: string)
    requires !Absolute(path)
    ensures Components(root) in Ancestors(Components(Join(root, path)))
  {
    if root != "" {
      JoinComponents(root, path);
    } else {
      EmptySegment();
    }
    ComponentsRootOnlyFirst(root);
    ComponentsRootOnlyFirst(Join(root, path));
    AncestorsArePrefixes(Components(Join(root, path)), Components(root));
  }

  /** Which paths pass the escape check, validated or not: every relative one, and an absolute one
      exactly when it spells out the root or the canonical root. */
  lemma EscapeCheckIsExact(root: string, canonical: Option<string>, path: string, stat: Stat)
    ensures Resolve(root, canonical, path, stat) != Err(BadPath(EscapesRoot)) <==>
              || !Absolute(path)
              || (Absolute(root) && Components(root) <= Components(path))
              || (canonical.Some? && Absolute(canonical.value) && Components(canonical.value) <= Components(path))
  {
    if !Absolute(path) {
      RelativeJoinHasRoot(root, path);
    } else {
      assert Join(root, path) == path;
      ComponentsRootOnlyFirst(path);
      ComponentsRootOnlyFirst(root);
      AncestorsArePrefixes(Components(path), Components(root));
      if canonical.Some? {
        ComponentsRootOnlyFirst(canonical.value);
        AncestorsArePrefixes(Components(path), Components(canonical.value));
      }
    }
  }

  // ---------- what the escape check lets through ----------

  /** A place below `base`, or `base` itself. Both are in normal form. */
  predicate Within(base: seq<Component>, place: seq<Component>) {
    base <= place && AllNames(place[|base|..])
  }

  /** Whoever follows `tail` from `base` is never outside of `base`. */
  ghost predicate StaysInside(base: seq<Component>, tail: seq<Component>) {
    forall k :: 0 <= k <= |tail| ==> Within(NormalForm(base), NormalForm(base + tail[..k]))
  }

  // Names gained less names given up.
  function Depth(tail: seq<Component>): int {
    if tail == [] then 0 else Depth(tail[..|tail| - 1]) + Rise(tail[|tail| - 1])
  }

  function Rise(c: Component): int {
    if c.Name? then 1 else if c == Up then -1 else 0
  }

  /** At no point has `..` been used more often than there were names to give up. */
  predicate NeverAbove(tail: seq<Component>) {
    forall k :: 0 <= k <= |tail| ==> Depth(tail[..k]) >= 0
  }

  lemma NormalFormStep(base: seq<Component>, tail: seq<Component>)
    requires tail != []
    ensures NormalForm(base + tail) == Walked(NormalForm(base + tail[..|tail| - 1]), tail[|tail| - 1])
  {
    var n := |tail| - 1;
    assert (base + tail)[..|base + tail| - 1] == base + tail[..n];
    assert (base + tail)[|base + tail| - 1] == tail[n];
  }

  lemma {:induction false} NormalFormRootOnlyFirst(c: seq<Component>)
    ensures RootOnlyFirst(NormalForm(c))
  {
    if c != [] {
      NormalFormRootOnlyFirst(c[..|c| - 1]);
    }
  }

  lemma NeverAboveFront(tail: seq<Component>)
    requires tail != [] && NeverAbove(tail)
    ensures NeverAbove(tail[..|tail| - 1]) && Depth(tail) >= 0
  {
    var front := tail[..|tail| - 1];
    assert tail[..|tail|] == tail;
    forall k | 0 <= k <= |front|
      ensures Depth(front[..k]) >= 0
    {
      assert front[..k] == tail[..k];
    }
  }

  // Below the base there are as many names as the depth says.
  lemma {:induction false} NamesGained(base: seq<Component>, tail: seq<Component>) returns (names: seq<Component>)
    requires Root !in tail && NeverAbove(tail)
    ensures AllNames(names) && |names| == Depth(tail) && NormalForm(base + tail) == NormalForm(base) + names
  {
    if tail == [] {
      names := [];
      assert base + tail == base;
      NothingAppended(NormalForm(base));
    } else {
      var n := |tail| - 1;
      NeverAboveFront(tail);
      assert tail[n] in tail;
      assert forall x :: x in tail[..n] ==> x in tail;
      var before := NamesGained(base, tail[..n]);
      NormalFormStep(base, tail);
      names := NamesWalked(NormalForm(base), before, tail[n]);
    }
  }

  lemma NamesWalked(place: seq<Component>, before: seq<Component>, c: Component) returns (names: seq<Component>)
    requires AllNames(before) && c != Root && |before| + Rise(c) >= 0
    ensures AllNames(names) && |names| == |before| + Rise(c) && Walked(place + before, c) == place + names
  {
    match c
    case Dot =>
      names := before;
    case Name(_) =>
      names := before + [c];
      Associative(place, before, [c]);
    case Up =>
      var n := |before| - 1;
      names := before[..n];
      assert (place + before)[|place + before| - 1] == before[n] && before[n] in before;
      assert (place + before)[..|place + before| - 1] == place + names;
  }

  // The root of the file system is its own parent.
  lemma {:induction false} NamesFromTheTop(base: seq<Component>, tail: seq<Component>)
    requires Root !in tail && NormalForm(base) == [Root]
    ensures Within([Root], NormalForm(base + tail))
  {
    if tail == [] {
      assert base + tail == base;
    } else {
      var n := |tail| - 1;
      assert tail[n] in tail;
      assert forall x :: x in tail[..n] ==> x in tail;
      NamesFromTheTop(base, tail[..n]);
      NormalFormStep(base, tail);
      WalkedFromTheTop(NormalForm(base + tail[..n]), tail[n]);
    }
  }

  lemma WalkedFromTheTop(place: seq<Component>, c: Component)
    requires Within([Root], place) && c != Root
    ensures Within([Root], Walked(place, c))
  {
    match c
    case Dot =>
    case Name(_) =>
      assert Walked(place, c)[1..] == place[1..] + [c];
    case Up =>
      UpFromTheTop(place, place[1..]);
  }

  lemma UpFromTheTop(place: seq<Component>, names: seq<Component>)
    requires place == [Root] + names && AllNames(names)
    ensures Within([Root], Walked(place, Up))
  {
    if names == [] {
      assert place == [Root];
    } else {
      var n := |names| - 1;
      assert place[|place| - 1] == names[n] && names[n] in names;
      assert place[..|place| - 1] == [Root] + names[..n];
      assert ([Root] + names[..n])[1..] == names[..n];
    }
  }

  // One `..` more than there are names leaves every base but the root of the file system.
  lemma UpLeaves(place: seq<Component>)
    requires RootOnlyFirst(place) && place != [Root]
    ensures !Within(place, Walked(place, Up))
  {
    if place == [] || place[|place| - 1] == Up {
      assert (place + [Up])[|place|..] == [Up];
      assert Up in (place + [Up])[|place|..];
    }
  }

  lemma {:induction false} FirstStepAbove(tail: seq<Component>, k: nat) returns (first: nat)
    requires k <= |tail| && Depth(tail[..k]) < 0
    ensures first < |tail| && NeverAbove(tail[..first]) && Depth(tail[..first]) == 0 && tail[first] == Up
  {
    if j :| 0 <= j < k && Depth(tail[..j]) < 0 {
      first := FirstStepAbove(tail, j);
    } else {
      first := k - 1;
      assert tail[..k][..first] == tail[..first] && tail[..k][first] == tail[first];
      assert forall j :: 0 <= j <= first ==> tail[..first][..j] == tail[..j];
    }
  }

  /** Which ways on from a base stay inside it at every step: all of them when the base is the root of
      the file system, and elsewhere those that never give up a name they have not gained. */
  lemma StaysInsideExactly(base: seq<Component>, tail: seq<Component>)
    requires Root !in tail
    ensures StaysInside(base, tail) <==> NormalForm(base) == [Root] || NeverAbove(tail)
  {
    if NormalForm(base) == [Root] {
      forall k | 0 <= k <= |tail|
        ensures Within(NormalForm(base), NormalForm(base + tail[..k]))
      {
        NamesFromTheTop(base, tail[..k]);
      }
    } else if NeverAbove(tail) {
      NeverAboveStays(base, tail);
    } else {
      AboveLeaves(base, tail);
    }
  }

  lemma NeverAboveStays(base: seq<Component>, tail: seq<Component>)
    requires Root !in tail && NeverAbove(tail)
    ensures StaysInside(base, tail)
  {
    forall k | 0 <= k <= |tail|
      ensures Within(NormalForm(base), NormalForm(base + tail[..k]))
    {
      assert forall j :: 0 <= j <= k ==> tail[..k][..j] == tail[..j];
      var names := NamesGained(base, tail[..k]);
      assert (NormalForm(base) + names)[|NormalForm(base)|..] == names;
    }
  }

  lemma AboveLeaves(base: seq<Component>, tail: seq<Component>)
    requires Root !in tail && !NeverAbove(tail) && NormalForm(base) != [Root]
    ensures !StaysInside(base, tail)
  {
    var k :| 0 <= k <= |tail| && Depth(tail[..k]) < 0;
    var n := FirstStepAbove(tail, k);
    assert forall x :: x in tail[..n] ==> x in tail;
    LeavesAt(base, tail, n);
  }

  lemma LeavesAt(base: seq<Component>, tail: seq<Component>, n: nat)
    requires n < |tail| && Root !in tail[..n] && NeverAbove(tail[..n]) && Depth(tail[..n]) == 0 && tail[n] == Up
    requires NormalForm(base) != [Root]
    ensures !Within(NormalForm(base), NormalForm(base + tail[..n + 1]))
  {
    var level, above := tail[..n], tail[..n + 1];
    var names := NamesGained(base, level);
    NothingAppended(NormalForm(base));
    assert above[..|above| - 1] == level;
    NormalFormStep(base, above);
    NormalFormRootOnlyFirst(base);
    UpLeaves(NormalForm(base));
  }

  /** Which paths that pass the escape check, validated or not, stay inside the base that let them pass. */
  lemma EscapeCheckContainsExactly(root: string, path: string, base: string)
    requires Components(base) in Ancestors(Components(Join(root, path)))
    ensures Components(base) <= Components(Join(root, path))
    ensures
      var rest := Components(Join(root, path))[|Components(base)|..];
      StaysInside(Components(base), rest) <==> NormalForm(Components(base)) == [Root] || NeverAbove(rest)
  {
    ComponentsRootOnlyFirst(Join(root, path));
    BehindAncestor(Components(Join(root, path)), Components(base));
  }

  lemma BehindAncestor(joined: seq<Component>, base: seq<Component>)
    requires RootOnlyFirst(joined) && base in Ancestors(joined)
    ensures base <= joined
    ensures StaysInside(base, joined[|base|..]) <==> NormalForm(base) == [Root] || NeverAbove(joined[|base|..])
  {
    RestHasNoRoot(joined, base);
    StaysInsideExactly(base, joined[|base|..]);
  }

  lemma RestHasNoRoot(joined: seq<Component>, base: seq<Component>)
    requires RootOnlyFirst(joined) && base in Ancestors(joined)
    ensures base <= joined && Root !in joined[|base|..]
  {
    AncestorsArePrefixes(joined, base);
    var rest := joined[|base|..];
    forall i | 0 <= i < |rest|
      ensures rest[i] != Root
    {
      assert rest[i] == joined[|base| + i];
    }
  }

  /** Relative, or spelling out the root or the canonical root. */
  predicate Admitted(root: string, canonical: Option<string>, path: string) {
    || !Absolute(path)
    || (Absolute(root) && Components(root) <= Components(path))
    || (canonical.Some? && Absolute(canonical.value) && Components(canonical.value) <= Components(path))
  }

  /** What resolution answers, for every path and whatever the metadata call says: a path outside escapes;
      of those inside, a link is refused, a failing call is reported, and the others resolve to their join
      with the root. */
  lemma ResolveIsExact(root: string, canonical: Option<string>, path: string, stat: Stat)
    ensures
      var resolved := Resolve(root, canonical, path, stat);
      && (resolved.Ok? <==> Admitted(root, canonical, path) && (stat.Plainly? || stat.Missing?))
      && (resolved == Err(BadPath(EscapesRoot)) <==> !Admitted(root, canonical, path))
      && (resolved == Err(BadPath(SymbolicLink)) <==> Admitted(root, canonical, path) && stat.Link?)
      && (resolved == Err(StatError) <==> Admitted(root, canonical, path) && stat.StatFails?)
      && (resolved.Ok? ==> resolved.value == Join(root, path))
  {
    EscapeCheckIsExact(root, canonical, path, stat);
  }

  /** The escape check lets every relative path through, with `..` or without. */
  lemma EscapeCheckPassesEveryRelativePath(root: string, canonical: Option<string>, path: string)
    requires !Absolute(path)
    ensures Resolve(root, canonical, path, Missing) == Ok(Join(root, path))
  {
    RelativeJoinHasRoot(root, path);
  }

  /** A relative path, validated or not, stays inside the root exactly when its own segments never climb
      above their start, or there is nothing above the root. */
  lemma RelativePathStaysInside(root: string, path: string)
    requires root != "" && !Absolute(path)
    ensures
      var tail := Plain(Split(path, '/'));
      && Components(Join(root, path)) == Components(root) + tail
      && (StaysInside(Components(root), tail) <==> NormalForm(Components(root)) == [Root] || NeverAbove(tail))
  {
    JoinComponents(root, path);
    PlainHasNoRoot(Split(path, '/'));
    StaysInsideExactly(Components(root), Plain(Split(path, '/')));
  }

  /** What the validator accepts never climbs. */
  lemma AcceptedNeverClimbs(path: string)
    requires Accepted(path)
    ensures NeverAbove(Plain(Split(path, '/')))
  {
    AcceptedComponents(path);
    NamesNeverClimb(Plain(Split(path, '/')));
  }

  lemma {:induction false} NamesNeverClimb(names: seq<Component>)
    requires AllNames(names)
    ensures NeverAbove(names) && Depth(names) == |names|
  {
    if names != [] {
      var n := |names| - 1;
      assert names[n] in names;
      NamesNeverClimb(names[..n]);
      assert names[..n + 1] == names;
      assert forall k :: 0 <= k <= n ==> names[..n][..k] == names[..k];
    }
  }

  /** Without the validator `../x` resolves to a sibling of the root. */
  lemma EscapeWithoutValidator(root: string, path: string)
    requires root == "/srv" && path == "../x"
    ensures Resolve(root, None, path, Missing) == Ok(Join(root, path))
    ensures NormalForm(Components(root)) == [Root, Name("srv")]
    ensures NormalForm(Components(Join(root, path))) == [Root, Name("x")]
    ensures !Within(NormalForm(Components(root)), NormalForm(Components(Join(root, path))))
  {
    RelativeJoinHasRoot(root, path);
    JoinComponents(root, path);
    SegmentsOfRoot(root);
    SegmentsOfUp(path);
    TakenBack([Root], Name("srv"), Name("x"));
  }

  lemma SegmentsOfRoot(root: string)
    requires root == "/srv"
    ensures Components(root) == [Root] + [Name("srv")]
  {
    SlashComponents("", "srv", root);
    SplitWithoutSeparator("srv", '/');
    OneSegment("srv");
  }

  lemma OneSegment(segment: string)
    ensures Plain([segment]) == PlainSegment(segment)
  {
    assert [segment][1..] == [];
    NothingAppended(PlainSegment(segment));
  }

  lemma SegmentsOfUp(path: string)
    requires path == "../x"
    ensures Plain(Split(path, '/')) == [Up] + [Name("x")]
  {
    SplitAtSeparator("..", '/', "x");
    SplitWithoutSeparator("..", '/');
    SplitWithoutSeparator("x", '/');
    assert path == ".." + ['/'] + "x";
    PlainConcat([".."], ["x"]);
    OneSegment("..");
    OneSegment("x");
  }

  lemma TakenBack(top: seq<Component>, home: Component, other: Component)
    requires top == [Root] && home.Name? && other.Name?
    ensures NormalForm(top + [home]) == [Root, home]
    ensures NormalForm((top + [home]) + ([Up] + [other])) == [Root, other]
  {
    assert top[..0] == [];
    NormalFormOfNames(top, [home]);
    var there := top + [home];
    NormalFormStep(there, [Up]);
    NothingAppended(there);
    NormalFormOfNames(there + [Up], [other]);
    Associative(there, [Up], [other]);
  }
}
