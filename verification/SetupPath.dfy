/** The lexical grant of setup directories: normalized absolute paths and roots that contain them. */
module SetupPath {
  import opened Wrappers
  import opened Text
  import opened Splitting

  const MAX_SOURCE_PATH_BYTES: nat := 4096

  function ValidateSetupPath(path: string): (r: Result<()>)
    ensures r.Err? ==> r.error == InvalidArguments
  {
    if || path == ""
       || Utf8Length(path) > MAX_SOURCE_PATH_BYTES
       || path[0] != '/'
       || HasNul(path)
       || (path != "/" && !Plain(Split(path[1..], '/')))
    then Err(InvalidArguments) else Ok(())
  }

  /** No component is empty, the directory itself or its parent. */
  predicate Plain(parts: seq<string>) {
    forall i :: 0 <= i < |parts| ==> parts[i] != "" && parts[i] != "." && parts[i] != ".."
  }

  predicate Covers(root: string, path: string) {
    || root == "/"
    || path == root
    || (root <= path && |root| < |path| && path[|root|] == '/')
  }

  predicate Granted(path: string, roots: seq<string>) {
    && ValidateSetupPath(path).Ok?
    && exists i :: 0 <= i < |roots| && ValidateSetupPath(roots[i]).Ok? && Covers(roots[i], path)
  }

  // -- component lists ------------------------------------------------------------------------

  /** The path that a list of components spells. */
  function Spelled(parts: seq<string>): string {
    "/" + Join(parts, '/')
  }

  /** Components that can stand in a normalized path. */
  ghost predicate Ordinary(parts: seq<string>) {
    forall i :: 0 <= i < |parts| ==> |parts[i]| > 0 && '/' !in parts[i] && parts[i] !in {".", ".."}
  }

  /** Normalized: short, without NUL, and spelled by a list of ordinary components. */
  ghost predicate Normalized(path: string) {
    |Utf8(path)| <= 4096 && '\0' !in path && exists parts :: Ordinary(parts) && path == Spelled(parts)
  }

  function Components(path: string): seq<string> {
    if path == "" || path == "/" then [] else Split(path[1..], '/')
  }

  lemma SpelledComponents(parts: seq<string>)
    requires Ordinary(parts)
    ensures Components(Spelled(parts)) == parts
    ensures parts != [] ==> Spelled(parts) != "/"
  {
    if parts != [] {
      SplitJoin(parts, '/');
      assert Spelled(parts)[1..] == Join(parts, '/');
      assert parts[0] != "";
      assert Join(parts, '/') != "";
    }
  }

  lemma OrdinaryMeaning(parts: seq<string>)
    ensures Ordinary(parts) <==> Plain(parts) && forall i :: 0 <= i < |parts| ==> '/' !in parts[i]
  {
  }

  lemma AcceptedIsSpelled(path: string)
    requires path != "" && path[0] == '/' && (path != "/" ==> Plain(Split(path[1..], '/')))
    ensures Ordinary(Components(path)) && Spelled(Components(path)) == path
  {
    OrdinaryMeaning(Components(path));
    if path != "/" {
      JoinSplit(path[1..], '/');
      assert path == "/" + path[1..];
    }
  }

  lemma SpelledIsAccepted(parts: seq<string>)
    requires Ordinary(parts)
    ensures var path := Spelled(parts); path != "" && path[0] == '/' && (path != "/" ==> Plain(Split(path[1..], '/')))
    ensures Components(Spelled(parts)) == parts
  {
    SpelledComponents(parts);
    OrdinaryMeaning(parts);
  }

  /** The validator accepts exactly the normalized paths. */
  lemma ValidatesNormalized(path: string)
    ensures ValidateSetupPath(path).Ok? <==> Normalized(path)
    ensures Normalized(path) ==> Ordinary(Components(path)) && Spelled(Components(path)) == path
  {
    Utf8LengthExactly(path);
    if ValidateSetupPath(path).Ok? {
      AcceptedIsSpelled(path);
    }
    if Normalized(path) {
      var parts :| Ordinary(parts) && path == Spelled(parts);
      SpelledIsAccepted(parts);
    }
  }

  /** A longer component list spells the shorter path, a slash, and the rest. */
  lemma SpelledAppend(a: seq<string>, b: seq<string>)
    requires a != [] && b != []
    ensures Spelled(a + b) == Spelled(a) + ("/" + Join(b, '/'))
  {
    JoinAppend(a, b, '/');
  }

  /** Covering is prefix order on components. */
  lemma CoversIsPrefix(root: string, path: string)
    requires Normalized(root) && Normalized(path)
    ensures Covers(root, path) <==> Components(root) <= Components(path)
  {
    if root != "/" {
      if Components(root) <= Components(path) {
        PrefixCovers(root, path);
      } else if Covers(root, path) {
        assert path != root;
        CoveredExtends(root, path);
      }
    }
  }

  lemma PrefixCovers(root: string, path: string)
    requires Normalized(root) && Normalized(path) && Components(root) <= Components(path)
    ensures Covers(root, path)
  {
    ValidatesNormalized(root);
    ValidatesNormalized(path);
    PrefixSpelled(Components(root), Components(path));
  }

  lemma PrefixSpelled(r: seq<string>, p: seq<string>)
    requires r <= p
    ensures Covers(Spelled(r), Spelled(p))
  {
    if r != [] && r != p {
      var tail := p[|r|..];
      assert p == r + tail;
      SpelledAppend(r, tail);
      ExtensionCovers(Spelled(r), Join(tail, '/'));
    }
  }

  lemma ExtensionCovers(root: string, rest: string)
    ensures Covers(root, root + ("/" + rest))
  {
    var path := root + ("/" + rest);
    assert path[..|root|] == root && path[|root|] == '/';
  }

  /** A root below "/" has components, and they spell it. */
  lemma RootSpelled(root: string)
    requires Normalized(root) && root != "/"
    ensures Separable(Components(root), '/') && Spelled(Components(root)) == root
  {
    ValidatesNormalized(root);
    JoinSplit(root[1..], '/');
  }

  /** If the text goes on with a slash, the component list goes on too. */
  lemma CoveredExtends(root: string, path: string)
    requires Normalized(root) && root != "/"
    requires root <= path && |root| < |path| && path[|root|] == '/'
    ensures Components(root) <= Components(path)
  {
    RootSpelled(root);
    SpelledExtends(Components(root), path);
  }

  lemma SpelledExtends(r: seq<string>, path: string)
    requires Separable(r, '/') && Spelled(r) <= path && |Spelled(r)| < |path| && path[|Spelled(r)|] == '/'
    ensures r <= Split(path[1..], '/')
  {
    var rest := path[|Spelled(r)| + 1..];
    assert path == Spelled(r) + ("/" + rest);
    ExtensionSplits(r, rest);
  }

  lemma ExtensionSplits(r: seq<string>, rest: string)
    requires Separable(r, '/')
    ensures Split((Spelled(r) + ("/" + rest))[1..], '/') == r + Split(rest, '/')
  {
    var tail := Split(rest, '/');
    JoinSplit(rest, '/');
    SpelledAppend(r, tail);
    SplitSpelled(r + tail);
  }

  lemma SplitSpelled(parts: seq<string>)
    requires Separable(parts, '/')
    ensures Split(Spelled(parts)[1..], '/') == parts
  {
    SplitJoin(parts, '/');
    assert Spelled(parts)[1..] == Join(parts, '/');
  }

  /** A path is granted exactly when it and some root are normalized and the root's components come first. */
  lemma GrantedIsContainment(path: string, roots: seq<string>)
    ensures Granted(path, roots) <==>
      && Normalized(path)
      && exists i :: 0 <= i < |roots| && Normalized(roots[i]) && Components(roots[i]) <= Components(path)
  {
    ValidatesNormalized(path);
    forall i | 0 <= i < |roots|
      ensures ValidateSetupPath(roots[i]).Ok? <==> Normalized(roots[i])
      ensures Normalized(path) && Normalized(roots[i]) ==> (Covers(roots[i], path) <==> Components(roots[i]) <= Components(path))
    {
      ValidatesNormalized(roots[i]);
      if Normalized(path) && Normalized(roots[i]) { CoversIsPrefix(roots[i], path); }
    }
  }

  /** A grant of a directory is a grant of everything below it. */
  lemma GrantReachesBelow(parent: string, child: string, roots: seq<string>)
    requires Granted(parent, roots) && Normalized(child) && Components(parent) <= Components(child)
    ensures Granted(child, roots)
  {
    GrantedIsContainment(parent, roots);
    GrantedIsContainment(child, roots);
    var i :| 0 <= i < |roots| && Normalized(roots[i]) && Components(roots[i]) <= Components(parent);
    assert Components(roots[i]) <= Components(child);
  }

  /**
  A sibling whose name merely starts with a root's name owes nothing to that root: it is granted
  exactly if it would be without it, so not at all unless another root contains it.
  */
  lemma SiblingNotGranted(root: string, suffix: string, roots: seq<string>)
    requires root != "/" && suffix != "" && suffix[0] != '/'
    ensures Granted(root + suffix, roots + [root]) <==> Granted(root + suffix, roots)
    ensures (forall i :: 0 <= i < |roots| && Normalized(roots[i]) ==> !(Components(roots[i]) <= Components(root + suffix))) ==>
      !Granted(root + suffix, roots + [root])
  {
    var sibling, all := root + suffix, roots + [root];
    assert !Covers(root, sibling);
    assert forall i :: 0 <= i < |roots| ==> all[i] == roots[i];
    assert all[|roots|] == root;
    GrantedIsContainment(sibling, roots);
  }
}
