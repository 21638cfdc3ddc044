/** The workspace-collection cursor: `w:<uuid>/c:<collection>/r:<uuid>`. */
module CollectionCursor {
  import opened Wrappers
  import opened Uuids
  import opened UuidText
  import opened Splitting

  datatype Collection = CandidateSets | NativePlanning {
    function Name(): string {
      if CandidateSets? then "candidate_sets" else "native_planning"
    }
  }

  datatype Cursor = Cursor(workspaceId: Uuid, collection: Collection, anchorId: Uuid) {
    function Encode(): string {
      ("w:" + Hyphenated(workspaceId)) + "/" + ("c:" + collection.Name()) + "/" + ("r:" + Hyphenated(anchorId))
    }

    predicate NonNil() {
      !IsNil(workspaceId) && !IsNil(anchorId)
    }

    function Validate(workspace: Uuid, expected: Collection): (r: Result<()>)
      ensures r.Err? ==> r.error == InvalidArguments
    {
      if workspaceId != workspace || collection != expected || IsNil(anchorId) then Err(InvalidArguments) else Ok(())
    }
  }

  function StripPrefix(s: string, prefix: string): Option<string> {
    if prefix <= s then Some(s[|prefix|..]) else None
  }

  /** The n-th part, if there is one, without its two-character tag. */
  function Tagged(parts: seq<string>, n: nat, tag: string): Option<string> {
    if n < |parts| then StripPrefix(parts[n], tag) else None
  }

  function ParseCollection(name: Option<string>): Option<Collection> {
    if name == Some("candidate_sets") then Some(CandidateSets)
    else if name == Some("native_planning") then Some(NativePlanning)
    else None
  }

  function Parse(value: string): (r: Result<Cursor>)
    ensures r.Err? ==> r.error == InvalidArguments
  {
    var parts := Split(value, '/');
    var workspace, collection, anchor := Tagged(parts, 0, "w:"), Tagged(parts, 1, "c:"), Tagged(parts, 2, "r:");
    if |parts| > 3 || workspace.None? || anchor.None? then Err(InvalidArguments)
    else
      match (ParseUuid(workspace.value), ParseUuid(anchor.value), ParseCollection(collection))
      case (Some(workspaceId), Some(anchorId), Some(kind)) =>
        var cursor := Cursor(workspaceId, kind, anchorId);
        if IsNil(workspaceId) || IsNil(anchorId) || cursor.Encode() != value then Err(InvalidArguments) else Ok(cursor)
      case _ => Err(InvalidArguments)
  }

  lemma SplitThree(a: string, b: string, c: string)
    requires '/' !in a && '/' !in b && '/' !in c
    ensures Split(a + "/" + b + "/" + c, '/') == [a, b, c]
  {
    var parts := [a, b, c];
    assert parts[1..] == [b, c] && [b, c][1..] == [c];
    assert Join([b, c], '/') == b + "/" + c;
    assert a + "/" + b + "/" + c == a + "/" + (b + "/" + c);
    SplitJoin(parts, '/');
  }

  lemma NoSlash(tag: string, id: Uuid)
    requires '/' !in tag
    ensures '/' !in tag + Hyphenated(id)
  {
    PrintedPlain(id);
  }

  /** The encoding splits into its three tagged parts. */
  lemma EncodedParts(c: Cursor)
    ensures Split(c.Encode(), '/') == ["w:" + Hyphenated(c.workspaceId), "c:" + c.collection.Name(), "r:" + Hyphenated(c.anchorId)]
  {
    NoSlash("w:", c.workspaceId);
    NoSlash("r:", c.anchorId);
    SplitThree("w:" + Hyphenated(c.workspaceId), "c:" + c.collection.Name(), "r:" + Hyphenated(c.anchorId));
  }

  lemma Untag(parts: seq<string>, n: nat, tag: string, content: string)
    requires n < |parts| && parts[n] == tag + content
    ensures Tagged(parts, n, tag) == Some(content)
  {
    assert (tag + content)[|tag|..] == content;
    assert tag <= tag + content;
  }

  lemma EncodedParses(c: Cursor)
    requires c.NonNil()
    ensures Parse(c.Encode()) == Ok(c)
  {
    EncodedParts(c);
    PrintedParses(c.workspaceId);
    PrintedParses(c.anchorId);
    var parts := Split(c.Encode(), '/');
    Untag(parts, 0, "w:", Hyphenated(c.workspaceId));
    Untag(parts, 1, "c:", c.collection.Name());
    Untag(parts, 2, "r:", Hyphenated(c.anchorId));
    NamesParse(c.collection);
  }

  lemma NamesParse(k: Collection)
    ensures ParseCollection(Some(k.Name())) == Some(k)
  {
    assert "candidate_sets"[0] != "native_planning"[0];
  }

  /** Accepted strings and non-nil cursors correspond one to one. */
  lemma ParseInvertsEncode(value: string, c: Cursor)
    ensures Parse(value) == Ok(c) <==> c.NonNil() && value == c.Encode()
  {
    if c.NonNil() && value == c.Encode() {
      EncodedParses(c);
    }
  }

  /** The encoding determines the cursor, nil or not. */
  lemma EncodeInjective(a: Cursor, b: Cursor)
    requires a.Encode() == b.Encode()
    ensures a == b
  {
    EncodedParts(a);
    EncodedParts(b);
    var p, q := Split(a.Encode(), '/'), Split(b.Encode(), '/');
    Untag(p, 0, "w:", Hyphenated(a.workspaceId));
    Untag(q, 0, "w:", Hyphenated(b.workspaceId));
    Untag(p, 1, "c:", a.collection.Name());
    Untag(q, 1, "c:", b.collection.Name());
    Untag(p, 2, "r:", Hyphenated(a.anchorId));
    Untag(q, 2, "r:", Hyphenated(b.anchorId));
    NamesParse(a.collection);
    NamesParse(b.collection);
    PrintedInjective(a.workspaceId, b.workspaceId);
    PrintedInjective(a.anchorId, b.anchorId);
  }

  /** A parsed cursor passes for a workspace and collection exactly when its text names both. */
  lemma ValidatedBelongs(value: string, c: Cursor, workspace: Uuid, collection: Collection)
    requires Parse(value) == Ok(c)
    ensures c.Validate(workspace, collection).Ok? <==> exists anchor :: value == Cursor(workspace, collection, anchor).Encode()
  {
    ParseInvertsEncode(value, c);
    if c.Validate(workspace, collection).Ok? {
      assert value == Cursor(workspace, collection, c.anchorId).Encode();
    }
    forall anchor | value == Cursor(workspace, collection, anchor).Encode()
      ensures c == Cursor(workspace, collection, anchor)
    {
      EncodeInjective(c, Cursor(workspace, collection, anchor));
    }
  }
}
