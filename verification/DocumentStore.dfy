/** The document store: what each critical section does to the maps of the
    handler, path by path. */
module DocumentStore {
  import opened Coordinates
  import opened Syntax
  import opened WorkspaceScan

  /** The origin bit set. */
  datatype Origin = Origin(open: bool, workspace: bool)

  /** What an editor event does to the origin: didOpen and didChange set the
      open bit, didSave keeps it. */
  datatype OriginChange = MarkOpen | Keep

  function Change(origin: Origin, change: OriginChange): Origin {
    if change.MarkOpen? then origin.(open := true) else origin
  }

  datatype Snapshot<I> = Snapshot(
    path: Path, text: string, statements: seq<Node>, indexes: I, version: int, revision: nat, origin: Origin)

  /** The parser and the extractors, as functions of their inputs. */
  datatype Parser<!I> = Parser(parse: (Path, string) -> seq<Node>, extract: (string, seq<Node>) -> I)

  function ParseSnapshot<I>(parser: Parser<I>, path: Path, text: string, version: int, revision: nat,
                            origin: Origin): Snapshot<I> {
    var statements := parser.parse(path, text);
    Snapshot(path, text, statements, parser.extract(text, statements), version, revision, origin)
  }

  // ----- One path of the store -----

  /** Everything the maps hold about one path. */
  datatype View<I> = View(
    doc: Option<Snapshot<I>>, content: Option<string>, parse: Option<seq<Node>>, open: bool, workspace: bool,
      revision: nat)

  function Blank<I>(): View<I> {
    View(None, None, None, false, false, 0)
  }

  function DocumentOrigin<I>(v: View<I>): Origin {
    var base := if v.doc.Some? then v.doc.value.origin else Origin(false, false);
    Origin(base.open || v.open, base.workspace || v.workspace)
  }

  function Reserve<I>(v: View<I>): View<I> {
    v.(revision := v.revision + 1)
  }

  /** An install is refused when the revision moved on, or when a snapshot that
      only the workspace vouches for meets an open document. */
  predicate Installable<I>(v: View<I>, s: Snapshot<I>) {
    v.revision == s.revision && !(s.origin.workspace && !s.origin.open && v.open)
  }

  function Install<I>(v: View<I>, s: Snapshot<I>): View<I> {
    View(Some(s), Some(s.text), Some(s.statements), s.origin.open, s.origin.workspace, v.revision)
  }

  function Forget<I>(v: View<I>): View<I> {
    View(None, None, None, v.open, v.workspace, v.revision + 1)
  }

  function SetOrigin<I>(v: View<I>, origin: Origin): View<I> {
    var doc := if v.doc.Some? then Some(v.doc.value.(origin := origin, revision := v.revision + 1)) else None;
    View(doc, v.content, v.parse, origin.open, origin.workspace, v.revision + 1)
  }

  /** didClose: an indexed file loses its open bit, any other is forgotten. */
  function Close<I>(v: View<I>): View<I> {
    var origin := DocumentOrigin(v).(open := false);
    if origin.workspace then SetOrigin(v, origin) else Forget(v)
  }

  /** A closed workspace file that can no longer be read. */
  function RestoreFailed<I>(v: View<I>): View<I> {
    if v.open then v else Forget(v.(workspace := false))
  }

  /** A deleted workspace file. */
  function RemoveFile<I>(v: View<I>): View<I> {
    var unindexed := v.(workspace := false);
    if v.open then SetOrigin(unindexed, DocumentOrigin(unindexed).(workspace := false)) else Forget(unindexed)
  }

  /** A path lies in the workspace when some root is a prefix of it. */
  predicate InWorkspace(path: Path, roots: set<Path>) {
    exists root :: root in roots && Inside(root, path)
  }

  function RemoveFolder<I>(v: View<I>, path: Path, roots: set<Path>): View<I> {
    if v.workspace && !InWorkspace(path, roots) then RemoveFile(v) else v
  }

  // ----- The handler -----

  class Handler<I(!new)> {
    const parser: Parser<I>
    var documents: map<Path, Snapshot<I>>
    var documentRevisions: map<Path, nat>
    var fileToContentMap: map<Path, string>
    var parsedMap: map<Path, seq<Node>>
    var openDocumentMap: set<Path>
    var workspaceFileMap: set<Path>
    var workspaceRootMap: set<Path>

    constructor (parser: Parser<I>)
      ensures this.parser == parser && workspaceRootMap == {}
      ensures forall p :: ViewOf(p) == Blank()
    {
      this.parser := parser;
      documents, documentRevisions, fileToContentMap, parsedMap := map[], map[], map[], map[];
      openDocumentMap, workspaceFileMap, workspaceRootMap := {}, {}, {};
    }

    function Revision(path: Path): nat
      reads this
    {
      if path in documentRevisions then documentRevisions[path] else 0
    }

    function ViewOf(path: Path): View<I>
      reads this
    {
      View(if path in documents then Some(documents[path]) else None,
           if path in fileToContentMap then Some(fileToContentMap[path]) else None,
           if path in parsedMap then Some(parsedMap[path]) else None,
           path in openDocumentMap, path in workspaceFileMap, Revision(path))
    }

    twostate predicate OnlyChanges(path: Path)
      reads this
    {
      workspaceRootMap == old(workspaceRootMap) && forall q :: q != path ==> ViewOf(q) == old(ViewOf(q))
    }

    method DocumentOriginLocked(path: Path) returns (origin: Origin)
      ensures origin == DocumentOrigin(ViewOf(path))
    {
      origin := Origin(false, false);
      if path in documents {
        origin := documents[path].origin;
      }
      if path in openDocumentMap {
        origin := origin.(open := true);
      }
      if path in workspaceFileMap {
        origin := origin.(workspace := true);
      }
    }

    method ReserveDocumentUpdate(path: Path, change: OriginChange) returns (revision: nat, origin: Origin)
      modifies this
      ensures OnlyChanges(path) && ViewOf(path) == Reserve(old(ViewOf(path)))
      ensures revision == ViewOf(path).revision && origin == Change(DocumentOrigin(old(ViewOf(path))), change)
    {
      documentRevisions := documentRevisions[path := Revision(path) + 1];
      revision := documentRevisions[path];
      origin := DocumentOriginLocked(path);
      origin := Change(origin, change);
    }

    method SetMembership(path: Path, origin: Origin)
      modifies `openDocumentMap, `workspaceFileMap
      ensures openDocumentMap == if origin.open then old(openDocumentMap) + {path} else old(openDocumentMap) - {path}
      ensures workspaceFileMap == if origin.workspace then old(workspaceFileMap) + {path}
              else old(workspaceFileMap) - {path}
    {
      if origin.open {
        openDocumentMap := openDocumentMap + {path};
      } else {
        openDocumentMap := openDocumentMap - {path};
      }
      if origin.workspace {
        workspaceFileMap := workspaceFileMap + {path};
      } else {
        workspaceFileMap := workspaceFileMap - {path};
      }
    }

    method InstallDocumentSnapshot(snapshot: Snapshot<I>) returns (ok: bool)
      modifies this
      ensures OnlyChanges(snapshot.path) && ok == Installable(old(ViewOf(snapshot.path)), snapshot)
      ensures ViewOf(snapshot.path) == if ok then Install(old(ViewOf(snapshot.path)), snapshot)
              else old(ViewOf(snapshot.path))
    {
      var path := snapshot.path;
      if Revision(path) != snapshot.revision {
        return false;
      }
      if snapshot.origin.workspace && !snapshot.origin.open && path in openDocumentMap {
        return false;
      }
      documents := documents[path := snapshot];
      fileToContentMap := fileToContentMap[path := snapshot.text];
      parsedMap := parsedMap[path := snapshot.statements];
      SetMembership(path, snapshot.origin);
      return true;
    }

    method ForgetDocumentLocked(path: Path)
      modifies this
      ensures OnlyChanges(path) && ViewOf(path) == Forget(old(ViewOf(path)))
    {
      documentRevisions := documentRevisions[path := Revision(path) + 1];
      documents := documents - {path};
      fileToContentMap := fileToContentMap - {path};
      parsedMap := parsedMap - {path};
    }

    method SetDocumentOriginLocked(path: Path, origin: Origin)
      modifies this
      ensures OnlyChanges(path) && ViewOf(path) == SetOrigin(old(ViewOf(path)), origin)
    {
      documentRevisions := documentRevisions[path := Revision(path) + 1];
      if path in documents {
        documents := documents[path := documents[path].(origin := origin, revision := documentRevisions[path])];
      }
      SetMembership(path, origin);
    }

    method DidClose(path: Path) returns (indexed: bool)
      modifies this
      ensures OnlyChanges(path) && ViewOf(path) == Close(old(ViewOf(path)))
      ensures indexed == DocumentOrigin(old(ViewOf(path))).workspace
    {
      var origin := DocumentOriginLocked(path);
      origin := origin.(open := false);
      indexed := origin.workspace;
      if !indexed {
        ForgetDocumentLocked(path);
      } else {
        SetDocumentOriginLocked(path, origin);
      }
    }

    method RestoreWorkspaceFileFailed(path: Path)
      modifies this
      ensures OnlyChanges(path) && ViewOf(path) == RestoreFailed(old(ViewOf(path)))
    {
      if path !in openDocumentMap {
        workspaceFileMap := workspaceFileMap - {path};
        ForgetDocumentLocked(path);
      }
    }

    /** The first critical section of storing a file read from disk. */
    method StoreWorkspaceReserve(path: Path) returns (reserved: bool, revision: nat)
      modifies this
      ensures OnlyChanges(path) && reserved == !old(ViewOf(path)).open
      ensures ViewOf(path) == if reserved then Reserve(old(ViewOf(path))) else old(ViewOf(path))
      ensures reserved ==> revision == ViewOf(path).revision
    {
      reserved, revision := false, 0;
      if path !in openDocumentMap {
        documentRevisions := documentRevisions[path := Revision(path) + 1];
        reserved, revision := true, documentRevisions[path];
      }
    }

    /** The second one, after parsing, before the install. */
    method StoreWorkspaceRecheck(path: Path, revision: nat) returns (proceed: bool)
      ensures proceed == (ViewOf(path).revision == revision && !ViewOf(path).open)
    {
      return Revision(path) == revision && path !in openDocumentMap;
    }

    method RemoveWorkspaceFile(path: Path)
      modifies this
      ensures OnlyChanges(path) && ViewOf(path) == RemoveFile(old(ViewOf(path)))
    {
      workspaceFileMap := workspaceFileMap - {path};
      if path in openDocumentMap {
        var origin := DocumentOriginLocked(path);
        SetDocumentOriginLocked(path, origin.(workspace := false));
      } else {
        ForgetDocumentLocked(path);
      }
    }

    method AddWorkspaceRoot(root: Path)
      modifies `workspaceRootMap
      ensures workspaceRootMap == old(workspaceRootMap) + {root}
    {
      workspaceRootMap := workspaceRootMap + {root};
    }

    method PathInWorkspaceLocked(path: Path) returns (inside: bool)
      ensures inside == InWorkspace(path, workspaceRootMap)
    {
      var roots := workspaceRootMap;
      inside := false;
      while roots != {} && !inside
        invariant roots <= workspaceRootMap
        invariant inside ==> InWorkspace(path, workspaceRootMap)
        invariant !inside ==> forall root :: root in workspaceRootMap && root !in roots ==> !(Inside(root, path))
        decreases roots, !inside
      {
        var root :| root in roots;
        roots := roots - {root};
        inside := Inside(root, path);
      }
    }

    /** The workspace files are visited in any order. */
    method RemoveWorkspaceFolder(root: Path)
      modifies this
      ensures workspaceRootMap == old(workspaceRootMap) - {root}
      ensures forall p :: ViewOf(p) == RemoveFolder(old(ViewOf(p)), p, workspaceRootMap)
    {
      workspaceRootMap := workspaceRootMap - {root};
      var paths := workspaceFileMap;
      while paths != {}
        invariant workspaceRootMap == old(workspaceRootMap) - {root}
        invariant paths <= old(workspaceFileMap)
        invariant forall p :: ViewOf(p) == if p in paths then old(ViewOf(p))
                  else RemoveFolder(old(ViewOf(p)), p, workspaceRootMap)
        decreases paths
      {
        var path :| path in paths;
        paths := paths - {path};
        var inside := PathInWorkspaceLocked(path);
        if !inside {
          RemoveWorkspaceFile(path);
        }
      }
    }
  }
}
