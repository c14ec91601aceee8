/** What the steps of a run do to a path, by their labels and the state before: when the
    two membership bits move, when the text goes, and what an edit carries to the client. */
module StoreEffects {
  import opened Coordinates
  import opened Syntax
  import opened WorkspaceScan
  import opened DocumentStore
  import opened StoreProtocol

  /** The step installs a reservation of the path whose revision is still current. */
  ghost predicate Installs<I(!new)>(s: System<I>, l: Label<I>, path: Path) {
    && l.InstallTask? && l.task in s.tasks && (l.task.purpose.Edit? || l.task.purpose.checked)
    && l.task.snapshot.path == path && l.task.snapshot.revision == At(s.views, path).revision
  }

  /** The step deletes the file, or the last folder that holds it as an indexed file. */
  ghost predicate Deletes<I(!new)>(s: System<I>, l: Label<I>, path: Path) {
    match l
    case DeleteFile(p) => p == path
    case DeleteFolder(root) =>
      At(s.views, path).workspace && forall other :: other in s.roots && other != root ==> !Inside(other, path)
    case _ => false
  }

  /** The workspace bit moves with a read from disk that is installed, a failed one of a
      file that is not open, and a deletion. No edit and no close moves it. */
  ghost predicate MovesWorkspace<I(!new)>(s: System<I>, l: Label<I>, path: Path) {
    var v := At(s.views, path);
    || (Installs(s, l, path) && l.task.purpose.Disk? && !v.workspace)
    || (l == FailRestore(path) && !v.open && v.workspace)
    || (Deletes(s, l, path) && v.workspace)
  }

  /** The open bit moves with an installed edit that marks the path, and with the close of
      an indexed file. No read from disk and no deletion moves it. */
  ghost predicate MovesOpen<I(!new)>(s: System<I>, l: Label<I>, path: Path) {
    var v := At(s.views, path);
    || (Installs(s, l, path) && l.task.purpose == Edit(MarkOpen) && !v.open)
    || (l == CloseDocument(path) && v.open && v.workspace)
  }

  /** The document goes with the close of a file that is not indexed, and with a failed
      read or a deletion of one that is not open. */
  ghost predicate DropsText<I(!new)>(s: System<I>, l: Label<I>, path: Path) {
    var v := At(s.views, path);
    || (l == CloseDocument(path) && !v.workspace)
    || (l == FailRestore(path) && !v.open)
    || (Deletes(s, l, path) && !v.open)
  }

  /** The same document, content and parse, but for the revision and the bits. */
  ghost predicate SameText<I(!new)>(v: View<I>, v': View<I>) {
    && v'.content == v.content && v'.parse == v.parse && (v'.doc.Some? <==> v.doc.Some?)
    && (v.doc.Some? ==>
          var d, d' := v.doc.value, v'.doc.value;
          && d'.path == d.path && d'.text == d.text && d'.version == d.version
          && d'.statements == d.statements && d'.indexes == d.indexes)
  }

  /** What one step after any run does to a path. */
  ghost predicate Effect<I(!new)>(s: System<I>, l: Label<I>, path: Path, v: View<I>, v': View<I>) {
    && (v'.workspace != v.workspace <==> MovesWorkspace(s, l, path))
    && (v'.open != v.open <==> MovesOpen(s, l, path))
    && (Installs(s, l, path) ==>
          var d := l.task.snapshot; v'.doc == Some(d) && v'.content == Some(d.text) && v'.parse == Some(d.statements))
    && (DropsText(s, l, path) ==> v'.doc.None? && v'.content.None? && v'.parse.None?)
    && (!Installs(s, l, path) && !DropsText(s, l, path) ==> SameText(v, v'))
  }

  lemma StepEffect<I(!new)>(parser: Parser<I>, run: seq<Label<I>>, l: Label<I>, path: Path)
    ensures var s := Exec(parser, run);
            Effect(s, l, path, At(s.views, path), At(Next(parser, s, l).views, path))
  {
    var s := Exec(parser, run);
    StoreInvariant(parser, run);
    assert Coherent(parser, path, At(s.views, path));
    hide Exec;
    if l.InstallTask? {
      if l.task in s.tasks { assert Undisturbed(parser, At(s.views, l.task.snapshot.path), l.task); }
      InstallEffect(parser, s, l, path);
    } else if l.DeleteFolder? {
      FolderEffect(parser, s, l, path);
    } else if l.DeleteFile? || l.CloseDocument? || l.FailRestore? {
      RemovalEffect(parser, s, l, path);
    } else {
      OtherEffect(parser, s, l, path);
    }
  }

  lemma InstallEffect<I(!new)>(parser: Parser<I>, s: System<I>, l: Label<I>, path: Path)
    requires l.InstallTask? && Coherent(parser, path, At(s.views, path))
    requires l.task in s.tasks ==> Undisturbed(parser, At(s.views, l.task.snapshot.path), l.task)
    ensures Effect(s, l, path, At(s.views, path), At(Next(parser, s, l).views, path))
  {
    if l.task in s.tasks {
      GuardNeverRejects(parser, At(s.views, l.task.snapshot.path), l.task);
      DocumentOriginIs(parser, l.task.snapshot.path, l.task.seen);
    }
    hide ParseSnapshot;
  }

  lemma FolderEffect<I(!new)>(parser: Parser<I>, s: System<I>, l: Label<I>, path: Path)
    requires l.DeleteFolder? && Coherent(parser, path, At(s.views, path))
    ensures Effect(s, l, path, At(s.views, path), At(Next(parser, s, l).views, path))
  {
    hide ParseSnapshot, Inside;
    assert InWorkspace(path, s.roots - {l.root}) <==>
      exists other :: other in s.roots && other != l.root && Inside(other, path);
  }

  lemma RemovalEffect<I(!new)>(parser: Parser<I>, s: System<I>, l: Label<I>, path: Path)
    requires l.DeleteFile? || l.CloseDocument? || l.FailRestore?
    requires Coherent(parser, path, At(s.views, path))
    ensures Effect(s, l, path, At(s.views, path), At(Next(parser, s, l).views, path))
  {
    hide ParseSnapshot;
  }

  lemma OtherEffect<I(!new)>(parser: Parser<I>, s: System<I>, l: Label<I>, path: Path)
    requires !l.InstallTask? && !l.DeleteFolder? && !l.DeleteFile? && !l.CloseDocument? && !l.FailRestore?
    ensures Effect(s, l, path, At(s.views, path), At(Next(parser, s, l).views, path))
  {
    hide ParseSnapshot;
  }

  /** An edit never changes whether a file is indexed; an installed didOpen or didChange
      leaves the path open, an installed didSave as it was. */
  lemma EditEffect<I(!new)>(parser: Parser<I>, run: seq<Label<I>>, l: Label<I>, path: Path)
    requires Installs(Exec(parser, run), l, path) && l.task.purpose.Edit?
    ensures var v, v' := At(Exec(parser, run).views, path), At(Exec(parser, run + [l]).views, path);
            && v'.workspace == v.workspace
            && v'.open == (v.open || l.task.purpose.change.MarkOpen?)
            && v'.content == Some(l.task.snapshot.text)
  {
    StepEffect(parser, run, l, path);
    assert (run + [l])[..|run|] == run;
    hide Next;
  }

  // ----- What a document is -----

  /** In every state of every run a document is what the parser and the extractors make of
      its text, and carries the bits of its path. */
  lemma DocumentsAreParsed<I(!new)>(parser: Parser<I>, run: seq<Label<I>>, path: Path)
    requires At(Exec(parser, run).views, path).doc.Some?
    ensures var v := At(Exec(parser, run).views, path);
            var d := v.doc.value;
            && d.path == path && v.content == Some(d.text)
            && d.statements == parser.parse(path, d.text) && v.parse == Some(d.statements)
            && d.indexes == parser.extract(d.text, d.statements)
            && d.origin.open == v.open && d.origin.workspace == v.workspace
  {
    StoreInvariant(parser, run);
    assert Coherent(parser, path, At(Exec(parser, run).views, path));
  }

  /** An edit puts one reservation in flight, with its text and version under the next
      revision of the path; so does a read from disk of a path that is not open. */
  lemma ReservationIs<I(!new)>(parser: Parser<I>, s: System<I>, l: Label<I>)
    requires l.ReserveEdit? || (l.ReserveDisk? && !At(s.views, l.path).open)
    ensures exists t :: Next(parser, s, l).tasks == s.tasks + {t} &&
              var d := t.snapshot;
              && d.path == l.path && d.text == l.text && d.revision == At(s.views, l.path).revision + 1
              && d.statements == parser.parse(l.path, l.text) && d.indexes == parser.extract(l.text, d.statements)
              && (if l.ReserveEdit? then t.purpose == Edit(l.change) && d.version == l.version
                  else t.purpose == Disk(false) && d.version == 0)
  {
    var v := At(s.views, l.path);
    var purpose := if l.ReserveEdit? then Edit(l.change) else Disk(false);
    var origin := if l.ReserveEdit? then Change(DocumentOrigin(v), l.change) else Origin(false, true);
    var version := if l.ReserveEdit? then l.version else 0;
    var t := Task(ParseSnapshot(parser, l.path, l.text, version, v.revision + 1, origin), purpose, Reserve(v));
    assert Next(parser, s, l).tasks == s.tasks + {t};
  }

  // ----- What reaches the client -----

  lemma ExecNext<I(!new)>(parser: Parser<I>, run: seq<Label<I>>, l: Label<I>)
    ensures Exec(parser, run + [l]) == Next(parser, Exec(parser, run), l)
  {
    assert (run + [l])[..|run|] == run;
  }

  /** An installed edit that nothing overtakes is published: its diagnostics are the next
      message, where no other one is being sent. */
  lemma EditIsPublished<I(!new)>(parser: Parser<I>, run: seq<Label<I>>, t: Task<I>)
    requires Installs(Exec(parser, run), InstallTask(t), t.snapshot.path) && t.purpose.Edit?
    requires Exec(parser, run).sending.None?
    ensures var run' := run + [InstallTask(t)] + [CheckPublication(t.snapshot)] + [Send(true)];
            Exec(parser, run').log == Exec(parser, run).log + [Published(t.snapshot)]
  {
    StepEffect(parser, run, InstallTask(t), t.snapshot.path);
    InstallSucceedsIff(parser, run, t);
    hide Exec, Effect, Installable, Install;
    var run1 := run + [InstallTask(t)];
    var run2 := run1 + [CheckPublication(t.snapshot)];
    ExecNext(parser, run, InstallTask(t));
    assert Effect(Exec(parser, run), InstallTask(t), t.snapshot.path, At(Exec(parser, run).views, t.snapshot.path),
      At(Exec(parser, run1).views, t.snapshot.path));
    InstalledIsDocument(Exec(parser, run), InstallTask(t), t.snapshot.path,
        At(Exec(parser, run).views, t.snapshot.path),
      At(Exec(parser, run1).views, t.snapshot.path));
    ExecNext(parser, run1, CheckPublication(t.snapshot));
    ExecNext(parser, run2, Send(true));
  }

  lemma InstalledIsDocument<I(!new)>(s: System<I>, l: Label<I>, path: Path, v: View<I>, v': View<I>)
    requires Effect(s, l, path, v, v') && Installs(s, l, path)
    ensures v'.doc == Some(l.task.snapshot)
  {}

  /** A close clears the diagnostics of its path, under the revision it took. */
  lemma CloseIsCleared<I(!new)>(parser: Parser<I>, run: seq<Label<I>>, path: Path)
    requires Exec(parser, run).sending.None?
    ensures var run1 := run + [CloseDocument(path)];
            var revision := At(Exec(parser, run1).views, path).revision;
            Exec(parser, run1 + [ClearDiagnostics(Closing(path, revision), true)]).log ==
            Exec(parser, run).log + [Cleared(path, revision)]
  {
    var run1 := run + [CloseDocument(path)];
    var revision := At(Exec(parser, run1).views, path).revision;
    hide Exec, Close;
    ExecNext(parser, run, CloseDocument(path));
    ExecNext(parser, run1, ClearDiagnostics(Closing(path, revision), true));
  }
}
