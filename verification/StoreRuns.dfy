/** Which steps between a reservation and its install make the install fail, and a
    run in which they lose what the editor sent. */
module StoreRuns {
  import opened Coordinates
  import opened Syntax
  import opened WorkspaceScan
  import opened DocumentStore
  import opened StoreProtocol

  /** The step takes a new revision of the path: every edit, close and deletion of the
      file; a read from disk or its failure while the file is not open; and the removal
      of the last folder that holds an indexed file. Rechecks, installs and
      publications take none. */
  ghost predicate Disturbs<I(!new)>(s: System<I>, l: Label<I>, path: Path) {
    match l
    case ReserveEdit(p, _, _, _) => p == path
    case ReserveDisk(p, _) => p == path && !At(s.views, path).open
    case CloseDocument(p) => p == path
    case FailRestore(p) => p == path && !At(s.views, path).open
    case DeleteFile(p) => p == path
    case DeleteFolder(root) => At(s.views, path).workspace && !InWorkspace(path, s.roots - {root})
    case Recheck(_) | InstallTask(_) | AddFolder(_) => false
    case CheckPublication(_) | Send(_) | ClearDiagnostics(_, _) => false
  }

  lemma RevisionMovesIff<I(!new)>(parser: Parser<I>, s: System<I>, l: Label<I>, path: Path)
    ensures var r, r' := At(s.views, path).revision, At(Next(parser, s, l).views, path).revision;
            r <= r' && (r < r' <==> Disturbs(s, l, path))
  {
    if l.DeleteFolder? || l.DeleteFile? || l.CloseDocument? || l.FailRestore? {
      RemovalMovesIff(parser, s, l, path);
    }
  }

  lemma RemovalMovesIff<I(!new)>(parser: Parser<I>, s: System<I>, l: Label<I>, path: Path)
    requires l.DeleteFolder? || l.DeleteFile? || l.CloseDocument? || l.FailRestore?
    ensures var r, r' := At(s.views, path).revision, At(Next(parser, s, l).views, path).revision;
            r <= r' && (r < r' <==> Disturbs(s, l, path))
  {
  }

  /** No step of `more`, taken after the run, disturbs the path. */
  ghost predicate Quiet<I(!new)>(parser: Parser<I>, run: seq<Label<I>>, more: seq<Label<I>>, path: Path) {
    forall k :: 0 <= k < |more| ==> !Disturbs(Exec(parser, run + more[..k]), more[k], path)
  }

  lemma QuietStep<I(!new)>(parser: Parser<I>, run: seq<Label<I>>, more: seq<Label<I>>, path: Path)
    requires more != []
    ensures var init, l := more[..|more| - 1], more[|more| - 1];
            Quiet(parser, run, more, path) <==>
            Quiet(parser, run, init, path) && !Disturbs(Exec(parser, run + init), l, path)
  {
    hide Exec, Disturbs;
    var init := more[..|more| - 1];
    assert forall k :: 0 <= k < |init| ==> init[..k] == more[..k] && init[k] == more[k];
  }

  lemma {:induction false} QuietKeepsRevision<I(!new)>(
      parser: Parser<I>, run: seq<Label<I>>, more: seq<Label<I>>, path: Path)
    ensures var r, r' := At(Exec(parser, run).views, path).revision, At(Exec(parser, run + more).views, path).revision;
            r <= r' && (r == r' <==> Quiet(parser, run, more, path))
  {
    hide Next, Disturbs;
    if more == [] {
      assert run + more == run;
    } else {
      var init, l := more[..|more| - 1], more[|more| - 1];
      assert (run + more)[..|run + more| - 1] == run + init;
      QuietKeepsRevision(parser, run, init, path);
      RevisionMovesIff(parser, Exec(parser, run + init), l, path);
      QuietStep(parser, run, more, path);
    }
  }

  /** A reservation whose revision is current fails to install exactly when a step in
      between disturbs its path. */
  lemma InstallFailsIff<I(!new)>(
      parser: Parser<I>, run: seq<Label<I>>, more: seq<Label<I>>, t: Task<I>)
    requires t in Exec(parser, run + more).tasks
    requires At(Exec(parser, run).views, t.snapshot.path).revision == t.snapshot.revision
    ensures Installable(At(Exec(parser, run + more).views, t.snapshot.path), t.snapshot) <==>
            Quiet(parser, run, more, t.snapshot.path)
  {
    hide Exec, Quiet;
    InstallSucceedsIff(parser, run + more, t);
    QuietKeepsRevision(parser, run, more, t.snapshot.path);
  }

  // ----- An edit that is lost -----

  /** The reservation of the first edit of a path, and of the first read from disk after it. */
  ghost function EditTask<I(!new)>(parser: Parser<I>, path: Path, text: string, version: int): Task<I> {
    Task(ParseSnapshot(parser, path, text, version, 1, Origin(true, false)), Edit(MarkOpen), Reserve(Blank()))
  }

  ghost function DiskTask<I(!new)>(parser: Parser<I>, path: Path, disk: string, checked: bool): Task<I> {
    Task(ParseSnapshot(parser, path, disk, 0, 2, Origin(false, true)), Disk(checked), Reserve(Reserve(Blank())))
  }

  /** The editor opens a file while the indexer reads it from disk: the install of the
      edit comes after the indexer's reservation. */
  ghost function LostEdit<I(!new)>(parser: Parser<I>, path: Path, text: string, version: int,
                                   disk: string): seq<Label<I>> {
    [ReserveEdit(path, text, version, MarkOpen), ReserveDisk(path, disk),
     InstallTask(EditTask(parser, path, text, version)), Recheck(DiskTask(parser, path, disk, false)),
     InstallTask(DiskTask(parser, path, disk, true))]
  }

  lemma ExecStep<I(!new)>(parser: Parser<I>, run: seq<Label<I>>, k: nat)
    requires k < |run|
    ensures Exec(parser, run[..k + 1]) == Next(parser, Exec(parser, run[..k]), run[k])
  {
    assert run[..k + 1][..k] == run[..k];
  }

  /** Both reservations. */
  lemma LostEditReserves<I(!new)>(parser: Parser<I>, path: Path, text: string, version: int, disk: string)
    ensures var s := Exec(parser, LostEdit(parser, path, text, version, disk)[..2]);
            && At(s.views, path) == Reserve(Reserve(Blank()))
            && s.tasks == {EditTask(parser, path, text, version), DiskTask(parser, path, disk, false)}
  {
    var run := LostEdit(parser, path, text, version, disk);
    hide Exec;
    assert Exec(parser, run[..0]) == Initial() by { ExecNone(parser, run); }
    ExecStep(parser, run, 0);
    var s1 := Exec(parser, run[..1]);
    assert At(s1.views, path) == Reserve(Blank()) && s1.tasks == {EditTask(parser, path, text, version)};
    ExecStep(parser, run, 1);
  }

  lemma ExecNone<I(!new)>(parser: Parser<I>, run: seq<Label<I>>)
    ensures Exec(parser, run[..0]) == Initial()
  {}

  /** What the editor sent need not arrive: the run ends with the text from disk, the
      path not open, and no reservation left. */
  lemma NewestTextCanBeLost<I(!new)>(parser: Parser<I>, path: Path, text: string, version: int, disk: string)
    ensures var s := Exec(parser, LostEdit(parser, path, text, version, disk));
            var v := At(s.views, path);
            v.content == Some(disk) && !v.open && v.workspace && s.tasks == {}
  {
    var run := LostEdit(parser, path, text, version, disk);
    LostEditReserves(parser, path, text, version, disk);
    hide Exec;
    var s2 := Exec(parser, run[..2]);
    ExecStep(parser, run, 2);
    var s3 := Exec(parser, run[..3]);
    assert s3 == s2.(tasks := s2.tasks - {EditTask(parser, path, text, version)});
    assert s3.tasks == {DiskTask(parser, path, disk, false)};
    ExecStep(parser, run, 3);
    var s4 := Exec(parser, run[..4]);
    assert s4.tasks == {DiskTask(parser, path, disk, true)} && s4.views == s3.views;
    ExecStep(parser, run, 4);
    assert run[..5] == run;
  }
}
